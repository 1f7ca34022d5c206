/** The eight messages of the migration's codec: their field tables, the fields each marshaller
    writes, the assignment each parser makes, and what merging two of them means. */
module Messages {
  import opened Wrappers
  import opened Varint
  import opened Wire

  type int32 = x: int | -0x8000_0000 <= x < 0x8000_0000

  datatype State = State(key: bytes, value: bytes)

  datatype AccessTuple = AccessTuple(address: bytes, storageKeys: seq<bytes>)

  datatype AccessControlType = AccessControlType(accessType: int32, accessControlList: seq<bytes>)

  datatype AccessControl = AccessControl(create: AccessControlType, call: AccessControlType)

  datatype Log = Log(
    address: bytes, topics: seq<bytes>, data: bytes, blockNumber: uint64, txHash: bytes,
    txIndex: uint64, blockHash: bytes, index: uint64, removed: bool)

  datatype TransactionLogs = TransactionLogs(hash: bytes, logs: seq<Log>)

  datatype TxResult = TxResult(
    contractAddress: bytes, bloom: bytes, txLogs: TransactionLogs, ret: bytes, reverted: bool, gasUsed: uint64)

  datatype Params<C> = Params(
    evmDenom: bytes, extraEIPs: seq<bytes>, chainConfig: C, allowUnprotectedTxs: bool,
    evmChannels: seq<bytes>, accessControl: AccessControl, activeStaticPrecompiles: seq<bytes>)

  /** The chain configuration's own codec, whose fields belong to a foreign integer type: what it
      writes, what its parser does to an existing value, and the merge that parser performs. */
  datatype ChainCodec<!C> = ChainCodec(
    empty: C, encode: C -> bytes, parse: (C, bytes) -> Result<C, Error>, merge: (C, C) -> C)

  /** The foreign codec parses what it writes, and merging into its zero value changes nothing. */
  ghost predicate Lawful<C(!new)>(cc: ChainCodec<C>) {
    && (forall a, b :: |cc.encode(b)| < TWO63 ==> cc.parse(a, cc.encode(b)) == Ok(cc.merge(a, b)))
    && (forall b :: cc.merge(cc.empty, b) == b)
  }

  // ----- zero values

  const ZERO_STATE := State([], [])
  const ZERO_ACCESS_TUPLE := AccessTuple([], [])
  const ZERO_ACCESS_CONTROL_TYPE := AccessControlType(0, [])
  const ZERO_ACCESS_CONTROL := AccessControl(ZERO_ACCESS_CONTROL_TYPE, ZERO_ACCESS_CONTROL_TYPE)
  const ZERO_LOG := Log([], [], [], 0, [], 0, [], 0, false)
  const ZERO_TRANSACTION_LOGS := TransactionLogs([], [])
  const ZERO_TX_RESULT := TxResult([], [], ZERO_TRANSACTION_LOGS, [], false, 0)

  function ZeroParams<C>(cc: ChainCodec<C>): Params<C> {
    Params([], [], cc.empty, false, [], ZERO_ACCESS_CONTROL, [])
  }

  // ----- the fields a marshaller writes

  function OptBytes(num: nat, bs: bytes): seq<Field> {
    if bs == [] then [] else [BytesField(num, bs)]
  }

  function OptVarint(num: nat, v: uint64): seq<Field> {
    if v == 0 then [] else [VarintField(num, v)]
  }

  function OptBool(num: nat, b: bool): seq<Field> {
    if b then [VarintField(num, 1)] else []
  }

  /** One record per element, empty ones included. */
  function Repeated<T>(num: nat, encode: T -> bytes, xs: seq<T>): seq<Field> {
    if xs == [] then [] else [BytesField(num, encode(xs[0]))] + Repeated(num, encode, xs[1..])
  }

  lemma {:induction false} RepeatedMember<T>(num: nat, encode: T -> bytes, xs: seq<T>, x: T)
    requires x in xs
    ensures BytesField(num, encode(x)) in Repeated(num, encode, xs)
    decreases |xs|
  {
    if x != xs[0] {
      RepeatedMember(num, encode, xs[1..], x);
    }
  }

  function Same(bs: bytes): bytes { bs }

  /** `uint64(x)` of a signed 32-bit value. */
  function SignExtend(x: int32): uint64 {
    if x >= 0 then x else x + TWO64
  }

  function StateFields(m: State): seq<Field> {
    OptBytes(1, m.key) + OptBytes(2, m.value)
  }

  function EncState(m: State): bytes { EncFields(StateFields(m)) }

  function AccessTupleFields(m: AccessTuple): seq<Field> {
    OptBytes(1, m.address) + Repeated(2, Same, m.storageKeys)
  }

  function EncAccessTuple(m: AccessTuple): bytes { EncFields(AccessTupleFields(m)) }

  function AccessControlTypeFields(m: AccessControlType): seq<Field> {
    OptVarint(1, SignExtend(m.accessType)) + Repeated(2, Same, m.accessControlList)
  }

  function EncAccessControlType(m: AccessControlType): bytes { EncFields(AccessControlTypeFields(m)) }

  function AccessControlFields(m: AccessControl): seq<Field> {
    [BytesField(1, EncAccessControlType(m.create))] + [BytesField(2, EncAccessControlType(m.call))]
  }

  function EncAccessControl(m: AccessControl): bytes { EncFields(AccessControlFields(m)) }

  function LogFields(m: Log): seq<Field> {
    OptBytes(1, m.address) + (Repeated(2, Same, m.topics) + (OptBytes(3, m.data) +
    (OptVarint(4, m.blockNumber) + (OptBytes(5, m.txHash) + (OptVarint(6, m.txIndex) +
    (OptBytes(7, m.blockHash) + (OptVarint(8, m.index) + OptBool(9, m.removed))))))))
  }

  function EncLog(m: Log): bytes { EncFields(LogFields(m)) }

  function TransactionLogsFields(m: TransactionLogs): seq<Field> {
    OptBytes(1, m.hash) + Repeated(2, EncLog, m.logs)
  }

  function EncTransactionLogs(m: TransactionLogs): bytes { EncFields(TransactionLogsFields(m)) }

  function TxResultFields(m: TxResult): seq<Field> {
    OptBytes(1, m.contractAddress) + (OptBytes(2, m.bloom) + ([BytesField(3, EncTransactionLogs(m.txLogs))] +
    (OptBytes(4, m.ret) + (OptBool(5, m.reverted) + OptVarint(6, m.gasUsed)))))
  }

  function EncTxResult(m: TxResult): bytes { EncFields(TxResultFields(m)) }

  function ParamsFields<C>(cc: ChainCodec<C>, m: Params<C>): seq<Field> {
    OptBytes(1, m.evmDenom) + (Repeated(4, Same, m.extraEIPs) + ([BytesField(5, cc.encode(m.chainConfig))] +
    (OptBool(6, m.allowUnprotectedTxs) + (Repeated(8, Same, m.evmChannels) +
    ([BytesField(9, EncAccessControl(m.accessControl))] + Repeated(10, Same, m.activeStaticPrecompiles))))))
  }

  function EncParams<C>(cc: ChainCodec<C>, m: Params<C>): bytes { EncFields(ParamsFields(cc, m)) }

  // ----- field tables and the assignment made for a field read

  const TWO_BYTES_SCHEMA: Schema := map[1 := BytesKind, 2 := BytesKind]
  const ACCESS_CONTROL_TYPE_SCHEMA: Schema := map[1 := VarintKind, 2 := BytesKind]
  const LOG_SCHEMA: Schema :=
    map[1 := BytesKind, 2 := BytesKind, 3 := BytesKind, 4 := VarintKind, 5 := BytesKind,
        6 := VarintKind, 7 := BytesKind, 8 := VarintKind, 9 := VarintKind]
  const TX_RESULT_SCHEMA: Schema :=
    map[1 := BytesKind, 2 := BytesKind, 3 := BytesKind, 4 := BytesKind, 5 := VarintKind, 6 := VarintKind]
  const PARAMS_SCHEMA: Schema :=
    map[1 := BytesKind, 4 := BytesKind, 5 := BytesKind, 6 := VarintKind, 8 := BytesKind, 9 := BytesKind,
        10 := BytesKind]

  function ApplyState(m: State, f: Field): Result<State, Error> {
    match f
    case BytesField(1, bs) => Ok(m.(key := bs))
    case BytesField(2, bs) => Ok(m.(value := bs))
    case _ => Ok(m)
  }

  function ApplyAccessTuple(m: AccessTuple, f: Field): Result<AccessTuple, Error> {
    match f
    case BytesField(1, bs) => Ok(m.(address := bs))
    case BytesField(2, bs) => Ok(m.(storageKeys := m.storageKeys + [bs]))
    case _ => Ok(m)
  }

  function ApplyAccessControlType(m: AccessControlType, f: Field): Result<AccessControlType, Error> {
    match f
    case VarintField(1, v) => Ok(m.(accessType := Int32(v)))
    case BytesField(2, bs) => Ok(m.(accessControlList := m.accessControlList + [bs]))
    case _ => Ok(m)
  }

  function ApplyAccessControl(m: AccessControl, f: Field): Result<AccessControl, Error> {
    match f
    case BytesField(1, bs) => var s :- ParseAccessControlType(m.create, bs); Ok(m.(create := s))
    case BytesField(2, bs) => var s :- ParseAccessControlType(m.call, bs); Ok(m.(call := s))
    case _ => Ok(m)
  }

  function ApplyLog(m: Log, f: Field): Result<Log, Error> {
    match f
    case BytesField(1, bs) => Ok(m.(address := bs))
    case BytesField(2, bs) => Ok(m.(topics := m.topics + [bs]))
    case BytesField(3, bs) => Ok(m.(data := bs))
    case VarintField(4, v) => Ok(m.(blockNumber := v))
    case BytesField(5, bs) => Ok(m.(txHash := bs))
    case VarintField(6, v) => Ok(m.(txIndex := v))
    case BytesField(7, bs) => Ok(m.(blockHash := bs))
    case VarintField(8, v) => Ok(m.(index := v))
    case VarintField(9, v) => Ok(m.(removed := v != 0))
    case _ => Ok(m)
  }

  function ApplyTransactionLogs(m: TransactionLogs, f: Field): Result<TransactionLogs, Error> {
    match f
    case BytesField(1, bs) => Ok(m.(hash := bs))
    case BytesField(2, bs) => var l :- ParseLog(ZERO_LOG, bs); Ok(m.(logs := m.logs + [l]))
    case _ => Ok(m)
  }

  function ApplyTxResult(m: TxResult, f: Field): Result<TxResult, Error> {
    match f
    case BytesField(1, bs) => Ok(m.(contractAddress := bs))
    case BytesField(2, bs) => Ok(m.(bloom := bs))
    case BytesField(3, bs) => var s :- ParseTransactionLogs(m.txLogs, bs); Ok(m.(txLogs := s))
    case BytesField(4, bs) => Ok(m.(ret := bs))
    case VarintField(5, v) => Ok(m.(reverted := v != 0))
    case VarintField(6, v) => Ok(m.(gasUsed := v))
    case _ => Ok(m)
  }

  function ApplyParamsField<C>(cc: ChainCodec<C>, m: Params<C>, f: Field): Result<Params<C>, Error> {
    match f
    case BytesField(1, bs) => Ok(m.(evmDenom := bs))
    case BytesField(4, bs) => Ok(m.(extraEIPs := m.extraEIPs + [bs]))
    case BytesField(5, bs) => var s :- cc.parse(m.chainConfig, bs); Ok(m.(chainConfig := s))
    case VarintField(6, v) => Ok(m.(allowUnprotectedTxs := v != 0))
    case BytesField(8, bs) => Ok(m.(evmChannels := m.evmChannels + [bs]))
    case BytesField(9, bs) => var s :- ParseAccessControl(m.accessControl, bs); Ok(m.(accessControl := s))
    case BytesField(10, bs) => Ok(m.(activeStaticPrecompiles := m.activeStaticPrecompiles + [bs]))
    case _ => Ok(m)
  }

  function ApplyParams<C>(cc: ChainCodec<C>): (Params<C>, Field) -> Result<Params<C>, Error> {
    (m, f) => ApplyParamsField(cc, m, f)
  }

  function ParseState(m: State, d: bytes): Result<State, Error> {
    Parse(TWO_BYTES_SCHEMA, ApplyState, m, d, 0)
  }

  function ParseAccessTuple(m: AccessTuple, d: bytes): Result<AccessTuple, Error> {
    Parse(TWO_BYTES_SCHEMA, ApplyAccessTuple, m, d, 0)
  }

  function ParseAccessControlType(m: AccessControlType, d: bytes): Result<AccessControlType, Error> {
    Parse(ACCESS_CONTROL_TYPE_SCHEMA, ApplyAccessControlType, m, d, 0)
  }

  function ParseAccessControl(m: AccessControl, d: bytes): Result<AccessControl, Error> {
    Parse(TWO_BYTES_SCHEMA, ApplyAccessControl, m, d, 0)
  }

  function ParseLog(m: Log, d: bytes): Result<Log, Error> {
    Parse(LOG_SCHEMA, ApplyLog, m, d, 0)
  }

  function ParseTransactionLogs(m: TransactionLogs, d: bytes): Result<TransactionLogs, Error> {
    Parse(TWO_BYTES_SCHEMA, ApplyTransactionLogs, m, d, 0)
  }

  function ParseTxResult(m: TxResult, d: bytes): Result<TxResult, Error> {
    Parse(TX_RESULT_SCHEMA, ApplyTxResult, m, d, 0)
  }

  function ParseParams<C>(cc: ChainCodec<C>, m: Params<C>, d: bytes): Result<Params<C>, Error> {
    Parse(PARAMS_SCHEMA, ApplyParams(cc), m, d, 0)
  }

  // ----- merging: a scalar that is set wins, repeated fields are joined, sub-messages are merged

  function Last(a: bytes, b: bytes): bytes { if b == [] then a else b }

  function LastNumber(a: uint64, b: uint64): uint64 { if b == 0 then a else b }

  function MergeState(a: State, b: State): State {
    State(Last(a.key, b.key), Last(a.value, b.value))
  }

  function MergeAccessTuple(a: AccessTuple, b: AccessTuple): AccessTuple {
    AccessTuple(Last(a.address, b.address), a.storageKeys + b.storageKeys)
  }

  function MergeAccessControlType(a: AccessControlType, b: AccessControlType): AccessControlType {
    AccessControlType(
      if b.accessType == 0 then a.accessType else b.accessType,
      a.accessControlList + b.accessControlList)
  }

  function MergeAccessControl(a: AccessControl, b: AccessControl): AccessControl {
    AccessControl(MergeAccessControlType(a.create, b.create), MergeAccessControlType(a.call, b.call))
  }

  function MergeLog(a: Log, b: Log): Log {
    Log(Last(a.address, b.address), a.topics + b.topics, Last(a.data, b.data),
        LastNumber(a.blockNumber, b.blockNumber), Last(a.txHash, b.txHash), LastNumber(a.txIndex, b.txIndex),
        Last(a.blockHash, b.blockHash), LastNumber(a.index, b.index), a.removed || b.removed)
  }

  function MergeTransactionLogs(a: TransactionLogs, b: TransactionLogs): TransactionLogs {
    TransactionLogs(Last(a.hash, b.hash), a.logs + b.logs)
  }

  function MergeTxResult(a: TxResult, b: TxResult): TxResult {
    TxResult(Last(a.contractAddress, b.contractAddress), Last(a.bloom, b.bloom),
             MergeTransactionLogs(a.txLogs, b.txLogs), Last(a.ret, b.ret), a.reverted || b.reverted,
             LastNumber(a.gasUsed, b.gasUsed))
  }

  function MergeParams<C>(cc: ChainCodec<C>, a: Params<C>, b: Params<C>): Params<C> {
    Params(Last(a.evmDenom, b.evmDenom), a.extraEIPs + b.extraEIPs, cc.merge(a.chainConfig, b.chainConfig),
           a.allowUnprotectedTxs || b.allowUnprotectedTxs, a.evmChannels + b.evmChannels,
           MergeAccessControl(a.accessControl, b.accessControl),
           a.activeStaticPrecompiles + b.activeStaticPrecompiles)
  }
}
