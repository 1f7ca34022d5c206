/** Round trips and the merge law of the message codec. */
module CodecTheorems {
  import opened Wrappers
  import opened Varint
  import opened Wire
  import opened Messages

  // ----- stepping through a field list

  /** The fields carry their declared wire types, and applying them in order takes `m` to `m'`. */
  ghost predicate Gives<M>(schema: Schema, apply: (M, Field) -> Result<M, Error>, m: M, fs: seq<Field>, m': M) {
    AllConform(schema, fs) && ApplyAll(apply, m, fs) == Ok(m')
  }

  lemma ParseGives<M>(schema: Schema, apply: (M, Field) -> Result<M, Error>, m: M, fs: seq<Field>, m': M)
    requires Gives(schema, apply, m, fs, m') && |EncFields(fs)| < TWO63
    ensures Parse(schema, apply, m, EncFields(fs), 0) == Ok(m')
  {
    ParseOfEncoded(schema, apply, m, fs, 0);
  }

  lemma GivesNothing<M>(schema: Schema, apply: (M, Field) -> Result<M, Error>, m: M)
    ensures Gives(schema, apply, m, [], m)
  {
  }

  lemma GivesField<M>(schema: Schema, apply: (M, Field) -> Result<M, Error>, m: M, f: Field, m1: M, rest: seq<Field>,
          m2: M)
    requires Conforms(schema, f) && apply(m, f) == Ok(m1) && Gives(schema, apply, m1, rest, m2)
    ensures Gives(schema, apply, m, [f] + rest, m2)
  {
    assert ([f] + rest)[1..] == rest;
  }

  /** An optional field is either absent, leaving the message, or one record. */
  lemma GivesOptional<M>(schema: Schema, apply: (M, Field) -> Result<M, Error>, m: M, opt: seq<Field>, m1: M,
          rest: seq<Field>, m2: M)
    requires |opt| <= 1 && (opt == [] ==> m1 == m)
    requires opt != [] ==> Conforms(schema, opt[0]) && apply(m, opt[0]) == Ok(m1)
    requires Gives(schema, apply, m1, rest, m2)
    ensures Gives(schema, apply, m, opt + rest, m2)
  {
    if opt == [] {
      assert opt + rest == rest;
    } else {
      assert opt == [opt[0]];
      GivesField(schema, apply, m, opt[0], m1, rest, m2);
    }
  }

  /** Records of a repeated field are appended one by one to the field `put` writes. */
  lemma {:induction false} GivesRepeated<M, T(!new)>(schema: Schema, apply: (M, Field) -> Result<M, Error>, num: nat,
          encode: T -> bytes, put: seq<T> -> M, done: seq<T>, xs: seq<T>, rest: seq<Field>, m2: M)
    requires 0 < num < 0x2000_0000 && num in schema && schema[num] == BytesKind
    requires forall d, x | x in xs :: apply(put(d), BytesField(num, encode(x))) == Ok(put(d + [x]))
    requires Gives(schema, apply, put(done + xs), rest, m2)
    ensures Gives(schema, apply, put(done), Repeated(num, encode, xs) + rest, m2)
    decreases |xs|
  {
    hide Gives;
    if xs == [] {
      assert done + xs == done;
      assert Repeated(num, encode, xs) + rest == rest;
    } else {
      var f := BytesField(num, encode(xs[0]));
      assert xs[0] in xs;
      assert (done + [xs[0]]) + xs[1..] == done + xs;
      GivesRepeated(schema, apply, num, encode, put, done + [xs[0]], xs[1..], rest, m2);
      GivesField(schema, apply, put(done), f, put(done + [xs[0]]), Repeated(num, encode, xs[1..]) + rest, m2);
      assert Repeated(num, encode, xs) + rest == [f] + (Repeated(num, encode, xs[1..]) + rest);
    }
  }

  // ----- what parsing the bytes of `b` into `a` gives

  lemma StateMerges(a: State, b: State)
    requires |EncState(b)| < TWO63
    ensures ParseState(a, EncState(b)) == Ok(MergeState(a, b))
  {
    hide Gives, EncFields, Parse;
    var s, f := TWO_BYTES_SCHEMA, ApplyState;
    var z := MergeState(a, b);
    var m1 := a.(key := z.key);
    GivesNothing(s, f, z);
    GivesOptional(s, f, m1, OptBytes(2, b.value), z, [], z);
    assert OptBytes(2, b.value) + [] == OptBytes(2, b.value);
    GivesOptional(s, f, a, OptBytes(1, b.key), m1, OptBytes(2, b.value), z);
    ParseGives(s, f, a, StateFields(b), z);
  }

  lemma AccessTupleMerges(a: AccessTuple, b: AccessTuple)
    requires |EncAccessTuple(b)| < TWO63
    ensures ParseAccessTuple(a, EncAccessTuple(b)) == Ok(MergeAccessTuple(a, b))
  {
    hide Gives, EncFields, Parse, Repeated;
    var s, f := TWO_BYTES_SCHEMA, ApplyAccessTuple;
    var z := MergeAccessTuple(a, b);
    var m1 := a.(address := z.address);
    GivesNothing(s, f, z);
    GivesRepeated(s, f, 2, Same, xs => m1.(storageKeys := xs), a.storageKeys, b.storageKeys, [], z);
    assert Repeated(2, Same, b.storageKeys) + [] == Repeated(2, Same, b.storageKeys);
    GivesOptional(s, f, a, OptBytes(1, b.address), m1, Repeated(2, Same, b.storageKeys), z);
    ParseGives(s, f, a, AccessTupleFields(b), z);
  }

  lemma SignRoundTrip(x: int32)
    ensures Int32(SignExtend(x)) == x && (SignExtend(x) == 0 <==> x == 0)
  {
  }

  lemma AccessControlTypeMerges(a: AccessControlType, b: AccessControlType)
    requires |EncAccessControlType(b)| < TWO63
    ensures ParseAccessControlType(a, EncAccessControlType(b)) == Ok(MergeAccessControlType(a, b))
  {
    hide Gives, EncFields, Parse, Repeated, Int32, SignExtend;
    SignRoundTrip(b.accessType);
    var s, f := ACCESS_CONTROL_TYPE_SCHEMA, ApplyAccessControlType;
    var z := MergeAccessControlType(a, b);
    var m1 := a.(accessType := z.accessType);
    GivesNothing(s, f, z);
    GivesRepeated(s, f, 2, Same, xs => m1.(accessControlList := xs), a.accessControlList, b.accessControlList, [], z);
    assert Repeated(2, Same, b.accessControlList) + [] == Repeated(2, Same, b.accessControlList);
    GivesOptional(s, f, a, OptVarint(1, SignExtend(b.accessType)), m1, Repeated(2, Same, b.accessControlList), z);
    ParseGives(s, f, a, AccessControlTypeFields(b), z);
  }

  lemma AccessControlMerges(a: AccessControl, b: AccessControl)
    requires |EncAccessControl(b)| < TWO63
    ensures ParseAccessControl(a, EncAccessControl(b)) == Ok(MergeAccessControl(a, b))
  {
    hide Gives, EncFields, Parse, EncAccessControlType, ParseAccessControlType;
    var s, f := TWO_BYTES_SCHEMA, ApplyAccessControl;
    var z := MergeAccessControl(a, b);
    var create, call := BytesField(1, EncAccessControlType(b.create)), BytesField(2, EncAccessControlType(b.call));
    FieldFits(AccessControlFields(b), create);
    FieldFits(AccessControlFields(b), call);
    AccessControlTypeMerges(a.create, b.create);
    AccessControlTypeMerges(a.call, b.call);
    var m1 := a.(create := z.create);
    GivesNothing(s, f, z);
    GivesField(s, f, m1, call, z, [], z);
    assert [call] + [] == [call];
    GivesField(s, f, a, create, m1, [call], z);
    ParseGives(s, f, a, AccessControlFields(b), z);
  }

  lemma LogTailMerges(a: Log, m4: Log, b: Log)
    requires var z := MergeLog(a, b);
             m4 == z.(txHash := a.txHash, txIndex := a.txIndex, blockHash := a.blockHash, index := a.index,
                      removed := a.removed)
    ensures Gives(LOG_SCHEMA, ApplyLog, m4,
              OptBytes(5, b.txHash) + (OptVarint(6, b.txIndex) +
              (OptBytes(7, b.blockHash) + (OptVarint(8, b.index) + OptBool(9, b.removed)))), MergeLog(a, b))
  {
    hide Gives;
    var s, f := LOG_SCHEMA, ApplyLog;
    var z := MergeLog(a, b);
    var m5 := m4.(txHash := z.txHash);
    var m6 := m5.(txIndex := z.txIndex);
    var m7 := m6.(blockHash := z.blockHash);
    var m8 := m7.(index := z.index);
    var f9 := OptBool(9, b.removed);
    var f8 := OptVarint(8, b.index) + f9;
    var f7 := OptBytes(7, b.blockHash) + f8;
    var f6 := OptVarint(6, b.txIndex) + f7;
    GivesNothing(s, f, z);
    GivesOptional(s, f, m8, OptBool(9, b.removed), z, [], z);
    assert f9 + [] == f9;
    GivesOptional(s, f, m7, OptVarint(8, b.index), m8, f9, z);
    GivesOptional(s, f, m6, OptBytes(7, b.blockHash), m7, f8, z);
    GivesOptional(s, f, m5, OptVarint(6, b.txIndex), m6, f7, z);
    GivesOptional(s, f, m4, OptBytes(5, b.txHash), m5, f6, z);
  }

  lemma LogMerges(a: Log, b: Log)
    requires |EncLog(b)| < TWO63
    ensures ParseLog(a, EncLog(b)) == Ok(MergeLog(a, b))
  {
    hide Gives, EncFields, Parse, Repeated, OptBytes, OptVarint, OptBool;
    var s, f := LOG_SCHEMA, ApplyLog;
    var z := MergeLog(a, b);
    var m1 := a.(address := z.address);
    var m2 := m1.(topics := z.topics);
    var m3 := m2.(data := z.data);
    var m4 := m3.(blockNumber := z.blockNumber);
    var f5 := OptBytes(5, b.txHash) + (OptVarint(6, b.txIndex) +
              (OptBytes(7, b.blockHash) + (OptVarint(8, b.index) + OptBool(9, b.removed))));
    var f4 := OptVarint(4, b.blockNumber) + f5;
    var f3 := OptBytes(3, b.data) + f4;
    var f2 := Repeated(2, Same, b.topics) + f3;
    LogTailMerges(a, m4, b);
    OptionalShapes(4, [], b.blockNumber, false);
    GivesOptional(s, f, m3, OptVarint(4, b.blockNumber), m4, f5, z);
    OptionalShapes(3, b.data, 0, false);
    GivesOptional(s, f, m2, OptBytes(3, b.data), m3, f4, z);
    GivesRepeated(s, f, 2, Same, xs => m1.(topics := xs), a.topics, b.topics, f3, z);
    OptionalShapes(1, b.address, 0, false);
    GivesOptional(s, f, a, OptBytes(1, b.address), m1, f2, z);
    ParseGives(s, f, a, LogFields(b), z);
  }

  lemma OptionalShapes(num: nat, bs: bytes, v: uint64, b: bool)
    ensures OptBytes(num, bs) == if bs == [] then [] else [BytesField(num, bs)]
    ensures OptVarint(num, v) == if v == 0 then [] else [VarintField(num, v)]
    ensures OptBool(num, b) == if b then [VarintField(num, 1)] else []
  {
  }

  lemma LogRoundTrip(m: Log)
    requires |EncLog(m)| < TWO63
    ensures ParseLog(ZERO_LOG, EncLog(m)) == Ok(m)
  {
    hide EncLog, ParseLog;
    LogMerges(ZERO_LOG, m);
    assert MergeLog(ZERO_LOG, m) == m;
  }

  lemma LogsFit(b: TransactionLogs, x: Log)
    requires x in b.logs
    ensures |EncLog(x)| < |EncTransactionLogs(b)|
  {
    hide EncFields, EncLog, Repeated;
    RepeatedMember(2, EncLog, b.logs, x);
    FieldFits(TransactionLogsFields(b), BytesField(2, EncLog(x)));
  }

  lemma TransactionLogsMerges(a: TransactionLogs, b: TransactionLogs)
    requires |EncTransactionLogs(b)| < TWO63
    ensures ParseTransactionLogs(a, EncTransactionLogs(b)) == Ok(MergeTransactionLogs(a, b))
  {
    hide Gives, EncFields, Parse, Repeated, ParseLog, EncLog;
    var s, f := TWO_BYTES_SCHEMA, ApplyTransactionLogs;
    var z := MergeTransactionLogs(a, b);
    var m1 := a.(hash := z.hash);
    forall x | x in b.logs
      ensures ParseLog(ZERO_LOG, EncLog(x)) == Ok(x)
    {
      LogsFit(b, x);
      LogRoundTrip(x);
    }
    GivesNothing(s, f, z);
    GivesRepeated(s, f, 2, EncLog, xs => m1.(logs := xs), a.logs, b.logs, [], z);
    assert Repeated(2, EncLog, b.logs) + [] == Repeated(2, EncLog, b.logs);
    GivesOptional(s, f, a, OptBytes(1, b.hash), m1, Repeated(2, EncLog, b.logs), z);
    ParseGives(s, f, a, TransactionLogsFields(b), z);
  }

  lemma TxResultTailMerges(a: TxResult, m3: TxResult, b: TxResult)
    requires m3 == MergeTxResult(a, b).(ret := a.ret, reverted := a.reverted, gasUsed := a.gasUsed)
    ensures Gives(TX_RESULT_SCHEMA, ApplyTxResult, m3,
              OptBytes(4, b.ret) + (OptBool(5, b.reverted) + OptVarint(6, b.gasUsed)), MergeTxResult(a, b))
  {
    hide Gives, ParseTransactionLogs;
    var s, f := TX_RESULT_SCHEMA, ApplyTxResult;
    var z := MergeTxResult(a, b);
    var f6 := OptVarint(6, b.gasUsed);
    var m4 := m3.(ret := z.ret);
    var m5 := m4.(reverted := z.reverted);
    GivesNothing(s, f, z);
    GivesOptional(s, f, m5, f6, z, [], z);
    assert f6 + [] == f6;
    GivesOptional(s, f, m4, OptBool(5, b.reverted), m5, f6, z);
    GivesOptional(s, f, m3, OptBytes(4, b.ret), m4, OptBool(5, b.reverted) + f6, z);
  }

  lemma TxLogsFit(b: TxResult)
    ensures |EncTransactionLogs(b.txLogs)| < |EncTxResult(b)|
  {
    hide EncFields, EncTransactionLogs;
    FieldFits(TxResultFields(b), BytesField(3, EncTransactionLogs(b.txLogs)));
  }

  lemma TxResultMerges(a: TxResult, b: TxResult)
    requires |EncTxResult(b)| < TWO63
    ensures ParseTxResult(a, EncTxResult(b)) == Ok(MergeTxResult(a, b))
  {
    hide Gives, EncFields, Parse, ParseTransactionLogs, EncTransactionLogs, OptBool, OptVarint;
    var s, f := TX_RESULT_SCHEMA, ApplyTxResult;
    var z := MergeTxResult(a, b);
    var sub := BytesField(3, EncTransactionLogs(b.txLogs));
    var f4 := OptBytes(4, b.ret) + (OptBool(5, b.reverted) + OptVarint(6, b.gasUsed));
    var f3 := [sub] + f4;
    TxLogsFit(b);
    TransactionLogsMerges(a.txLogs, b.txLogs);
    var m1 := a.(contractAddress := z.contractAddress);
    var m2 := m1.(bloom := z.bloom);
    var m3 := m2.(txLogs := z.txLogs);
    TxResultTailMerges(a, m3, b);
    GivesField(s, f, m2, sub, m3, f4, z);
    GivesOptional(s, f, m1, OptBytes(2, b.bloom), m2, f3, z);
    GivesOptional(s, f, a, OptBytes(1, b.contractAddress), m1, OptBytes(2, b.bloom) + f3, z);
    ParseGives(s, f, a, TxResultFields(b), z);
  }

  lemma ParamsTailMerges<C(!new)>(cc: ChainCodec<C>, a: Params<C>, m6: Params<C>, b: Params<C>)
    requires |EncAccessControl(b.accessControl)| < TWO63
    requires var z := MergeParams(cc, a, b);
             m6 == z.(evmChannels := a.evmChannels, accessControl := a.accessControl,
                      activeStaticPrecompiles := a.activeStaticPrecompiles)
    ensures Gives(PARAMS_SCHEMA, ApplyParams(cc), m6,
              Repeated(8, Same, b.evmChannels) + ([BytesField(9, EncAccessControl(b.accessControl))] +
              Repeated(10, Same, b.activeStaticPrecompiles)), MergeParams(cc, a, b))
  {
    hide Gives, Repeated, EncAccessControl, ParseAccessControl;
    var s, f := PARAMS_SCHEMA, ApplyParams(cc);
    var z := MergeParams(cc, a, b);
    var access := BytesField(9, EncAccessControl(b.accessControl));
    var f10 := Repeated(10, Same, b.activeStaticPrecompiles);
    AccessControlMerges(a.accessControl, b.accessControl);
    var m8 := m6.(evmChannels := z.evmChannels);
    var m9 := m8.(accessControl := z.accessControl);
    GivesNothing(s, f, z);
    GivesRepeated(s, f, 10, Same, xs => m9.(activeStaticPrecompiles := xs), a.activeStaticPrecompiles,
        b.activeStaticPrecompiles, [], z);
    assert f10 + [] == f10;
    GivesField(s, f, m8, access, m9, f10, z);
    GivesRepeated(s, f, 8, Same, xs => m6.(evmChannels := xs), a.evmChannels, b.evmChannels, [access] + f10, z);
  }

  lemma ParamsMiddleMerges<C(!new)>(cc: ChainCodec<C>, a: Params<C>, m4: Params<C>, b: Params<C>, f8: seq<Field>)
    requires Lawful(cc) && |cc.encode(b.chainConfig)| < TWO63
    requires var z := MergeParams(cc, a, b);
             && m4 == a.(evmDenom := z.evmDenom, extraEIPs := z.extraEIPs)
             && Gives(PARAMS_SCHEMA, ApplyParams(cc),
                 m4.(chainConfig := z.chainConfig, allowUnprotectedTxs := z.allowUnprotectedTxs), f8, z)
    ensures Gives(PARAMS_SCHEMA, ApplyParams(cc), m4,
              [BytesField(5, cc.encode(b.chainConfig))] + (OptBool(6, b.allowUnprotectedTxs) + f8),
              MergeParams(cc, a, b))
  {
    hide Gives;
    var s, f := PARAMS_SCHEMA, ApplyParams(cc);
    var z := MergeParams(cc, a, b);
    var m5 := m4.(chainConfig := z.chainConfig);
    var m6 := m5.(allowUnprotectedTxs := z.allowUnprotectedTxs);
    GivesOptional(s, f, m5, OptBool(6, b.allowUnprotectedTxs), m6, f8, z);
    GivesField(s, f, m4, BytesField(5, cc.encode(b.chainConfig)), m5, OptBool(6, b.allowUnprotectedTxs) + f8, z);
  }

  lemma ParamsSubmessagesFit<C>(cc: ChainCodec<C>, b: Params<C>)
    ensures |cc.encode(b.chainConfig)| < |EncParams(cc, b)|
    ensures |EncAccessControl(b.accessControl)| < |EncParams(cc, b)|
  {
    hide EncFields, Repeated, EncAccessControl;
    FieldFits(ParamsFields(cc, b), BytesField(5, cc.encode(b.chainConfig)));
    FieldFits(ParamsFields(cc, b), BytesField(9, EncAccessControl(b.accessControl)));
  }

  lemma ParamsMerges<C(!new)>(cc: ChainCodec<C>, a: Params<C>, b: Params<C>)
    requires Lawful(cc) && |EncParams(cc, b)| < TWO63
    ensures ParseParams(cc, a, EncParams(cc, b)) == Ok(MergeParams(cc, a, b))
  {
    hide Gives, EncFields, Parse, Repeated, EncAccessControl, Lawful, OptBool;
    ParamsSubmessagesFit(cc, b);
    var s, f := PARAMS_SCHEMA, ApplyParams(cc);
    var z := MergeParams(cc, a, b);
    var f8 := Repeated(8, Same, b.evmChannels)
        + ([BytesField(9, EncAccessControl(b.accessControl))] + Repeated(10, Same, b.activeStaticPrecompiles));
    var f5 := [BytesField(5, cc.encode(b.chainConfig))] + (OptBool(6, b.allowUnprotectedTxs) + f8);
    var f4 := Repeated(4, Same, b.extraEIPs) + f5;
    var m1 := a.(evmDenom := z.evmDenom);
    var m4 := m1.(extraEIPs := z.extraEIPs);
    ParamsTailMerges(cc, a, m4.(chainConfig := z.chainConfig, allowUnprotectedTxs := z.allowUnprotectedTxs), b);
    ParamsMiddleMerges(cc, a, m4, b, f8);
    GivesRepeated(s, f, 4, Same, xs => m1.(extraEIPs := xs), a.extraEIPs, b.extraEIPs, f5, z);
    GivesOptional(s, f, a, OptBytes(1, b.evmDenom), m1, f4, z);
    ParseGives(s, f, a, ParamsFields(cc, b), z);
  }

  // ----- round trips: parsing into the zero value gives the message back

  lemma StateRoundTrip(m: State)
    requires |EncState(m)| < TWO63
    ensures ParseState(ZERO_STATE, EncState(m)) == Ok(m)
  {
    hide EncState, ParseState;
    StateMerges(ZERO_STATE, m);
  }

  lemma AccessTupleRoundTrip(m: AccessTuple)
    requires |EncAccessTuple(m)| < TWO63
    ensures ParseAccessTuple(ZERO_ACCESS_TUPLE, EncAccessTuple(m)) == Ok(m)
  {
    hide EncAccessTuple, ParseAccessTuple;
    AccessTupleMerges(ZERO_ACCESS_TUPLE, m);
    assert MergeAccessTuple(ZERO_ACCESS_TUPLE, m) == m;
  }

  lemma AccessControlTypeRoundTrip(m: AccessControlType)
    requires |EncAccessControlType(m)| < TWO63
    ensures ParseAccessControlType(ZERO_ACCESS_CONTROL_TYPE, EncAccessControlType(m)) == Ok(m)
  {
    hide EncAccessControlType, ParseAccessControlType;
    AccessControlTypeMerges(ZERO_ACCESS_CONTROL_TYPE, m);
    assert MergeAccessControlType(ZERO_ACCESS_CONTROL_TYPE, m) == m;
  }

  lemma AccessControlRoundTrip(m: AccessControl)
    requires |EncAccessControl(m)| < TWO63
    ensures ParseAccessControl(ZERO_ACCESS_CONTROL, EncAccessControl(m)) == Ok(m)
  {
    hide EncAccessControl, ParseAccessControl;
    AccessControlMerges(ZERO_ACCESS_CONTROL, m);
    assert MergeAccessControlType(ZERO_ACCESS_CONTROL_TYPE, m.create) == m.create;
    assert MergeAccessControlType(ZERO_ACCESS_CONTROL_TYPE, m.call) == m.call;
  }

  lemma TransactionLogsRoundTrip(m: TransactionLogs)
    requires |EncTransactionLogs(m)| < TWO63
    ensures ParseTransactionLogs(ZERO_TRANSACTION_LOGS, EncTransactionLogs(m)) == Ok(m)
  {
    hide EncTransactionLogs, ParseTransactionLogs;
    TransactionLogsMerges(ZERO_TRANSACTION_LOGS, m);
    assert MergeTransactionLogs(ZERO_TRANSACTION_LOGS, m) == m;
  }

  lemma TxResultRoundTrip(m: TxResult)
    requires |EncTxResult(m)| < TWO63
    ensures ParseTxResult(ZERO_TX_RESULT, EncTxResult(m)) == Ok(m)
  {
    hide EncTxResult, ParseTxResult;
    TxResultMerges(ZERO_TX_RESULT, m);
    assert MergeTransactionLogs(ZERO_TRANSACTION_LOGS, m.txLogs) == m.txLogs;
  }

  lemma ParamsRoundTrip<C(!new)>(cc: ChainCodec<C>, m: Params<C>)
    requires Lawful(cc) && |EncParams(cc, m)| < TWO63
    ensures ParseParams(cc, ZeroParams(cc), EncParams(cc, m)) == Ok(m)
  {
    hide EncParams, ParseParams;
    ParamsMerges(cc, ZeroParams(cc), m);
    assert MergeAccessControlType(ZERO_ACCESS_CONTROL_TYPE, m.accessControl.create) == m.accessControl.create;
    assert MergeAccessControlType(ZERO_ACCESS_CONTROL_TYPE, m.accessControl.call) == m.accessControl.call;
    assert MergeParams(cc, ZeroParams(cc), m) == m;
  }

  /** Last one wins: two encodings one after the other parse to the merge of the two messages. */
  lemma ConcatenatedParams<C(!new)>(cc: ChainCodec<C>, a: Params<C>, b: Params<C>)
    requires Lawful(cc) && |EncParams(cc, a)| + |EncParams(cc, b)| < TWO63
    ensures ParseParams(cc, ZeroParams(cc), EncParams(cc, a) + EncParams(cc, b)) == Ok(MergeParams(cc, a, b))
  {
    ParamsRoundTrip(cc, a);
    ParamsMerges(cc, a, b);
    ParseConcat(PARAMS_SCHEMA, ApplyParams(cc), ZeroParams(cc), EncParams(cc, a), EncParams(cc, b));
  }
}
