/** The bytes of each message, tag by tag, and what the readers refuse. */
module CodecLayout {
  import opened Wrappers
  import opened Varint
  import opened Wire
  import opened Messages
  import opened Marshal

  // ----- varints

  /** The value of base-128 digits, least significant first, the continuation bits left out. */
  function Value(d: bytes): nat {
    if d == [] then 0 else d[0] % 0x80 + 0x80 * Value(d[1..])
  }

  /** A varint is the shortest list of digits of its value, with the continuation bit on all but the last. */
  lemma {:induction false} DigitsAre(v: nat)
    ensures var d := EncVarint(v);
            && Value(d) == v
            && (forall i | 0 <= i < |d| - 1 :: d[i] >= 0x80)
            && d[|d| - 1] < 0x80
            && (|d| > 1 ==> d[|d| - 1] > 0)
  {
    if v >= 0x80 {
      DigitsAre(v / 0x80);
      assert EncVarint(v) == [v % 0x80 + 0x80] + EncVarint(v / 0x80);
      assert EncVarint(v)[1..] == EncVarint(v / 0x80);
    } else {
      assert EncVarint(v) == [v] && Value([v]) == v + 0x80 * Value([]);
    }
  }

  /** `d` starts with `n` bytes that carry the continuation bit. */
  predicate Continues(d: bytes, n: nat) { n <= |d| && forall i | 0 <= i < n :: d[i] >= 0x80 }

  /** A varint that ends within its first ten bytes is read as its digits' value; one that does not within
      ten is an overflow, and running out of bytes before that is an unexpected end. */
  lemma {:induction false} VarintReads(d: bytes, k: nat, n: nat)
    requires k + n <= 10 && Continues(d, n)
    ensures k + n == 10 ==> ReadVarint(d, k) == Err(IntOverflow)
    ensures k + n < 10 && n == |d| ==> ReadVarint(d, k) == Err(UnexpectedEOF)
    ensures k + n < 10 && n < |d| && d[n] < 0x80 ==> ReadVarint(d, k) == Ok((Value(d[..n + 1]), n + 1))
    decreases n
  {
    if n == 0 {
      if d != [] {
        assert d[..1] == [d[0]] && [d[0]][1..] == [];
        assert Value([d[0]]) == d[0] % 0x80 + 0x80 * Value([]);
      }
    } else {
      VarintReads(d[1..], k + 1, n - 1);
      if n < |d| {
        assert d[..n + 1][1..] == d[1..][..n];
      }
    }
  }

  // ----- tags and records

  /** A tag is refused for an ended group, then for a number that is not positive as a signed 32-bit one;
      otherwise it gives the number and the wire type, its lowest three bits. */
  lemma TagReads(d: bytes, raw: nat, n: nat)
    requires ReadVarint(d, 0) == Ok((raw, n))
    ensures var wire := raw % 0x1_0000_0000_0000_0000;
            var num := wire / 8 % 0x1_0000_0000;
            ReadTag(d) == if wire % 8 == 4 then Err(EndGroupOutsideGroup)
                          else if num == 0 || num >= 0x8000_0000 then Err(IllegalTag)
                          else Ok((num, wire % 8, n))
  {
  }

  /** A record whose length is negative as a signed 64-bit number, or ends beyond all of them, is invalid;
      one that ends beyond the buffer is cut short; otherwise it is the bytes behind its length. */
  lemma RecordReads(d: bytes, base: nat, raw: nat, n: nat)
    requires ReadVarint(d, 0) == Ok((raw, n))
    ensures var len := raw % 0x1_0000_0000_0000_0000;
            ReadBytes(d, base) ==
              if len >= 0x8000_0000_0000_0000 || base + n + len >= 0x8000_0000_0000_0000 then Err(InvalidLength)
              else if n + len > |d| then Err(UnexpectedEOF)
              else Ok((d[n..n + len], n + len))
  {
  }

  /** A declared field of another wire type than its own is refused. */
  lemma WrongTypeRefused(schema: Schema, d: bytes, base: nat)
    requires ReadTag(d).Ok? && ReadTag(d).value.0 in schema
    requires ReadTag(d).value.1 != (if schema[ReadTag(d).value.0].VarintKind? then 0 else 2)
    ensures NextField(schema, d, base) == Err(WrongWireType)
  {
    hide ReadTag;
  }

  /** Skipping refuses wire types six and seven, and the end of a group where none is open. */
  lemma SkipRefuses(d: bytes, raw: nat, n: nat, used: nat, depth: nat)
    requires d != [] && ReadVarint(d, 0) == Ok((raw, n))
    ensures raw % 8 >= 6 ==> Skip(d, used, depth) == Err(IllegalWireType)
    ensures raw % 8 == 4 && depth == 0 ==> Skip(d, used, depth) == Err(UnexpectedEndOfGroup)
  {
  }

  // ----- pieces of a message

  /** Tag, length, bytes. */
  function Record(tag: byte, bs: bytes): bytes { [tag] + (EncVarint(|bs|) + bs) }

  function RecordIfAny(tag: byte, bs: bytes): bytes { if |bs| == 0 then [] else Record(tag, bs) }

  /** Tag and digits. */
  function NumberIfAny(tag: byte, v: nat): bytes { if v == 0 then [] else [tag] + EncVarint(v) }

  function FlagIfSet(tag: byte, b: bool): bytes { if b then [tag, 1] else [] }

  /** A record for each, in order. */
  function Records(tag: byte, xs: seq<bytes>): bytes {
    if xs == [] then [] else Record(tag, xs[0]) + Records(tag, xs[1..])
  }

  function Encoded(logs: seq<Log>): seq<bytes> {
    if logs == [] then [] else [EncLog(logs[0])] + Encoded(logs[1..])
  }

  lemma OneField(f: Field)
    ensures EncFields([f]) == EncField(f)
  {
    assert [f][1..] == [] && EncField(f) + [] == EncField(f);
  }

  lemma RecordWire(tag: byte, bs: bytes)
    requires tag < 0x80 && tag % 8 == 2
    ensures EncFields([BytesField(tag / 8, bs)]) == Record(tag, bs)
    ensures EncFields(OptBytes(tag / 8, bs)) == RecordIfAny(tag, bs)
  {
    hide EncFields, EncVarint;
    TagByte(tag);
    OneField(BytesField(tag / 8, bs));
    NoFieldBytes();
  }

  lemma NoFieldBytes()
    ensures EncFields([]) == []
  {
  }

  lemma NumberWire(tag: byte, v: uint64)
    requires tag < 0x80 && tag % 8 == 0
    ensures EncFields(OptVarint(tag / 8, v)) == NumberIfAny(tag, v)
  {
    hide EncFields, EncVarint;
    TagByte(tag);
    OneField(VarintField(tag / 8, v));
    NoFieldBytes();
  }

  lemma FlagWire(tag: byte, b: bool)
    requires tag < 0x80 && tag % 8 == 0
    ensures EncFields(OptBool(tag / 8, b)) == FlagIfSet(tag, b)
  {
    hide EncFields;
    TagByte(tag);
    OneField(VarintField(tag / 8, 1));
    NoFieldBytes();
  }

  lemma {:induction false} RecordsWire(tag: byte, xs: seq<bytes>)
    requires tag < 0x80 && tag % 8 == 2
    ensures EncFields(Repeated(tag / 8, Same, xs)) == Records(tag, xs)
  {
    hide EncFields, Record;
    if xs == [] {
      NoFieldBytes();
    } else {
      RecordsWire(tag, xs[1..]);
      RecordWire(tag, xs[0]);
      EncFieldsAppend([BytesField(tag / 8, xs[0])], Repeated(tag / 8, Same, xs[1..]));
    }
  }

  lemma {:induction false} LogsWire(tag: byte, logs: seq<Log>)
    requires tag < 0x80 && tag % 8 == 2
    ensures EncFields(Repeated(tag / 8, EncLog, logs)) == Records(tag, Encoded(logs))
  {
    hide EncFields, Record, EncLog;
    if logs == [] {
      NoFieldBytes();
    } else {
      LogsWire(tag, logs[1..]);
      RecordWire(tag, EncLog(logs[0]));
      EncFieldsAppend([BytesField(tag / 8, EncLog(logs[0]))], Repeated(tag / 8, EncLog, logs[1..]));
      assert Encoded(logs)[1..] == Encoded(logs[1..]);
    }
  }

  // ----- the messages

  lemma StateWire(m: State)
    ensures EncState(m) == RecordIfAny(0x0a, m.key) + RecordIfAny(0x12, m.value)
  {
    hide EncFields, OptBytes;
    EncFieldsAppend(OptBytes(1, m.key), OptBytes(2, m.value));
    RecordWire(0x0a, m.key);
    RecordWire(0x12, m.value);
  }

  lemma AccessTupleWire(m: AccessTuple)
    ensures EncAccessTuple(m) == RecordIfAny(0x0a, m.address) + Records(0x12, m.storageKeys)
  {
    hide EncFields, OptBytes, Repeated;
    EncFieldsAppend(OptBytes(1, m.address), Repeated(2, Same, m.storageKeys));
    RecordWire(0x0a, m.address);
    RecordsWire(0x12, m.storageKeys);
  }

  /** A negative access type is written as the 64-bit word it sign-extends to. */
  lemma AccessControlTypeWire(m: AccessControlType)
    ensures var x: int := m.accessType;
            EncAccessControlType(m)
            == NumberIfAny(0x08, if x < 0 then 0x1_0000_0000_0000_0000 + x else x) + Records(0x12, m.accessControlList)
  {
    hide EncFields, OptVarint, Repeated;
    EncFieldsAppend(OptVarint(1, SignExtend(m.accessType)), Repeated(2, Same, m.accessControlList));
    NumberWire(0x08, SignExtend(m.accessType));
    RecordsWire(0x12, m.accessControlList);
  }

  lemma AccessControlWire(m: AccessControl)
    ensures EncAccessControl(m)
            == Record(0x0a, EncAccessControlType(m.create)) + Record(0x12, EncAccessControlType(m.call))
  {
    hide EncFields, EncAccessControlType, Record;
    var create, call := EncAccessControlType(m.create), EncAccessControlType(m.call);
    EncFieldsAppend([BytesField(1, create)], [BytesField(2, call)]);
    RecordWire(0x0a, create);
    RecordWire(0x12, call);
  }

  lemma LogWire(m: Log)
    ensures EncLog(m)
            == RecordIfAny(0x0a, m.address) + (Records(0x12, m.topics) + (RecordIfAny(0x1a, m.data) +
               (NumberIfAny(0x20, m.blockNumber) + (RecordIfAny(0x2a, m.txHash) + (NumberIfAny(0x30, m.txIndex) +
               (RecordIfAny(0x3a, m.blockHash) + (NumberIfAny(0x40, m.index) + FlagIfSet(0x48, m.removed))))))))
  {
    hide EncFields, OptBytes, OptVarint, OptBool, Repeated, RecordIfAny, NumberIfAny, FlagIfSet, Records;
    var f9 := OptBool(9, m.removed);
    var f8 := OptVarint(8, m.index) + f9;
    var f7 := OptBytes(7, m.blockHash) + f8;
    var f6 := OptVarint(6, m.txIndex) + f7;
    var f5 := OptBytes(5, m.txHash) + f6;
    var f4 := OptVarint(4, m.blockNumber) + f5;
    var f3 := OptBytes(3, m.data) + f4;
    var f2 := Repeated(2, Same, m.topics) + f3;
    EncFieldsAppend(OptBytes(1, m.address), f2);
    EncFieldsAppend(Repeated(2, Same, m.topics), f3);
    EncFieldsAppend(OptBytes(3, m.data), f4);
    EncFieldsAppend(OptVarint(4, m.blockNumber), f5);
    EncFieldsAppend(OptBytes(5, m.txHash), f6);
    EncFieldsAppend(OptVarint(6, m.txIndex), f7);
    EncFieldsAppend(OptBytes(7, m.blockHash), f8);
    EncFieldsAppend(OptVarint(8, m.index), f9);
    RecordWire(0x0a, m.address);
    RecordsWire(0x12, m.topics);
    RecordWire(0x1a, m.data);
    NumberWire(0x20, m.blockNumber);
    RecordWire(0x2a, m.txHash);
    NumberWire(0x30, m.txIndex);
    RecordWire(0x3a, m.blockHash);
    NumberWire(0x40, m.index);
    FlagWire(0x48, m.removed);
  }

  lemma TransactionLogsWire(m: TransactionLogs)
    ensures EncTransactionLogs(m) == RecordIfAny(0x0a, m.hash) + Records(0x12, Encoded(m.logs))
  {
    hide EncFields, OptBytes, Repeated, EncLog;
    EncFieldsAppend(OptBytes(1, m.hash), Repeated(2, EncLog, m.logs));
    RecordWire(0x0a, m.hash);
    LogsWire(0x12, m.logs);
  }

  lemma TxResultWire(m: TxResult)
    ensures EncTxResult(m)
            == RecordIfAny(0x0a, m.contractAddress) + (RecordIfAny(0x12, m.bloom) +
               (Record(0x1a, EncTransactionLogs(m.txLogs)) + (RecordIfAny(0x22, m.ret) +
               (FlagIfSet(0x28, m.reverted) + NumberIfAny(0x30, m.gasUsed)))))
  {
    hide EncFields, OptBytes, OptVarint, OptBool, EncTransactionLogs, Record, RecordIfAny, NumberIfAny, FlagIfSet;
    var sub := [BytesField(3, EncTransactionLogs(m.txLogs))];
    var f5 := OptBool(5, m.reverted) + OptVarint(6, m.gasUsed);
    var f4 := OptBytes(4, m.ret) + f5;
    EncFieldsAppend(OptBytes(1, m.contractAddress), OptBytes(2, m.bloom) + (sub + f4));
    EncFieldsAppend(OptBytes(2, m.bloom), sub + f4);
    EncFieldsAppend(sub, f4);
    EncFieldsAppend(OptBytes(4, m.ret), f5);
    EncFieldsAppend(OptBool(5, m.reverted), OptVarint(6, m.gasUsed));
    RecordWire(0x0a, m.contractAddress);
    RecordWire(0x12, m.bloom);
    RecordWire(0x1a, EncTransactionLogs(m.txLogs));
    RecordWire(0x22, m.ret);
    FlagWire(0x28, m.reverted);
    NumberWire(0x30, m.gasUsed);
  }

  lemma ParamsWire<C>(cc: ChainCodec<C>, m: Params<C>)
    ensures EncParams(cc, m)
            == RecordIfAny(0x0a, m.evmDenom) + (Records(0x22, m.extraEIPs) +
               (Record(0x2a, cc.encode(m.chainConfig)) + (FlagIfSet(0x30, m.allowUnprotectedTxs) +
               (Records(0x42, m.evmChannels) + (Record(0x4a, EncAccessControl(m.accessControl)) +
               Records(0x52, m.activeStaticPrecompiles))))))
  {
    hide EncFields, OptBytes, OptBool, Repeated, EncAccessControl, Record, RecordIfAny, FlagIfSet, Records;
    var chain, access := [BytesField(5, cc.encode(m.chainConfig))], [BytesField(9, EncAccessControl(m.accessControl))];
    var f10 := Repeated(10, Same, m.activeStaticPrecompiles);
    var f8 := Repeated(8, Same, m.evmChannels) + (access + f10);
    var f6 := OptBool(6, m.allowUnprotectedTxs) + f8;
    var f4 := Repeated(4, Same, m.extraEIPs) + (chain + f6);
    EncFieldsAppend(OptBytes(1, m.evmDenom), f4);
    EncFieldsAppend(Repeated(4, Same, m.extraEIPs), chain + f6);
    EncFieldsAppend(chain, f6);
    EncFieldsAppend(OptBool(6, m.allowUnprotectedTxs), f8);
    EncFieldsAppend(Repeated(8, Same, m.evmChannels), access + f10);
    EncFieldsAppend(access, f10);
    RecordWire(0x0a, m.evmDenom);
    RecordsWire(0x22, m.extraEIPs);
    RecordWire(0x2a, cc.encode(m.chainConfig));
    FlagWire(0x30, m.allowUnprotectedTxs);
    RecordsWire(0x42, m.evmChannels);
    RecordWire(0x4a, EncAccessControl(m.accessControl));
    RecordsWire(0x52, m.activeStaticPrecompiles);
  }
}
