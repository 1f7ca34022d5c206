/** `Size`, `MarshalToSizedBuffer` and `Marshal` of each message. */
module MessageMarshal {
  import opened Wrappers
  import opened Varint
  import opened Wire
  import opened Messages
  import opened Marshal

  // ----- State

  lemma StateLayout(m: State)
    ensures |EncState(m)| == |EncFields(OptBytes(1, m.key))| +
      |EncFields(OptBytes(2, m.value))|
  {
    hide EncFields, Repeated;
    var f2 := OptBytes(2, m.value);
    EncFieldsAppend(OptBytes(1, m.key), f2);
  }

  method SizeState(m: State) returns (n: nat)
    ensures n == |EncState(m)|
  {
    hide EncFields, EncState, OptBytes, OptVarint, OptBool;
    StateLayout(m);
    n := 0;
    var l1 := SizeOfNonEmpty(m.key, 1);
    n := n + l1;
    var l2 := SizeOfNonEmpty(m.value, 2);
    n := n + l2;
  }

  method StateToSizedBuffer(m: State, dAtA: array<byte>, len: nat) returns (n: nat)
    requires |EncState(m)| <= len <= dAtA.Length && len < TWO63
    modifies dAtA
    ensures n == |EncState(m)|
    ensures Spliced(dAtA[..], old(dAtA[..]), len - n, EncState(m), len)
  {
    hide EncFields, Repeated, OptBytes, OptVarint, OptBool, Spliced;
    StateLayout(m);
    ghost var was := dAtA[..];
    ghost var f2 := OptBytes(2, m.value);
    StartFill(was, len);
    var i := len;
    i := PutNonEmpty(dAtA, i, 0x12, m.value, was, [], len);
    assert OptBytes(2, m.value) + [] == OptBytes(2, m.value);
    i := PutNonEmpty(dAtA, i, 0x0a, m.key, was, f2, len);
    n := len - i;
  }

  method MarshalState(m: State) returns (d: bytes)
    requires |EncState(m)| < TWO63
    ensures d == EncState(m)
  {
    hide EncState;
    var size := SizeState(m);
    var dAtA := new byte[size];
    var n := StateToSizedBuffer(m, dAtA, size);
    d := dAtA[..n];
  }

  // ----- AccessTuple

  lemma AccessTupleLayout(m: AccessTuple)
    ensures |EncAccessTuple(m)| == |EncFields(OptBytes(1, m.address))| +
      |EncFields(Repeated(2, Same, m.storageKeys))|
  {
    hide EncFields, Repeated;
    var f2 := Repeated(2, Same, m.storageKeys);
    EncFieldsAppend(OptBytes(1, m.address), f2);
  }

  method SizeAccessTuple(m: AccessTuple) returns (n: nat)
    ensures n == |EncAccessTuple(m)|
  {
    hide EncFields, EncAccessTuple, OptBytes, OptVarint, OptBool;
    AccessTupleLayout(m);
    n := 0;
    var l1 := SizeOfNonEmpty(m.address, 1);
    n := n + l1;
    var l2 := SizeOfRepeated(m.storageKeys, 2);
    n := n + l2;
  }

  method AccessTupleToSizedBuffer(m: AccessTuple, dAtA: array<byte>, len: nat) returns (n: nat)
    requires |EncAccessTuple(m)| <= len <= dAtA.Length && len < TWO63
    modifies dAtA
    ensures n == |EncAccessTuple(m)|
    ensures Spliced(dAtA[..], old(dAtA[..]), len - n, EncAccessTuple(m), len)
  {
    hide EncFields, Repeated, OptBytes, OptVarint, OptBool, Spliced;
    AccessTupleLayout(m);
    ghost var was := dAtA[..];
    ghost var f2 := Repeated(2, Same, m.storageKeys);
    StartFill(was, len);
    var i := len;
    i := PutRepeated(dAtA, i, 0x12, m.storageKeys, was, [], len);
    assert Repeated(2, Same, m.storageKeys) + [] == Repeated(2, Same, m.storageKeys);
    i := PutNonEmpty(dAtA, i, 0x0a, m.address, was, f2, len);
    n := len - i;
  }

  method MarshalAccessTuple(m: AccessTuple) returns (d: bytes)
    requires |EncAccessTuple(m)| < TWO63
    ensures d == EncAccessTuple(m)
  {
    hide EncAccessTuple;
    var size := SizeAccessTuple(m);
    var dAtA := new byte[size];
    var n := AccessTupleToSizedBuffer(m, dAtA, size);
    d := dAtA[..n];
  }

  // ----- AccessControlType

  lemma AccessControlTypeLayout(m: AccessControlType)
    ensures |EncAccessControlType(m)| == |EncFields(OptVarint(1, SignExtend(m.accessType)))| +
      |EncFields(Repeated(2, Same, m.accessControlList))|
  {
    hide EncFields, Repeated;
    var f2 := Repeated(2, Same, m.accessControlList);
    EncFieldsAppend(OptVarint(1, SignExtend(m.accessType)), f2);
  }

  method SizeAccessControlType(m: AccessControlType) returns (n: nat)
    ensures n == |EncAccessControlType(m)|
  {
    hide EncFields, EncAccessControlType, OptBytes, OptVarint, OptBool;
    AccessControlTypeLayout(m);
    n := 0;
    var l1 := SizeOfNonZero(SignExtend(m.accessType), 1);
    n := n + l1;
    var l2 := SizeOfRepeated(m.accessControlList, 2);
    n := n + l2;
  }

  method AccessControlTypeToSizedBuffer(m: AccessControlType, dAtA: array<byte>, len: nat) returns (n: nat)
    requires |EncAccessControlType(m)| <= len <= dAtA.Length && len < TWO63
    modifies dAtA
    ensures n == |EncAccessControlType(m)|
    ensures Spliced(dAtA[..], old(dAtA[..]), len - n, EncAccessControlType(m), len)
  {
    hide EncFields, Repeated, OptBytes, OptVarint, OptBool, Spliced;
    AccessControlTypeLayout(m);
    ghost var was := dAtA[..];
    ghost var f2 := Repeated(2, Same, m.accessControlList);
    StartFill(was, len);
    var i := len;
    i := PutRepeated(dAtA, i, 0x12, m.accessControlList, was, [], len);
    assert Repeated(2, Same, m.accessControlList) + [] == Repeated(2, Same, m.accessControlList);
    i := PutNonZero(dAtA, i, 0x08, SignExtend(m.accessType), was, f2, len);
    n := len - i;
  }

  method MarshalAccessControlType(m: AccessControlType) returns (d: bytes)
    requires |EncAccessControlType(m)| < TWO63
    ensures d == EncAccessControlType(m)
  {
    hide EncAccessControlType;
    var size := SizeAccessControlType(m);
    var dAtA := new byte[size];
    var n := AccessControlTypeToSizedBuffer(m, dAtA, size);
    d := dAtA[..n];
  }

  // ----- AccessControl

  lemma AccessControlLayout(m: AccessControl)
    ensures |EncAccessControl(m)| == |EncFields([BytesField(1, EncAccessControlType(m.create))])| +
      |EncFields([BytesField(2, EncAccessControlType(m.call))])|
  {
    hide EncFields, Repeated, EncAccessControlType;
    var f2 := [BytesField(2, EncAccessControlType(m.call))];
    EncFieldsAppend([BytesField(1, EncAccessControlType(m.create))], f2);
  }

  method SizeAccessControl(m: AccessControl) returns (n: nat)
    ensures n == |EncAccessControl(m)|
  {
    hide EncFields, EncAccessControl, OptBytes, OptVarint, OptBool;
    AccessControlLayout(m);
    n := 0;
    var s1 := SizeAccessControlType(m.create);
    var l1 := SizeOfMessage(EncAccessControlType(m.create), s1, 1);
    n := n + l1;
    var s2 := SizeAccessControlType(m.call);
    var l2 := SizeOfMessage(EncAccessControlType(m.call), s2, 2);
    n := n + l2;
  }

  method AccessControlToSizedBuffer(m: AccessControl, dAtA: array<byte>, len: nat) returns (n: nat)
    requires |EncAccessControl(m)| <= len <= dAtA.Length && len < TWO63
    modifies dAtA
    ensures n == |EncAccessControl(m)|
    ensures Spliced(dAtA[..], old(dAtA[..]), len - n, EncAccessControl(m), len)
  {
    hide EncFields, Repeated, OptBytes, OptVarint, OptBool, Spliced, EncAccessControlType;
    AccessControlLayout(m);
    ghost var was := dAtA[..];
    ghost var f2 := [BytesField(2, EncAccessControlType(m.call))];
    StartFill(was, len);
    var i := len;
    ghost var mid2 := dAtA[..];
    MessageRoom(2, EncAccessControlType(m.call));
    var size2 := AccessControlTypeToSizedBuffer(m.call, dAtA, i);
    i := PutMessageHeader(dAtA, i - size2, 0x12, size2, EncAccessControlType(m.call), mid2, i, was, [], len);
    assert [BytesField(2, EncAccessControlType(m.call))] + [] == [BytesField(2, EncAccessControlType(m.call))];
    ghost var mid1 := dAtA[..];
    MessageRoom(1, EncAccessControlType(m.create));
    var size1 := AccessControlTypeToSizedBuffer(m.create, dAtA, i);
    i := PutMessageHeader(dAtA, i - size1, 0x0a, size1, EncAccessControlType(m.create), mid1, i, was, f2, len);
    n := len - i;
  }

  method MarshalAccessControl(m: AccessControl) returns (d: bytes)
    requires |EncAccessControl(m)| < TWO63
    ensures d == EncAccessControl(m)
  {
    hide EncAccessControl;
    var size := SizeAccessControl(m);
    var dAtA := new byte[size];
    var n := AccessControlToSizedBuffer(m, dAtA, size);
    d := dAtA[..n];
  }

  // ----- Log

  lemma LogLayout(m: Log)
    ensures |EncLog(m)| == |EncFields(OptBytes(1, m.address))| +
      |EncFields(Repeated(2, Same, m.topics))| +
      |EncFields(OptBytes(3, m.data))| +
      |EncFields(OptVarint(4, m.blockNumber))| +
      |EncFields(OptBytes(5, m.txHash))| +
      |EncFields(OptVarint(6, m.txIndex))| +
      |EncFields(OptBytes(7, m.blockHash))| +
      |EncFields(OptVarint(8, m.index))| +
      |EncFields(OptBool(9, m.removed))|
  {
    hide EncFields, Repeated;
    var f9 := OptBool(9, m.removed);
    EncFieldsAppend(OptVarint(8, m.index), f9);
    var f8 := OptVarint(8, m.index) + f9;
    EncFieldsAppend(OptBytes(7, m.blockHash), f8);
    var f7 := OptBytes(7, m.blockHash) + f8;
    EncFieldsAppend(OptVarint(6, m.txIndex), f7);
    var f6 := OptVarint(6, m.txIndex) + f7;
    EncFieldsAppend(OptBytes(5, m.txHash), f6);
    var f5 := OptBytes(5, m.txHash) + f6;
    EncFieldsAppend(OptVarint(4, m.blockNumber), f5);
    var f4 := OptVarint(4, m.blockNumber) + f5;
    EncFieldsAppend(OptBytes(3, m.data), f4);
    var f3 := OptBytes(3, m.data) + f4;
    EncFieldsAppend(Repeated(2, Same, m.topics), f3);
    var f2 := Repeated(2, Same, m.topics) + f3;
    EncFieldsAppend(OptBytes(1, m.address), f2);
  }

  method SizeLog(m: Log) returns (n: nat)
    ensures n == |EncLog(m)|
  {
    hide EncFields, EncLog, OptBytes, OptVarint, OptBool;
    LogLayout(m);
    n := 0;
    var l1 := SizeOfNonEmpty(m.address, 1);
    n := n + l1;
    var l2 := SizeOfRepeated(m.topics, 2);
    n := n + l2;
    var l3 := SizeOfNonEmpty(m.data, 3);
    n := n + l3;
    var l4 := SizeOfNonZero(m.blockNumber, 4);
    n := n + l4;
    var l5 := SizeOfNonEmpty(m.txHash, 5);
    n := n + l5;
    var l6 := SizeOfNonZero(m.txIndex, 6);
    n := n + l6;
    var l7 := SizeOfNonEmpty(m.blockHash, 7);
    n := n + l7;
    var l8 := SizeOfNonZero(m.index, 8);
    n := n + l8;
    var l9 := SizeOfTrue(m.removed, 9);
    n := n + l9;
  }

  method LogToSizedBuffer(m: Log, dAtA: array<byte>, len: nat) returns (n: nat)
    requires |EncLog(m)| <= len <= dAtA.Length && len < TWO63
    modifies dAtA
    ensures n == |EncLog(m)|
    ensures Spliced(dAtA[..], old(dAtA[..]), len - n, EncLog(m), len)
  {
    hide EncFields, Repeated, OptBytes, OptVarint, OptBool, Spliced;
    LogLayout(m);
    ghost var was := dAtA[..];
    ghost var f9 := OptBool(9, m.removed);
    ghost var f8 := OptVarint(8, m.index) + f9;
    ghost var f7 := OptBytes(7, m.blockHash) + f8;
    ghost var f6 := OptVarint(6, m.txIndex) + f7;
    ghost var f5 := OptBytes(5, m.txHash) + f6;
    ghost var f4 := OptVarint(4, m.blockNumber) + f5;
    ghost var f3 := OptBytes(3, m.data) + f4;
    ghost var f2 := Repeated(2, Same, m.topics) + f3;
    StartFill(was, len);
    var i := len;
    i := PutTrue(dAtA, i, 0x48, m.removed, was, [], len);
    assert OptBool(9, m.removed) + [] == OptBool(9, m.removed);
    i := PutNonZero(dAtA, i, 0x40, m.index, was, f9, len);
    i := PutNonEmpty(dAtA, i, 0x3a, m.blockHash, was, f8, len);
    i := PutNonZero(dAtA, i, 0x30, m.txIndex, was, f7, len);
    i := PutNonEmpty(dAtA, i, 0x2a, m.txHash, was, f6, len);
    i := PutNonZero(dAtA, i, 0x20, m.blockNumber, was, f5, len);
    i := PutNonEmpty(dAtA, i, 0x1a, m.data, was, f4, len);
    i := PutRepeated(dAtA, i, 0x12, m.topics, was, f3, len);
    i := PutNonEmpty(dAtA, i, 0x0a, m.address, was, f2, len);
    n := len - i;
  }

  method MarshalLog(m: Log) returns (d: bytes)
    requires |EncLog(m)| < TWO63
    ensures d == EncLog(m)
  {
    hide EncLog;
    var size := SizeLog(m);
    var dAtA := new byte[size];
    var n := LogToSizedBuffer(m, dAtA, size);
    d := dAtA[..n];
  }

  /** The backwards loop over the logs, each marshalled straight into the buffer. */
  method PutLogs(dAtA: array<byte>, i: nat, logs: seq<Log>, ghost was: bytes, ghost done: seq<Field>, ghost end: nat)
    returns (j: nat)
    requires i < TWO63 && Filling(dAtA[..], was, i, done, end) && |EncFields(Repeated(2, EncLog, logs))| <= i
    modifies dAtA
    ensures j == i - |EncFields(Repeated(2, EncLog, logs))|
    ensures Filling(dAtA[..], was, j, Repeated(2, EncLog, logs) + done, end)
  {
    hide EncFields, Repeated, EncLog;
    j := i;
    var iNdEx := |logs|;
    assert logs[..|logs|] == logs;
    NoRecords(2, EncLog, logs, done);
    while iNdEx > 0
      invariant 0 <= iNdEx <= |logs| && j <= i
      invariant |EncFields(Repeated(2, EncLog, logs[..iNdEx]))| == j - i + |EncFields(Repeated(2, EncLog, logs))|
      invariant Filling(dAtA[..], was, j, Repeated(2, EncLog, logs[iNdEx..]) + done, end)
    {
      iNdEx := iNdEx - 1;
      RoomForRecord(2, EncLog, logs, iNdEx);
      ghost var f, mid := BytesField(2, EncLog(logs[iNdEx])), dAtA[..];
      ghost var later := Repeated(2, EncLog, logs[iNdEx + 1..]);
      Single(f);
      MessageRoom(2, EncLog(logs[iNdEx]));
      var size := LogToSizedBuffer(logs[iNdEx], dAtA, j);
      j := PutMessageHeader(dAtA, j - size, 0x12, size, EncLog(logs[iNdEx]), mid, j, was, later + done, end);
      assert [f] + (later + done) == ([f] + later) + done;
    }
    assert logs[0..] == logs;
    NoRecords(2, EncLog, logs[..0], done);
    assert logs[..0][0..] == logs[..0];
  }

  method SizeOfLogs(logs: seq<Log>) returns (n: nat)
    ensures n == |EncFields(Repeated(2, EncLog, logs))|
  {
    hide EncFields, Repeated, EncLog;
    n := 0;
    NoRecords(2, EncLog, logs[..0], []);
    assert logs[..0][0..] == logs[..0];
    for k := 0 to |logs|
      invariant n == |EncFields(Repeated(2, EncLog, logs[..k]))|
    {
      var s := SizeLog(logs[k]);
      var l := SizeOfMessage(EncLog(logs[k]), s, 2);
      RoomForRecord(2, EncLog, logs, k);
      Single(BytesField(2, EncLog(logs[k])));
      n := n + l;
    }
    assert logs[..|logs|] == logs;
  }

  // ----- TransactionLogs

  lemma TransactionLogsLayout(m: TransactionLogs)
    ensures |EncTransactionLogs(m)| == |EncFields(OptBytes(1, m.hash))| +
      |EncFields(Repeated(2, EncLog, m.logs))|
  {
    hide EncFields, Repeated, EncLog;
    var f2 := Repeated(2, EncLog, m.logs);
    EncFieldsAppend(OptBytes(1, m.hash), f2);
  }

  method SizeTransactionLogs(m: TransactionLogs) returns (n: nat)
    ensures n == |EncTransactionLogs(m)|
  {
    hide EncFields, EncTransactionLogs, OptBytes, OptVarint, OptBool;
    TransactionLogsLayout(m);
    n := 0;
    var l1 := SizeOfNonEmpty(m.hash, 1);
    n := n + l1;
    var l2 := SizeOfLogs(m.logs);
    n := n + l2;
  }

  method TransactionLogsToSizedBuffer(m: TransactionLogs, dAtA: array<byte>, len: nat) returns (n: nat)
    requires |EncTransactionLogs(m)| <= len <= dAtA.Length && len < TWO63
    modifies dAtA
    ensures n == |EncTransactionLogs(m)|
    ensures Spliced(dAtA[..], old(dAtA[..]), len - n, EncTransactionLogs(m), len)
  {
    hide EncFields, Repeated, OptBytes, OptVarint, OptBool, Spliced, EncLog;
    TransactionLogsLayout(m);
    ghost var was := dAtA[..];
    ghost var f2 := Repeated(2, EncLog, m.logs);
    StartFill(was, len);
    var i := len;
    i := PutLogs(dAtA, i, m.logs, was, [], len);
    assert Repeated(2, EncLog, m.logs) + [] == Repeated(2, EncLog, m.logs);
    i := PutNonEmpty(dAtA, i, 0x0a, m.hash, was, f2, len);
    n := len - i;
  }

  method MarshalTransactionLogs(m: TransactionLogs) returns (d: bytes)
    requires |EncTransactionLogs(m)| < TWO63
    ensures d == EncTransactionLogs(m)
  {
    hide EncTransactionLogs;
    var size := SizeTransactionLogs(m);
    var dAtA := new byte[size];
    var n := TransactionLogsToSizedBuffer(m, dAtA, size);
    d := dAtA[..n];
  }

  // ----- TxResult

  lemma TxResultLayout(m: TxResult)
    ensures |EncTxResult(m)| == |EncFields(OptBytes(1, m.contractAddress))| +
      |EncFields(OptBytes(2, m.bloom))| +
      |EncFields([BytesField(3, EncTransactionLogs(m.txLogs))])| +
      |EncFields(OptBytes(4, m.ret))| +
      |EncFields(OptBool(5, m.reverted))| +
      |EncFields(OptVarint(6, m.gasUsed))|
  {
    hide EncFields, Repeated, EncTransactionLogs;
    var f6 := OptVarint(6, m.gasUsed);
    EncFieldsAppend(OptBool(5, m.reverted), f6);
    var f5 := OptBool(5, m.reverted) + f6;
    EncFieldsAppend(OptBytes(4, m.ret), f5);
    var f4 := OptBytes(4, m.ret) + f5;
    EncFieldsAppend([BytesField(3, EncTransactionLogs(m.txLogs))], f4);
    var f3 := [BytesField(3, EncTransactionLogs(m.txLogs))] + f4;
    EncFieldsAppend(OptBytes(2, m.bloom), f3);
    var f2 := OptBytes(2, m.bloom) + f3;
    EncFieldsAppend(OptBytes(1, m.contractAddress), f2);
  }

  method SizeTxResult(m: TxResult) returns (n: nat)
    ensures n == |EncTxResult(m)|
  {
    hide EncFields, EncTxResult, OptBytes, OptVarint, OptBool;
    TxResultLayout(m);
    n := 0;
    var l1 := SizeOfNonEmpty(m.contractAddress, 1);
    n := n + l1;
    var l2 := SizeOfNonEmpty(m.bloom, 2);
    n := n + l2;
    var s3 := SizeTransactionLogs(m.txLogs);
    var l3 := SizeOfMessage(EncTransactionLogs(m.txLogs), s3, 3);
    n := n + l3;
    var l4 := SizeOfNonEmpty(m.ret, 4);
    n := n + l4;
    var l5 := SizeOfTrue(m.reverted, 5);
    n := n + l5;
    var l6 := SizeOfNonZero(m.gasUsed, 6);
    n := n + l6;
  }

  method TxResultToSizedBuffer(m: TxResult, dAtA: array<byte>, len: nat) returns (n: nat)
    requires |EncTxResult(m)| <= len <= dAtA.Length && len < TWO63
    modifies dAtA
    ensures n == |EncTxResult(m)|
    ensures Spliced(dAtA[..], old(dAtA[..]), len - n, EncTxResult(m), len)
  {
    hide EncFields, Repeated, OptBytes, OptVarint, OptBool, Spliced, EncTransactionLogs;
    TxResultLayout(m);
    ghost var was := dAtA[..];
    ghost var f6 := OptVarint(6, m.gasUsed);
    ghost var f5 := OptBool(5, m.reverted) + f6;
    ghost var f4 := OptBytes(4, m.ret) + f5;
    ghost var f3 := [BytesField(3, EncTransactionLogs(m.txLogs))] + f4;
    ghost var f2 := OptBytes(2, m.bloom) + f3;
    StartFill(was, len);
    var i := len;
    i := PutNonZero(dAtA, i, 0x30, m.gasUsed, was, [], len);
    assert OptVarint(6, m.gasUsed) + [] == OptVarint(6, m.gasUsed);
    i := PutTrue(dAtA, i, 0x28, m.reverted, was, f6, len);
    i := PutNonEmpty(dAtA, i, 0x22, m.ret, was, f5, len);
    ghost var mid3 := dAtA[..];
    MessageRoom(3, EncTransactionLogs(m.txLogs));
    var size3 := TransactionLogsToSizedBuffer(m.txLogs, dAtA, i);
    i := PutMessageHeader(dAtA, i - size3, 0x1a, size3, EncTransactionLogs(m.txLogs), mid3, i, was, f4, len);
    i := PutNonEmpty(dAtA, i, 0x12, m.bloom, was, f3, len);
    i := PutNonEmpty(dAtA, i, 0x0a, m.contractAddress, was, f2, len);
    n := len - i;
  }

  method MarshalTxResult(m: TxResult) returns (d: bytes)
    requires |EncTxResult(m)| < TWO63
    ensures d == EncTxResult(m)
  {
    hide EncTxResult;
    var size := SizeTxResult(m);
    var dAtA := new byte[size];
    var n := TxResultToSizedBuffer(m, dAtA, size);
    d := dAtA[..n];
  }

  // ----- Params

  lemma ParamsLayout<C>(cc: ChainCodec<C>, m: Params<C>)
    ensures |EncParams(cc, m)| == |EncFields(OptBytes(1, m.evmDenom))| +
      |EncFields(Repeated(4, Same, m.extraEIPs))| +
      |EncFields([BytesField(5, cc.encode(m.chainConfig))])| +
      |EncFields(OptBool(6, m.allowUnprotectedTxs))| +
      |EncFields(Repeated(8, Same, m.evmChannels))| +
      |EncFields([BytesField(9, EncAccessControl(m.accessControl))])| +
      |EncFields(Repeated(10, Same, m.activeStaticPrecompiles))|
  {
    hide EncFields, Repeated, EncAccessControl;
    var f10 := Repeated(10, Same, m.activeStaticPrecompiles);
    EncFieldsAppend([BytesField(9, EncAccessControl(m.accessControl))], f10);
    var f9 := [BytesField(9, EncAccessControl(m.accessControl))] + f10;
    EncFieldsAppend(Repeated(8, Same, m.evmChannels), f9);
    var f8 := Repeated(8, Same, m.evmChannels) + f9;
    EncFieldsAppend(OptBool(6, m.allowUnprotectedTxs), f8);
    var f6 := OptBool(6, m.allowUnprotectedTxs) + f8;
    EncFieldsAppend([BytesField(5, cc.encode(m.chainConfig))], f6);
    var f5 := [BytesField(5, cc.encode(m.chainConfig))] + f6;
    EncFieldsAppend(Repeated(4, Same, m.extraEIPs), f5);
    var f4 := Repeated(4, Same, m.extraEIPs) + f5;
    EncFieldsAppend(OptBytes(1, m.evmDenom), f4);
  }

  method SizeParams<C>(cc: ChainCodec<C>, m: Params<C>) returns (n: nat)
    ensures n == |EncParams(cc, m)|
  {
    hide EncFields, EncParams, OptBytes, OptVarint, OptBool;
    ParamsLayout(cc, m);
    n := 0;
    var l1 := SizeOfNonEmpty(m.evmDenom, 1);
    n := n + l1;
    var l4 := SizeOfRepeated(m.extraEIPs, 4);
    n := n + l4;
    var l5 := SizeOfMessage(cc.encode(m.chainConfig), |cc.encode(m.chainConfig)|, 5);
    n := n + l5;
    var l6 := SizeOfTrue(m.allowUnprotectedTxs, 6);
    n := n + l6;
    var l8 := SizeOfRepeated(m.evmChannels, 8);
    n := n + l8;
    var s9 := SizeAccessControl(m.accessControl);
    var l9 := SizeOfMessage(EncAccessControl(m.accessControl), s9, 9);
    n := n + l9;
    var l10 := SizeOfRepeated(m.activeStaticPrecompiles, 10);
    n := n + l10;
  }

  method ParamsToSizedBuffer<C>(cc: ChainCodec<C>, m: Params<C>, dAtA: array<byte>, len: nat) returns (n: nat)
    requires |EncParams(cc, m)| <= len <= dAtA.Length && len < TWO63
    modifies dAtA
    ensures n == |EncParams(cc, m)|
    ensures Spliced(dAtA[..], old(dAtA[..]), len - n, EncParams(cc, m), len)
  {
    hide EncFields, Repeated, OptBytes, OptVarint, OptBool, Spliced, EncAccessControl;
    ParamsLayout(cc, m);
    ghost var was := dAtA[..];
    ghost var f10 := Repeated(10, Same, m.activeStaticPrecompiles);
    ghost var f9 := [BytesField(9, EncAccessControl(m.accessControl))] + f10;
    ghost var f8 := Repeated(8, Same, m.evmChannels) + f9;
    ghost var f6 := OptBool(6, m.allowUnprotectedTxs) + f8;
    ghost var f5 := [BytesField(5, cc.encode(m.chainConfig))] + f6;
    ghost var f4 := Repeated(4, Same, m.extraEIPs) + f5;
    StartFill(was, len);
    var i := len;
    i := PutRepeated(dAtA, i, 0x52, m.activeStaticPrecompiles, was, [], len);
    assert Repeated(10, Same, m.activeStaticPrecompiles) + [] == Repeated(10, Same, m.activeStaticPrecompiles);
    ghost var mid9 := dAtA[..];
    MessageRoom(9, EncAccessControl(m.accessControl));
    var size9 := AccessControlToSizedBuffer(m.accessControl, dAtA, i);
    i := PutMessageHeader(dAtA, i - size9, 0x4a, size9, EncAccessControl(m.accessControl), mid9, i, was, f10, len);
    i := PutRepeated(dAtA, i, 0x42, m.evmChannels, was, f9, len);
    i := PutTrue(dAtA, i, 0x30, m.allowUnprotectedTxs, was, f8, len);
    ghost var mid5 := dAtA[..];
    MessageRoom(5, cc.encode(m.chainConfig));
    var at5 := PutCopy(dAtA, i, cc.encode(m.chainConfig));
    SplicedAt(dAtA[..], mid5, at5, cc.encode(m.chainConfig), i);
    i := PutMessageHeader(dAtA, at5, 0x2a, |cc.encode(m.chainConfig)|, cc.encode(m.chainConfig), mid5, i, was, f6, len);
    i := PutRepeated(dAtA, i, 0x22, m.extraEIPs, was, f5, len);
    i := PutNonEmpty(dAtA, i, 0x0a, m.evmDenom, was, f4, len);
    n := len - i;
  }

  method MarshalParams<C>(cc: ChainCodec<C>, m: Params<C>) returns (d: bytes)
    requires |EncParams(cc, m)| < TWO63
    ensures d == EncParams(cc, m)
  {
    hide EncParams;
    var size := SizeParams(cc, m);
    var dAtA := new byte[size];
    var n := ParamsToSizedBuffer(cc, m, dAtA, size);
    d := dAtA[..n];
  }
}
