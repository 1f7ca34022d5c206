/** The generated parsers: a loop over the tags, a branch per declared field, and a skip for the rest.
    A parser with a pointer receiver takes the message it starts from and returns the updated one. */
module MessageUnmarshal {
  import opened Wrappers
  import opened Varint
  import opened Wire
  import opened Messages
  import opened Unmarshal

  method UnmarshalState(m0: State, dAtA: bytes) returns (r: Result<State, Error>)
    requires |dAtA| < TWO63
    ensures r == ParseState(m0, dAtA)
  {
    hide Parse, NextField, ReadTag;
    var m, iNdEx := m0, 0;
    assert dAtA[0..] == dAtA;
    while iNdEx < |dAtA|
      invariant iNdEx <= |dAtA|
      invariant Parse(TWO_BYTES_SCHEMA, ApplyState, m, dAtA[iNdEx..], iNdEx) == ParseState(m0, dAtA)
    {
      var preIndex := iNdEx;
      Turn(TWO_BYTES_SCHEMA, ApplyState, m, dAtA, preIndex);
      var tag :- TagAt(dAtA, preIndex);
      var (fieldNum, wireType, at) := tag;
      match fieldNum
      case 1 =>
        var f :- NextBytes(TWO_BYTES_SCHEMA, 1, wireType, dAtA, preIndex, at);
        m, iNdEx := m.(key := f.0), f.1;
      case 2 =>
        var f :- NextBytes(TWO_BYTES_SCHEMA, 2, wireType, dAtA, preIndex, at);
        m, iNdEx := m.(value := f.0), f.1;
      case _ =>
        iNdEx :- NextUnknown(TWO_BYTES_SCHEMA, fieldNum, dAtA, preIndex);
    }
    assert dAtA[iNdEx..] == [];
    ParseDone(TWO_BYTES_SCHEMA, ApplyState, m, iNdEx);
    return Ok(m);
  }

  method UnmarshalAccessTuple(m0: AccessTuple, dAtA: bytes) returns (r: Result<AccessTuple, Error>)
    requires |dAtA| < TWO63
    ensures r == ParseAccessTuple(m0, dAtA)
  {
    hide Parse, NextField, ReadTag;
    var m, iNdEx := m0, 0;
    assert dAtA[0..] == dAtA;
    while iNdEx < |dAtA|
      invariant iNdEx <= |dAtA|
      invariant Parse(TWO_BYTES_SCHEMA, ApplyAccessTuple, m, dAtA[iNdEx..], iNdEx) == ParseAccessTuple(m0, dAtA)
    {
      var preIndex := iNdEx;
      Turn(TWO_BYTES_SCHEMA, ApplyAccessTuple, m, dAtA, preIndex);
      var tag :- TagAt(dAtA, preIndex);
      var (fieldNum, wireType, at) := tag;
      match fieldNum
      case 1 =>
        var f :- NextBytes(TWO_BYTES_SCHEMA, 1, wireType, dAtA, preIndex, at);
        m, iNdEx := m.(address := f.0), f.1;
      case 2 =>
        var f :- NextBytes(TWO_BYTES_SCHEMA, 2, wireType, dAtA, preIndex, at);
        m, iNdEx := m.(storageKeys := m.storageKeys + [f.0]), f.1;
      case _ =>
        iNdEx :- NextUnknown(TWO_BYTES_SCHEMA, fieldNum, dAtA, preIndex);
    }
    assert dAtA[iNdEx..] == [];
    ParseDone(TWO_BYTES_SCHEMA, ApplyAccessTuple, m, iNdEx);
    return Ok(m);
  }

  method UnmarshalAccessControlType(m0: AccessControlType, dAtA: bytes) returns (r: Result<AccessControlType, Error>)
    requires |dAtA| < TWO63
    ensures r == ParseAccessControlType(m0, dAtA)
  {
    hide Parse, NextField, ReadTag;
    var m, iNdEx := m0, 0;
    assert dAtA[0..] == dAtA;
    while iNdEx < |dAtA|
      invariant iNdEx <= |dAtA|
      invariant Parse(ACCESS_CONTROL_TYPE_SCHEMA, ApplyAccessControlType, m, dAtA[iNdEx..], iNdEx)
          == ParseAccessControlType(m0, dAtA)
    {
      var preIndex := iNdEx;
      Turn(ACCESS_CONTROL_TYPE_SCHEMA, ApplyAccessControlType, m, dAtA, preIndex);
      var tag :- TagAt(dAtA, preIndex);
      var (fieldNum, wireType, at) := tag;
      match fieldNum
      case 1 =>
        var f :- NextVarint(ACCESS_CONTROL_TYPE_SCHEMA, 1, wireType, dAtA, preIndex, at);
        m, iNdEx := m.(accessType := Int32(f.0)), f.1;
      case 2 =>
        var f :- NextBytes(ACCESS_CONTROL_TYPE_SCHEMA, 2, wireType, dAtA, preIndex, at);
        m, iNdEx := m.(accessControlList := m.accessControlList + [f.0]), f.1;
      case _ =>
        iNdEx :- NextUnknown(ACCESS_CONTROL_TYPE_SCHEMA, fieldNum, dAtA, preIndex);
    }
    assert dAtA[iNdEx..] == [];
    ParseDone(ACCESS_CONTROL_TYPE_SCHEMA, ApplyAccessControlType, m, iNdEx);
    return Ok(m);
  }

  method UnmarshalAccessControl(m0: AccessControl, dAtA: bytes) returns (r: Result<AccessControl, Error>)
    requires |dAtA| < TWO63
    ensures r == ParseAccessControl(m0, dAtA)
  {
    hide Parse, NextField, ReadTag, ParseAccessControlType;
    var m, iNdEx := m0, 0;
    assert dAtA[0..] == dAtA;
    while iNdEx < |dAtA|
      invariant iNdEx <= |dAtA|
      invariant Parse(TWO_BYTES_SCHEMA, ApplyAccessControl, m, dAtA[iNdEx..], iNdEx) == ParseAccessControl(m0, dAtA)
    {
      var preIndex := iNdEx;
      Turn(TWO_BYTES_SCHEMA, ApplyAccessControl, m, dAtA, preIndex);
      var tag :- TagAt(dAtA, preIndex);
      var (fieldNum, wireType, at) := tag;
      match fieldNum
      case 1 =>
        var f :- NextBytes(TWO_BYTES_SCHEMA, 1, wireType, dAtA, preIndex, at);
        var sub :- UnmarshalAccessControlType(m.create, f.0);
        m, iNdEx := m.(create := sub), f.1;
      case 2 =>
        var f :- NextBytes(TWO_BYTES_SCHEMA, 2, wireType, dAtA, preIndex, at);
        var sub :- UnmarshalAccessControlType(m.call, f.0);
        m, iNdEx := m.(call := sub), f.1;
      case _ =>
        iNdEx :- NextUnknown(TWO_BYTES_SCHEMA, fieldNum, dAtA, preIndex);
    }
    assert dAtA[iNdEx..] == [];
    ParseDone(TWO_BYTES_SCHEMA, ApplyAccessControl, m, iNdEx);
    return Ok(m);
  }

  method UnmarshalLog(m0: Log, dAtA: bytes) returns (r: Result<Log, Error>)
    requires |dAtA| < TWO63
    ensures r == ParseLog(m0, dAtA)
  {
    hide Parse, NextField, ReadTag;
    var m, iNdEx := m0, 0;
    assert dAtA[0..] == dAtA;
    while iNdEx < |dAtA|
      invariant iNdEx <= |dAtA|
      invariant Parse(LOG_SCHEMA, ApplyLog, m, dAtA[iNdEx..], iNdEx) == ParseLog(m0, dAtA)
    {
      var preIndex := iNdEx;
      Turn(LOG_SCHEMA, ApplyLog, m, dAtA, preIndex);
      var tag :- TagAt(dAtA, preIndex);
      var (fieldNum, wireType, at) := tag;
      match fieldNum
      case 1 =>
        var f :- NextBytes(LOG_SCHEMA, 1, wireType, dAtA, preIndex, at);
        m, iNdEx := m.(address := f.0), f.1;
      case 2 =>
        var f :- NextBytes(LOG_SCHEMA, 2, wireType, dAtA, preIndex, at);
        m, iNdEx := m.(topics := m.topics + [f.0]), f.1;
      case 3 =>
        var f :- NextBytes(LOG_SCHEMA, 3, wireType, dAtA, preIndex, at);
        m, iNdEx := m.(data := f.0), f.1;
      case 4 =>
        var f :- NextVarint(LOG_SCHEMA, 4, wireType, dAtA, preIndex, at);
        m, iNdEx := m.(blockNumber := f.0), f.1;
      case 5 =>
        var f :- NextBytes(LOG_SCHEMA, 5, wireType, dAtA, preIndex, at);
        m, iNdEx := m.(txHash := f.0), f.1;
      case 6 =>
        var f :- NextVarint(LOG_SCHEMA, 6, wireType, dAtA, preIndex, at);
        m, iNdEx := m.(txIndex := f.0), f.1;
      case 7 =>
        var f :- NextBytes(LOG_SCHEMA, 7, wireType, dAtA, preIndex, at);
        m, iNdEx := m.(blockHash := f.0), f.1;
      case 8 =>
        var f :- NextVarint(LOG_SCHEMA, 8, wireType, dAtA, preIndex, at);
        m, iNdEx := m.(index := f.0), f.1;
      case 9 =>
        var f :- NextVarint(LOG_SCHEMA, 9, wireType, dAtA, preIndex, at);
        m, iNdEx := m.(removed := f.0 != 0), f.1;
      case _ =>
        iNdEx :- NextUnknown(LOG_SCHEMA, fieldNum, dAtA, preIndex);
    }
    assert dAtA[iNdEx..] == [];
    ParseDone(LOG_SCHEMA, ApplyLog, m, iNdEx);
    return Ok(m);
  }

  method UnmarshalTransactionLogs(m0: TransactionLogs, dAtA: bytes) returns (r: Result<TransactionLogs, Error>)
    requires |dAtA| < TWO63
    ensures r == ParseTransactionLogs(m0, dAtA)
  {
    hide Parse, NextField, ReadTag, ParseLog;
    var m, iNdEx := m0, 0;
    assert dAtA[0..] == dAtA;
    while iNdEx < |dAtA|
      invariant iNdEx <= |dAtA|
      invariant Parse(TWO_BYTES_SCHEMA, ApplyTransactionLogs, m, dAtA[iNdEx..], iNdEx) == ParseTransactionLogs(m0, dAtA)
    {
      var preIndex := iNdEx;
      Turn(TWO_BYTES_SCHEMA, ApplyTransactionLogs, m, dAtA, preIndex);
      var tag :- TagAt(dAtA, preIndex);
      var (fieldNum, wireType, at) := tag;
      match fieldNum
      case 1 =>
        var f :- NextBytes(TWO_BYTES_SCHEMA, 1, wireType, dAtA, preIndex, at);
        m, iNdEx := m.(hash := f.0), f.1;
      case 2 =>
        var f :- NextBytes(TWO_BYTES_SCHEMA, 2, wireType, dAtA, preIndex, at);
        var sub :- UnmarshalLog(ZERO_LOG, f.0);
        m, iNdEx := m.(logs := m.logs + [sub]), f.1;
      case _ =>
        iNdEx :- NextUnknown(TWO_BYTES_SCHEMA, fieldNum, dAtA, preIndex);
    }
    assert dAtA[iNdEx..] == [];
    ParseDone(TWO_BYTES_SCHEMA, ApplyTransactionLogs, m, iNdEx);
    return Ok(m);
  }

  method UnmarshalTxResult(m0: TxResult, dAtA: bytes) returns (r: Result<TxResult, Error>)
    requires |dAtA| < TWO63
    ensures r == ParseTxResult(m0, dAtA)
  {
    hide Parse, NextField, ReadTag, ParseTransactionLogs;
    var m, iNdEx := m0, 0;
    assert dAtA[0..] == dAtA;
    while iNdEx < |dAtA|
      invariant iNdEx <= |dAtA|
      invariant Parse(TX_RESULT_SCHEMA, ApplyTxResult, m, dAtA[iNdEx..], iNdEx) == ParseTxResult(m0, dAtA)
    {
      var preIndex := iNdEx;
      Turn(TX_RESULT_SCHEMA, ApplyTxResult, m, dAtA, preIndex);
      var tag :- TagAt(dAtA, preIndex);
      var (fieldNum, wireType, at) := tag;
      match fieldNum
      case 1 =>
        var f :- NextBytes(TX_RESULT_SCHEMA, 1, wireType, dAtA, preIndex, at);
        m, iNdEx := m.(contractAddress := f.0), f.1;
      case 2 =>
        var f :- NextBytes(TX_RESULT_SCHEMA, 2, wireType, dAtA, preIndex, at);
        m, iNdEx := m.(bloom := f.0), f.1;
      case 3 =>
        var f :- NextBytes(TX_RESULT_SCHEMA, 3, wireType, dAtA, preIndex, at);
        var sub :- UnmarshalTransactionLogs(m.txLogs, f.0);
        m, iNdEx := m.(txLogs := sub), f.1;
      case 4 =>
        var f :- NextBytes(TX_RESULT_SCHEMA, 4, wireType, dAtA, preIndex, at);
        m, iNdEx := m.(ret := f.0), f.1;
      case 5 =>
        var f :- NextVarint(TX_RESULT_SCHEMA, 5, wireType, dAtA, preIndex, at);
        m, iNdEx := m.(reverted := f.0 != 0), f.1;
      case 6 =>
        var f :- NextVarint(TX_RESULT_SCHEMA, 6, wireType, dAtA, preIndex, at);
        m, iNdEx := m.(gasUsed := f.0), f.1;
      case _ =>
        iNdEx :- NextUnknown(TX_RESULT_SCHEMA, fieldNum, dAtA, preIndex);
    }
    assert dAtA[iNdEx..] == [];
    ParseDone(TX_RESULT_SCHEMA, ApplyTxResult, m, iNdEx);
    return Ok(m);
  }

  method UnmarshalParams<C>(cc: ChainCodec<C>, m0: Params<C>, dAtA: bytes) returns (r: Result<Params<C>, Error>)
    requires |dAtA| < TWO63
    ensures r == ParseParams(cc, m0, dAtA)
  {
    hide Parse, NextField, ReadTag, ParseAccessControl;
    var m, iNdEx := m0, 0;
    assert dAtA[0..] == dAtA;
    while iNdEx < |dAtA|
      invariant iNdEx <= |dAtA|
      invariant Parse(PARAMS_SCHEMA, ApplyParams(cc), m, dAtA[iNdEx..], iNdEx) == ParseParams(cc, m0, dAtA)
    {
      var preIndex := iNdEx;
      Turn(PARAMS_SCHEMA, ApplyParams(cc), m, dAtA, preIndex);
      var tag :- TagAt(dAtA, preIndex);
      var (fieldNum, wireType, at) := tag;
      match fieldNum
      case 1 =>
        var f :- NextBytes(PARAMS_SCHEMA, 1, wireType, dAtA, preIndex, at);
        m, iNdEx := m.(evmDenom := f.0), f.1;
      case 4 =>
        var f :- NextBytes(PARAMS_SCHEMA, 4, wireType, dAtA, preIndex, at);
        m, iNdEx := m.(extraEIPs := m.extraEIPs + [f.0]), f.1;
      case 5 =>
        var f :- NextBytes(PARAMS_SCHEMA, 5, wireType, dAtA, preIndex, at);
        var sub :- cc.parse(m.chainConfig, f.0);
        m, iNdEx := m.(chainConfig := sub), f.1;
      case 6 =>
        var f :- NextVarint(PARAMS_SCHEMA, 6, wireType, dAtA, preIndex, at);
        m, iNdEx := m.(allowUnprotectedTxs := f.0 != 0), f.1;
      case 8 =>
        var f :- NextBytes(PARAMS_SCHEMA, 8, wireType, dAtA, preIndex, at);
        m, iNdEx := m.(evmChannels := m.evmChannels + [f.0]), f.1;
      case 9 =>
        var f :- NextBytes(PARAMS_SCHEMA, 9, wireType, dAtA, preIndex, at);
        var sub :- UnmarshalAccessControl(m.accessControl, f.0);
        m, iNdEx := m.(accessControl := sub), f.1;
      case 10 =>
        var f :- NextBytes(PARAMS_SCHEMA, 10, wireType, dAtA, preIndex, at);
        m, iNdEx := m.(activeStaticPrecompiles := m.activeStaticPrecompiles + [f.0]), f.1;
      case _ =>
        iNdEx :- NextUnknown(PARAMS_SCHEMA, fieldNum, dAtA, preIndex);
    }
    assert dAtA[iNdEx..] == [];
    ParseDone(PARAMS_SCHEMA, ApplyParams(cc), m, iNdEx);
    return Ok(m);
  }
}
