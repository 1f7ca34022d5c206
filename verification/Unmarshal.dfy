/** The loops of the generated parsers: tags, records, skipping, and one turn of a message's loop. */
module Unmarshal {
  import opened Wrappers
  import opened Varint
  import opened Wire

  method TagAt(dAtA: bytes, iNdEx: nat) returns (r: Result<(nat, nat, nat), Error>)
    requires iNdEx <= |dAtA|
    ensures match ReadTag(dAtA[iNdEx..])
            case Ok(t) => r == Ok((t.0, t.1, iNdEx + t.2))
            case Err(e) => r == Err(e)
  {
    hide ReadVarint;
    var read :- DecodeVarint(dAtA, iNdEx);
    var (wire, next) := read;
    var fieldNum := Int32(wire / 8);
    var wireType := wire % 8;
    if wireType == 4 {
      return Err(EndGroupOutsideGroup);
    }
    if fieldNum <= 0 {
      return Err(IllegalTag);
    }
    return Ok((fieldNum, wireType, next));
  }

  /** Length, sign check, overflow check, bounds check, slice. */
  method RecordAt(dAtA: bytes, iNdEx: nat) returns (r: Result<(bytes, nat), Error>)
    requires iNdEx <= |dAtA| < TWO63
    ensures match ReadBytes(dAtA[iNdEx..], iNdEx)
            case Ok(p) => r == Ok((p.0, iNdEx + p.1))
            case Err(e) => r == Err(e)
  {
    hide ReadVarint;
    var read :- DecodeVarint(dAtA, iNdEx);
    var (u, at) := read;
    var len := Int64(u);
    if len < 0 {
      return Err(InvalidLength);
    }
    var postIndex := Int64(at + len);
    if postIndex < 0 {
      return Err(InvalidLength);
    }
    if postIndex > |dAtA| {
      return Err(UnexpectedEOF);
    }
    assert dAtA[iNdEx..][at - iNdEx..at - iNdEx + len] == dAtA[at..postIndex];
    return Ok((dAtA[at..postIndex], postIndex));
  }

  // ----- skipping

  /** One body inside `skipEvm`: the index after it, which may have wrapped or passed the end. */
  method SkipBodyAt(dAtA: bytes, iNdEx: nat, wireType: nat) returns (r: Result<int, Error>)
    requires iNdEx <= |dAtA| < TWO63
    ensures match SkipBody(wireType, dAtA[iNdEx..])
            case Ok(n) => r == Ok(Int64(iNdEx + n)) && iNdEx + n < TWO64
            case Err(e) => r == Err(e)
  {
    hide ReadVarint;
    match wireType
    case 0 =>
      var read :- DecodeVarint(dAtA, iNdEx);
      var (_, at) := read;
      return Ok(at);
    case 1 =>
      return Ok(Int64(iNdEx + 8));
    case 2 =>
      var read :- DecodeVarint(dAtA, iNdEx);
      var (u, at) := read;
      var length := Int64(u);
      if length < 0 {
        return Err(InvalidLength);
      }
      return Ok(Int64(at + length));
    case 3 =>
      return Ok(iNdEx);
    case 4 =>
      return Ok(iNdEx);
    case 5 =>
      return Ok(Int64(iNdEx + 4));
    case _ =>
      return Err(IllegalWireType);
  }

  /** One turn of the skipping loop, as an equation on the specification. */
  lemma SkipTurn(d: bytes, i: nat, depth: nat, raw: nat, n: nat, body: nat)
    requires i < |d| && ReadVarint(d[i..], 0) == Ok((raw, n))
    requires SkipBody(raw % 8, d[i + n..]) == Ok(body) && !(raw % 8 == 4 && depth == 0)
    ensures var depth' := if raw % 8 == 3 then depth + 1 else if raw % 8 == 4 then depth - 1 else depth;
            var next := i + n + body;
            Skip(d[i..], i, depth) ==
              if next >= TWO63 then Err(InvalidLength)
              else if depth' == 0 then Ok(next)
              else if next > |d| then Err(UnexpectedEOF)
              else Skip(d[next..], next, depth')
  {
    hide ReadVarint, SkipBody;
    assert d[i..][n..] == d[i + n..];
    if i + n + body <= |d| {
      assert d[i..][n + body..] == d[i + n + body..];
    }
  }

  lemma SkipTurnFails(d: bytes, i: nat, depth: nat)
    requires i < |d|
    ensures ReadVarint(d[i..], 0).Err? ==> Skip(d[i..], i, depth) == Err(ReadVarint(d[i..], 0).error)
    ensures ReadVarint(d[i..], 0).Ok? ==>
              var (raw, n) := ReadVarint(d[i..], 0).value;
              && (raw % 8 == 4 && depth == 0 ==> Skip(d[i..], i, depth) == Err(UnexpectedEndOfGroup))
              && (!(raw % 8 == 4 && depth == 0) && SkipBody(raw % 8, d[i + n..]).Err? ==>
                    Skip(d[i..], i, depth) == Err(SkipBody(raw % 8, d[i + n..]).error))
  {
    hide ReadVarint, SkipBody;
    if ReadVarint(d[i..], 0).Ok? {
      var (raw, n) := ReadVarint(d[i..], 0).value;
      assert d[i..][n..] == d[i + n..];
    }
  }

  /** `skipEvm`. A group tag carries no body, so the end of a group is checked after its (empty) body here. */
  method SkipEvm(dAtA: bytes) returns (r: Result<nat, Error>)
    requires |dAtA| < TWO63
    ensures r == Skip(dAtA, 0, 0)
  {
    hide ReadVarint, Skip, SkipBody;
    var iNdEx, depth := 0, 0;
    assert dAtA[0..] == dAtA;
    while iNdEx < |dAtA|
      invariant 0 <= depth && 0 <= iNdEx
      invariant Skip(dAtA, 0, 0) == if iNdEx <= |dAtA| then Skip(dAtA[iNdEx..], iNdEx, depth) else Err(UnexpectedEOF)
      decreases |dAtA| - iNdEx
    {
      SkipTurnFails(dAtA, iNdEx, depth);
      var read :- DecodeVarint(dAtA, iNdEx);
      var (wire, at) := read;
      ghost var raw := ReadVarint(dAtA[iNdEx..], 0).value.0;
      var wireType := wire % 8;
      assert wireType == raw % 8;
      if wireType == 4 && depth == 0 {
        return Err(UnexpectedEndOfGroup);
      }
      var next :- SkipBodyAt(dAtA, at, wireType);
      SkipTurn(dAtA, iNdEx, depth, raw, at - iNdEx, SkipBody(wireType, dAtA[at..]).value);
      if wireType == 3 {
        depth := depth + 1;
      } else if wireType == 4 {
        depth := depth - 1;
      }
      if next < 0 {
        return Err(InvalidLength);
      }
      if depth == 0 {
        return Ok(next);
      }
      iNdEx := next;
    }
    assert iNdEx == |dAtA| ==> dAtA[iNdEx..] == [];
    SkipNothing(iNdEx, depth);
    return Err(UnexpectedEOF);
  }

  lemma SkipNothing(used: nat, depth: nat)
    ensures Skip([], used, depth) == Err(UnexpectedEOF)
  {
  }

  // ----- one turn of a message's loop

  lemma TagFails(schema: Schema, d: bytes, base: nat)
    requires ReadTag(d).Err?
    ensures NextField(schema, d, base) == Err(ReadTag(d).error)
  {
    hide ReadTag;
  }

  /** What the loop of any message does with the bytes at `i`, split by outcome. */
  lemma Turn<M>(schema: Schema, apply: (M, Field) -> Result<M, Error>, m: M, d: bytes, i: nat)
    requires i < |d|
    ensures match NextField(schema, d[i..], i)
            case Err(e) => Parse(schema, apply, m, d[i..], i) == Err(e)
            case Ok(p) =>
              var m' := if p.0.Some? then apply(m, p.0.value) else Ok(m);
              && i + p.1 <= |d|
              && Parse(schema, apply, m, d[i..], i) ==
                 if m'.Ok? then Parse(schema, apply, m'.value, d[i + p.1..], i + p.1) else Err(m'.error)
    ensures ReadTag(d[i..]).Err? ==> NextField(schema, d[i..], i) == Err(ReadTag(d[i..]).error)
  {
    hide ReadTag, NextField;
    if ReadTag(d[i..]).Err? {
      TagFails(schema, d[i..], i);
    }
    if NextField(schema, d[i..], i).Ok? {
      var (_, n) := NextField(schema, d[i..], i).value;
      assert d[i..][n..] == d[i + n..];
    }
  }

  lemma ParseDone<M>(schema: Schema, apply: (M, Field) -> Result<M, Error>, m: M, base: nat)
    ensures Parse(schema, apply, m, [], base) == Ok(m)
  {
  }

  /** A declared varint field: wire type check and value. */
  method NextVarint(ghost schema: Schema, fieldNum: nat, wireType: nat, dAtA: bytes, ghost preIndex: nat, iNdEx: nat)
    returns (r: Result<(uint64, nat), Error>)
    requires preIndex <= iNdEx <= |dAtA|
    requires ReadTag(dAtA[preIndex..]) == Ok((fieldNum, wireType, iNdEx - preIndex))
    requires fieldNum in schema && schema[fieldNum] == VarintKind
    ensures match NextField(schema, dAtA[preIndex..], preIndex)
            case Ok(p) => r.Ok? && p == (Some(VarintField(fieldNum, r.value.0)), r.value.1 - preIndex)
            case Err(e) => r == Err(e)
  {
    hide ReadTag, ReadVarint;
    assert dAtA[preIndex..][iNdEx - preIndex..] == dAtA[iNdEx..];
    if wireType != 0 {
      return Err(WrongWireType);
    }
    r := DecodeVarint(dAtA, iNdEx);
  }

  /** A declared length-delimited field: wire type check and bytes. */
  method NextBytes(ghost schema: Schema, fieldNum: nat, wireType: nat, dAtA: bytes, ghost preIndex: nat, iNdEx: nat)
    returns (r: Result<(bytes, nat), Error>)
    requires preIndex <= iNdEx <= |dAtA| < TWO63
    requires ReadTag(dAtA[preIndex..]) == Ok((fieldNum, wireType, iNdEx - preIndex))
    requires fieldNum in schema && schema[fieldNum] == BytesKind
    ensures match NextField(schema, dAtA[preIndex..], preIndex)
            case Ok(p) => r.Ok? && p == (Some(BytesField(fieldNum, r.value.0)), r.value.1 - preIndex)
            case Err(e) => r == Err(e)
    ensures r.Ok? ==> |r.value.0| < |dAtA|
  {
    hide ReadTag, ReadBytes;
    assert dAtA[preIndex..][iNdEx - preIndex..] == dAtA[iNdEx..];
    if wireType != 2 {
      return Err(WrongWireType);
    }
    r := RecordAt(dAtA, iNdEx);
  }

  /** The default branch: back to the tag, and over the whole field. */
  method NextUnknown(ghost schema: Schema, ghost fieldNum: nat, dAtA: bytes, preIndex: nat)
    returns (r: Result<nat, Error>)
    requires preIndex <= |dAtA| < TWO63
    requires ReadTag(dAtA[preIndex..]).Ok? && ReadTag(dAtA[preIndex..]).value.0 == fieldNum && fieldNum !in schema
    ensures match NextField(schema, dAtA[preIndex..], preIndex)
            case Ok(p) => r.Ok? && p == (None, r.value - preIndex)
            case Err(e) => r == Err(e)
  {
    hide ReadTag, Skip;
    var skippy :- SkipEvm(dAtA[preIndex..]);
    SkipBounded(dAtA[preIndex..], 0, 0);
    if Int64(preIndex + skippy) < 0 {
      return Err(InvalidLength);
    }
    if preIndex + skippy > |dAtA| {
      return Err(UnexpectedEOF);
    }
    return Ok(preIndex + skippy);
  }

  lemma {:induction false} SkipBounded(d: bytes, used: nat, depth: nat)
    requires Skip(d, used, depth).Ok?
    ensures Skip(d, used, depth).value < TWO63
    decreases |d|
  {
    hide ReadVarint, SkipBody;
    var (raw, n) := ReadVarint(d, 0).value;
    var body := SkipBody(raw % 8, d[n..]).value;
    var depth' := if raw % 8 == 3 then depth + 1 else if raw % 8 == 4 then depth - 1 else depth;
    if depth' != 0 {
      SkipBounded(d[n + body..], used + n + body, depth');
    }
  }
}
