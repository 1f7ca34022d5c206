/** The wire format below the messages: tags, length-delimited records, the skipping of unknown
    fields and groups, and parsing as a left fold of a message's `apply` over its fields.

    Every generated `Unmarshal` is this fold with its own field table and assignments; the
    functions here take the unread suffix `d` and the index `base` at which it starts, because
    the generated code tells an index that overflows `int` from one that passes the end. */
module Wire {
  import opened Wrappers
  import opened Varint

  datatype Field =
    | VarintField(num: nat, v: uint64)
    | BytesField(num: nat, bs: bytes)

  datatype Kind = VarintKind | BytesKind

  /** Declared field numbers and the wire type each one demands. */
  type Schema = map<int, Kind>

  // ----- conversions between Go's integer types

  function Int64(u: nat): int {
    var w := u % TWO64; if w < TWO63 then w else w - TWO64
  }

  function Int32(u: nat): int {
    var w := u % 0x1_0000_0000; if w < 0x8000_0000 then w else w - 0x1_0000_0000
  }

  // ----- reading one field

  /** A length and that many bytes: the bytes, and how far to advance. */
  function ReadBytes(d: bytes, base: nat): (r: Result<(bytes, nat), Error>)
    ensures r.Ok? ==> |r.value.0| < r.value.1 <= |d|
  {
    var (raw, n) :- ReadVarint(d, 0);
    var len := Int64(raw);
    if len < 0 || base + n + len >= TWO63 then Err(InvalidLength)
    else if n + len > |d| then Err(UnexpectedEOF)
    else Ok((d[n..n + len], n + len))
  }

  /** How far one field body advances the skipping index; the result may pass the end of `d`. */
  function SkipBody(wireType: nat, d: bytes): Result<nat, Error> {
    match wireType
    case 0 => var (_, n) :- ReadVarint(d, 0); Ok(n)
    case 1 => Ok(8)
    case 2 =>
      var (raw, n) :- ReadVarint(d, 0);
      if Int64(raw) < 0 then Err(InvalidLength) else Ok(n + Int64(raw))
    case 3 => Ok(0)
    case 4 => Ok(0)
    case 5 => Ok(4)
    case _ => Err(IllegalWireType)
  }

  /** `skipEvm` with `used` bytes behind it, `d` in front of it and `depth` groups open. */
  function Skip(d: bytes, used: nat, depth: nat): (r: Result<nat, Error>)
    ensures r.Ok? ==> r.value > used
    decreases |d|
  {
    if d == [] then Err(UnexpectedEOF)
    else
      var (raw, n) :- ReadVarint(d, 0);
      var wireType := raw % 8;
      if wireType == 4 && depth == 0 then Err(UnexpectedEndOfGroup)
      else
        var body :- SkipBody(wireType, d[n..]);
        var depth' := if wireType == 3 then depth + 1 else if wireType == 4 then depth - 1 else depth;
        if used + n + body >= TWO63 then Err(InvalidLength)
        else if depth' == 0 then Ok(used + n + body)
        else if n + body > |d| then Err(UnexpectedEOF)
        else Skip(d[n + body..], used + n + body, depth')
  }

  /** Field number, wire type and length of the tag in front of `d`; the number is cut to 32 signed bits. */
  function ReadTag(d: bytes): (r: Result<(nat, nat, nat), Error>)
    ensures r.Ok? ==> r.value.0 > 0 && 1 <= r.value.2 <= |d|
  {
    var (raw, n) :- ReadVarint(d, 0);
    var wire := raw % TWO64;
    if wire % 8 == 4 then Err(EndGroupOutsideGroup)
    else if Int32(wire / 8) <= 0 then Err(IllegalTag)
    else Ok((Int32(wire / 8), wire % 8, n))
  }

  /** The skip of an undeclared field that starts, tag included, at the front of `d`. */
  function SkipField(d: bytes, base: nat): (r: Result<nat, Error>)
    ensures r.Ok? ==> 1 <= r.value <= |d|
  {
    var skippy :- Skip(d, 0, 0);
    if base + skippy >= TWO63 then Err(InvalidLength)
    else if skippy > |d| then Err(UnexpectedEOF)
    else Ok(skippy)
  }

  /** One turn of an `Unmarshal` loop: the declared field read, or `None` for a skipped one, and the advance. */
  function NextField(schema: Schema, d: bytes, base: nat): (r: Result<(Option<Field>, nat), Error>)
    ensures r.Ok? ==> 1 <= r.value.1 <= |d|
    ensures r.Ok? && r.value.0.Some? ==> r.value.0.value.num in schema
  {
    var (fieldNum, wireType, n) :- ReadTag(d);
    if fieldNum in schema then
      match schema[fieldNum]
      case VarintKind =>
        if wireType != 0 then Err(WrongWireType)
        else
          var (v, k) :- ReadVarint(d[n..], 0);
          Ok((Some(VarintField(fieldNum, v % TWO64)), n + k))
      case BytesKind =>
        if wireType != 2 then Err(WrongWireType)
        else
          var (bs, k) :- ReadBytes(d[n..], base + n);
          Ok((Some(BytesField(fieldNum, bs)), n + k))
    else
      var skippy :- SkipField(d, base);
      Ok((None, skippy))
  }

  // ----- a whole message

  function Parse<M>(schema: Schema, apply: (M, Field) -> Result<M, Error>, m: M, d: bytes, base: nat): Result<M, Error>
    decreases |d|
  {
    if d == [] then Ok(m)
    else
      var (f, n) :- NextField(schema, d, base);
      var m' :- if f.Some? then apply(m, f.value) else Ok(m);
      Parse(schema, apply, m', d[n..], base + n)
  }

  /** The fields applied in order, with no bytes involved. */
  function ApplyAll<M>(apply: (M, Field) -> Result<M, Error>, m: M, fs: seq<Field>): Result<M, Error> {
    if fs == [] then Ok(m)
    else
      var m' :- apply(m, fs[0]);
      ApplyAll(apply, m', fs[1..])
  }

  lemma {:induction false} ApplyAllAppend<M>(apply: (M, Field) -> Result<M, Error>, m: M, fs: seq<Field>,
          gs: seq<Field>)
    ensures ApplyAll(apply, m, fs + gs) ==
            match ApplyAll(apply, m, fs) case Ok(m') => ApplyAll(apply, m', gs) case Err(e) => Err(e)
  {
    if fs == [] {
      assert fs + gs == gs;
    } else {
      assert (fs + gs)[1..] == fs[1..] + gs;
      if apply(m, fs[0]).Ok? {
        ApplyAllAppend(apply, apply(m, fs[0]).value, fs[1..], gs);
      }
    }
  }

  // ----- writing fields

  function EncField(f: Field): bytes {
    match f
    case VarintField(num, v) => EncVarint(8 * num) + EncVarint(v)
    case BytesField(num, bs) => EncVarint(8 * num + 2) + (EncVarint(|bs|) + bs)
  }

  function EncFields(fs: seq<Field>): bytes {
    if fs == [] then [] else EncField(fs[0]) + EncFields(fs[1..])
  }

  lemma {:induction false} EncFieldsAppend(fs: seq<Field>, gs: seq<Field>)
    ensures EncFields(fs + gs) == EncFields(fs) + EncFields(gs)
  {
    if fs == [] {
      assert fs + gs == gs;
    } else {
      assert (fs + gs)[1..] == fs[1..] + gs;
      EncFieldsAppend(fs[1..], gs);
    }
  }

  /** A field is no longer than the list it is in, and its bytes are shorter than itself. */
  lemma {:induction false} FieldFits(fs: seq<Field>, f: Field)
    requires f in fs
    ensures |EncField(f)| <= |EncFields(fs)|
    ensures f.BytesField? ==> |f.bs| < |EncField(f)|
    decreases |fs|
  {
    if f != fs[0] {
      FieldFits(fs[1..], f);
    }
  }

  /** The field is declared with the wire type it carries. */
  predicate Conforms(schema: Schema, f: Field) {
    && 0 < f.num < 0x2000_0000
    && f.num in schema
    && schema[f.num] == if f.VarintField? then VarintKind else BytesKind
  }

  predicate AllConform(schema: Schema, fs: seq<Field>) {
    forall f | f in fs :: Conforms(schema, f)
  }

  // ----- round trip at the wire level

  lemma TagRoundTrip(num: nat, wireType: nat, rest: bytes)
    requires 0 < num < 0x2000_0000 && wireType < 8 && wireType != 4
    ensures var tag := EncVarint(8 * num + wireType);
            ReadTag(tag + rest) == Ok((num, wireType, |tag|))
  {
    hide ReadVarint, EncVarint;
    Uint64RoundTrip(8 * num + wireType, rest);
    assert (8 * num + wireType) / 8 == num && (8 * num + wireType) % 8 == wireType;
  }

  lemma ReadBytesRoundTrip(bs: bytes, rest: bytes, base: nat)
    requires base + |EncVarint(|bs|)| + |bs| < TWO63
    ensures ReadBytes((EncVarint(|bs|) + bs) + rest, base) == Ok((bs, |EncVarint(|bs|) + bs|))
  {
    hide ReadVarint, EncVarint;
    var d := (EncVarint(|bs|) + bs) + rest;
    assert d == EncVarint(|bs|) + (bs + rest);
    Uint64RoundTrip(|bs|, bs + rest);
    assert d[|EncVarint(|bs|)|..|EncVarint(|bs|)| + |bs|] == bs;
  }

  /** A written field in front of anything is read back as itself. */
  lemma NextFieldRoundTrip(schema: Schema, f: Field, rest: bytes, base: nat)
    requires Conforms(schema, f)
    requires base + |EncField(f)| < TWO63
    ensures NextField(schema, EncField(f) + rest, base) == Ok((Some(f), |EncField(f)|))
  {
    hide ReadVarint, EncVarint, ReadBytes, ReadTag;
    var d := EncField(f) + rest;
    match f
    case VarintField(num, v) =>
      var tag := EncVarint(8 * num);
      assert d == tag + (EncVarint(v) + rest);
      TagRoundTrip(num, 0, EncVarint(v) + rest);
      assert d[|tag|..] == EncVarint(v) + rest;
      Uint64RoundTrip(v, rest);
    case BytesField(num, bs) =>
      var tag := EncVarint(8 * num + 2);
      var body := EncVarint(|bs|) + bs;
      assert d == tag + (body + rest);
      TagRoundTrip(num, 2, body + rest);
      assert d[|tag|..] == body + rest;
      ReadBytesRoundTrip(bs, rest, base + |tag|);
  }

  /** Parsing the bytes of well-typed fields is applying the fields. */
  lemma {:induction false} ParseOfEncoded<M>(schema: Schema, apply: (M, Field) -> Result<M, Error>, m: M,
          fs: seq<Field>, base: nat)
    requires AllConform(schema, fs)
    requires base + |EncFields(fs)| < TWO63
    ensures Parse(schema, apply, m, EncFields(fs), base) == ApplyAll(apply, m, fs)
  {
    hide NextField;
    if fs != [] {
      var rest := EncFields(fs[1..]);
      assert Conforms(schema, fs[0]);
      NextFieldRoundTrip(schema, fs[0], rest, base);
      assert EncFields(fs)[|EncField(fs[0])|..] == rest;
      if apply(m, fs[0]).Ok? {
        ParseOfEncoded(schema, apply, apply(m, fs[0]).value, fs[1..], base + |EncField(fs[0])|);
      }
    }
  }

  // ----- parsing is a fold

  lemma ReadBytesPrefix(xs: bytes, ys: bytes, base: nat)
    requires ReadBytes(xs, base).Ok?
    ensures ReadBytes(xs + ys, base) == ReadBytes(xs, base)
  {
    ReadVarintPrefix(xs, ys, 0);
    var n := ReadVarint(xs, 0).value.1;
    var len := Int64(ReadVarint(xs, 0).value.0);
    assert (xs + ys)[n..n + len] == xs[n..n + len];
  }

  lemma SkipBodyPrefix(wireType: nat, xs: bytes, ys: bytes)
    requires SkipBody(wireType, xs).Ok?
    ensures SkipBody(wireType, xs + ys) == SkipBody(wireType, xs)
  {
    if wireType == 0 || wireType == 2 {
      ReadVarintPrefix(xs, ys, 0);
    }
  }

  /** A skip that stays inside its input does not depend on what follows it. */
  lemma {:induction false} SkipPrefix(xs: bytes, ys: bytes, used: nat, depth: nat)
    requires Skip(xs, used, depth).Ok?
    ensures Skip(xs + ys, used, depth) == Skip(xs, used, depth)
    decreases |xs|
  {
    hide ReadVarint, SkipBody;
    ReadVarintPrefix(xs, ys, 0);
    var (raw, n) := ReadVarint(xs, 0).value;
    var wireType := raw % 8;
    assert (xs + ys)[n..] == xs[n..] + ys;
    SkipBodyPrefix(wireType, xs[n..], ys);
    var body := SkipBody(wireType, xs[n..]).value;
    var depth' := if wireType == 3 then depth + 1 else if wireType == 4 then depth - 1 else depth;
    if depth' != 0 {
      assert (xs + ys)[n + body..] == xs[n + body..] + ys;
      SkipPrefix(xs[n + body..], ys, used + n + body, depth');
    }
  }

  lemma ReadTagPrefix(xs: bytes, ys: bytes)
    requires ReadTag(xs).Ok?
    ensures ReadTag(xs + ys) == ReadTag(xs)
  {
    ReadVarintPrefix(xs, ys, 0);
  }

  lemma NextFieldPrefix(schema: Schema, xs: bytes, ys: bytes, base: nat)
    requires NextField(schema, xs, base).Ok?
    ensures NextField(schema, xs + ys, base) == NextField(schema, xs, base)
  {
    hide ReadTag, Skip, ReadVarint, ReadBytes;
    ReadTagPrefix(xs, ys);
    var (fieldNum, _, n) := ReadTag(xs).value;
    assert (xs + ys)[n..] == xs[n..] + ys;
    if fieldNum in schema {
      if schema[fieldNum] == VarintKind {
        ReadVarintPrefix(xs[n..], ys, 0);
      } else {
        ReadBytesPrefix(xs[n..], ys, base + n);
      }
    } else {
      SkipPrefix(xs, ys, 0, 0);
    }
  }

  /** If `xs` parses, then parsing `xs + ys` is parsing `ys` into the result. */
  lemma {:induction false} ParseIsFold<M>(schema: Schema, apply: (M, Field) -> Result<M, Error>, m: M, xs: bytes,
          ys: bytes, base: nat)
    requires Parse(schema, apply, m, xs, base).Ok?
    ensures Parse(schema, apply, m, xs + ys, base) ==
            Parse(schema, apply, Parse(schema, apply, m, xs, base).value, ys, base + |xs|)
    decreases |xs|
  {
    hide NextField;
    if xs == [] {
      assert xs + ys == ys;
    } else {
      NextFieldPrefix(schema, xs, ys, base);
      var (f, n) := NextField(schema, xs, base).value;
      var m' := if f.Some? then apply(m, f.value).value else m;
      assert (xs + ys)[n..] == xs[n..] + ys;
      ParseIsFold(schema, apply, m', xs[n..], ys, base + n);
    }
  }

  lemma NextFieldStart(schema: Schema, d: bytes, base: nat, base': nat)
    requires base' + |d| < TWO63 && NextField(schema, d, base).Ok?
    ensures NextField(schema, d, base') == NextField(schema, d, base)
  {
    hide ReadVarint, Skip, ReadTag;
  }

  /** Where a buffer starts decides at most which error a malformed one reports. */
  lemma {:induction false} StartIrrelevant<M>(schema: Schema, apply: (M, Field) -> Result<M, Error>, m: M, d: bytes,
          base: nat, base': nat)
    requires base + |d| < TWO63 && base' + |d| < TWO63
    requires Parse(schema, apply, m, d, base).Ok?
    ensures Parse(schema, apply, m, d, base') == Parse(schema, apply, m, d, base)
    decreases |d|
  {
    hide NextField;
    if d != [] {
      NextFieldStart(schema, d, base, base');
      var (f, n) := NextField(schema, d, base).value;
      var m' := if f.Some? then apply(m, f.value).value else m;
      StartIrrelevant(schema, apply, m', d[n..], base + n, base' + n);
    }
  }

  /** The fold law for whole buffers: for an `xs` that parses, `xs + ys` parses exactly when `ys`
      parses into the result of `xs`, and then to the same message. */
  lemma ParseConcat<M>(schema: Schema, apply: (M, Field) -> Result<M, Error>, m: M, xs: bytes, ys: bytes)
    requires |xs| + |ys| < TWO63
    requires Parse(schema, apply, m, xs, 0).Ok?
    ensures var mid := Parse(schema, apply, m, xs, 0).value;
            var whole := Parse(schema, apply, m, xs + ys, 0);
            var second := Parse(schema, apply, mid, ys, 0);
            (whole.Ok? <==> second.Ok?) && (whole.Ok? ==> whole == second)
  {
    hide Parse;
    ParseIsFold(schema, apply, m, xs, ys, 0);
    var mid := Parse(schema, apply, m, xs, 0).value;
    if Parse(schema, apply, mid, ys, 0).Ok? {
      StartIrrelevant(schema, apply, mid, ys, 0, |xs|);
    }
    if Parse(schema, apply, mid, ys, |xs|).Ok? {
      StartIrrelevant(schema, apply, mid, ys, |xs|, 0);
    }
  }

  // ----- unknown fields

  /** Any field a newer schema may have written; inside a group the field numbers are never looked at. */
  datatype Unknown =
    | UVarint(num: nat, v: uint64)
    | UFixed64(num: nat, bs: bytes)
    | UBytes(num: nat, bs: bytes)
    | UGroup(num: nat, members: UnknownList, closing: nat)
    | UFixed32(num: nat, bs: bytes)

  datatype UnknownList = UNil | UCons(head: Unknown, tail: UnknownList)

  /** Tags fit 64 bits and fixed-width bodies have their width. */
  predicate WellFormed(u: Unknown) {
    && u.num < 0x2000_0000_0000_0000
    && match u
       case UFixed64(_, bs) => |bs| == 8
       case UFixed32(_, bs) => |bs| == 4
       case UGroup(_, members, closing) => closing < 0x2000_0000_0000_0000 && AllWellFormed(members)
       case _ => true
  }

  predicate AllWellFormed(us: UnknownList) {
    us.UNil? || (WellFormed(us.head) && AllWellFormed(us.tail))
  }

  function WireTypeOf(u: Unknown): nat {
    match u
    case UVarint(_, _) => 0
    case UFixed64(_, _) => 1
    case UBytes(_, _) => 2
    case UGroup(_, _, _) => 3
    case UFixed32(_, _) => 5
  }

  /** What follows the tag; a group's body ends with a closing tag. */
  function EncBody(u: Unknown): bytes
    decreases u, 0
  {
    match u
    case UVarint(_, v) => EncVarint(v)
    case UFixed64(_, bs) => bs
    case UBytes(_, bs) => EncVarint(|bs|) + bs
    case UGroup(_, members, closing) => EncUnknowns(members) + EncVarint(8 * closing + 4)
    case UFixed32(_, bs) => bs
  }

  function EncUnknown(u: Unknown): bytes
    decreases u, 1
  {
    EncVarint(8 * u.num + WireTypeOf(u)) + EncBody(u)
  }

  function EncUnknowns(us: UnknownList): bytes {
    if us.UNil? then [] else EncUnknown(us.head) + EncUnknowns(us.tail)
  }

  /** One tag and its body are stepped over; what remains is skipped at the new depth. */
  lemma SkipStep(wire: nat, body: bytes, rest: bytes, used: nat, depth: nat)
    requires wire < TWO64 && (wire % 8 == 4 ==> depth > 0)
    requires SkipBody(wire % 8, body + rest) == Ok(|body|)
    requires used + |EncVarint(wire)| + |body| < TWO63
    ensures var depth' := if wire % 8 == 3 then depth + 1 else if wire % 8 == 4 then depth - 1 else depth;
            var used' := used + |EncVarint(wire)| + |body|;
            Skip(EncVarint(wire) + (body + rest), used, depth)
            == if depth' == 0 then Ok(used') else Skip(rest, used', depth')
  {
    hide ReadVarint, EncVarint, SkipBody;
    var d := EncVarint(wire) + (body + rest);
    var n := |EncVarint(wire)|;
    Uint64RoundTrip(wire, body + rest);
    assert d[n..] == body + rest;
    assert d[n + |body|..] == rest;
  }

  lemma SkipFlatBody(u: Unknown, rest: bytes)
    requires WellFormed(u) && !u.UGroup? && |EncBody(u)| < TWO63
    ensures SkipBody(WireTypeOf(u), EncBody(u) + rest) == Ok(|EncBody(u)|)
  {
    hide ReadVarint, EncVarint;
    match u
    case UVarint(_, v) =>
      Uint64RoundTrip(v, rest);
    case UBytes(_, bs) =>
      assert (EncVarint(|bs|) + bs) + rest == EncVarint(|bs|) + (bs + rest);
      Uint64RoundTrip(|bs|, bs + rest);
    case _ =>
  }

  /** A well-formed unknown field, groups nested to any depth included, is stepped over whole. */
  lemma {:induction false} SkipUnknown(u: Unknown, rest: bytes, used: nat, depth: nat)
    requires WellFormed(u) && used + |EncUnknown(u)| < TWO63
    ensures var used' := used + |EncUnknown(u)|;
            Skip(EncUnknown(u) + rest, used, depth) == if depth == 0 then Ok(used') else Skip(rest, used', depth)
    decreases u, 1
  {
    hide Skip, SkipBody, EncVarint, EncUnknowns;
    var wire := 8 * u.num + WireTypeOf(u);
    assert EncUnknown(u) + rest == EncVarint(wire) + (EncBody(u) + rest);
    if u.UGroup? {
      SkipGroup(u, rest, used, depth);
    } else {
      SkipFlatBody(u, rest);
      SkipStep(wire, EncBody(u), rest, used, depth);
    }
  }

  lemma {:induction false} SkipGroup(u: Unknown, rest: bytes, used: nat, depth: nat)
    requires u.UGroup? && WellFormed(u) && used + |EncUnknown(u)| < TWO63
    ensures var used' := used + |EncUnknown(u)|;
            Skip(EncUnknown(u) + rest, used, depth) == if depth == 0 then Ok(used') else Skip(rest, used', depth)
    decreases u, 0
  {
    hide Skip, EncVarint, EncUnknowns, SkipBody;
    var opening, closing := 8 * u.num + 3, 8 * u.closing + 4;
    var open, inner, close := EncVarint(opening), EncUnknowns(u.members), EncVarint(closing);
    var after := inner + (close + rest);
    assert EncUnknown(u) + rest == open + ([] + after);
    SkipEmptyBodies(after);
    SkipStep(opening, [], after, used, depth);
    SkipUnknowns(u.members, close + rest, used + |open|, depth + 1);
    assert close + rest == close + ([] + rest);
    SkipEmptyBodies(rest);
    SkipStep(closing, [], rest, used + |open| + |inner|, depth + 1);
  }

  lemma SkipEmptyBodies(rest: bytes)
    ensures SkipBody(3, [] + rest) == Ok(0) && SkipBody(4, [] + rest) == Ok(0)
  {
  }

  lemma {:induction false} SkipUnknowns(us: UnknownList, rest: bytes, used: nat, depth: nat)
    requires AllWellFormed(us) && depth > 0 && used + |EncUnknowns(us)| < TWO63
    ensures Skip(EncUnknowns(us) + rest, used, depth) == Skip(rest, used + |EncUnknowns(us)|, depth)
    decreases us, 1
  {
    hide Skip, EncUnknown;
    if us.UNil? {
      assert EncUnknowns(us) + rest == rest;
    } else {
      var more := EncUnknowns(us.tail) + rest;
      assert EncUnknowns(us) + rest == EncUnknown(us.head) + more;
      SkipUnknown(us.head, more, used, depth);
      SkipUnknowns(us.tail, rest, used + |EncUnknown(us.head)|, depth);
    }
  }

  lemma NextFieldUnknown(schema: Schema, u: Unknown, rest: bytes, base: nat)
    requires WellFormed(u) && 0 < u.num < 0x2000_0000 && u.num !in schema
    requires base + |EncUnknown(u)| < TWO63
    ensures NextField(schema, EncUnknown(u) + rest, base) == Ok((None, |EncUnknown(u)|))
  {
    hide Skip, EncUnknown, ReadTag;
    UnknownTag(u, rest);
    SkipUnknown(u, rest, 0, 0);
  }

  /** A well-formed field the schema does not declare may be put between a message's bytes that
      parse and any others: parsing succeeds as before, with the same message. */
  lemma UnknownFieldIgnored<M>(schema: Schema, apply: (M, Field) -> Result<M, Error>, m: M, xs: bytes, u: Unknown,
          ys: bytes)
    requires WellFormed(u) && 0 < u.num < 0x2000_0000 && u.num !in schema
    requires |xs| + |EncUnknown(u)| + |ys| < TWO63
    requires Parse(schema, apply, m, xs, 0).Ok?
    ensures var with, without :=
        Parse(schema, apply, m, xs + (EncUnknown(u) + ys), 0), Parse(schema, apply, m, xs + ys, 0);
            (with.Ok? <==> without.Ok?) && (with.Ok? ==> with == without)
  {
    hide NextField, EncUnknown, WellFormed;
    var mid := Parse(schema, apply, m, xs, 0).value;
    var e := EncUnknown(u);
    ParseIsFold(schema, apply, m, xs, ys, 0);
    ParseIsFold(schema, apply, m, xs, e + ys, 0);
    NextFieldUnknown(schema, u, ys, |xs|);
    assert (e + ys)[|e|..] == ys;
    if Parse(schema, apply, mid, ys, |xs|).Ok? {
      StartIrrelevant(schema, apply, mid, ys, |xs|, |xs| + |e|);
    }
    if Parse(schema, apply, mid, ys, |xs| + |e|).Ok? {
      StartIrrelevant(schema, apply, mid, ys, |xs| + |e|, |xs|);
    }
  }

  lemma UnknownTag(u: Unknown, rest: bytes)
    requires 0 < u.num < 0x2000_0000
    ensures var r := ReadTag(EncUnknown(u) + rest);
            r.Ok? && r.value.0 == u.num
  {
    hide ReadTag, EncVarint, EncBody;
    assert EncUnknown(u) + rest == EncVarint(8 * u.num + WireTypeOf(u)) + (EncBody(u) + rest);
    TagRoundTrip(u.num, WireTypeOf(u), EncBody(u) + rest);
  }
}
