/** Base-128 varints: the digits `encodeVarintEvm` writes, the length `sovEvm`
    predicts, and the accumulating loop every reader in the file repeats. */
module Varint {
  import opened Wrappers

  type byte = b: nat | b < 0x100
  type bytes = seq<byte>
  type uint64 = v: nat | v < 0x1_0000_0000_0000_0000

  const TWO64: nat := 0x1_0000_0000_0000_0000
  const TWO63: nat := 0x8000_0000_0000_0000

  datatype Error =
    | IntOverflow | UnexpectedEOF | InvalidLength | UnexpectedEndOfGroup
    | EndGroupOutsideGroup | IllegalTag | WrongWireType | IllegalWireType
    | ForeignCodec

  // ----- digits

  /** The base-128 digits of `v`, least significant first, all but the last with the continuation bit. */
  function EncVarint(v: nat): (d: bytes)
    ensures |d| >= 1
  {
    if v < 0x80 then [v] else [v % 0x80 + 0x80] + EncVarint(v / 0x80)
  }

  /** Reads digits from the front of `d`, `k` of them having been read before: the value without
      truncation, and the number of bytes taken. */
  function ReadVarint(d: bytes, k: nat): (r: Result<(nat, nat), Error>)
    ensures r.Ok? ==> 1 <= r.value.1 <= |d|
  {
    if k >= 10 then Err(IntOverflow)
    else if d == [] then Err(UnexpectedEOF)
    else if d[0] < 0x80 then Ok((d[0], 1))
    else
      var (v, n) :- ReadVarint(d[1..], k + 1);
      Ok((d[0] % 0x80 + 0x80 * v, n + 1))
  }

  /** `x` moved up by `k` digits. */
  function Scaled(x: nat, k: nat): nat {
    if k == 0 then x else 0x80 * Scaled(x, k - 1)
  }

  lemma ScaledAdd(x: nat, y: nat, k: nat)
    ensures Scaled(x + y, k) == Scaled(x, k) + Scaled(y, k)
  {
    if k > 0 { ScaledAdd(x, y, k - 1); }
  }

  lemma ScaledDigit(x: nat, k: nat)
    ensures Scaled(0x80 * x, k) == Scaled(x, k + 1)
  {
  }

  lemma ScaledMonotone(x: nat, y: nat, k: nat)
    requires x <= y
    ensures Scaled(x, k) <= Scaled(y, k)
  {
  }

  lemma ScaledTable(x: nat)
    ensures Scaled(x, 0) == x && Scaled(x, 1) == 0x80 * x && Scaled(x, 2) == 0x4000 * x && Scaled(x, 3) == 0x20_0000 * x
    ensures Scaled(x, 4) == 0x1000_0000 * x && Scaled(x, 5) == 0x8_0000_0000 * x
    ensures Scaled(x, 6) == 0x400_0000_0000 * x && Scaled(x, 7) == 0x2_0000_0000_0000 * x
    ensures Scaled(x, 8) == 0x100_0000_0000_0000 * x && Scaled(x, 9) == TWO63 * x
    ensures Scaled(x, 10) == 0x40_0000_0000_0000_0000 * x
  {
    assert Scaled(x, 1) == 0x80 * x && Scaled(x, 2) == 0x80 * Scaled(x, 1) && Scaled(x, 3) == 0x80 * Scaled(x, 2);
    assert Scaled(x, 4) == 0x80 * Scaled(x, 3) && Scaled(x, 5) == 0x80 * Scaled(x, 4);
    assert Scaled(x, 6) == 0x80 * Scaled(x, 5) && Scaled(x, 7) == 0x80 * Scaled(x, 6);
    assert Scaled(x, 8) == 0x80 * Scaled(x, 7) && Scaled(x, 9) == 0x80 * Scaled(x, 8);
  }

  /** What is written is read back, whatever follows it. */
  lemma {:induction false} VarintRoundTrip(v: nat, rest: bytes, k: nat)
    requires k < 10 && v < Scaled(1, 10 - k)
    ensures ReadVarint(EncVarint(v) + rest, k) == Ok((v, |EncVarint(v)|))
  {
    var d := EncVarint(v) + rest;
    if v >= 0x80 {
      ScaledTable(1);
      VarintRoundTrip(v / 0x80, rest, k + 1);
      assert d[1..] == EncVarint(v / 0x80) + rest;
    }
  }

  lemma Uint64RoundTrip(v: uint64, rest: bytes)
    ensures ReadVarint(EncVarint(v) + rest, 0) == Ok((v, |EncVarint(v)|))
  {
    ScaledTable(1);
    VarintRoundTrip(v, rest, 0);
  }

  /** A successful read looks at nothing behind the bytes it takes. */
  lemma {:induction false} ReadVarintPrefix(xs: bytes, ys: bytes, k: nat)
    requires ReadVarint(xs, k).Ok?
    ensures ReadVarint(xs + ys, k) == ReadVarint(xs, k)
  {
    if xs[0] >= 0x80 {
      ReadVarintPrefix(xs[1..], ys, k + 1);
      assert (xs + ys)[1..] == xs[1..] + ys;
    }
  }

  // ----- length prediction

  /** Number of bits needed to write `n` in base two (`bits.Len64`). */
  function BitLen(n: nat): nat {
    if n == 0 then 0 else 1 + BitLen(n / 2)
  }

  /** `sovEvm`; setting bit zero leaves an odd number alone and adds one to an even one. */
  function Sov(x: nat): nat {
    (BitLen(if x % 2 == 0 then x + 1 else x) + 6) / 7
  }

  lemma BitLenShift7(n: nat)
    requires n >= 0x80
    ensures BitLen(n) == 7 + BitLen(n / 0x80)
  {
    var n1 := n / 2; var n2 := n1 / 2; var n3 := n2 / 2; var n4 := n3 / 2;
    var n5 := n4 / 2; var n6 := n5 / 2; var n7 := n6 / 2;
    assert BitLen(n) == 1 + BitLen(n1) && BitLen(n1) == 1 + BitLen(n2) && BitLen(n2) == 1 + BitLen(n3);
    assert BitLen(n3) == 1 + BitLen(n4) && BitLen(n4) == 1 + BitLen(n5) && BitLen(n5) == 1 + BitLen(n6);
    assert n7 == n / 0x80;
  }

  lemma BitLenSetLowBit(n: nat)
    requires n >= 2
    ensures BitLen(n) == BitLen(if n % 2 == 0 then n + 1 else n)
  {
  }

  lemma BitLenSmall(n: nat)
    requires 1 <= n < 0x80
    ensures 1 <= BitLen(n) <= 7
  {
    var n1 := n / 2; var n2 := n1 / 2; var n3 := n2 / 2; var n4 := n3 / 2; var n5 := n4 / 2; var n6 := n5 / 2;
    assert n6 <= 1;
    assert BitLen(n6) <= 1;
    assert BitLen(n5) <= 2;
    assert BitLen(n4) <= 3;
    assert BitLen(n3) <= 4;
    assert BitLen(n2) <= 5;
    assert BitLen(n1) <= 6;
  }

  /** The size formula is exactly the number of digits written. */
  lemma {:induction false} SovIsDigitCount(v: nat)
    ensures Sov(v) == |EncVarint(v)|
  {
    if v < 0x80 {
      BitLenSmall(if v % 2 == 0 then v + 1 else v);
    } else {
      SovIsDigitCount(v / 0x80);
      BitLenShift7(v);
      BitLenSetLowBit(v);
      if v / 0x80 >= 2 {
        BitLenSetLowBit(v / 0x80);
      } else {
        assert v / 0x80 == 1;
      }
    }
  }

  // ----- bitwise or

  /** Go's `|` on unsigned words, lowest bit first. */
  function Or(a: nat, b: nat): nat
    decreases a + b
  {
    if a == 0 && b == 0 then 0 else 2 * Or(a / 2, b / 2) + if a % 2 == 1 || b % 2 == 1 then 1 else 0
  }

  function ShiftLeft(x: nat, n: nat): nat {
    if n == 0 then x else 2 * ShiftLeft(x, n - 1)
  }

  lemma {:induction false} OrZero(b: nat)
    ensures Or(0, b) == b
  {
    if b > 0 {
      OrZero(b / 2);
    }
  }

  /** Or-ing in bits from place `n` on above a word that has none there is addition. */
  lemma {:induction false} OrOfShifted(w: nat, g: nat, n: nat)
    requires w < ShiftLeft(1, n)
    ensures Or(w, ShiftLeft(g, n)) == w + ShiftLeft(g, n)
  {
    if n == 0 {
      OrZero(g);
    } else {
      OrOfShifted(w / 2, g, n - 1);
    }
  }

  /** `v&0x7f | 0x80` */
  lemma ContinuationBit(v: nat)
    ensures Or(v % 0x80, 0x80) == v % 0x80 + 0x80
  {
    assert ShiftLeft(1, 3) == 8 && ShiftLeft(1, 7) == 0x80 by {
      assert ShiftLeft(1, 5) == 0x20;
    }
    OrOfShifted(v % 0x80, 1, 7);
  }

  // ----- the two loops

  /** `now` is `was` with `written` over the bytes from `base` on. */
  ghost predicate Overwritten(now: bytes, was: bytes, base: nat, written: bytes) {
    base + |written| <= |was| && now == was[..base] + written + was[base + |written|..]
  }

  lemma NothingWritten(was: bytes, base: nat)
    requires base <= |was|
    ensures Overwritten(was, was, base, [])
  {
  }

  lemma OverwriteNext(before: bytes, was: bytes, base: nat, written: bytes, x: byte)
    requires Overwritten(before, was, base, written) && base + |written| < |was|
    ensures base + |written| < |before| && Overwritten(before[base + |written| := x], was, base, written + [x])
  {
  }

  lemma FirstDigit(written: bytes, w: uint64)
    requires w >= 0x80
    ensures var x: byte := w % 0x80 + 0x80;
            |EncVarint(w)| == 1 + |EncVarint(w / 0x80)|
                && (written + [x]) + EncVarint(w / 0x80) == written + EncVarint(w)
  {
    var x: byte := w % 0x80 + 0x80;
    assert EncVarint(w) == [x] + EncVarint(w / 0x80);
  }

  lemma LastDigit(w: nat)
    ensures |EncVarint(w)| >= 1 && (w < 0x80 ==> EncVarint(w) == [w as byte])
  {
  }

  /** `encodeVarintEvm`: reserves the digits' room in front of `offset`, then writes them upwards. */
  method EncodeVarint(dAtA: array<byte>, offset: nat, v: uint64) returns (base: nat)
    requires Sov(v) <= offset <= dAtA.Length
    modifies dAtA
    ensures base == offset - Sov(v)
    ensures dAtA[..] == old(dAtA[..base]) + EncVarint(v) + old(dAtA[offset..])
  {
    hide Sov, EncVarint, Overwritten, Or;
    SovIsDigitCount(v);
    LastDigit(v);
    base := offset - Sov(v);
    ghost var was, written: bytes := dAtA[..], [];
    NothingWritten(was, base);
    var off, w := base, v as nat;
    while w >= 0x80
      invariant written + EncVarint(w) == EncVarint(v)
      invariant off == base + |written| && off + |EncVarint(w)| == offset
      invariant Overwritten(dAtA[..], was, base, written)
    {
      ghost var before, x: byte := dAtA[..], w % 0x80 + 0x80;
      FirstDigit(written, w);
      LastDigit(w / 0x80);
      OverwriteNext(before, was, base, written, x);
      ContinuationBit(w);
      dAtA[off] := Or(w % 0x80, 0x80);
      assert dAtA[..] == before[off := x];
      written := written + [x];
      w := w / 0x80;
      off := off + 1;
    }
    ghost var before := dAtA[..];
    LastDigit(w);
    OverwriteNext(before, was, base, written, w);
    dAtA[off] := w;
    assert dAtA[..] == before[off := w];
    WholeWritten(dAtA[..], was, base, EncVarint(v));
  }

  lemma WholeWritten(now: bytes, was: bytes, base: nat, digits: bytes)
    requires Overwritten(now, was, base, digits)
    ensures now == was[..base] + digits + was[base + |digits|..]
  {
  }

  /** `goal` is the outcome of a read that has taken `k` digits worth `raw` and has `d` in front of it. */
  ghost predicate Pending(goal: Result<(nat, nat), Error>, d: bytes, raw: nat, k: nat) {
    var here := ReadVarint(d, k);
    if here.Ok? then goal == Ok((raw + Scaled(here.value.0, k), k + here.value.1)) else goal == here
  }

  lemma PendingStart(d: bytes)
    ensures Pending(ReadVarint(d, 0), d, 0, 0) && Scaled(1, 0) == 1
  {
  }

  lemma PendingError(goal: Result<(nat, nat), Error>, d: bytes, raw: nat, k: nat)
    requires Pending(goal, d, raw, k)
    ensures k >= 10 ==> goal == Err(IntOverflow)
    ensures k < 10 && d == [] ==> goal == Err(UnexpectedEOF)
  {
  }

  lemma PendingStep(goal: Result<(nat, nat), Error>, d: bytes, raw: nat, k: nat)
    requires Pending(goal, d, raw, k) && d != [] && k < 10
    ensures d[0] < 0x80 ==> goal == Ok((raw + Scaled(d[0], k), k + 1))
    ensures d[0] >= 0x80 ==> Pending(goal, d[1..], raw + Scaled(d[0] % 0x80, k), k + 1)
  {
    if d[0] >= 0x80 && ReadVarint(d[1..], k + 1).Ok? {
      var v := ReadVarint(d[1..], k + 1).value.0;
      ScaledAdd(d[0] % 0x80, 0x80 * v, k);
      ScaledDigit(v, k);
    }
  }

  /** `uint64(c) << shift`: bits pushed past bit 63 are lost. */
  function GroupAt(c: nat, shift: nat): nat {
    ShiftLeft(c, shift) % TWO64
  }

  lemma ShiftByGroups(x: nat, k: nat)
    ensures ShiftLeft(x, 7 * k) == Scaled(x, k)
  {
    if k > 0 {
      ShiftByGroups(x, k - 1);
      var n := 7 * k;
      assert ShiftLeft(x, n) == 2 * ShiftLeft(x, n - 1) && ShiftLeft(x, n - 1) == 2 * ShiftLeft(x, n - 2);
      assert ShiftLeft(x, n - 2) == 2 * ShiftLeft(x, n - 3) && ShiftLeft(x, n - 3) == 2 * ShiftLeft(x, n - 4);
      assert ShiftLeft(x, n - 4) == 2 * ShiftLeft(x, n - 5) && ShiftLeft(x, n - 5) == 2 * ShiftLeft(x, n - 6);
      assert ShiftLeft(x, n - 6) == 2 * ShiftLeft(x, n - 7);
    }
  }

  lemma GroupBounds(raw: nat, c: nat, k: nat)
    requires raw < Scaled(1, k) && c < 0x80
    ensures raw + Scaled(c, k) < Scaled(1, k + 1)
  {
    ScaledAdd(c, 1, k);
    ScaledMonotone(c + 1, 0x80, k);
    ScaledDigit(1, k);
  }

  /** Of the tenth group only its lowest bit stays, as bit 63. */
  lemma TenthGroup(c: nat)
    ensures (TWO63 * c) % TWO64 == if c % 2 == 0 then 0 else TWO63
  {
    var h := c / 2;
    assert TWO63 * c == TWO64 * h + TWO63 * (c % 2);
  }

  /** A group shifted into a 64-bit word is some number of bits above all those below its place. */
  lemma GroupIsShifted(c: nat, k: nat) returns (g: nat)
    requires k < 10 && c < 0x80
    ensures GroupAt(c, 7 * k) == ShiftLeft(g, 7 * k)
  {
    hide Scaled, ShiftLeft;
    ShiftByGroups(c, k);
    ScaledTable(1);
    g := c;
    if k == 9 {
      g := c % 2;
      ScaledTable(c);
      ScaledTable(g);
      TenthGroup(c);
      ShiftByGroups(g, k);
    } else {
      GroupBounds(0, c, k);
      assert Scaled(1, k + 1) <= TWO63;
    }
  }

  lemma AccumulateGroup(raw: nat, wire: nat, c: nat, k: nat)
    requires k < 10 && raw < Scaled(1, k) && wire == raw % TWO64 && c < 0x80
    ensures raw + Scaled(c, k) < Scaled(1, k + 1)
    ensures Or(wire, GroupAt(c, 7 * k)) == (raw + Scaled(c, k)) % TWO64
  {
    hide Scaled, ShiftLeft, Or;
    GroupBounds(raw, c, k);
    ScaledTable(1);
    assert wire == raw;
    ShiftByGroups(1, k);
    var g := GroupIsShifted(c, k);
    OrOfShifted(wire, g, 7 * k);
    ShiftByGroups(c, k);
    if k == 9 {
      ScaledTable(c);
      TenthGroup(c);
    }
  }

  /** The read loop: groups are or-ed into a 64-bit word, so bits of the tenth group above bit 63
      are lost. */
  method DecodeVarint(dAtA: bytes, start: nat) returns (r: Result<(uint64, nat), Error>)
    requires start <= |dAtA|
    ensures match ReadVarint(dAtA[start..], 0)
            case Ok(p) => r == Ok((p.0 % TWO64, start + p.1))
            case Err(e) => r == Err(e)
  {
    hide ReadVarint, Scaled, GroupAt, Pending, Or;
    var shift, iNdEx: nat, wire: uint64 := 0, start, 0;
    ghost var k: nat, raw: nat := 0, 0;
    ghost var goal := ReadVarint(dAtA[start..], 0);
    PendingStart(dAtA[start..]);
    while true
      invariant start <= iNdEx <= |dAtA|
      invariant k <= 10 && shift == 7 * k && iNdEx == start + k
      invariant raw < Scaled(1, k) && wire == raw % TWO64
      invariant Pending(goal, dAtA[iNdEx..], raw, k)
      decreases |dAtA| - iNdEx
    {
      PendingError(goal, dAtA[iNdEx..], raw, k);
      if shift >= 64 {
        return Err(IntOverflow);
      }
      if iNdEx >= |dAtA| {
        return Err(UnexpectedEOF);
      }
      var b := dAtA[iNdEx];
      PendingStep(goal, dAtA[iNdEx..], raw, k);
      assert dAtA[iNdEx..][1..] == dAtA[iNdEx + 1..];
      iNdEx := iNdEx + 1;
      AccumulateGroup(raw, wire, b % 0x80, k);
      wire := Or(wire, GroupAt(b % 0x80, shift));
      raw := raw + Scaled(b % 0x80, k);
      if b < 0x80 {
        return Ok((wire, iNdEx));
      }
      shift := shift + 7;
      k := k + 1;
    }
  }
}
