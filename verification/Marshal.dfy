/** The marshallers: each sizes its message, then fills a buffer from the back, last field first.
    A Go slice `dAtA[:i]` is the array and the length `i`. */
module Marshal {
  import opened Wrappers
  import opened Varint
  import opened Wire
  import opened Messages

  /** `now` is `was` with exactly the bytes from `j` to `i` replaced by `piece`. */
  ghost predicate Spliced(now: bytes, was: bytes, j: int, piece: bytes, i: int) {
    0 <= j && j + |piece| == i <= |was| && now == was[..j] + piece + was[i..]
  }

  /** A piece written directly in front of fields already written extends them. */
  lemma Extend(now: bytes, mid: bytes, was: bytes, j: int, fs: seq<Field>, i: int, done: seq<Field>, end: int)
    requires Spliced(mid, was, i, EncFields(done), end)
    requires Spliced(now, mid, j, EncFields(fs), i)
    ensures Spliced(now, was, j, EncFields(fs + done), end)
  {
    hide EncFields;
    EncFieldsAppend(fs, done);
    Chain(now, mid, was, j, EncFields(fs), i, EncFields(done), end);
  }

  lemma Chain(now: bytes, mid: bytes, was: bytes, j: int, piece: bytes, i: int, tail: bytes, end: int)
    requires Spliced(mid, was, i, tail, end) && Spliced(now, mid, j, piece, i)
    ensures Spliced(now, was, j, piece + tail, end)
  {
  }

  lemma SplicedAt(now: bytes, was: bytes, j: int, piece: bytes, i: int)
    requires Spliced(now, was, j, piece, i)
    ensures 0 <= j == i - |piece| && |now| == |was|
  {
  }

  lemma Single(f: Field)
    ensures EncFields([f]) == EncField(f)
  {
    assert EncField(f) + [] == EncField(f);
  }

  // ----- one field

  method PutByte(dAtA: array<byte>, i: nat, b: byte) returns (j: nat)
    requires 0 < i <= dAtA.Length
    modifies dAtA
    ensures Spliced(dAtA[..], old(dAtA[..]), j, [b], i)
  {
    j := i - 1;
    ghost var was := dAtA[..];
    dAtA[j] := b;
    assert dAtA[..] == was[j := b];
  }

  method PutCopy(dAtA: array<byte>, i: nat, bs: bytes) returns (j: nat)
    requires |bs| <= i <= dAtA.Length
    modifies dAtA
    ensures Spliced(dAtA[..], old(dAtA[..]), j, bs, i)
  {
    j := i - |bs|;
    for k := 0 to |bs|
      invariant dAtA[..] == old(dAtA[..j]) + bs[..k] + old(dAtA[j + k..])
    {
      ghost var was := dAtA[..];
      dAtA[j + k] := bs[k];
      assert dAtA[..] == was[j + k := bs[k]];
    }
  }

  /** Length and tag in front of a body that ends at `i + size`. */
  method PutHeader(dAtA: array<byte>, i: nat, tag: byte, size: nat) returns (j: nat)
    requires tag < 0x80 && tag % 8 == 2 && size < TWO63
    requires 1 + |EncVarint(size)| <= i <= dAtA.Length
    modifies dAtA
    ensures Spliced(dAtA[..], old(dAtA[..]), j, EncVarint(tag) + EncVarint(size), i)
  {
    hide Sov, EncVarint;
    TagByte(tag);
    SovIsDigitCount(size);
    var k := EncodeVarint(dAtA, i, size);
    ghost var mid := dAtA[..];
    j := PutByte(dAtA, k, tag);
    Chain(dAtA[..], mid, old(dAtA[..]), j, [tag], k, EncVarint(size), i);
  }

  method PutBytes(dAtA: array<byte>, i: nat, tag: byte, bs: bytes) returns (j: nat)
    requires tag < 0x80 && tag % 8 == 2 && |bs| < TWO63
    requires |EncField(BytesField(tag / 8, bs))| <= i <= dAtA.Length
    modifies dAtA
    ensures Spliced(dAtA[..], old(dAtA[..]), j, EncField(BytesField(tag / 8, bs)), i)
  {
    hide EncVarint, Spliced;
    TagByte(tag);
    var k := PutCopy(dAtA, i, bs);
    SplicedAt(dAtA[..], old(dAtA[..]), k, bs, i);
    ghost var mid := dAtA[..];
    j := PutHeader(dAtA, k, tag, |bs|);
    Chain(dAtA[..], mid, old(dAtA[..]), j, EncVarint(tag) + EncVarint(|bs|), k, bs, i);
    assert (EncVarint(tag) + EncVarint(|bs|)) + bs == EncField(BytesField(tag / 8, bs));
  }

  lemma TagByte(tag: byte)
    requires tag < 0x80
    ensures EncVarint(tag) == [tag] && 8 * (tag / 8) + tag % 8 == tag
  {
  }

  method PutVarint(dAtA: array<byte>, i: nat, tag: byte, v: uint64) returns (j: nat)
    requires tag < 0x80 && tag % 8 == 0
    requires |EncField(VarintField(tag / 8, v))| <= i <= dAtA.Length
    modifies dAtA
    ensures Spliced(dAtA[..], old(dAtA[..]), j, EncField(VarintField(tag / 8, v)), i)
  {
    hide EncVarint, Sov;
    TagByte(tag);
    SovIsDigitCount(v);
    var k := EncodeVarint(dAtA, i, v);
    ghost var mid := dAtA[..];
    j := PutByte(dAtA, k, tag);
    Chain(dAtA[..], mid, old(dAtA[..]), j, [tag], k, EncVarint(v), i);
  }

  // ----- one field of a message, written when the source writes it

  /** The buffer that was `was` holds the fields `done` between `i` and `end`. */
  ghost predicate Filling(now: bytes, was: bytes, i: int, done: seq<Field>, end: int) {
    Spliced(now, was, i, EncFields(done), end)
  }

  method PutNonEmpty(dAtA: array<byte>, i: nat, tag: byte, bs: bytes, ghost was: bytes, ghost done: seq<Field>,
          ghost end: nat)
    returns (j: nat)
    requires tag < 0x80 && tag % 8 == 2 && i < TWO63
    requires Filling(dAtA[..], was, i, done, end) && |EncFields(OptBytes(tag / 8, bs))| <= i
    modifies dAtA
    ensures j == i - |EncFields(OptBytes(tag / 8, bs))|
    ensures Filling(dAtA[..], was, j, OptBytes(tag / 8, bs) + done, end)
  {
    hide EncFields, EncField;
    j := i;
    if |bs| > 0 {
      ghost var f, mid := BytesField(tag / 8, bs), dAtA[..];
      FieldFits([f], f);
      Single(f);
      j := PutBytes(dAtA, i, tag, bs);
      Extend(dAtA[..], mid, was, j, [f], i, done, end);
    } else {
      NoFields(done);
    }
  }

  method PutNonZero(dAtA: array<byte>, i: nat, tag: byte, v: uint64, ghost was: bytes, ghost done: seq<Field>,
          ghost end: nat)
    returns (j: nat)
    requires tag < 0x80 && tag % 8 == 0
    requires Filling(dAtA[..], was, i, done, end) && |EncFields(OptVarint(tag / 8, v))| <= i
    modifies dAtA
    ensures j == i - |EncFields(OptVarint(tag / 8, v))|
    ensures Filling(dAtA[..], was, j, OptVarint(tag / 8, v) + done, end)
  {
    hide EncFields, EncField;
    j := i;
    if v != 0 {
      ghost var f, mid := VarintField(tag / 8, v), dAtA[..];
      Single(f);
      j := PutVarint(dAtA, i, tag, v);
      Extend(dAtA[..], mid, was, j, [f], i, done, end);
    } else {
      NoFields(done);
    }
  }

  method PutTrue(dAtA: array<byte>, i: nat, tag: byte, b: bool, ghost was: bytes, ghost done: seq<Field>,
          ghost end: nat)
    returns (j: nat)
    requires tag < 0x80 && tag % 8 == 0
    requires Filling(dAtA[..], was, i, done, end) && |EncFields(OptBool(tag / 8, b))| <= i
    modifies dAtA
    ensures j == i - |EncFields(OptBool(tag / 8, b))|
    ensures Filling(dAtA[..], was, j, OptBool(tag / 8, b) + done, end)
  {
    hide EncFields, EncVarint;
    j := i;
    if b {
      ghost var f, mid := VarintField(tag / 8, 1), dAtA[..];
      Single(f);
      TagByte(tag);
      TagByte(1);
      var k := PutByte(dAtA, i, 1);
      ghost var mid' := dAtA[..];
      j := PutByte(dAtA, k, tag);
      Chain(dAtA[..], mid', mid, j, [tag], k, [1], i);
      Extend(dAtA[..], mid, was, j, [f], i, done, end);
    } else {
      NoFields(done);
    }
  }

  lemma NoFields(done: seq<Field>)
    ensures EncFields([]) == [] && [] + done == done
  {
  }

  lemma {:induction false} RepeatedSplit<T>(num: nat, encode: T -> bytes, xs: seq<T>, k: nat)
    requires k <= |xs|
    ensures Repeated(num, encode, xs) == Repeated(num, encode, xs[..k]) + Repeated(num, encode, xs[k..])
    decreases |xs|
  {
    if k > 0 {
      RepeatedSplit(num, encode, xs[1..], k - 1);
      assert xs[..k][1..] == xs[1..][..k - 1];
      assert xs[k..] == xs[1..][k - 1..];
    } else {
      assert xs[k..] == xs;
    }
  }

  /** The room the first `k + 1` records need is the room of the first `k` and of record `k`. */
  lemma RoomForRecord<T>(num: nat, encode: T -> bytes, xs: seq<T>, k: nat)
    requires k < |xs|
    ensures |EncFields(Repeated(num, encode, xs[..k + 1]))|
            == |EncFields(Repeated(num, encode, xs[..k]))| + |EncField(BytesField(num, encode(xs[k])))|
    ensures Repeated(num, encode, xs[k..]) == [BytesField(num, encode(xs[k]))] + Repeated(num, encode, xs[k + 1..])
  {
    hide EncFields, EncField;
    var f := BytesField(num, encode(xs[k]));
    RepeatedSplit(num, encode, xs[..k + 1], k);
    assert xs[..k + 1][..k] == xs[..k] && xs[..k + 1][k..] == [xs[k]];
    assert Repeated(num, encode, [xs[k]]) == [f];
    EncFieldsAppend(Repeated(num, encode, xs[..k]), [f]);
    Single(f);
    assert xs[k..][1..] == xs[k + 1..];
  }

  /** The backwards loop over a repeated string field. */
  method PutRepeated(dAtA: array<byte>, i: nat, tag: byte, ss: seq<bytes>, ghost was: bytes, ghost done: seq<Field>,
          ghost end: nat)
    returns (j: nat)
    requires tag < 0x80 && tag % 8 == 2 && i < TWO63
    requires Filling(dAtA[..], was, i, done, end) && |EncFields(Repeated(tag / 8, Same, ss))| <= i
    modifies dAtA
    ensures j == i - |EncFields(Repeated(tag / 8, Same, ss))|
    ensures Filling(dAtA[..], was, j, Repeated(tag / 8, Same, ss) + done, end)
  {
    hide EncFields, Repeated, EncField;
    j := i;
    var iNdEx := |ss|;
    assert ss[..|ss|] == ss;
    NoRecords(tag / 8, Same, ss, done);
    while iNdEx > 0
      invariant 0 <= iNdEx <= |ss| && j <= i
      invariant |EncFields(Repeated(tag / 8, Same, ss[..iNdEx]))| == j - i + |EncFields(Repeated(tag / 8, Same, ss))|
      invariant Filling(dAtA[..], was, j, Repeated(tag / 8, Same, ss[iNdEx..]) + done, end)
    {
      iNdEx := iNdEx - 1;
      RoomForRecord(tag / 8, Same, ss, iNdEx);
      ghost var f, mid, at := BytesField(tag / 8, ss[iNdEx]), dAtA[..], j;
      ghost var later := Repeated(tag / 8, Same, ss[iNdEx + 1..]);
      FieldFits([f], f);
      Single(f);
      j := PutBytes(dAtA, j, tag, ss[iNdEx]);
      Extend(dAtA[..], mid, was, j, [f], at, later + done, end);
      assert [f] + (later + done) == ([f] + later) + done;
    }
    assert ss[0..] == ss;
    NoRecords(tag / 8, Same, ss[..0], done);
    assert ss[..0][0..] == ss[..0];
  }

  lemma NoRecords<T>(num: nat, encode: T -> bytes, xs: seq<T>, done: seq<Field>)
    ensures Repeated(num, encode, xs[|xs|..]) + done == done
    ensures EncFields(Repeated(num, encode, xs[|xs|..])) == []
  {
  }

  // ----- sizes: the sums `Size()` accumulates

  method SizeOfBytes(bs: bytes, ghost num: nat) returns (n: nat)
    requires 0 < num < 16
    ensures n == |EncField(BytesField(num, bs))|
  {
    hide Sov, EncVarint;
    n := 1 + |bs| + Sov(|bs|);
    SovIsDigitCount(|bs|);
    TagByte(8 * num + 2);
  }

  method SizeOfNonEmpty(bs: bytes, ghost num: nat) returns (n: nat)
    requires 0 < num < 16
    ensures n == |EncFields(OptBytes(num, bs))|
  {
    hide EncField;
    n := 0;
    if |bs| > 0 {
      Single(BytesField(num, bs));
      n := SizeOfBytes(bs, num);
    }
  }

  method SizeOfNonZero(v: uint64, ghost num: nat) returns (n: nat)
    requires 0 < num < 16
    ensures n == |EncFields(OptVarint(num, v))|
  {
    hide Sov, EncVarint;
    n := 0;
    if v != 0 {
      Single(VarintField(num, v));
      SovIsDigitCount(v);
      TagByte(8 * num);
      n := 1 + Sov(v);
    }
  }

  method SizeOfTrue(b: bool, ghost num: nat) returns (n: nat)
    requires 0 < num < 16
    ensures n == |EncFields(OptBool(num, b))|
  {
    n := 0;
    if b {
      Single(VarintField(num, 1));
      TagByte(8 * num);
      n := 2;
    }
  }

  method SizeOfRepeated(ss: seq<bytes>, ghost num: nat) returns (n: nat)
    requires 0 < num < 16
    ensures n == |EncFields(Repeated(num, Same, ss))|
  {
    hide EncField, EncFields, Repeated;
    n := 0;
    NoRecords(num, Same, ss[..0], []);
    assert ss[..0][0..] == ss[..0];
    for k := 0 to |ss|
      invariant n == |EncFields(Repeated(num, Same, ss[..k]))|
    {
      var l := SizeOfBytes(ss[k], num);
      RoomForRecord(num, Same, ss, k);
      n := n + l;
    }
    assert ss[..|ss|] == ss;
  }

  // ----- sub-messages

  lemma MessageRoom(num: nat, body: bytes)
    requires 0 < num < 16
    ensures |EncFields([BytesField(num, body)])| == 1 + |EncVarint(|body|)| + |body|
  {
    hide EncVarint;
    Single(BytesField(num, body));
    TagByte(8 * num + 2);
  }

  /** Length and tag in front of a sub-message `body` that has just been written up to `i`. */
  method PutMessageHeader(dAtA: array<byte>, k: nat, tag: byte, size: nat, ghost body: bytes, ghost mid: bytes,
          ghost i: nat, ghost was: bytes, ghost done: seq<Field>, ghost end: nat)
    returns (j: nat)
    requires size == |body| && tag < 0x80 && tag % 8 == 2 && i < TWO63
    requires Spliced(dAtA[..], mid, k, body, i) && Filling(mid, was, i, done, end)
    requires 1 + |EncVarint(|body|)| <= k
    modifies dAtA
    ensures j == i - |EncFields([BytesField(tag / 8, body)])|
    ensures Filling(dAtA[..], was, j, [BytesField(tag / 8, body)] + done, end)
  {
    hide EncVarint, EncFields;
    TagByte(tag);
    ghost var written := dAtA[..];
    j := PutHeader(dAtA, k, tag, size);
    ghost var f, header := BytesField(tag / 8, body), EncVarint(tag) + EncVarint(size);
    Chain(dAtA[..], written, mid, j, header, k, body, i);
    Single(f);
    assert header + body == EncField(f);
    Extend(dAtA[..], mid, was, j, [f], i, done, end);
  }

  /** `1 + l + sovEvm(uint64(l))` for a sub-message of size `l`. */
  method SizeOfMessage(ghost body: bytes, l: nat, ghost num: nat) returns (n: nat)
    requires 0 < num < 16 && l == |body|
    ensures n == |EncFields([BytesField(num, body)])|
  {
    hide Sov, EncVarint, EncFields;
    MessageRoom(num, body);
    SovIsDigitCount(l);
    n := 1 + l + Sov(l);
  }

  lemma StartFill(now: bytes, len: nat)
    requires len <= |now|
    ensures Filling(now, now, len, [], len)
  {
  }
}
