/**
  The slice-based parser of `rlp/raw.go`: it works on a byte string held in memory and
  returns sub-slices of it.
 */
module RlpRaw {
  import opened Common
  import opened Rlp

  /** Kind, header length and content length of the value at the front of a byte string. */
  datatype Tag = Tag(kind: Kind, tagSize: nat, contentSize: nat)

  /** A size written in `slen` big-endian bytes at the front of `b`. */
  function ReadSize(b: bytes, slen: nat): Result<nat>
    requires 1 <= slen <= 8
  {
    if slen > |b| then Err(UnexpectedEOF)
    else
      var s := BeValue(b[..slen]);
      if s < 56 || b[0] == 0 then Err(CanonSize) else Ok(s)
  }

  function ReadKind(buf: bytes): (r: Result<Tag>)
    ensures r.Ok? ==> 1 <= r.value.tagSize + r.value.contentSize <= |buf|
    ensures r.Ok? && r.value.kind == List ==> r.value.tagSize >= 1
  {
    if buf == [] then Err(UnexpectedEOF)
    else
      var b := buf[0];
      if b < 0x80 then Bounded(buf, Tag(Byte, 0, 1))
      else if b < 0xB8 then
        if b - 0x80 == 1 && |buf| > 1 && buf[1] < 128 then Err(CanonSize)
        else Bounded(buf, Tag(String, 1, b - 0x80))
      else if b < 0xC0 then
        match ReadSize(buf[1..], b - 0xB7)
        case Err(e) => Err(e)
        case Ok(size) => Bounded(buf, Tag(String, b - 0xB7 + 1, size))
      else if b < 0xF8 then Bounded(buf, Tag(List, 1, b - 0xC0))
      else
        match ReadSize(buf[1..], b - 0xF7)
        case Err(e) => Err(e)
        case Ok(size) => Bounded(buf, Tag(List, b - 0xF7 + 1, size))
  }

  /** Rejects values larger than the input slice. */
  function Bounded(buf: bytes, tag: Tag): Result<Tag>
    requires tag.tagSize <= |buf|
  {
    if tag.contentSize > |buf| - tag.tagSize then Err(ValueTooLarge) else Ok(tag)
  }

  datatype Piece = Piece(kind: Kind, content: bytes, rest: bytes)

  function Split(b: bytes): Result<Piece> {
    match ReadKind(b)
    case Err(e) => Err(e)
    case Ok(Tag(k, ts, cs)) => Ok(Piece(k, b[ts..ts+cs], b[ts+cs..]))
  }

  function SplitString(b: bytes): Result<(bytes, bytes)> {
    match Split(b)
    case Err(e) => Err(e)
    case Ok(Piece(k, content, rest)) => if k == List then Err(ExpectedString) else Ok((content, rest))
  }

  function SplitList(b: bytes): Result<(bytes, bytes)> {
    match Split(b)
    case Err(e) => Err(e)
    case Ok(Piece(k, content, rest)) => if k != List then Err(ExpectedList) else Ok((content, rest))
  }

  function SplitUint64(b: bytes): Result<(nat, bytes)> {
    match SplitString(b)
    case Err(e) => Err(e)
    case Ok((content, rest)) =>
      if |content| == 0 then Ok((0, rest))
      else if |content| == 1 then
        if content[0] == 0 then Err(CanonInt) else Ok((content[0], rest))
      else if |content| > 8 then Err(UintOverflow)
      else
        match ReadSize(content, |content|)
        case Err(_) => Err(CanonInt)
        case Ok(x) => Ok((x, rest))
  }

  /** The byte `byte(i >> (8 * k))`. */
  function Octet(i: uint64, k: nat): byte {
    (i / Pow256(k)) % 256
  }

  /** `byte(i >> (8 * (n - 1)))` down to `byte(i)`. */
  function Octets(i: uint64, n: nat): bytes {
    if n == 0 then [] else [Octet(i, n - 1)] + Octets(i, n - 1)
  }

  function AppendUint64(b: bytes, i: uint64): bytes {
    if i == 0 then b + [0x80]
    else if i < 128 then b + [i]
    else if i < 0x100 then b + ([0x81] + Octets(i, 1))
    else if i < 0x1_0000 then b + ([0x82] + Octets(i, 2))
    else if i < 0x100_0000 then b + ([0x83] + Octets(i, 3))
    else if i < 0x1_0000_0000 then b + ([0x84] + Octets(i, 4))
    else if i < 0x100_0000_0000 then b + ([0x85] + Octets(i, 5))
    else if i < 0x1_0000_0000_0000 then b + ([0x86] + Octets(i, 6))
    else if i < 0x100_0000_0000_0000 then b + ([0x87] + Octets(i, 7))
    else b + ([0x88] + Octets(i, 8))
  }

  // ---------------------------------------------------------------- headers

  /** Decoding a canonical header recovers its kind, its length and the content length. */
  lemma HeadIsRead(small: byte, content: bytes, rest: bytes)
    requires small == 0x80 || small == 0xC0
    requires |content| < TWO_TO_THE_64
    requires small == 0x80 ==> !(|content| == 1 && content[0] < 0x80)
    ensures var h := Head(small, |content|);
            ReadKind(h + content + rest) == Ok(Tag(if small == 0x80 then String else List, |h|, |content|))
  {
    var size := |content|;
    var h := Head(small, size);
    var buf := h + content + rest;
    if size < 56 {
      assert small == 0x80 && size == 1 ==> buf[1] == content[0];
    } else {
      LongHeadIsRead(size, content + rest);
      var n := |BeBytes(size)|;
      assert buf[1..] == BeBytes(size) + (content + rest);
    }
  }

  lemma LongHeadIsRead(size: nat, tail: bytes)
    requires 56 <= size < TWO_TO_THE_64
    ensures 1 <= |BeBytes(size)| <= 8
    ensures ReadSize(BeBytes(size) + tail, |BeBytes(size)|) == Ok(size)
  {
    Pow256Of8();
    BeBytesLength(size, 8);
    BeBytesMinimal(size);
    BeValueOfBytes(size);
    assert (BeBytes(size) + tail)[..|BeBytes(size)|] == BeBytes(size);
  }

  /** Conversely, an accepted header is the one canonical header of its content length. */
  lemma ReadIsHead(buf: bytes)
    requires ReadKind(buf).Ok?
    ensures var Tag(k, ts, cs) := ReadKind(buf).value;
            && cs < TWO_TO_THE_64
            && (k == Byte ==> ts == 0 && cs == 1 && buf[0] < 0x80)
            && (k == String ==> buf[..ts] == Head(0x80, cs) && !(cs == 1 && buf[ts] < 0x80))
            && (k == List ==> buf[..ts] == Head(0xC0, cs))
  {
    var b := buf[0];
    if 0xB8 <= b < 0xC0 || b >= 0xF8 {
      var n := if b < 0xC0 then b - 0xB7 else b - 0xF7;
      SizeIsCanonical(buf[1..], n);
      assert buf[..n+1] == [b] + buf[1..][..n];
    } else if b >= 0x80 {
      assert buf[..1] == [b];
    }
  }

  lemma SizeIsCanonical(b: bytes, n: nat)
    requires 1 <= n <= 8 && ReadSize(b, n).Ok?
    ensures var s := ReadSize(b, n).value; 56 <= s < TWO_TO_THE_64 && BeBytes(s) == b[..n]
  {
    BeBytesOfValue(b[..n]);
    BeBytesLength(BeValue(b[..n]), 8);
    Pow256Of8();
  }

  // ---------------------------------------------------------------- integers

  lemma {:induction false} OctetShift(i: uint64, k: nat)
    ensures Octet(i, k + 1) == Octet(i / 256, k)
  {
    DivDiv(i, Pow256(k));
  }

  lemma DivDiv(i: nat, p: nat)
    requires p > 0
    ensures i / (256 * p) == i / 256 / p
  {
    var q, r := i / 256, i % 256;
    var q2, r2 := q / p, q % p;
    assert i == 256 * (p * q2 + r2) + r == (256 * p) * q2 + (256 * r2 + r);
    assert 0 <= 256 * r2 + r < 256 * p;
    DivUnique(i, 256 * p, q2, 256 * r2 + r);
  }

  lemma DivUnique(i: nat, d: nat, q: int, r: nat)
    requires d > 0 && i == d * q + r && r < d
    ensures i / d == q
  {
    var e := i / d - q;
    assert d * e == r - i % d;
    MulAtLeast(d, e);
  }

  lemma MulAtLeast(d: nat, e: int)
    ensures e >= 1 ==> d * e >= d
    ensures e <= -1 ==> d * e <= -(d as int)
  {
  }

  lemma {:induction false} OctetsSnoc(i: uint64, n: nat)
    ensures Octets(i, n + 1) == Octets(i / 256, n) + [i % 256]
  {
    if n > 0 {
      OctetsSnoc(i, n - 1);
      OctetShift(i, n - 1);
    } else {
      assert Pow256(0) == 1;
    }
  }

  lemma {:induction false} OctetsAreBeBytes(i: uint64, n: nat)
    requires |BeBytes(i)| == n
    ensures Octets(i, n) == BeBytes(i)
  {
    if n > 0 {
      OctetsAreBeBytes(i / 256, n - 1);
      OctetsSnoc(i, n - 1);
    }
  }

  /** `AppendUint64` appends the encoding of the integer's shortest big-endian form. */
  lemma AppendsEncoding(b: bytes, i: uint64)
    ensures AppendUint64(b, i) == b + Encode(Str(BeBytes(i)))
  {
    var n := IntSize(i);
    OctetsAreBeBytes(i, n);
    if i < 256 {
      assert BeBytes(i / 256) == [];
      if i > 0 { assert BeBytes(i) == [i]; }
    } else {
      assert n >= 2;
    }
  }

  /** The number of bytes of `i`, by the thresholds of the source's case list. */
  lemma IntSize(i: uint64) returns (n: nat)
    ensures n == |BeBytes(i)| <= 8
    ensures n == if i == 0 then 0 else if i < 0x100 then 1 else if i < 0x1_0000 then 2
            else if i < 0x100_0000 then 3 else if i < 0x1_0000_0000 then 4
            else if i < 0x100_0000_0000 then 5 else if i < 0x1_0000_0000_0000 then 6
            else if i < 0x100_0000_0000_0000 then 7 else 8
  {
    n := |BeBytes(i)|;
    for k := 0 to 9
      invariant forall j :: 0 <= j < k ==> (n <= j <==> i < Pow256(j))
    {
      BeBytesLength(i, k);
    }
    Pow256Of8();
    assert Pow256(2) == 0x1_0000 && Pow256(4) == 0x1_0000_0000;
    assert Pow256(3) == 0x100_0000 && Pow256(5) == 0x100_0000_0000;
    assert Pow256(6) == 0x1_0000_0000_0000 && Pow256(7) == 0x100_0000_0000_0000;
    assert Pow256(1) == 256 && Pow256(0) == 1;
  }
}
