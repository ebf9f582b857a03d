/**
  The RLP wire format (Appendix B of the Ethereum Yellow Paper): items, their encoding,
  and the big-endian size arithmetic both parsers of the `rlp` package rest on.
 */
module Rlp {
  import opened Common

  type bytes = seq<byte>

  datatype Kind = Byte | String | List

  datatype Error =
    | EOF
    | UnexpectedEOF
    | EOL
    | ExpectedString
    | ExpectedList
    | CanonInt
    | CanonSize
    | ElemTooLarge
    | ValueTooLarge
    | MoreThanOneValue
    | NotInList
    | NotAtEOL
    | UintOverflow
    | InvalidBool

  datatype Result<+T> = Ok(value: T) | Err(error: Error)

  /** A generic decoded value: what the decoder stores into an `interface{}` target. */
  datatype Item = Str(content: bytes) | Items(elems: seq<Item>)

  // ---------------------------------------------------------------- big-endian integers

  function BeValue(b: bytes): nat {
    if b == [] then 0 else BeValue(b[..|b|-1]) * 256 + b[|b|-1]
  }

  /** The shortest big-endian representation of `n`; empty for zero. */
  function BeBytes(n: nat): bytes {
    if n == 0 then [] else BeBytes(n / 256) + [n % 256]
  }

  function Pow256(k: nat): (p: nat)
    ensures p > 0
  {
    if k == 0 then 1 else 256 * Pow256(k - 1)
  }

  lemma {:induction false} BeValueOfBytes(n: nat)
    ensures BeValue(BeBytes(n)) == n
  {
    if n != 0 {
      BeValueOfBytes(n / 256);
      assert BeBytes(n)[..|BeBytes(n)|-1] == BeBytes(n / 256);
    }
  }

  lemma {:induction false} BeBytesMinimal(n: nat)
    requires n != 0
    ensures |BeBytes(n)| >= 1 && BeBytes(n)[0] != 0
  {
    if n >= 256 {
      BeBytesMinimal(n / 256);
    } else {
      assert BeBytes(n / 256) == [];
    }
  }

  lemma {:induction false} BeValuePositive(b: bytes)
    requires b != [] && b[0] != 0
    ensures BeValue(b) >= Pow256(|b| - 1)
    ensures BeValue(b) > 0
  {
    if |b| > 1 {
      BeValuePositive(b[..|b|-1]);
    }
  }

  lemma {:induction false} BeValueBound(b: bytes)
    ensures BeValue(b) < Pow256(|b|)
  {
    if b != [] {
      BeValueBound(b[..|b|-1]);
    }
  }

  lemma {:induction false} BeBytesOfValue(b: bytes)
    requires b == [] || b[0] != 0
    ensures BeBytes(BeValue(b)) == b
  {
    if b != [] {
      var init, last := b[..|b|-1], b[|b|-1];
      BeBytesOfValue(init);
      BeValuePositive(b);
      assert BeValue(b) / 256 == BeValue(init) && BeValue(b) % 256 == last;
      assert b == init + [last];
    }
  }

  lemma {:induction false} BeBytesLength(n: nat, k: nat)
    ensures |BeBytes(n)| <= k <==> n < Pow256(k)
  {
    if n != 0 && k != 0 {
      BeBytesLength(n / 256, k - 1);
    }
  }

  lemma Pow256Of8()
    ensures Pow256(8) == TWO_TO_THE_64
  {
    assert Pow256(4) == 0x1_0000_0000;
  }

  // ---------------------------------------------------------------- the encoding

  /**
    The header of a string (`small` = 0x80) or a list (`small` = 0xC0) of `size` content
    bytes. Sizes of 2^64 and more have no header.
   */
  function Head(small: byte, size: nat): bytes
    requires small == 0x80 || small == 0xC0
  {
    if size < 56 then [small + size]
    else if size < TWO_TO_THE_64 then
      Pow256Of8();
      BeBytesLength(size, 8);
      [small + 55 + |BeBytes(size)|] + BeBytes(size)
    else []
  }

  function Encode(item: Item): bytes
    decreases item, 1
  {
    match item
    case Str(content) =>
      if |content| == 1 && content[0] < 0x80 then content
      else Head(0x80, |content|) + content
    case Items(elems) =>
      var payload := EncodeAll(elems);
      Head(0xC0, |payload|) + payload
  }

  function EncodeAll(items: seq<Item>): bytes
    decreases items, 0
  {
    if items == [] then [] else Encode(items[0]) + EncodeAll(items[1..])
  }

  /** The items the format covers: every string and list payload is below 2^64 bytes. */
  predicate Encodable(item: Item)
    decreases item, 1
  {
    match item
    case Str(content) => |content| < TWO_TO_THE_64
    case Items(elems) => AllEncodable(elems) && |EncodeAll(elems)| < TWO_TO_THE_64
  }

  predicate AllEncodable(items: seq<Item>)
    decreases items, 0
  {
    items == [] || (Encodable(items[0]) && AllEncodable(items[1..]))
  }
}
