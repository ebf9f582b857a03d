/**
  Decoding into a generic value, stated over byte strings: the partner of the encoding.
  The two are inverse to each other, so no item has two accepted encodings; the streaming
  decoder (module RlpStream) is proved to compute exactly these functions.
 */
module RlpCodec {
  import opened Common
  import opened Rlp
  import opened RlpRaw

  /** The first value of `b` and the bytes after it. */
  function DecodeItem(b: bytes): (r: Result<(Item, bytes)>)
    ensures r.Ok? ==> |r.value.1| < |b|
    decreases |b|, 0
  {
    match ReadKind(b)
    case Err(e) => Err(e)
    case Ok(Tag(k, ts, cs)) =>
      if k == List then
        match DecodeItems(b[ts..ts+cs])
        case Err(e) => Err(e)
        case Ok(elems) => Ok((Items(elems), b[ts+cs..]))
      else Ok((Str(b[ts..ts+cs]), b[ts+cs..]))
  }

  /** All values of a list body. */
  function DecodeItems(b: bytes): Result<seq<Item>>
    decreases |b|, 1
  {
    if b == [] then Ok([])
    else
      match DecodeItem(b)
      case Err(e) => Err(e)
      case Ok((item, rest)) =>
        match DecodeItems(rest)
        case Err(e) => Err(e)
        case Ok(items) => Ok([item] + items)
  }

  /** An accepted byte string is exactly the encoding of what it decodes to. */
  lemma {:induction false} DecodedIsEncoding(b: bytes)
    requires DecodeItem(b).Ok?
    ensures var (item, rest) := DecodeItem(b).value;
            Encodable(item) && b == Encode(item) + rest
    decreases |b|, 0
  {
    hide RlpRaw.ReadKind, Head, DecodeItems, EncodeAll, AllEncodable;
    var Tag(k, ts, cs) := ReadKind(b).value;
    ReadIsHead(b);
    var content, rest := b[ts..ts+cs], b[ts+cs..];
    assert b == b[..ts] + content + rest;
    if k == List {
      DecodedAreEncodings(content);
    }
  }

  lemma {:induction false} DecodedAreEncodings(b: bytes)
    requires DecodeItems(b).Ok?
    ensures var items := DecodeItems(b).value;
            AllEncodable(items) && EncodeAll(items) == b
    decreases |b|, 1
  {
    if b != [] {
      DecodedIsEncoding(b);
      var (item, rest) := DecodeItem(b).value;
      DecodedAreEncodings(rest);
      var items := DecodeItems(b).value;
      assert items[0] == item && items[1..] == DecodeItems(rest).value;
    }
  }

  /** Decoding an encoding, whatever bytes follow it, gives the item and those bytes back. */
  lemma {:induction false} EncodingDecodes(item: Item, rest: bytes)
    requires Encodable(item)
    ensures DecodeItem(Encode(item) + rest) == Ok((item, rest))
    decreases item, 1
  {
    var b := Encode(item) + rest;
    match item
    case Str(content) =>
      if |content| == 1 && content[0] < 0x80 {
        assert ReadKind(b) == Ok(Tag(Byte, 0, 1));
        assert b[0..1] == content && b[1..] == rest;
      } else {
        HeadIsRead(0x80, content, rest);
        HeadSplits(Head(0x80, |content|), content, rest);
      }
    case Items(elems) =>
      var payload := EncodeAll(elems);
      HeadIsRead(0xC0, payload, rest);
      HeadSplits(Head(0xC0, |payload|), payload, rest);
      EncodingsDecode(elems);
  }

  lemma HeadSplits(head: bytes, content: bytes, rest: bytes)
    ensures (head + content + rest)[|head|..|head|+|content|] == content
    ensures (head + content + rest)[|head|+|content|..] == rest
  {
  }

  lemma {:induction false} EncodingsDecode(items: seq<Item>)
    requires AllEncodable(items)
    ensures DecodeItems(EncodeAll(items)) == Ok(items)
    decreases items, 0
  {
    if items != [] {
      var rest := EncodeAll(items[1..]);
      EncodingDecodes(items[0], rest);
      EncodingsDecode(items[1..]);
      assert items == [items[0]] + items[1..];
    }
  }

  /** No item has two accepted encodings, and no two items share one. */
  lemma EncodingIsUnique(b: bytes, item: Item)
    requires Encodable(item)
    ensures DecodeItem(b) == Ok((item, [])) <==> b == Encode(item)
  {
    EncodingDecodes(item, []);
    assert Encode(item) + [] == Encode(item);
    if DecodeItem(b) == Ok((item, [])) {
      DecodedIsEncoding(b);
    }
  }

  /** The format is prefix free: values can be laid end to end. */
  lemma EncodingIsPrefixFree(a: Item, b: Item, restA: bytes, restB: bytes)
    requires Encodable(a) && Encodable(b)
    requires Encode(a) + restA == Encode(b) + restB
    ensures a == b && restA == restB
  {
    EncodingDecodes(a, restA);
    EncodingDecodes(b, restB);
  }

  // ---------------------------------------------------------------- integers

  /** Whatever `SplitUint64` accepts is the encoding of a shortest big-endian integer below 2^64. */
  lemma SplitUintIsDecode(b: bytes)
    ensures SplitUint64(b).Ok? ==>
              var (x, rest) := SplitUint64(b).value;
              x < TWO_TO_THE_64 && b == Encode(Str(BeBytes(x))) + rest
  {
    if SplitUint64(b).Ok? {
      var (content, rest) := SplitString(b).value;
      var (x, _) := SplitUint64(b).value;
      DecodedIsEncoding(b);
      if |content| >= 2 {
        SizeIsCanonical(content, |content|);
        assert content[..|content|] == content;
      } else if |content| == 1 {
        assert BeBytes(x / 256) == [] && BeBytes(x) == content;
      }
    }
  }

  lemma StringDecodes(b: bytes, content: bytes, rest: bytes)
    requires DecodeItem(b) == Ok((Str(content), rest))
    ensures SplitString(b) == Ok((content, rest))
  {
    hide RlpRaw.ReadKind, DecodeItems;
  }

  /** Splitting an appended integer returns it, for every integer and every suffix. */
  lemma AppendThenSplit(i: uint64, suffix: bytes)
    ensures SplitUint64(AppendUint64([], i) + suffix) == Ok((i, suffix))
  {
    hide AppendUint64, Encode, DecodeItem, SplitString, BeBytes, BeValue, Pow256;
    AppendsEncoding([], i);
    var content := BeBytes(i);
    var b := Encode(Str(content)) + suffix;
    assert AppendUint64([], i) + suffix == b;
    ShortestForm(i);
    EncodingDecodes(Str(content), suffix);
    StringDecodes(b, content, suffix);
    assert content[..|content|] == content;
  }

  lemma ShortestForm(i: uint64)
    ensures var content := BeBytes(i);
            && BeValue(content) == i
            && |content| <= 8
            && (i == 0 <==> content == [])
            && (content != [] ==> content[0] != 0)
            && (|content| == 1 ==> content[0] == i)
            && (|content| >= 2 ==> i >= 256)
  {
    var content := BeBytes(i);
    Pow256Of8();
    BeBytesLength(i, 8);
    BeValueOfBytes(i);
    if i > 0 {
      BeBytesMinimal(i);
      if |content| == 1 {
        assert BeValue(content[..0]) == 0;
      } else {
        TwoBytesAtLeast256(content);
      }
    }
  }

  lemma TwoBytesAtLeast256(b: bytes)
    requires |b| >= 2 && b[0] != 0
    ensures BeValue(b) >= 256
  {
    BeValuePositive(b[..|b|-1]);
  }

  /** And any accepted prefix is the appended encoding of the integer returned. */
  lemma SplitThenAppend(b: bytes)
    requires SplitUint64(b).Ok?
    ensures var (x, rest) := SplitUint64(b).value;
            x < TWO_TO_THE_64 && b == AppendUint64([], x) + rest
  {
    hide SplitUint64, AppendUint64, Encode, BeBytes;
    SplitUintIsDecode(b);
    var (x, rest) := SplitUint64(b).value;
    AppendsEncoding([], x);
  }
}
