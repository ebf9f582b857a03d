/**
  Counting and iterating over the values of a list body (`rlp/raw.go`, `rlp/iterator.go`).
 */
module RlpIterator {
  import opened Rlp
  import opened RlpRaw
  import RlpCodec

  /** The encoded values a list body consists of. */
  function Pieces(b: bytes): Result<seq<bytes>> {
    if b == [] then Ok([])
    else
      match ReadKind(b)
      case Err(e) => Err(e)
      case Ok(Tag(_, ts, cs)) =>
        match Pieces(b[ts+cs..])
        case Err(e) => Err(e)
        case Ok(ps) => Ok([b[..ts+cs]] + ps)
  }

  function Concat(ps: seq<bytes>): bytes {
    if ps == [] then [] else ps[0] + Concat(ps[1..])
  }

  /** The pieces make up the body, none is empty, and each is one value by itself. */
  lemma {:induction false} PiecesPartition(b: bytes)
    requires Pieces(b).Ok?
    ensures var ps := Pieces(b).value;
            && Concat(ps) == b
            && forall i :: 0 <= i < |ps| ==> Split(ps[i]).Ok? && Split(ps[i]).value.rest == []
    decreases |b|
  {
    hide RlpRaw.ReadKind;
    if b != [] {
      var Tag(k, ts, cs) := ReadKind(b).value;
      var ps := Pieces(b).value;
      PiecesPartition(b[ts+cs..]);
      assert ps[0] == b[..ts+cs] && ps[1..] == Pieces(b[ts+cs..]).value;
      PieceAlone(b);
      assert forall i :: 1 <= i < |ps| ==> ps[i] == ps[1..][i-1];
    }
  }

  lemma PieceAlone(b: bytes)
    requires ReadKind(b).Ok?
    ensures var Tag(_, ts, cs) := ReadKind(b).value; ReadKind(b[..ts+cs]) == ReadKind(b)
  {
    var Tag(k, ts, cs) := ReadKind(b).value;
    var p := b[..ts+cs];
    if ts >= 2 {
      assert p[1..][..ts-1] == b[1..][..ts-1];
    }
  }

  /** A body that decodes has one piece per item, the item's encoding. */
  lemma {:induction false} PiecesOfItems(b: bytes)
    requires RlpCodec.DecodeItems(b).Ok?
    ensures Pieces(b).Ok? && |Pieces(b).value| == |RlpCodec.DecodeItems(b).value|
    ensures forall i :: 0 <= i < |Pieces(b).value| ==>
                          Pieces(b).value[i] == Encode(RlpCodec.DecodeItems(b).value[i])
    decreases |b|
  {
    hide RlpRaw.ReadKind, RlpCodec.DecodeItem, Encode;
    if b != [] {
      var (item, rest) := RlpCodec.DecodeItem(b).value;
      PiecesOfItems(rest);
      FirstPiece(b);
      assert Pieces(b).value == [Encode(item)] + Pieces(rest).value;
    }
  }

  lemma FirstPiece(b: bytes)
    requires RlpCodec.DecodeItem(b).Ok?
    ensures ReadKind(b).Ok?
    ensures var ((item, rest), Tag(_, ts, cs)) := (RlpCodec.DecodeItem(b).value, ReadKind(b).value);
            rest == b[ts+cs..] && b[..ts+cs] == Encode(item)
  {
    hide RlpRaw.ReadKind, Encode;
    RlpCodec.DecodedIsEncoding(b);
  }

  /** `CountValues` counts the pieces, and fails exactly where the body does not split. */
  method CountValues(b: bytes) returns (r: Result<nat>)
    ensures r.Ok? <==> Pieces(b).Ok?
    ensures r.Ok? ==> r.value == |Pieces(b).value|
    ensures r.Err? ==> r.error == Pieces(b).error
  {
    var i, rest := 0, b;
    while |rest| > 0
      invariant Pieces(b).Ok? <==> Pieces(rest).Ok?
      invariant Pieces(b).Ok? ==> |Pieces(b).value| == i + |Pieces(rest).value|
      invariant Pieces(b).Err? ==> Pieces(b).error == Pieces(rest).error
      decreases |rest|
    {
      match ReadKind(rest) {
        case Err(e) => return Err(e);
        case Ok(Tag(_, ts, cs)) => rest := rest[ts+cs..];
      }
      i := i + 1;
    }
    return Ok(i);
  }

  class ListIterator {
    var data: bytes
    var next: bytes
    var err: Result<()>

    constructor (body: bytes)
      ensures data == body && next == [] && err == Ok(())
    {
      data, next, err := body, [], Ok(());
    }

    /**
      One step. On a malformed value the iterator reports the error but does not move, so
      only a body `CountValues` accepts is ever exhausted.
     */
    method Next() returns (more: bool)
      modifies this
      ensures more <==> old(data) != []
      ensures old(data) == [] ==> data == old(data) && next == old(next) && err == old(err)
      ensures more && ReadKind(old(data)).Ok? ==> next + data == old(data) && next != [] && err == Ok(())
      ensures more && Pieces(old(data)).Ok? ==>
                Pieces(data).Ok? && Pieces(old(data)).value == [next] + Pieces(data).value
      ensures more && ReadKind(old(data)).Ok? && Pieces(old(data)).Err? ==> Pieces(data) == Pieces(old(data))
      ensures more && ReadKind(old(data)).Err? ==>
                data == old(data) && next == [] && err == Err(ReadKind(old(data)).error)
    {
      if |data| == 0 {
        return false;
      }
      match ReadKind(data) {
        case Ok(Tag(_, t, c)) =>
          next, data, err := data[..t+c], data[t+c..], Ok(());
        case Err(e) =>
          next, err := [], Err(e);
      }
      return true;
    }
  }

  /** An iterator over the body of an encoded list, or the reason there is none. */
  method NewListIterator(data: bytes) returns (r: Result<ListIterator>)
    ensures r.Ok? <==> SplitList(data).Ok?
    ensures r.Ok? ==> fresh(r.value) && r.value.data == SplitList(data).value.0
    ensures r.Err? ==> r.error == SplitList(data).error
  {
    match ReadKind(data)
    case Err(e) => r := Err(e);
    case Ok(Tag(k, t, c)) =>
      if k != List {
        r := Err(ExpectedList);
      } else {
        var it := new ListIterator(data[t..t+c]);
        r := Ok(it);
      }
  }

  /**
    Calling `Next` until it answers false or reports an error yields exactly the pieces of the
    body, or the error that keeps it from splitting; the iterator then stays where it is.
   */
  method Drain(it: ListIterator) returns (values: seq<bytes>, err: Result<()>)
    modifies it
    ensures err.Ok? <==> Pieces(old(it.data)).Ok?
    ensures err.Ok? ==> values == Pieces(old(it.data)).value && it.data == []
    ensures err.Err? ==> err.error == Pieces(old(it.data)).error && ReadKind(it.data) == Err(err.error)
  {
    hide RlpRaw.ReadKind;
    values := [];
    ghost var all := Pieces(it.data);
    if it.data == [] {
      return values, Ok(());
    }
    var more := it.Next();
    while more
      invariant more && it.err.Ok? ==> (all.Ok? <==> Pieces(it.data).Ok?)
      invariant more && it.err.Ok? && all.Ok? ==> all.value == values + [it.next] + Pieces(it.data).value
      invariant more && it.err.Ok? && all.Err? ==> all.error == Pieces(it.data).error
      invariant more && it.err.Err? ==> all == Err(it.err.error) && ReadKind(it.data) == Err(it.err.error)
      invariant !more ==> it.data == [] && all == Ok(values)
      decreases more, |it.data|, it.err.Ok?
    {
      if it.err.Err? {
        return values, it.err;
      }
      values := values + [it.next];
      assert it.data == [] ==> all.value == values;
      more := it.Next();
    }
    return values, Ok(());
  }
}
