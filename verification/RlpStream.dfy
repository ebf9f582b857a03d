/**
  The streaming decoder of `rlp/decode.go`: a reader with a limit, a stack of open lists and
  a cached look-ahead header, all updated in place.

  `Valid` is what every operation keeps: list positions never pass list sizes, an open list
  fits in the unread rest of the list around it, and on a limited stream the unread rest of
  the outermost list fits in the remaining input. `Tracking` adds the connection to the
  bytes: `Window` is the part of the input the next value must come from, and each read is
  proved to agree with the slice-based parser on that window.
 */
module RlpStream {
  import opened Common
  import opened Rlp
  import opened RlpRaw
  import opened RlpCodec

  datatype ListPos = ListPos(pos: nat, size: nat)

  // ---------------------------------------------------------------- the stack of open lists

  ghost predicate Nested(stack: seq<ListPos>) {
    && (forall i :: 0 <= i < |stack| ==> stack[i].pos <= stack[i].size < TWO_TO_THE_64)
    && (forall i {:trigger stack[i].pos} :: 0 <= i < |stack| - 1 ==> stack[i].pos + stack[i+1].size <= stack[i].size)
  }

  /** Bytes consumed since the outermost list was opened. */
  ghost function Consumed(stack: seq<ListPos>): nat {
    if stack == [] then 0 else Consumed(stack[..|stack|-1]) + stack[|stack|-1].pos
  }

  /** The unread rest of the innermost list is part of the unread rest of the outermost one. */
  lemma {:induction false} InnermostFits(stack: seq<ListPos>)
    requires Nested(stack) && stack != []
    ensures var tos := stack[|stack|-1]; tos.size - tos.pos <= stack[0].size - Consumed(stack)
  {
    if |stack| > 1 {
      InnermostFits(stack[..|stack|-1]);
    }
  }

  function Advance(stack: seq<ListPos>, n: nat): (s: seq<ListPos>)
    ensures |s| == |stack|
  {
    if stack == [] then []
    else
      var tos := stack[|stack|-1];
      stack[|stack|-1 := ListPos(tos.pos + n, tos.size)]
  }

  /** The counters agree: no list is overrun, and no open list promises more than the input has. */
  ghost predicate Sound(stack: seq<ListPos>, limited: bool, remaining: nat) {
    && remaining < TWO_TO_THE_64
    && Nested(stack)
    && (limited && stack != [] ==> stack[0].size - Consumed(stack) <= remaining)
  }

  /** Reading what the innermost list allows keeps them so, and never exceeds the limit. */
  lemma ReadingIsSound(stack: seq<ListPos>, limited: bool, remaining: nat, n: nat)
    requires Sound(stack, limited, remaining) && stack != []
    requires n <= stack[|stack|-1].size - stack[|stack|-1].pos
    ensures limited ==> n <= remaining
    ensures Sound(Advance(stack, n), limited, if limited then remaining - n else remaining)
  {
    InnermostFits(stack);
    assert Advance(stack, n)[..|stack|-1] == stack[..|stack|-1];
  }

  lemma RoomIsSound(stack: seq<ListPos>, limited: bool, remaining: nat)
    requires Sound(stack, limited, remaining) && stack != []
    ensures stack[|stack|-1].pos <= stack[|stack|-1].size < TWO_TO_THE_64
    ensures limited ==> stack[|stack|-1].size - stack[|stack|-1].pos <= remaining
  {
    InnermostFits(stack);
  }

  /** So does opening a list that fits in the list around it, or else in the limit, */
  lemma OpeningIsSound(stack: seq<ListPos>, limited: bool, remaining: nat, size: nat)
    requires Sound(stack, limited, remaining) && size < TWO_TO_THE_64
    requires if stack == [] then limited ==> size <= remaining
             else size <= stack[|stack|-1].size - stack[|stack|-1].pos
    ensures Sound(stack + [ListPos(0, size)], limited, remaining)
  {
    assert (stack + [ListPos(0, size)])[..|stack|] == stack;
  }

  /** and closing one that has been read to its end. */
  lemma ClosingIsSound(stack: seq<ListPos>, limited: bool, remaining: nat)
    requires Sound(stack, limited, remaining) && stack != []
    requires stack[|stack|-1].pos == stack[|stack|-1].size
    ensures Sound(Advance(stack[..|stack|-1], stack[|stack|-1].size), limited, remaining)
  {
    var below := stack[..|stack|-1];
    if below != [] {
      var up := Advance(below, stack[|stack|-1].size);
      assert up[..|up|-1] == below[..|below|-1];
      assert stack[|stack|-2].pos + stack[|stack|-1].size <= stack[|stack|-2].size;
      assert Consumed(stack) == Consumed(below) + stack[|stack|-1].size == Consumed(up);
    }
  }

  lemma AdvanceTwice(stack: seq<ListPos>, m: nat, n: nat)
    ensures Advance(Advance(stack, m), n) == Advance(stack, m + n)
    ensures Advance(stack, 0) == stack
  {
  }

  lemma SliceOfSlice(s: bytes, a: nat, b: nat, c: nat, d: nat)
    requires a <= b <= |s| && c <= d <= b - a
    ensures s[a..b][c..d] == s[a+c..a+d]
  {
    assert forall i :: 0 <= i < d - c ==> s[a..b][c..d][i] == s[a+c..a+d][i];
  }

  lemma Glue(s: bytes, t: nat, c: nat)
    requires t + c <= |s|
    ensures s[..t] + s[t..t+c] == s[..t+c]
  {
  }

  /** What the innermost list has left, and the stack with its position moved, on 64-bit words. */
  function Unread(stack: seq<ListPos>): uint64
    requires stack != []
  {
    (stack[|stack|-1].size - stack[|stack|-1].pos) % TWO_TO_THE_64
  }

  function Moved(stack: seq<ListPos>, n: uint64): seq<ListPos> {
    if stack == [] then [] else
    var tos := stack[|stack|-1];
    stack[|stack|-1 := ListPos((tos.pos + n) % TWO_TO_THE_64, tos.size)]
  }

  /** Within a list the words do not wrap. */
  lemma NoWrap(stack: seq<ListPos>, n: uint64)
    requires stack != [] && stack[|stack|-1].pos <= stack[|stack|-1].size < TWO_TO_THE_64
    ensures Unread(stack) == stack[|stack|-1].size - stack[|stack|-1].pos
    ensures n <= Unread(stack) ==> Moved(stack, n) == Advance(stack, n)
  {
  }

  // ---------------------------------------------------------------- the header grammar

  /** Which sizes are accepted. */
  lemma SizeIs(w: bytes, n: nat)
    requires 1 <= n <= 8
    ensures n > |w| ==> ReadSize(w, n).Err?
    ensures n <= |w| ==> (ReadSize(w, n).Ok? <==> w[0] != 0 && BeValue(w[..n]) >= 56)
    ensures n <= |w| && ReadSize(w, n).Ok? ==> ReadSize(w, n).value == BeValue(w[..n])
  {
  }

  /** The header at the front of `w` as the stream reads it: a single byte is all header. */
  function Prefix(w: bytes): (r: Result<Tag>)
    ensures r.Ok? ==> 1 <= r.value.tagSize <= |w| && r.value.contentSize < TWO_TO_THE_64
  {
    if w == [] then Err(EOF)
    else
      var b := w[0];
      if b < 0x80 then Ok(Tag(Byte, 1, 0))
      else if b < 0xB8 then Ok(Tag(String, 1, b - 0x80))
      else if b < 0xC0 then LongPrefix(w, String, b - 0xB7)
      else if b < 0xF8 then Ok(Tag(List, 1, b - 0xC0))
      else LongPrefix(w, List, b - 0xF7)
  }

  function LongPrefix(w: bytes, k: Kind, n: nat): (r: Result<Tag>)
    requires w != [] && 1 <= n <= 8
    ensures r.Ok? ==> r.value.tagSize <= |w| && r.value.contentSize < TWO_TO_THE_64
  {
    match ReadSize(w[1..], n)
    case Err(e) => Err(e)
    case Ok(size) =>
      SizeIsCanonical(w[1..], n);
      Ok(Tag(k, n + 1, size))
  }

  function Header(w: bytes): (r: Result<Tag>)
    ensures r.Ok? ==> 1 <= r.value.tagSize && r.value.tagSize + r.value.contentSize <= |w|
  {
    match Prefix(w)
    case Err(e) => Err(e)
    case Ok(tag) => Bounded(w, tag)
  }

  /** The content of the value at the front of `w`. */
  ghost function ContentOf(w: bytes): bytes
    requires Header(w).Ok?
  {
    w[Header(w).value.tagSize..Header(w).value.tagSize + Header(w).value.contentSize]
  }

  /** What comes after the value at the front of `w`. */
  ghost function AfterFirst(w: bytes): bytes
    requires Header(w).Ok?
  {
    w[Header(w).value.tagSize + Header(w).value.contentSize..]
  }

  /** `tag`, `byteval` and `err` are what looking ahead at `w` gives. */
  ghost predicate IsHeader(w: bytes, tag: Tag, byteval: byte, err: Option<Error>) {
    if err.None? then Header(w) == Ok(tag) && (tag.kind == Byte ==> byteval == w[0]) else Header(w).Err?
  }

  /** The errors a look-ahead can meet. */
  predicate IsHeaderError(e: Error) {
    e in {EOF, UnexpectedEOF, CanonSize, ValueTooLarge, ElemTooLarge}
  }

  /** A one-byte string that should have been a single byte: only noticed once it is read. */
  predicate Overlong(w: bytes) {
    |w| > 1 && w[0] == 0x81 && w[1] < 0x80
  }

  /** Both parsers see the same headers. */
  lemma HeadersAgree(w: bytes)
    ensures ReadKind(w).Ok? <==> Header(w).Ok? && !Overlong(w)
    ensures ReadKind(w).Ok? ==>
              var Tag(k, t, c) := Header(w).value;
              ReadKind(w).value == if k == Byte then Tag(Byte, 0, 1) else Tag(k, t, c)
    ensures Overlong(w) ==> Header(w) == Ok(Tag(String, 1, 1))
  {
  }

  /** What the slice-based parser makes of a string, in terms of the header the stream sees. */
  lemma StringsAgree(w: bytes)
    ensures SplitString(w).Ok? ==> Header(w).Ok?
    ensures Header(w).Ok? ==>
              var Tag(k, t, c) := Header(w).value;
              && t + c <= |w|
              && match k
              case Byte => t == 1 && c == 0 && w[0] < 128 && SplitString(w) == Ok((w[..1], w[1..]))
              case String =>
                SplitString(w) == if c == 1 && w[t] < 128 then Err(CanonSize) else Ok((w[t..t+c], w[t+c..]))
              case List => SplitString(w).Err?
  {
    HeadersAgree(w);
  }

  // ---------------------------------------------------------------- the stream

  class Stream {
    // the reader
    var data: bytes
    var off: nat

    var remaining: nat
    var limited: bool
    var kind: Option<Kind>
    var size: nat
    var byteval: byte
    var kinderr: Option<Error>
    var stack: seq<ListPos>

    /** Header bytes already read of the value ahead. */
    ghost var hdr: nat

    ghost function Room(): int
      reads this`remaining, this`stack
    {
      if stack == [] then remaining else stack[|stack|-1].size - stack[|stack|-1].pos
    }

    /** The counters: what has been read never passes a list, nor a list the input. */
    ghost predicate Counters()
      reads this`data, this`off, this`remaining, this`limited, this`stack
    {
      off <= |data| && Sound(stack, limited, remaining) && Room() >= 0
    }

    ghost predicate Valid()
      reads this`data, this`off, this`remaining, this`limited, this`stack
      reads this`kind, this`size, this`kinderr
    {
      && Counters()
      && size < TWO_TO_THE_64
      && (kind.Some? && kinderr.None? ==> Fits(size))
      && (kinderr.Some? ==> IsHeaderError(kinderr.value))
    }

    /** What the enclosing list, or else the input limit, still allows to be read. */
    ghost predicate Fits(n: nat)
      reads this`remaining, this`limited, this`stack
    {
      if stack == [] then limited ==> n <= remaining
      else n <= stack[|stack|-1].size - stack[|stack|-1].pos
    }

    /** The limit is the length of the input: so it is when decoding a byte slice. */
    ghost predicate Synced()
      reads this
    {
      limited && hdr <= off <= |data| && remaining == |data| - off && 0 <= Room() <= remaining
    }

    /** The bytes the value ahead must come from, from its first header byte on. */
    ghost function Window(): bytes
      requires Synced()
      reads this
    {
      data[off-hdr..off+Room()]
    }

    /** The cached look-ahead is the header at the front of the window. */
    ghost predicate Tracking()
      reads this
    {
      && Synced()
      && (kind.None? ==> hdr == 0)
      && (kind.Some? && stack != [] ==> Window() != [])
      && (kind.Some? ==> IsHeader(Window(), Tag(kind.value, hdr, size), byteval, kinderr))
    }

    /** Only the innermost list (or the input) has been read from, and its end is where it was. */
    twostate predicate SameLevel()
      reads this`data, this`off, this`stack, this`remaining
    {
      && data == old(data)
      && off + Room() == old(off + Room())
      && |stack| == |old(stack)|
      && (stack != [] ==>
            && stack[..|stack|-1] == old(stack)[..|stack|-1]
            && stack[|stack|-1].size == old(stack)[|stack|-1].size)
    }

    /** How many bytes can be read now: the innermost list, the limit and the input allow it. */
    ghost function Reach(): (n: nat)
      requires Counters()
      reads this`data, this`off, this`remaining, this`limited, this`stack
      ensures forall k: nat :: Fits(k) && off + k <= |data| <==> k <= n
      ensures off + n <= |data|
    {
      var have := |data| - off;
      if stack == [] && !limited then have else if Room() <= have then Room() else have
    }

    /** What has been read is accounted for in the innermost list and in the limit. */
    twostate predicate Accounted()
      reads this`off, this`stack, this`remaining, this`limited
    {
      && old(off) <= off
      && stack == Advance(old(stack), off - old(off))
      && remaining == if limited then old(remaining) - (off - old(off)) else old(remaining)
    }

    /** Reading from a synced stream leaves the end of the current level where it was. */
    twostate lemma ReadKeepsLevel()
      requires old(Synced()) && Accounted() && data == old(data) && limited == old(limited)
      ensures SameLevel() && remaining == |data| - off
    {
      if stack != [] {
        assert stack[..|stack|-1] == old(stack)[..|stack|-1];
      }
    }

    twostate lemma ReachIsRoom()
      requires old(Counters() && Synced())
      ensures old(Reach()) == old(Room())
    {
    }

    /** The limit, if all else allows it, never exceeds the input. */
    ghost predicate Backed()
      reads this
    {
      limited && remaining <= |data| - off
    }

    /**
      A stream over `b`. Without an explicit limit, the limit is the input length when the
      reader knows it (`sized`), and there is none otherwise.
     */
    constructor (b: bytes, inputLimit: nat, sized: bool)
      requires |b| < TWO_TO_THE_64 && inputLimit < TWO_TO_THE_64
      ensures Valid() && data == b && off == 0 && stack == [] && kind == None && hdr == 0
      ensures limited <==> inputLimit > 0 || sized
      ensures limited ==> remaining == if inputLimit > 0 then inputLimit else |b|
      ensures limited && remaining == |b| ==> Tracking() && Window() == b
    {
      data, off := b, 0;
      limited := inputLimit > 0 || sized;
      remaining := if inputLimit > 0 then inputLimit else if sized then |b| else 0;
      stack, size, kind, kinderr, byteval, hdr := [], 0, None, None, 0, 0;
    }

    // ------------------------------------------------ reading bytes

    /** The counters of the innermost list are 64-bit words. */
    ghost predicate Words()
      reads this`stack
    {
      stack != [] ==> stack[|stack|-1].pos < TWO_TO_THE_64 && stack[|stack|-1].size < TWO_TO_THE_64
    }

    /**
      The accounting by itself, on 64-bit words and for any counters. The position of the innermost
      list is advanced before the input limit is compared, so a failing call moves it exactly if
      the list has the bytes and the limit does not.
     */
    method Charge(n: uint64) returns (e: Option<Error>)
      requires Words()
      modifies this`kind, this`stack, this`remaining
      ensures kind == None
      ensures e.None? <==> (old(stack) != [] ==> n <= Unread(old(stack))) && (limited ==> n <= old(remaining))
      ensures e.Some? ==> remaining == old(remaining)
      ensures e.Some? ==>
                (stack != old(stack) <==> old(stack) != [] && limited && old(remaining) < n <= Unread(old(stack)))
      ensures e.Some? ==> e.value == if old(stack) != [] && n > Unread(old(stack)) then ElemTooLarge else ValueTooLarge
      ensures stack == old(stack) || stack == Moved(old(stack), n)
      ensures e.None? ==> stack == Moved(old(stack), n)
      ensures e.None? ==> remaining == if limited then old(remaining) - n else old(remaining)
    {
      kind := None;
      if |stack| > 0 {
        var tos := stack[|stack|-1];
        if n > (tos.size - tos.pos) % TWO_TO_THE_64 {
          return Some(ElemTooLarge);
        }
        stack := stack[|stack|-1 := ListPos((tos.pos + n) % TWO_TO_THE_64, tos.size)];
        assert n > 0 ==> stack[|stack|-1].pos != tos.pos;
      }
      if limited {
        if n > remaining {
          return Some(ValueTooLarge);
        }
        remaining := remaining - n;
      }
      return None;
    }

    /**
      Accounts for `n` bytes about to be read. A failing call leaves the counters alone because an
      open list never promises more than the input has left.
     */
    method WillRead(n: nat) returns (e: Option<Error>)
      requires Valid() && n < TWO_TO_THE_64
      modifies this`kind, this`stack, this`remaining
      ensures Valid() && kind == None
      ensures e.None? <==> old(Fits(n))
      ensures e.Some? ==> stack == old(stack) && remaining == old(remaining)
      ensures e.Some? ==> e.value == if old(stack) == [] then ValueTooLarge else ElemTooLarge
      ensures e.None? ==> stack == Advance(old(stack), n)
      ensures e.None? ==> remaining == if limited then old(remaining) - n else old(remaining)
    {
      hide Nested, Consumed;
      if stack != [] {
        RoomIsSound(stack, limited, remaining);
        NoWrap(stack, n);
        if n <= Unread(stack) {
          ReadingIsSound(stack, limited, remaining, n);
        }
      }
      e := Charge(n);
    }

    /** The reader fills a buffer of `n` bytes, in whatever portions it hands out. */
    method Fill(n: nat) returns (r: Result<bytes>)
      requires off <= |data|
      modifies this`off
      ensures old(off) <= off <= |data| && off <= old(off) + n
      ensures r.Ok? <==> old(off) + n <= |data|
      ensures r.Ok? ==> off == old(off) + n && r.value == data[old(off)..off]
      ensures r.Err? ==> r.error == UnexpectedEOF
    {
      var buf: bytes := [];
      while |buf| < n
        invariant |buf| <= n && off == old(off) + |buf| <= |data| && buf == data[old(off)..off]
      {
        if off == |data| {
          return Err(UnexpectedEOF);
        }
        var nn :| 1 <= nn <= n - |buf| && off + nn <= |data|;
        buf := buf + data[off..off+nn];
        off := off + nn;
      }
      return Ok(buf);
    }

    method ReadFull(n: nat) returns (r: Result<bytes>)
      requires Valid() && n < TWO_TO_THE_64
      modifies this`kind, this`stack, this`remaining, this`off
      ensures Valid() && kind == None && old(off) <= off
      ensures r.Ok? <==> n <= old(Reach())
      ensures r.Ok? ==> off == old(off) + n && r.value == data[old(off)..off] && Reach() == old(Reach()) - n
      ensures r.Ok? || old(Backed()) ==> Accounted()
      ensures old(Backed()) ==> Backed()
      ensures r.Err? ==> r.error in {UnexpectedEOF, ValueTooLarge, ElemTooLarge}
    {
      hide Sound;
      AdvanceTwice(stack, 0, 0);
      var e := WillRead(n);
      if e.Some? {
        return Err(e.value);
      }
      r := Fill(n);
    }

    method ReadByte() returns (r: Result<byte>)
      requires Valid()
      modifies this`kind, this`stack, this`remaining, this`off
      ensures Valid() && kind == None && old(off) <= off
      ensures r.Ok? <==> 1 <= old(Reach())
      ensures r.Ok? ==> off == old(off) + 1 && r.value == data[old(off)] && Reach() == old(Reach()) - 1
      ensures r.Ok? || old(Backed()) ==> Accounted()
      ensures old(Backed()) ==> Backed()
      ensures r.Err? ==> r.error in {UnexpectedEOF, ValueTooLarge, ElemTooLarge}
      ensures |stack| == |old(stack)| && (r == Err(ElemTooLarge) ==> old(stack) != [])
    {
      hide Sound;
      AdvanceTwice(stack, 0, 0);
      var e := WillRead(1);
      if e.Some? {
        return Err(e.value);
      }
      if off == |data| {
        return Err(UnexpectedEOF);
      }
      off := off + 1;
      return Ok(data[off-1]);
    }

    /** A big-endian integer of `n` bytes; longer ones must not start with a zero byte. */
    method ReadUint(n: nat) returns (r: Result<nat>)
      requires Valid() && n <= 8
      modifies this`kind, this`stack, this`remaining, this`off
      ensures Valid() && kind == None && old(off) <= off
      ensures r.Ok? <==> n <= old(Reach()) && (n >= 2 ==> data[old(off)] != 0)
      ensures r.Ok? ==> off == old(off) + n && r.value == BeValue(data[old(off)..off]) < TWO_TO_THE_64
      ensures r.Ok? || old(Backed()) ==> Accounted()
      ensures old(Backed()) ==> Backed()
      ensures r.Err? ==> r.error in {UnexpectedEOF, ValueTooLarge, ElemTooLarge, CanonSize}
      ensures r == Err(CanonSize) <==> n >= 2 && n <= old(Reach()) && data[old(off)] == 0
      ensures r == Err(CanonSize) ==> off == old(off) + n
    {
      hide Sound, Stream.Fits;
      if n == 0 {
        AdvanceTwice(stack, 0, 0);
        kind := None;
        return Ok(0);
      } else if n == 1 {
        var b := ReadByte();
        if b.Err? {
          return Err(b.error);
        }
        assert data[old(off)..off] == [b.value] && BeValue([b.value][..0]) == 0;
        return Ok(b.value);
      } else {
        var buf := ReadFull(n);
        if buf.Err? {
          return Err(buf.error);
        }
        if buf.value[0] == 0 {
          return Err(CanonSize);
        }
        BeValueBelow64(buf.value);
        return Ok(BeValue(buf.value));
      }
    }

    // ------------------------------------------------ look-ahead

    method ReadHeader() returns (k: Kind, sz: nat, e: Option<Error>)
      requires Valid()
      modifies this`kind, this`stack, this`remaining, this`off, this`byteval
      ensures Valid() && kind == None && old(off) <= off
      ensures sz < TWO_TO_THE_64 && (e.Some? ==> IsHeaderError(e.value))
      ensures var w := data[old(off)..old(off)+old(Reach())];
                && (e.None? <==> Prefix(w).Ok?)
                && (e.None? ==> Prefix(w).value == Tag(k, off - old(off), sz))
                && (e.None? && k == Byte ==> byteval == w[0])
                && (w != [] ==> off > old(off))
      ensures e == Some(EOF) <==> old(stack) == [] && old(Reach()) == 0
      ensures e.None? || old(Backed()) ==> Accounted()
    {
      hide Sound, Stream.Reach, Stream.Fits, Advance, ReadSize;
      ghost var w := data[off..off+Reach()];
      ghost var st := stack;
      var b := ReadByte();
      if b.Err? {
        var err := b.error;
        if |stack| == 0 && (err == UnexpectedEOF || err == ValueTooLarge) {
          err := EOF;
        }
        return Byte, 0, Some(err);
      }
      byteval := 0;
      var tag := b.value;
      assert w[1..] == data[off..off+Reach()];
      if tag < 0x80 {
        byteval := tag;
        return Byte, 0, None;
      } else if tag < 0xB8 {
        return String, tag - 0x80, None;
      } else if tag < 0xC0 {
        sz, e := ReadLongSize(tag - 0xB7);
        AdvanceTwice(st, 1, off - old(off) - 1);
        return String, sz, e;
      } else if tag < 0xF8 {
        return List, tag - 0xC0, None;
      } else {
        sz, e := ReadLongSize(tag - 0xF7);
        AdvanceTwice(st, 1, off - old(off) - 1);
        return List, sz, e;
      }
    }

    /** The size bytes of a long header. */
    method ReadLongSize(n: nat) returns (sz: nat, e: Option<Error>)
      requires Valid() && 1 <= n <= 8
      modifies this`kind, this`stack, this`remaining, this`off
      ensures Valid() && kind == None && old(off) <= off
      ensures sz < TWO_TO_THE_64 && (e.Some? ==> IsHeaderError(e.value) && e.value != EOF)
      ensures var w := data[old(off)..old(off)+old(Reach())];
                && (e.None? <==> ReadSize(w, n).Ok?)
                && (e.None? ==> off == old(off) + n && sz == ReadSize(w, n).value)
      ensures e.None? || old(Backed()) ==> Accounted()
    {
      hide Sound, Advance, ReadSize, Stream.Reach, Stream.Fits, BeValue;
      ghost var w := data[off..off+Reach()];
      SizeIs(w, n);
      assert w != [] ==> w[0] == data[off];
      var r := ReadUint(n);
      if r.Err? {
        return 0, Some(r.error);
      }
      SliceOfSlice(data, old(off), old(off) + old(Reach()), 0, n);
      UintContent(data[old(off)..off], n);
      if r.value < 56 {
        return r.value, Some(CanonSize);
      }
      return r.value, None;
    }

    /** Reads the next header into the look-ahead fields. */
    method LookAhead()
      requires Valid() && kind == None
      requires stack != [] ==> stack[|stack|-1].pos != stack[|stack|-1].size
      modifies this
      ensures Valid() && data == old(data) && limited == old(limited) && kind.Some?
      ensures kinderr == Some(EOF) <==> old(stack) == [] && old(Reach()) == 0
      ensures old(Tracking()) ==> Tracking() && SameLevel() && Window() == old(Window())
    {
      hide Sound, Prefix, Advance, Stream.Reach, IsHeader, Stream.SameLevel;
      var k, sz, e := ReadHeader();
      kind, size, kinderr := Some(k), sz, e;
      hdr := off - old(off);
      CheckSize();
      if old(Tracking()) {
        assert old(Backed());
        LookedAhead(e.None?);
      }
    }

    /** A header read from a tracked stream is the one at the front of the window. */
    twostate lemma LookedAhead(ok: bool)
      requires old(Counters() && Tracking() && kind == None)
      requires old(stack) != [] ==> old(Room()) > 0
      requires Counters() && data == old(data) && limited == old(limited) && Accounted()
      requires kind.Some? && hdr == off - old(off) && (kinderr.None? <==> ok && Fits(size))
      requires var w := data[old(off)..old(off)+old(Reach())];
               && (ok <==> Prefix(w).Ok?)
               && (ok ==> Prefix(w).value == Tag(kind.value, hdr, size))
               && (ok && kind.value == Byte ==> byteval == w[0])
      ensures Tracking() && SameLevel() && Window() == old(Window())
    {
      hide Sound, Prefix, Advance, Stream.Reach;
      ReachIsRoom();
      ReadKeepsLevel();
      assert Window() == old(Window());
    }

    /** A value ahead must fit in the list around it, or else in the input limit. */
    method CheckSize()
      modifies this`kinderr
      ensures kinderr.None? <==> old(kinderr).None? && Fits(size)
      ensures old(kinderr).Some? ==> kinderr == old(kinderr)
      ensures kinderr != old(kinderr) ==> kinderr == Some(if stack == [] then ValueTooLarge else ElemTooLarge)
    {
      if kinderr.None? {
        if |stack| == 0 {
          if limited && size > remaining {
            kinderr := Some(ValueTooLarge);
          }
        } else {
          var tos := stack[|stack|-1];
          if size > tos.size - tos.pos {
            kinderr := Some(ElemTooLarge);
          }
        }
      }
    }

    /**
      Kind and size of the value ahead. Looking ahead consumes nothing: the window stays the
      same, and asking again gives the same answer.
     */
    method Kind() returns (r: Result<(Kind, nat)>)
      requires Valid()
      modifies this
      ensures Valid() && data == old(data) && limited == old(limited)
      ensures old(Tracking()) ==> Tracking() && SameLevel() && Window() == old(Window())
      ensures old(Tracking()) ==> (r == Err(EOL) <==> stack != [] && Window() == [])
      ensures old(Tracking()) ==> (r.Ok? <==> Header(Window()).Ok?)
      ensures old(Tracking()) && r.Ok? ==>
                var Tag(k, t, c) := Header(Window()).value; r.value == (k, c) && kind == Some(k) && hdr == t
      ensures r.Ok? ==> kind == Some(r.value.0) && size == r.value.1 && kinderr == None
      ensures r.Err? ==> r.error == EOL || IsHeaderError(r.error)
      ensures old(kind).None? ==> (r == Err(EOF) <==> old(stack) == [] && old(Reach()) == 0)
      ensures old(kind).Some? ==>
                r == if old(kinderr).Some? then Err(old(kinderr).value) else Ok((old(kind).value, old(size)))
    {
      hide Sound, Prefix, Advance;
      if kind.None? {
        kinderr := None;
        if |stack| > 0 && stack[|stack|-1].pos == stack[|stack|-1].size {
          return Err(EOL);
        }
        LookAhead();
      }
      if kinderr.Some? {
        return Err(kinderr.value);
      }
      return Ok((kind.value, size));
    }

    // ------------------------------------------------ reading values

    /** The value ahead has been taken: the window now starts after it. */
    twostate predicate Taken(n: nat)
      requires old(Synced())
      reads this
    {
      Tracking() && SameLevel() && kind.None? && n <= |old(Window())| && Window() == old(Window())[n..]
    }

    /** Takes a single byte: it was all header. */
    method TakeByte() returns (b: byte)
      requires Valid() && kind == Some(Byte) && kinderr == None
      modifies this`kind, this`hdr
      ensures Valid()
      ensures b == byteval
      ensures old(Tracking()) ==> Taken(1) && b == old(Window())[0]
    {
      hide Sound, Prefix, SplitString, Stream.Fits;
      if Tracking() { StringsAgree(Window()); }
      kind, hdr := None, 0;
      b := byteval;
    }

    /** The content of the value ahead, `n` bytes, has been read and accounted for. */
    twostate lemma TookContent(n: nat)
      requires old(Tracking()) && n <= old(Room())
      requires data == old(data) && limited == old(limited) && off == old(off) + n && Accounted()
      requires kind == None && hdr == 0
      ensures Taken(old(hdr) + n)
      ensures old(Window())[old(hdr)..old(hdr)+n] == data[old(off)..off]
    {
      hide Advance, IsHeader;
      ReadKeepsLevel();
      SliceOfSlice(data, old(off-hdr), old(off+Room()), old(hdr), old(hdr) + n);
    }

    /** Takes the content of the string or list ahead. */
    method TakeContent() returns (r: Result<bytes>)
      requires Valid() && kind.Some? && kinderr == None
      modifies this`kind, this`stack, this`remaining, this`off, this`hdr
      ensures Valid()
      ensures r.Err? ==> IsHeaderError(r.error)
      ensures r.Ok? ==> |r.value| == size
      ensures old(Tracking()) ==>
                r.Ok? && r.value == old(Window())[old(hdr)..old(hdr)+size] && Taken(old(hdr) + size)
    {
      hide Sound, Prefix, Advance, IsHeader, Stream.Reach;
      r := ReadFull(size);
      hdr := 0;
      if old(Tracking()) {
        ReachIsRoom();
        TookContent(size);
      }
    }

    method Bytes() returns (r: Result<bytes>)
      requires Valid()
      modifies this
      ensures Valid() && data == old(data) && limited == old(limited)
      ensures old(Tracking()) ==> (r.Ok? <==> SplitString(old(Window())).Ok?)
      ensures old(Tracking()) && r.Ok? ==>
                && Tracking() && SameLevel() && kind == None
                && (r.value, Window()) == SplitString(old(Window())).value
      ensures old(Tracking()) ==> (r == Err(EOL) <==> old(stack) != [] && old(Window()) == [])
      ensures old(Tracking()) ==>
                (r == Err(ExpectedString) <==> Header(old(Window())).Ok? && Header(old(Window())).value.kind == List)
    {
      hide Sound, Header, SplitString, Stream.Fits, Stream.Counters;
      if Tracking() { StringsAgree(Window()); }
      var ks := Kind();
      if ks.Err? {
        return Err(ks.error);
      }
      match ks.value.0
      case Byte =>
        var b := TakeByte();
        assert old(Tracking()) ==> [b] == old(Window())[..1];
        return Ok([b]);
      case String =>
        r := TakeContent();
        if r.Ok? && size == 1 && r.value[0] < 128 {
          return Err(CanonSize);
        }
      case List =>
        return Err(ExpectedString);
    }

    /**
      An unsigned integer of at most `maxbits` bits. The integers accepted are exactly those
      `SplitUint64` accepts that fit in `maxbits` bits.
     */
    method Uint(maxbits: nat) returns (r: Result<nat>)
      requires Valid() && maxbits in {8, 16, 32, 64}
      modifies this
      ensures Valid() && data == old(data) && limited == old(limited)
      ensures old(Tracking()) ==>
                (r.Ok? <==> SplitUint64(old(Window())).Ok? && SplitUint64(old(Window())).value.0 < Pow256(maxbits / 8))
      ensures old(Tracking()) && r.Ok? ==>
                && Tracking() && SameLevel() && kind == None
                && (r.value, Window()) == SplitUint64(old(Window())).value
      ensures old(Tracking()) ==> (r == Err(EOL) <==> old(stack) != [] && old(Window()) == [])
    {
      hide Sound, Header, SplitString, SplitUint64, Stream.Fits, Stream.Counters, BeValue;
      if Tracking() { UintsAgree(Window(), maxbits); }
      var ks := Kind();
      if ks.Err? {
        return Err(ks.error);
      }
      match ks.value.0
      case Byte =>
        if byteval == 0 {
          return Err(CanonInt);
        }
        var b := TakeByte();
        return Ok(b);
      case String =>
        if size > maxbits / 8 {
          return Err(UintOverflow);
        }
        r := TakeUint();
        if r == Err(CanonSize) {
          return Err(CanonInt);
        } else if r.Ok? && size > 0 && r.value < 128 {
          return Err(CanonSize);
        }
      case List =>
        return Err(ExpectedString);
    }

    /** Takes the content of the string ahead as an integer. */
    method TakeUint() returns (r: Result<nat>)
      requires Valid() && kind.Some? && kinderr == None && size <= 8
      modifies this`kind, this`stack, this`remaining, this`off, this`hdr
      ensures Valid()
      ensures r.Err? ==> IsHeaderError(r.error)
      ensures old(Tracking()) ==>
                && Taken(old(hdr) + size)
                && var content := old(Window())[old(hdr)..old(hdr)+size];
                   r == if size >= 2 && content[0] == 0 then Err(CanonSize) else Ok(BeValue(content))
    {
      hide Sound, Prefix, Advance, Header, BeValue, IsHeader, Stream.Reach;
      r := ReadUint(size);
      hdr := 0;
      if old(Tracking()) {
        ReachIsRoom();
        assert size <= old(Reach());
        TookContent(size);
      }
    }

    method Bool() returns (r: Result<bool>)
      requires Valid()
      modifies this
      ensures Valid() && data == old(data) && limited == old(limited)
      ensures old(Tracking()) ==>
                (r.Ok? <==> SplitUint64(old(Window())).Ok? && SplitUint64(old(Window())).value.0 <= 1)
      ensures old(Tracking()) && r.Ok? ==>
                && Tracking() && SameLevel() && kind == None
                && (if r.value then 1 else 0, Window()) == SplitUint64(old(Window())).value
    {
      hide Sound, Header, SplitUint64;
      assert Pow256(1) == 256;
      var num := Uint(8);
      if num.Err? {
        return Err(num.error);
      }
      match num.value
      case 0 => return Ok(false);
      case 1 => return Ok(true);
      case _ => return Err(InvalidBool);
    }

    /** The content of an integer of any length: no leading zero bytes. */
    method BigIntBytes() returns (r: Result<bytes>)
      requires Valid()
      modifies this
      ensures Valid() && data == old(data) && limited == old(limited)
      ensures old(Tracking()) ==>
                (r.Ok? <==> && SplitString(old(Window())).Ok?
                            && var content := SplitString(old(Window())).value.0; content == [] || content[0] != 0)
      ensures old(Tracking()) && r.Ok? ==>
                && Tracking() && SameLevel() && kind == None
                && (r.value, Window()) == SplitString(old(Window())).value
    {
      hide Sound, Header, SplitString, Stream.Fits, Stream.Counters;
      if Tracking() { StringsAgree(Window()); }
      var buffer: bytes := [];
      var ks := Kind();
      if ks.Err? {
        return Err(ks.error);
      } else if ks.value.0 == List {
        return Err(ExpectedString);
      } else if ks.value.0 == Byte {
        var b := TakeByte();
        buffer := [b];
        assert old(Tracking()) ==> buffer == old(Window())[..1];
      } else {
        // A zero-length read changes no counter, so the three string cases share one read.
        r := TakeContent();
        if r.Err? {
          return r;
        }
        buffer := r.value;
        if size == 1 && buffer[0] < 128 {
          return Err(CanonSize);
        }
      }
      if |buffer| > 0 && buffer[0] == 0 {
        return Err(CanonInt);
      }
      return Ok(buffer);
    }

    /** One whole encoded value: the header put back in front is the one that was read. */
    method Raw() returns (r: Result<bytes>)
      requires Valid()
      modifies this
      ensures Valid() && data == old(data) && limited == old(limited)
      ensures old(Tracking()) ==> (r.Ok? <==> Header(old(Window())).Ok?)
      ensures old(Tracking()) && r.Ok? ==>
                && Tracking() && SameLevel() && kind == None
                && var Tag(_, t, c) := Header(old(Window())).value;
                   t + c <= |old(Window())| && r.value == old(Window())[..t+c] && Window() == old(Window())[t+c..]
    {
      hide Sound, Header, Head, SplitString, Stream.Fits, Stream.Counters;
      if Tracking() { HeadersAreCanonical(Window()); }
      var ks := Kind();
      if ks.Err? {
        return Err(ks.error);
      }
      if ks.value.0 == Byte {
        var b := TakeByte();
        assert old(Tracking()) ==> [b] == old(Window())[..1];
        return Ok([b]);
      }
      r := TakeRaw(old(Tracking()));
    }

    /** Takes the content of the string or list ahead and puts its header back in front. */
    method TakeRaw(ghost tracking: bool) returns (r: Result<bytes>)
      requires Valid() && kind.Some? && kind.value != Byte && kinderr == None
      requires tracking ==> Tracking()
      requires tracking ==>
                 hdr + size <= |Window()| && Window()[..hdr] == Head(if kind.value == String then 0x80 else 0xC0, size)
      modifies this`kind, this`stack, this`remaining, this`off, this`hdr
      ensures Valid()
      ensures tracking ==> r.Ok? && r.value == old(Window())[..old(hdr)+size] && Taken(old(hdr) + size)
    {
      hide Sound, Head, Stream.Fits, Stream.Counters;
      var head := Head(if kind.value == String then 0x80 else 0xC0, size);
      var content := TakeContent();
      if content.Err? {
        return content;
      }
      if tracking { Glue(old(Window()), old(hdr), size); }
      return Ok(head + content.value);
    }

    // ------------------------------------------------ lists

    /** One more list is open; the one around it ends where it did. */
    twostate predicate OneDeeper()
      reads this`data, this`off, this`stack
    {
      && data == old(data)
      && |stack| == |old(stack)| + 1
      && (old(stack) != [] ==>
            var n := |old(stack)| - 1;
            && stack[..n] == old(stack)[..n]
            && stack[n].size == old(stack)[n].size
            && off - stack[n+1].pos + stack[n].size - stack[n].pos == old(off + Room()))
    }

    /** Opens the list ahead. Its content becomes the window. */
    method OpenList() returns (r: Result<nat>)
      requires Valid()
      modifies this
      ensures Valid() && data == old(data) && limited == old(limited)
      ensures r.Ok? ==> stack != [] && stack[|stack|-1] == ListPos(0, r.value) && kind == None
      ensures old(Tracking()) ==>
                (r.Ok? <==> Header(old(Window())).Ok? && Header(old(Window())).value.kind == List)
      ensures old(Tracking()) && r.Ok? ==>
                && var Tag(_, t, c) := Header(old(Window())).value;
                && Tracking() && OneDeeper() && r.value == c && off == old(off - hdr) + t
                && t >= 1 && t + c <= |old(Window())| && Window() == old(Window())[t..t+c]
      ensures old(Tracking()) ==> (r == Err(EOL) <==> old(stack) != [] && old(Window()) == [])
    {
      hide Sound, Header, Stream.Counters, Nested, Consumed;
      var ks := Kind();
      if ks.Err? {
        return Err(ks.error);
      }
      if ks.value.0 != List {
        return Err(ExpectedList);
      }
      if old(Tracking()) {
        SliceOfSlice(data, off - hdr, off + Room(), hdr, hdr + ks.value.1);
      }
      NewList(ks.value.1);
      return Ok(ks.value.1);
    }

    /** Opens a list of `n` bytes; it is for the caller to check that there is room for it. */
    method NewList(n: nat)
      requires Valid() && n < TWO_TO_THE_64
      modifies this`stack, this`kind, this`size, this`hdr
      ensures stack == old(stack) + [ListPos(0, n)] && kind == None && hdr == 0
      ensures old(Fits(n)) ==> Valid()
      ensures old(Synced() && Fits(n)) ==> Tracking() && Window() == data[off..off+n]
    {
      hide Sound;
      if Fits(n) {
        OpeningIsSound(stack, limited, remaining, n);
      }
      stack := stack + [ListPos(0, n)];
      kind := None;
      size := 0;
      hdr := 0;
    }

    /** Returns to the enclosing list; only at the end of the innermost one. */
    method ListEnd() returns (e: Option<Error>)
      requires Valid()
      modifies this`stack, this`kind, this`size, this`hdr
      ensures Valid()
      ensures e.None? <==> old(stack) != [] && old(Room()) == 0
      ensures e.Some? ==> unchanged(this) && e.value == if stack == [] then NotInList else NotAtEOL
      ensures e.None? ==>
                && kind == None && hdr == 0
                && stack == Advance(old(stack)[..|old(stack)|-1], old(stack)[|old(stack)|-1].size)
      ensures e.None? && old(Synced()) ==> Tracking()
    {
      hide Sound, Nested, Consumed, IsHeader, Header, Stream.Fits;
      if |stack| == 0 {
        return Some(NotInList);
      }
      var tos := stack[|stack|-1];
      if tos.pos != tos.size {
        return Some(NotAtEOL);
      }
      ClosingIsSound(stack, limited, remaining);
      stack := stack[..|stack|-1];
      if |stack| > 0 {
        var up := stack[|stack|-1];
        stack := stack[|stack|-1 := ListPos(up.pos + tos.size, up.size)];
        RoomIsSound(stack, limited, remaining);
      }
      kind := None;
      size := 0;
      hdr := 0;
      return None;
    }

    // ------------------------------------------------ generic values

    /** Decodes the value ahead: it computes `DecodeItem` on the window, and fails where that fails. */
    method DecodeInterface() returns (r: Result<Item>)
      requires Valid() && Tracking()
      modifies this
      ensures Valid() && data == old(data)
      ensures r == Err(EOL) <==> old(stack) != [] && old(Window()) == []
      ensures r == Err(EOL) ==> Tracking() && SameLevel() && kind == None && Window() == []
      ensures r.Ok? ==>
                && Tracking() && SameLevel() && kind == None
                && DecodeItem(old(Window())) == Ok((r.value, Window()))
      ensures r.Err? ==> DecodeItem(old(Window())).Err?
      decreases |data| - off + hdr, 2
    {
      hide Header, SplitString, DecodeItem, DecodeItems, Stream.Counters, Stream.Fits;
      ItemsAgree(Window());
      var ks := Kind();
      if ks.Err? {
        return Err(ks.error);
      }
      if ks.value.0 == List {
        var elems := DecodeListSlice();
        if elems.Err? {
          return Err(elems.error);
        }
        return Ok(Items(elems.value));
      } else {
        var b := Bytes();
        if b.Err? {
          return Err(b.error);
        }
        return Ok(Str(b.value));
      }
    }

    method DecodeListSlice() returns (r: Result<seq<Item>>)
      requires Valid() && Tracking()
      requires Header(Window()).Ok? && Header(Window()).value.kind == List
      modifies this
      ensures Valid() && data == old(data)
      ensures r.Err? ==> r.error != EOL
      ensures r.Ok? <==> DecodeItems(ContentOf(old(Window()))).Ok?
      ensures r.Ok? ==> r.value == DecodeItems(ContentOf(old(Window()))).value
      ensures r.Ok? ==> Tracking() && SameLevel() && kind == None && Window() == AfterFirst(old(Window()))
      decreases |data| - off + hdr, 1
    {
      hide Header, Sound, Nested, DecodeItems, Stream.Fits, Stream.Counters, IsHeader;
      var size := OpenList();
      r := DecodeContent(size.value);
      if r.Err? {
        return r;
      }
      assert OneDeeper();
      var e := ListEnd();
    }

    /** The items of the list just opened. */
    method DecodeContent(size: nat) returns (r: Result<seq<Item>>)
      requires Valid() && Tracking() && kind == None && stack != [] && |Window()| == size
      modifies this
      ensures Valid() && data == old(data)
      ensures r.Err? ==> r.error != EOL && DecodeItems(old(Window())).Err?
      ensures r.Ok? ==>
                && Tracking() && SameLevel() && kind == None && Window() == []
                && DecodeItems(old(Window())) == r
      decreases |data| - off + hdr, 4
    {
      hide Header, Sound, Nested, DecodeItems, Stream.Fits, Stream.Counters;
      if size != 0 {
        r := DecodeSliceElems();
      } else {
        NothingToDecode();
        r := Ok([]);
      }
    }

    method DecodeSliceElems() returns (r: Result<seq<Item>>)
      requires Valid() && Tracking() && kind == None && stack != []
      modifies this
      ensures Valid() && data == old(data)
      ensures r.Err? ==> r.error != EOL && DecodeItems(old(Window())).Err?
      ensures r.Ok? ==>
                && Tracking() && SameLevel() && kind == None && Window() == []
                && DecodeItems(old(Window())) == r
      decreases |data| - off + hdr, 3
    {
      hide Header, Sound, Stream.Fits, DecodeItem;
      var elems: seq<Item> := [];
      ghost var all := DecodeItems(Window());
      while true
        invariant Valid() && Tracking() && SameLevel() && kind == None
        invariant off >= old(off)
        invariant var rest := DecodeItems(Window());
                  (all.Ok? <==> rest.Ok?) && (all.Ok? ==> all.value == elems + rest.value)
        decreases |Window()|
      {
        var item := DecodeInterface();
        if item == Err(EOL) {
          NothingToDecode();
          assert all.value == elems + [] == elems;
          return Ok(elems);
        } else if item.Err? {
          return Err(item.error);
        }
        elems := elems + [item.value];
      }
    }
  }

  /** A list of ten bytes opened over an input of two: a failing call moves its position. */
  method ChargeMoves() returns (s: Stream, e: Option<Error>)
    ensures fresh(s) && e == Some(ValueTooLarge) && s.stack == [ListPos(5, 10)] && s.remaining == 2
  {
    s := new Stream([0, 0], 0, true);
    s.NewList(10);
    assert Moved([ListPos(0, 10)], 5) == [ListPos(5, 10)];
    e := s.Charge(5);
  }

  /**
    Decodes `b` as exactly one value. `b` is accepted if and only if it is the encoding of
    some item, and then that item is the result.
   */
  method DecodeBytes(b: bytes) returns (r: Result<Item>)
    requires |b| < TWO_TO_THE_64
    ensures r.Ok? ==> Encodable(r.value) && b == Encode(r.value)
    ensures forall item :: Encodable(item) && b == Encode(item) ==> r == Ok(item)
  {
    hide DecodeItem, Encode, Encodable;
    var stream := new Stream(b, |b|, true);
    r := stream.DecodeInterface();
    if r.Ok? {
      DecodedIsEncoding(b);
      if |stream.data| - stream.off > 0 {
        r := Err(MoreThanOneValue);
      } else {
        assert Encode(r.value) + [] == Encode(r.value);
      }
    }
    forall item | Encodable(item) && b == Encode(item)
      ensures r == Ok(item)
    {
      EncodingIsUnique(b, item);
    }
  }

  lemma NothingToDecode()
    ensures DecodeItems([]) == Ok([])
  {
  }

  /** One step of decoding, in terms of the header the stream sees. */
  lemma ItemsAgree(w: bytes)
    ensures Header(w).Err? ==> DecodeItem(w).Err?
    ensures Header(w).Ok? ==>
              var Tag(k, t, c) := Header(w).value;
              && t + c <= |w|
              && if k == List then
                   match DecodeItems(w[t..t+c])
                   case Ok(elems) => DecodeItem(w) == Ok((Items(elems), w[t+c..]))
                   case Err(_) => DecodeItem(w).Err?
                 else
                   match SplitString(w)
                   case Ok((content, rest)) => DecodeItem(w) == Ok((Str(content), rest))
                   case Err(_) => DecodeItem(w).Err?
  {
    hide Header, Prefix, RlpRaw.ReadKind, DecodeItems;
    HeadersAgree(w);
  }

  lemma HeadersAreCanonical(w: bytes)
    ensures Header(w).Ok? ==>
              var Tag(k, t, c) := Header(w).value;
              && t + c <= |w|
              && if k == Byte then t == 1 && c == 0 else w[..t] == Head(if k == String then 0x80 else 0xC0, c)
  {
    HeadersAgree(w);
    if ReadKind(w).Ok? {
      ReadIsHead(w);
    } else if Overlong(w) {
      assert w[..1] == [0x81];
    }
  }

  /** What the slice-based parser makes of an integer, in terms of the header the stream sees. */
  lemma UintsAgree(w: bytes, maxbits: nat)
    requires maxbits in {8, 16, 32, 64}
    ensures SplitUint64(w).Ok? ==> Header(w).Ok?
    ensures Header(w).Ok? ==>
              var Tag(k, t, c) := Header(w).value;
              && t + c <= |w|
              && match k
              case Byte => t == 1 && c == 0 && w[0] < 128 < Pow256(maxbits / 8) &&
                           SplitUint64(w) == if w[0] == 0 then Err(CanonInt) else Ok((w[0], w[1..]))
              case String =>
                var content := w[t..t+c];
                && (SplitUint64(w).Ok? ==> SplitUint64(w).value == (BeValue(content), w[t+c..]))
                && (SplitUint64(w).Ok? && SplitUint64(w).value.0 < Pow256(maxbits / 8) <==>
                    c <= maxbits / 8 && CanonicalUint(content))
              case List => SplitUint64(w).Err?
  {
    hide Header, SplitString, BeValue;
    StringsAgree(w);
    Pow256Monotone(1, maxbits / 8);
    if Header(w).Ok? && Header(w).value.kind == String {
      var Tag(k, t, c) := Header(w).value;
      var content := w[t..t+c];
      UintContent(content, maxbits / 8);
      assert content[..c] == content;
    }
  }

  predicate CanonicalUint(content: bytes) {
    (|content| >= 2 ==> content[0] != 0) && (|content| > 0 ==> BeValue(content) >= 128)
  }

  lemma UintContent(content: bytes, n: nat)
    ensures |content| >= 2 && content[0] != 0 ==> BeValue(content) >= 256
    ensures |content| == 1 ==> BeValue(content) == content[0]
    ensures |content| == 0 ==> BeValue(content) == 0
    ensures CanonicalUint(content) ==> (|content| <= n <==> BeValue(content) < Pow256(n))
  {
    if |content| == 1 {
      assert BeValue(content[..0]) == 0;
    } else if |content| >= 2 && content[0] != 0 {
      TwoBytesAtLeast256(content);
    }
    if CanonicalUint(content) && content != [] {
      BeBytesOfValue(content);
      BeBytesLength(BeValue(content), n);
    }
  }

  lemma BeValueBelow64(b: bytes)
    requires |b| <= 8
    ensures BeValue(b) < TWO_TO_THE_64
    decreases 8 - |b|
  {
    BeValueBound(b);
    Pow256Monotone(|b|, 8);
    Pow256Of8();
  }

  lemma {:induction false} Pow256Monotone(i: nat, j: nat)
    requires i <= j
    ensures Pow256(i) <= Pow256(j)
    decreases j
  {
    if i < j {
      Pow256Monotone(i, j - 1);
    }
  }
}
