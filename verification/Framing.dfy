/** Packets on the game's connection: the encoder and the splitter
    (internal/backend/packet), and the dispatcher's reading of the frames. */
module Framing {
  import opened Bytes
  import opened Wire

  const HEADER: Byte := 255

  /** The longest payload whose frame length fits its 16-bit field. */
  const LONGEST := 65531

  /** The splitter looks for this many frames and no more. */
  const FRAMES := 10

  datatype Packet = Packet(code: Byte, payload: seq<Byte>)

  /** Slicing past a buffer's capacity panics. */
  datatype Outcome = Frames(frames: seq<seq<Byte>>) | OutOfRange {
    function After(first: seq<seq<Byte>>): Outcome {
      match this
      case Frames(rest) => Frames(first + rest)
      case OutOfRange => OutOfRange
    }
  }

  // ----- Printing -----

  function Encode(p: Packet): seq<Byte> {
    [HEADER, p.code] + Put16(|p.payload| + 4) + p.payload
  }

  function EncodeEach(ps: seq<Packet>): seq<seq<Byte>> {
    seq(|ps|, i requires 0 <= i < |ps| => Encode(ps[i]))
  }

  function Concat(frames: seq<seq<Byte>>): seq<Byte> {
    if frames == [] then [] else frames[0] + Concat(frames[1..])
  }

  method EncodePacket(code: Byte, data: seq<Byte>) returns (payload: array<Byte>)
    ensures fresh(payload)
    ensures payload[..] == Encode(Packet(code, data))
  {
    var length := |data| + 4;
    payload := new Byte[length](_ => 0);
    payload[0] := HEADER;
    payload[1] := code;
    CopyInto(payload, 2, Put16(length));
    CopyInto(payload, 4, data);
  }

  function Min(a: nat, b: nat): nat {
    if a < b then a else b
  }

  // ----- Splitting -----

  /** The length that the frame at an offset says it has. */
  function Declared(s: seq<Byte>, at: nat): nat
    requires at + 4 <= |s|
  {
    Get16([s[at + 2], s[at + 3]])
  }

  /** The splitter stops at this offset of the first n bytes of b. Its bound on the
      declared length is the source's. */
  predicate Stops(b: seq<Byte>, n: nat, offset: nat)
    requires n <= |b|
  {
    offset + 4 > n || b[offset] != HEADER || Declared(b, offset) > n + offset
  }

  /** The frames of the first n bytes of b from an offset on, at most fuel of them.
      A frame may take in bytes after n, which are the buffer's spare capacity. */
  function Parse(b: seq<Byte>, n: nat, offset: nat, fuel: nat): Outcome
    requires n <= |b|
    decreases fuel, n
  {
    if fuel == 0 || Stops(b, n, offset) then Frames([])
    else
      var next := offset + Declared(b, offset);
      if next > |b| then OutOfRange else Parse(b, n, next, fuel - 1).After([b[offset..next]])
  }

  function SplitOf(b: seq<Byte>, n: nat): Outcome
    requires n <= |b|
  {
    if n < 4 then Frames([b[..n]]) else Parse(b, n, 0, FRAMES)
  }

  lemma ParseFindsNone(b: seq<Byte>, n: nat, offset: nat, fuel: nat)
    requires n <= |b|
    ensures Parse(b, n, offset, fuel) == Frames([]) <==> fuel == 0 || Stops(b, n, offset)
  {
    if fuel > 0 && !Stops(b, n, offset) {
      var next := offset + Declared(b, offset);
      if next <= |b| { assert Parse(b, n, offset, fuel) == Parse(b, n, next, fuel - 1).After([b[offset..next]]); }
    }
  }

  lemma AfterAfter(o: Outcome, a: seq<seq<Byte>>, b: seq<seq<Byte>>)
    ensures o.After(b).After(a) == o.After(a + b)
  {
    if o.Frames? { assert a + (b + o.frames) == (a + b) + o.frames; }
  }

  lemma AfterNothing(o: Outcome)
    ensures o.After([]) == o
  {
  }

  lemma AfterSame(o: Outcome, first: seq<seq<Byte>>, rest: seq<seq<Byte>>)
    ensures o.After(first) == Frames(first + rest) <==> o == Frames(rest)
  {
    if o.Frames? {
      assert (first + o.frames)[|first|..] == o.frames && (first + rest)[|first|..] == rest;
    }
  }

  lemma ParseTakesOne(b: seq<Byte>, n: nat, offset: nat, fuel: nat, packets: seq<seq<Byte>>)
    requires n <= |b| && fuel > 0 && !Stops(b, n, offset)
    requires offset + Declared(b, offset) <= |b|
    ensures var next := offset + Declared(b, offset);
      Parse(b, n, offset, fuel).After(packets) == Parse(b, n, next, fuel - 1).After(packets + [b[offset..next]])
  {
    var next := offset + Declared(b, offset);
    AfterAfter(Parse(b, n, next, fuel - 1), packets, [b[offset..next]]);
  }

  lemma ParseEnds(b: seq<Byte>, n: nat, offset: nat, fuel: nat, packets: seq<seq<Byte>>)
    requires n <= |b| && (fuel == 0 || Stops(b, n, offset))
    ensures Parse(b, n, offset, fuel).After(packets) == Frames(packets)
  {
    ParseFindsNone(b, n, offset, fuel);
  }

  /** The length of the frame at an offset, unless the splitter stops there. */
  method NextLength(buf: array<Byte>, n: nat, offset: nat) returns (length: Option<nat>)
    requires n <= buf.Length
    ensures length.None? <==> Stops(buf[..], n, offset)
    ensures length.Some? ==> length.value == Declared(buf[..], offset)
  {
    if offset + 4 > n { return None; }
    if buf[offset] != HEADER { return None; }
    var declared := Get16([buf[offset + 2], buf[offset + 3]]);
    assert declared == Declared(buf[..], offset);
    if declared > n + offset { return None; }
    return Some(declared);
  }

  /** With these packets found, what is left to parse from an offset completes the
      parse from the beginning. */
  predicate HasRead(b: seq<Byte>, n: nat, limit: nat, packets: seq<seq<Byte>>, offset: nat, left: nat)
    requires n <= |b|
  {
    Parse(b, n, 0, limit) == Parse(b, n, offset, left).After(packets)
  }

  lemma ReadsOne(b: seq<Byte>, n: nat, limit: nat, packets: seq<seq<Byte>>, offset: nat, left: nat)
    requires n <= |b| && left > 0 && !Stops(b, n, offset) && offset + Declared(b, offset) <= |b|
    requires HasRead(b, n, limit, packets, offset, left)
    ensures var next := offset + Declared(b, offset);
      HasRead(b, n, limit, packets + [b[offset..next]], next, left - 1)
  {
    ParseTakesOne(b, n, offset, left, packets);
  }

  lemma ReadsAll(b: seq<Byte>, n: nat, limit: nat, packets: seq<seq<Byte>>, offset: nat, left: nat)
    requires n <= |b| && HasRead(b, n, limit, packets, offset, left)
    ensures left == 0 || Stops(b, n, offset) ==> Parse(b, n, 0, limit) == Frames(packets)
    ensures left > 0 && !Stops(b, n, offset) && offset + Declared(b, offset) > |b| ==>
              Parse(b, n, 0, limit) == OutOfRange
  {
    if left == 0 || Stops(b, n, offset) { ParseEnds(b, n, offset, left, packets); }
  }

  /** The splitter's loop: at most limit frames. */
  method SplitUpTo(buf: array<Byte>, n: nat, limit: nat) returns (r: Outcome)
    requires n <= buf.Length
    ensures r == Parse(buf[..], n, 0, limit)
  {
    ghost var b, left := buf[..], limit;
    var packets: seq<seq<Byte>> := [];
    var offset, i := 0, 0;
    AfterNothing(Parse(b, n, 0, limit));
    while i < limit
      invariant 0 <= i <= limit && left == limit - i && 0 <= offset <= buf.Length
      invariant HasRead(b, n, limit, packets, offset, left)
    {
      var length := NextLength(buf, n, offset);
      if length.None? { break; }
      var next := offset + length.value;
      if next > buf.Length {
        ReadsAll(b, n, limit, packets, offset, left);
        return OutOfRange;
      }
      ReadsOne(b, n, limit, packets, offset, left);
      assert buf[offset..next] == b[offset..next];
      packets := packets + [buf[offset..next]];
      offset := next;
      i, left := i + 1, left - 1;
    }
    ReadsAll(b, n, limit, packets, offset, left);
    r := Frames(packets);
  }

  /** Split the first n bytes of a buffer. */
  method Split(buf: array<Byte>, n: nat) returns (r: Outcome)
    requires n <= buf.Length
    ensures r == SplitOf(buf[..], n)
    ensures n < 4 ==> r == Frames([buf[..n]])
  {
    if n < 4 { return Frames([buf[..n]]); }
    r := SplitUpTo(buf, n, FRAMES);
  }

  // ----- What the splitter finds -----

  /** A frame of at least four bytes is one the dispatcher may act on; it begins with
      the header and says its own length. */
  predicate WellFormedFrame(f: seq<Byte>) {
    |f| >= 4 ==> f[0] == HEADER && Declared(f, 0) == |f|
  }

  /** A frame as the encoder makes them: whole, and saying its own length. */
  predicate Whole(f: seq<Byte>) {
    |f| >= 4 && WellFormedFrame(f)
  }

  predicate AllWhole(fs: seq<seq<Byte>>) {
    forall i | 0 <= i < |fs| :: Whole(fs[i])
  }

  /** fs lies in b from an offset on, each frame as long as it says, at most fuel of
      them, and the splitter stops after the last unless out of fuel. */
  ghost predicate Tiles(b: seq<Byte>, n: nat, offset: nat, fuel: nat, fs: seq<seq<Byte>>)
    requires n <= |b|
  {
    && (forall f | f in fs :: WellFormedFrame(f))
    && offset + |Concat(fs)| <= |b|
    && Concat(fs) == b[offset..offset + |Concat(fs)|]
    && |fs| <= fuel
    && (|fs| < fuel ==> Stops(b, n, offset + |Concat(fs)|))
  }

  lemma TilesMore(b: seq<Byte>, n: nat, offset: nat, fuel: nat, next: nat, rest: seq<seq<Byte>>)
    requires n <= |b| && offset <= next <= |b| && fuel > 0
    requires WellFormedFrame(b[offset..next]) && Tiles(b, n, next, fuel - 1, rest)
    ensures Tiles(b, n, offset, fuel, [b[offset..next]] + rest)
  {
    var f := b[offset..next];
    var fs := [f] + rest;
    assert fs[0] == f && fs[1..] == rest;
    var end := next + |Concat(rest)|;
    assert b[offset..end] == f + b[next..end];
  }

  lemma FrameWellFormed(b: seq<Byte>, n: nat, offset: nat)
    requires n <= |b| && !Stops(b, n, offset) && offset + Declared(b, offset) <= |b|
    ensures WellFormedFrame(b[offset..offset + Declared(b, offset)])
  {
  }

  /** The frames of a buffer lie one after another, each as long as it says, and the
      splitter stopped after the last of them for want of fuel or of a frame. */
  lemma {:induction false} FramesTile(b: seq<Byte>, n: nat, offset: nat, fuel: nat)
    requires n <= |b| && offset <= |b|
    requires Parse(b, n, offset, fuel).Frames?
    ensures Tiles(b, n, offset, fuel, Parse(b, n, offset, fuel).frames)
    decreases fuel
  {
    if fuel > 0 && !Stops(b, n, offset) {
      var next := offset + Declared(b, offset);
      FramesTile(b, n, next, fuel - 1);
      FrameWellFormed(b, n, offset);
      TilesMore(b, n, offset, fuel, next, Parse(b, n, next, fuel - 1).frames);
    }
  }

  /** The frames wholly within s: what a splitter with an exact bound would find. */
  function Chop(s: seq<Byte>, fuel: nat): seq<seq<Byte>>
    decreases fuel
  {
    if fuel == 0 || |s| < 4 || s[0] != HEADER || Declared(s, 0) > |s| then []
    else [s[..Declared(s, 0)]] + Chop(s[Declared(s, 0)..], fuel - 1)
  }

  /** No frame of s that is reached overruns s by so little that the source's bound
      lets it through. s begins at the given offset of its buffer. */
  predicate NoOverrun(s: seq<Byte>, offset: nat, fuel: nat)
    decreases fuel
  {
    fuel == 0 || |s| < 4 || s[0] != HEADER ||
    (if Declared(s, 0) <= |s| then NoOverrun(s[Declared(s, 0)..], offset + Declared(s, 0), fuel - 1)
     else Declared(s, 0) > |s| + 2 * offset)
  }

  lemma ChopUnfolds(b: seq<Byte>, n: nat, offset: nat, fuel: nat)
    requires offset + 4 <= n <= |b| && fuel > 0 && b[offset] == HEADER
    requires offset + Declared(b, offset) <= n
    ensures var next := offset + Declared(b, offset);
      && Chop(b[offset..n], fuel) == [b[offset..next]] + Chop(b[next..n], fuel - 1)
      && NoOverrun(b[offset..n], offset, fuel) == NoOverrun(b[next..n], next, fuel - 1)
  {
    var s := b[offset..n];
    var next := offset + Declared(s, 0);
    assert s[Declared(s, 0)..] == b[next..n] && s[..Declared(s, 0)] == b[offset..next];
  }

  lemma ChopFindsNone(b: seq<Byte>, n: nat, offset: nat, fuel: nat)
    requires offset <= n <= |b|
    requires fuel == 0 || offset + 4 > n || b[offset] != HEADER || offset + Declared(b, offset) > n
    ensures Chop(b[offset..n], fuel) == []
    ensures NoOverrun(b[offset..n], offset, fuel) <==> fuel == 0 || Stops(b, n, offset)
  {
    if offset + 4 <= n { assert Declared(b[offset..n], 0) == Declared(b, offset); }
  }

  /** After a frame within the input, the rest decides. */
  lemma ParseChopsMore(b: seq<Byte>, n: nat, offset: nat, fuel: nat)
    requires offset + 4 <= n <= |b| && fuel > 0 && b[offset] == HEADER
    requires offset + Declared(b, offset) <= n
    ensures var next := offset + Declared(b, offset);
      Parse(b, n, offset, fuel) == Frames(Chop(b[offset..n], fuel)) <==>
      Parse(b, n, next, fuel - 1) == Frames(Chop(b[next..n], fuel - 1))
  {
    var next := offset + Declared(b, offset);
    var f, rest := b[offset..next], Parse(b, n, next, fuel - 1);
    ChopUnfolds(b, n, offset, fuel);
    AfterSame(rest, [f], Chop(b[next..n], fuel - 1));
    assert Parse(b, n, offset, fuel) == rest.After([f]);
  }

  lemma ParseChopsNone(b: seq<Byte>, n: nat, offset: nat, fuel: nat)
    requires offset <= n <= |b|
    requires fuel == 0 || offset + 4 > n || b[offset] != HEADER || offset + Declared(b, offset) > n
    ensures Parse(b, n, offset, fuel) == Frames(Chop(b[offset..n], fuel)) <==> NoOverrun(b[offset..n], offset, fuel)
  {
    ParseFindsNone(b, n, offset, fuel);
    ChopFindsNone(b, n, offset, fuel);
  }

  /** The splitter finds the frames within its input, whatever the spare capacity
      holds, exactly if no frame overruns the input within the source's bound. */
  lemma {:induction false} ParseChopsExactly(b: seq<Byte>, n: nat, offset: nat, fuel: nat)
    requires offset <= n <= |b|
    ensures Parse(b, n, offset, fuel) == Frames(Chop(b[offset..n], fuel)) <==> NoOverrun(b[offset..n], offset, fuel)
    decreases fuel
  {
    if fuel == 0 || offset + 4 > n || b[offset] != HEADER || offset + Declared(b, offset) > n {
      ParseChopsNone(b, n, offset, fuel);
    } else {
      ParseChopsExactly(b, n, offset + Declared(b, offset), fuel - 1);
      ChopUnfolds(b, n, offset, fuel);
      ParseChopsMore(b, n, offset, fuel);
    }
  }

  lemma SplitChopsExactly(b: seq<Byte>, n: nat)
    requires 4 <= n <= |b|
    ensures SplitOf(b, n) == Frames(Chop(b[..n], FRAMES)) <==> NoOverrun(b[..n], 0, FRAMES)
  {
    assert b[0..n] == b[..n];
    ParseChopsExactly(b, n, 0, FRAMES);
  }

  /** A second frame that claims eight bytes where four are left passes the bound: it
      is cut past the end of the buffer, or takes in bytes that were not received. */
  lemma OverrunPassesBound(spare: seq<Byte>)
    requires |spare| >= 4
    ensures var b: seq<Byte> := [255, 1, 4, 0] + [255, 2, 8, 0];
      && SplitOf(b, 8) == OutOfRange
      && SplitOf(b + spare, 8) == Frames([b[..4], b[4..] + spare[..4]])
  {
    var b: seq<Byte> := [255, 1, 4, 0] + [255, 2, 8, 0];
    assert Parse(b, 8, 4, 9) == OutOfRange;
    var c := b + spare;
    assert c[4..12] == b[4..] + spare[..4];
    assert c[0..4] == b[..4];
    assert Parse(c, 8, 12, 8) == Frames([]);
    assert Parse(c, 8, 4, 9) == Frames([c[4..12]]);
    assert Parse(c, 8, 0, FRAMES) == Parse(c, 8, 4, 9).After([c[0..4]]);
  }

  // ----- Round trips -----

  predicate Fits(p: Packet) {
    |p.payload| <= LONGEST
  }

  predicate AllFit(ps: seq<Packet>) {
    forall i | 0 <= i < |ps| :: Fits(ps[i])
  }

  lemma EncodeDeclares(p: Packet, after: seq<Byte>)
    ensures Declared(Encode(p) + after, 0) == |Encode(p)| % 0x1_0000
  {
    GetPut16(|p.payload| + 4);
    assert [Encode(p)[2], Encode(p)[3]] == Put16(|p.payload| + 4);
  }

  lemma EncodedAreWhole(ps: seq<Packet>)
    requires AllFit(ps)
    ensures AllWhole(EncodeEach(ps))
  {
    forall i | 0 <= i < |ps| ensures Whole(EncodeEach(ps)[i]) {
      EncodeDeclares(ps[i], []);
      assert Encode(ps[i]) + [] == Encode(ps[i]);
    }
  }

  /** One frame alone is split off whole exactly if its length fits its field. */
  lemma FitsExactly(p: Packet)
    ensures SplitOf(Encode(p), |Encode(p)|) == Frames([Encode(p)]) <==> Fits(p)
  {
    var b := Encode(p);
    EncodeDeclares(p, []);
    assert b + [] == b && b[0..] == b;
    var d := Declared(b, 0);
    var rest := Parse(b, |b|, d, FRAMES - 1);
    assert SplitOf(b, |b|) == rest.After([b[0..d]]);
    if rest.Frames? { assert ([b[0..d]] + rest.frames)[0] == b[0..d]; }
    if Fits(p) { assert b[0..d] == b; }
  }

  /** The frames lie one after another in the first n bytes of b, from an offset on. */
  predicate Laid(b: seq<Byte>, n: nat, offset: nat, fs: seq<seq<Byte>>)
    requires n <= |b|
    decreases |fs|
  {
    if fs == [] then offset <= n
    else
      var next := offset + |fs[0]|;
      next <= n && b[offset..next] == fs[0] && Laid(b, n, next, fs[1..])
  }

  /** Where frames laid from an offset on end. */
  function End(offset: nat, fs: seq<seq<Byte>>): nat
    decreases |fs|
  {
    if fs == [] then offset else End(offset + |fs[0]|, fs[1..])
  }

  lemma ParseFindsOne(b: seq<Byte>, n: nat, offset: nat, fuel: nat, f: seq<Byte>)
    requires n <= |b| && fuel > 0 && Whole(f)
    requires offset + |f| <= n && b[offset..offset + |f|] == f
    ensures Parse(b, n, offset, fuel) == Parse(b, n, offset + |f|, fuel - 1).After([f])
  {
    assert b[offset] == f[0] && b[offset..][2] == f[2] && b[offset..][3] == f[3];
  }

  lemma ParsePassesOne(b: seq<Byte>, n: nat, offset: nat, fuel: nat, fs: seq<seq<Byte>>, o: Outcome)
    requires n <= |b| && fuel > 0 && fs != [] && Whole(fs[0])
    requires offset + |fs[0]| <= n && b[offset..offset + |fs[0]|] == fs[0]
    requires Parse(b, n, offset + |fs[0]|, fuel - 1) == o.After(fs[1..])
    ensures Parse(b, n, offset, fuel) == o.After(fs)
  {
    ParseFindsOne(b, n, offset, fuel, fs[0]);
    AfterAfter(o, [fs[0]], fs[1..]);
    assert fs == [fs[0]] + fs[1..];
  }

  /** The splitter takes whole frames and carries on after them. */
  lemma {:induction false} ParsePasses(b: seq<Byte>, n: nat, offset: nat, fuel: nat, fs: seq<seq<Byte>>)
    requires n <= |b| && |fs| <= fuel && AllWhole(fs) && Laid(b, n, offset, fs)
    ensures Parse(b, n, offset, fuel) == Parse(b, n, End(offset, fs), fuel - |fs|).After(fs)
    decreases fuel
  {
    if fs != [] {
      ParsePasses(b, n, offset + |fs[0]|, fuel - 1, fs[1..]);
      ParsePassesOne(b, n, offset, fuel, fs, Parse(b, n, End(offset, fs), fuel - |fs|));
    } else {
      AfterNothing(Parse(b, n, offset, fuel));
    }
  }

  lemma {:induction false} LaidPrefix(b: seq<Byte>, n: nat, offset: nat, fs: seq<seq<Byte>>, k: nat)
    requires n <= |b| && k <= |fs| && Laid(b, n, offset, fs)
    ensures Laid(b, n, offset, fs[..k])
    decreases |fs|
  {
    if k > 0 {
      LaidPrefix(b, n, offset + |fs[0]|, fs[1..], k - 1);
      assert fs[..k][1..] == fs[1..][..k - 1];
    } else {
      LaidWithin(b, n, offset, fs);
    }
  }

  lemma {:induction false} LaidWithin(b: seq<Byte>, n: nat, offset: nat, fs: seq<seq<Byte>>)
    requires n <= |b| && Laid(b, n, offset, fs)
    ensures offset <= n
    decreases |fs|
  {
    if fs != [] { LaidWithin(b, n, offset + |fs[0]|, fs[1..]); }
  }

  lemma {:induction false} ConcatIsLaid(b: seq<Byte>, n: nat, offset: nat, fs: seq<seq<Byte>>, after: seq<Byte>)
    requires offset <= n <= |b| && b[offset..n] == Concat(fs) + after
    ensures Laid(b, n, offset, fs) && End(offset, fs) == offset + |Concat(fs)|
    decreases |fs|
  {
    if fs != [] {
      var f, more := fs[0], Concat(fs[1..]) + after;
      var s := b[offset..n];
      assert s == f + more;
      assert s[..|f|] == f && s[|f|..] == more;
      assert b[offset..offset + |f|] == s[..|f|];
      assert b[offset + |f|..n] == s[|f|..];
      ConcatIsLaid(b, n, offset + |f|, fs[1..], after);
    }
  }

  lemma SplitPasses(b: seq<Byte>, n: nat, fs: seq<seq<Byte>>)
    requires 4 <= n <= |b| && |fs| <= FRAMES && AllWhole(fs) && Laid(b, n, 0, fs)
    ensures SplitOf(b, n) == Frames(fs) <==> |fs| == FRAMES || Stops(b, n, End(0, fs))
  {
    var end, fuel := End(0, fs), FRAMES - |fs|;
    ParsePasses(b, n, 0, FRAMES, fs);
    AfterSame(Parse(b, n, end, fuel), fs, []);
    assert fs + [] == fs;
    ParseFindsNone(b, n, end, fuel);
  }

  lemma FramesAreLaid(b: seq<Byte>, n: nat, fs: seq<seq<Byte>>, tail: seq<Byte>, k: nat)
    requires n <= |b| && b[..n] == Concat(fs) + tail
    requires fs != [] && AllWhole(fs) && k <= |fs|
    ensures n >= 4 && AllWhole(fs[..k]) && Laid(b, n, 0, fs[..k]) && (k == |fs| ==> End(0, fs[..k]) == |Concat(fs)|)
  {
    assert b[0..n] == b[..n];
    ConcatIsLaid(b, n, 0, fs, tail);
    LaidPrefix(b, n, 0, fs, k);
    LaidWithin(b, n, |fs[0]|, fs[1..]);
    if k == |fs| { assert fs[..k] == fs; }
  }

  /** Whole frames, then a tail: the splitter gives the first ten frames, and no
      more, exactly if ten frames came or it stops at the tail. */
  lemma SplitFindsExactly(b: seq<Byte>, n: nat, fs: seq<seq<Byte>>, tail: seq<Byte>)
    requires n <= |b| && b[..n] == Concat(fs) + tail
    requires fs != [] && AllWhole(fs)
    ensures SplitOf(b, n) == Frames(fs[..Min(|fs|, 10)])
      <==> |fs| >= 10 || Stops(b, n, |Concat(fs)|)
  {
    var k := Min(|fs|, 10);
    FramesAreLaid(b, n, fs, tail, k);
    SplitPasses(b, n, fs[..k]);
  }

  // ----- The dispatcher -----

  /** The packets among the frames; a frame without a whole header is skipped. */
  function Recover(frames: seq<seq<Byte>>): seq<Packet> {
    if frames == [] then []
    else if |frames[0]| < 4 || frames[0][0] != HEADER then Recover(frames[1..])
    else [Packet(frames[0][1], frames[0][4..])] + Recover(frames[1..])
  }

  lemma {:induction false} RecoverEncoded(ps: seq<Packet>)
    ensures Recover(EncodeEach(ps)) == ps
  {
    if ps != [] {
      assert Encode(ps[0])[4..] == ps[0].payload;
      assert EncodeEach(ps)[1..] == EncodeEach(ps[1..]);
      RecoverEncoded(ps[1..]);
    }
  }

  /** A frame counts exactly if it has a whole header, and in its place. */
  lemma {:induction false} RecoverInPlace(frames: seq<seq<Byte>>, i: nat)
    requires i < |frames|
    ensures var f := frames[i];
      Recover(frames) == Recover(frames[..i])
                         + (if |f| >= 4 && f[0] == 255 then [Packet(f[1], f[4..])] else [])
                         + Recover(frames[i + 1..])
  {
    if i == 0 {
      assert frames[..0] == [];
    } else {
      RecoverInPlace(frames[1..], i - 1);
      assert frames[1..][..i - 1] == frames[..i][1..];
      assert frames[1..][i..] == frames[i + 1..];
    }
  }

  /** An input shorter than a header is one frame, of which the dispatcher makes nothing. */
  lemma ShortInputIgnored(b: seq<Byte>, n: nat)
    requires n <= |b| && n < 4
    ensures SplitOf(b, n) == Frames([b[..n]]) && Recover(SplitOf(b, n).frames) == []
  {
    assert Recover([b[..n]][1..]) == [];
  }

  /** The bytes of an encoded packet. */
  lemma EncodeBytes(p: Packet)
    ensures var b, n := Encode(p), |p.payload| + 4;
      && |b| == n && b[0] == 255 && b[1] == p.code && b[2] == n % 256 && b[3] == n / 256 % 256
      && b[4..] == p.payload
  {
  }

  lemma StopsAtTail(b: seq<Byte>, n: nat, sent: seq<Byte>, tail: seq<Byte>)
    requires n <= |b| && b[..n] == sent + tail
    requires |tail| < 4 || tail[0] != HEADER
    ensures Stops(b, n, |sent|)
  {
    if |tail| >= 4 { assert b[|sent|] == (sent + tail)[|sent|] == tail[0]; }
  }

  /** The packets sent are the packets dispatched, in order, up to ten of them. */
  lemma RoundTrip(b: seq<Byte>, n: nat, ps: seq<Packet>, tail: seq<Byte>)
    requires n <= |b| && b[..n] == Concat(EncodeEach(ps)) + tail
    requires ps != [] && AllFit(ps)
    requires |tail| < 4 || tail[0] != HEADER
    ensures SplitOf(b, n) == Frames(EncodeEach(ps[..Min(|ps|, 10)]))
    ensures Recover(SplitOf(b, n).frames) == ps[..Min(|ps|, 10)]
  {
    EncodedAreWhole(ps);
    StopsAtTail(b, n, Concat(EncodeEach(ps)), tail);
    SplitFindsExactly(b, n, EncodeEach(ps), tail);
    var k := Min(|ps|, FRAMES);
    assert EncodeEach(ps[..k]) == EncodeEach(ps)[..k];
    RecoverEncoded(ps[..k]);
  }

  /** Hand each packet to its handler, until one fails. */
  method HandleCommands(packets: seq<seq<Byte>>, fails: Packet -> bool) returns (handled: seq<Packet>, failed: bool)
    ensures handled <= Recover(packets)
    ensures failed ==> handled != [] && fails(handled[|handled| - 1])
    ensures !failed ==> handled == Recover(packets)
    ensures forall i | 0 <= i < |handled| :: fails(handled[i]) ==> failed && i == |handled| - 1
  {
    handled := [];
    for i := 0 to |packets|
      invariant Recover(packets) == handled + Recover(packets[i..])
      invariant forall j | 0 <= j < |handled| :: !fails(handled[j])
    {
      var data := packets[i];
      assert packets[i..][1..] == packets[i + 1..];
      if |data| < 4 { continue; }
      if data[0] != HEADER { continue; }
      var p := Packet(data[1], data[4..]);
      assert Recover(packets[i..]) == [p] + Recover(packets[i + 1..]);
      assert handled + ([p] + Recover(packets[i + 1..])) == (handled + [p]) + Recover(packets[i + 1..]);
      handled := handled + [p];
      if fails(p) { return handled, true; }
    }
    assert Recover(packets[|packets|..]) == [];
    failed := false;
  }
}
