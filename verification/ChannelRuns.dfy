/** Where the guarantee of the channel ends: read calls that end inside a frame. */
module ChannelRuns {
  import opened Memory
  import opened Wire
  import opened Channel

  // ---- inside and between frames ----

  /** A frame that has only been begun does not decode. */
  lemma PartialDoesNotDecode(r: ReaderPc)
    requires ReaderOk(r)
    ensures DecodeBuf(None, Partial(r)) == None
  {
    if r.Text? {
      WordSizes();
      FromBigEndianOf(4, r.need);
      assert Partial(r)[..4] == BigEndian(4, r.need);
    }
  }

  lemma OneLonger(ss: seq<seq<Byte>>, r: nat, k: nat)
    requires r <= k <= |ss|
    ensures Frames(ss[..k]) == Frames(ss[..r]) + Frames(ss[r..k])
  {
    assert ss[..k] == ss[..r] + ss[r..k];
    FramesConcat(ss[..r], ss[r..k]);
  }

  /** Bytes behind `r` frames that do not decode lead to no boundary between frames. */
  lemma NoBoundary(ss: seq<seq<Byte>>, r: nat, part: seq<Byte>, k: nat)
    requires Sendable(ss) && r <= |ss| && k <= |ss| && part != [] && DecodeBuf(None, part) == None
    ensures Frames(ss[..r]) + part != Frames(ss[..k])
  {
    if k <= r {
      OneLonger(ss, k, r);
    } else if Frames(ss[..r]) + part == Frames(ss[..k]) {
      OneLonger(ss, r, k);
      CancelLeft(Frames(ss[..r]), part, Frames(ss[r..k]));
      DecodeBufOf(None, ss[r], Frames(ss[r..k][1..]));
    }
  }

  /** All strings that are or will be on the wire, while no write has failed inside a frame. */
  function OnWire(s: State): seq<seq<Byte>> {
    s.sent + s.todo
  }

  lemma OnWirePrefix(s: State)
    requires |s.log| <= |s.sent|
    ensures OnWire(s)[..|s.log|] == s.sent[..|s.log|]
  {}

  /** `torn` means what it says: the call that sets it leaves the reader between calls and strictly
      inside a frame. */
  lemma TornIsInside(s: State, a: Action)
    requires Inv(s) && !s.cut && !s.torn && Step(s, a).torn && a != WriteError
    ensures Inside(Step(s, a), OnWire(s))
    ensures Step(s, a).reader == Between
    ensures forall k: nat :: k <= |OnWire(s)| ==> Step(s, a).consumed != Frames(OnWire(s)[..k])
  {
    OnWirePrefix(s);
    var part;
    if a == ReadError {
      PartialDoesNotDecode(s.reader);
      part := Partial(s.reader);
    } else {
      part := HeaderOfTear(s, a);
    }
    hide Inv, Step, Frames;
    forall k: nat | k <= |OnWire(s)|
      ensures Step(s, a).consumed != Frames(OnWire(s)[..k])
    {
      NoBoundary(OnWire(s), |s.log|, part, k);
    }
  }

  /** The reader is between calls, and not between frames. */
  ghost predicate Inside(s: State, strings: seq<seq<Byte>>) {
    s.reader == Between && forall k: nat :: k <= |strings| ==> s.consumed != Frames(strings[..k])
  }

  lemma UntornIsOutside(s: State)
    requires Inv(s) && !s.torn
    ensures !Inside(s, OnWire(s))
  {
    if s.reader == Between {
      OnWirePrefix(s);
      Assoc(s.consumed, [], []);
      Assoc(Frames(s.sent[..|s.log|]), [], []);
      assert |s.log| <= |OnWire(s)|;
    }
  }

  /** Apart from errors, only the header of a string that does not fit, and is not empty, tears. */
  lemma HeaderOfTear(s: State, a: Action) returns (h: seq<Byte>)
    requires Inv(s) && !s.cut && !s.torn && Step(s, a).torn && a != WriteError && a != ReadError
    ensures s.reader.Length? && Step(s, a).reader == Between && |h| == 4
    ensures Step(s, a).consumed == Frames(s.sent[..|s.log|]) + h
    ensures FromBigEndian(h) > 0 && !Accepts(s.reader.max, FromBigEndian(h)) && DecodeBuf(None, h) == None
  {
    hide Frames, BigEndian, FromBigEndian, EncodeBuf;
    var n := a.n;
    var k := Min(Min(n, Wanted(s.reader)), |s.fifo|);
    h := Partial(s.reader) + s.fifo[..k];
    Assoc(Frames(s.sent[..|s.log|]), Partial(s.reader), s.fifo[..k]);
  }

  /** When nothing is in flight and the writer is between calls, so is the stream at the reader's end:
      every string sent has its outcome. */
  lemma EmptyMeansBoundary(s: State)
    requires Inv(s) && !s.cut && !s.torn && s.writer == Idle && s.fifo == []
    ensures Partial(s.reader) == [] && |s.log| == |s.sent|
  {
    hide Frames, Sendable;
    var r := |s.log|;
    assert s.sent[..|s.sent|] == s.sent;
    Assoc(s.consumed, [], []);
    Assoc(s.written, [], []);
    Assoc(Frames(s.sent), [], []);
    if Partial(s.reader) != [] {
      PartialDoesNotDecode(s.reader);
      NoBoundary(s.sent, r, Partial(s.reader), |s.sent|);
    } else if r < |s.sent| {
      Assoc(Frames(s.sent[..r]), [], []);
      FramesSplit(s.sent, r);
      LongerStream(s.sent[r..]);
    }
  }

  lemma LongerStream(ss: seq<seq<Byte>>)
    requires ss != []
    ensures Frames(ss) != []
  {}

  // ---- when a read call ends inside a frame ----

  function Rest(s: State): seq<seq<Byte>> {
    if s.writer == Idle || s.todo == [] then s.todo else s.todo[1..]
  }

  lemma StreamPrefix(s: State)
    requires WriterOk(s) && Framed(s)
    ensures s.written + (Left(s) + Frames(Rest(s))) == Frames(OnWire(s))
  {
    FramesConcat(s.sent, s.todo);
    var rest := Frames(Rest(s));
    assert Frames(s.todo) == Current(s) + rest;
    hide Frames, Current, Left;
    Assoc(s.written, Left(s), rest);
    Assoc(Frames(s.sent), Current(s), rest);
  }

  /** Four bytes behind `r` frames are the length of the next string. */
  lemma HeaderIsNext(ss: seq<seq<Byte>>, r: nat, h: seq<Byte>, rest: seq<Byte>)
    requires Sendable(ss) && r <= |ss| && |h| == 4 && Frames(ss[..r]) + h + rest == Frames(ss)
    ensures r < |ss| && FromBigEndian(h) == |ss[r]|
  {
    FramesSplit(ss, r);
    var x := Frames(ss[r..]);
    {
      hide Frames;
      Assoc(Frames(ss[..r]), h, rest);
      CancelLeft(Frames(ss[..r]), h + rest, x);
    }
    NonEmpty(x, h, rest);
    assert ss[r..][0] == ss[r];
    var y := FramesFront(ss[r..]);
    hide Frames;
    SameFront(h, rest, BigEndian(4, |ss[r]|), y);
  }

  lemma NonEmpty(x: seq<Byte>, h: seq<Byte>, rest: seq<Byte>)
    requires x == h + rest && h != []
    ensures x != []
  {}

  /** A stream of frames begins with the length of its first string. */
  lemma FramesFront(ss: seq<seq<Byte>>) returns (y: seq<Byte>)
    requires ss != [] && |ss[0]| < WORD32
    ensures Frames(ss) == BigEndian(4, |ss[0]|) + y && FromBigEndian(BigEndian(4, |ss[0]|)) == |ss[0]|
  {
    FrameHeader(ss[0]);
    hide BigEndian, FromBigEndian, EncodeBuf;
    y := ss[0] + Frames(ss[1..]);
    Assoc(BigEndian(4, |ss[0]|), ss[0], Frames(ss[1..]));
  }

  lemma FrameHeader(x: seq<Byte>)
    requires |x| < WORD32
    ensures EncodeBuf(x) == BigEndian(4, |x|) + x && FromBigEndian(BigEndian(4, |x|)) == |x|
  {
    WordSizes();
    FromBigEndianOf(4, |x|);
    EncodedText(|x|, x);
    hide BigEndian, FromBigEndian, EncodeBuf;
  }

  lemma SameFront(a: seq<Byte>, b: seq<Byte>, c: seq<Byte>, d: seq<Byte>)
    requires a + b == c + d && |a| == |c|
    ensures a == c && b == d
  {
    assert a == (a + b)[..|a|] && c == (c + d)[..|a|];
    CancelLeft(a, b, d);
  }

  /** The header that the reader has seen belongs to the string that follows those of its log. */
  lemma HeaderOfString(s: State, h: seq<Byte>, rest: seq<Byte>)
    requires WriterOk(s) && Framed(s) && Sendable(s.sent) && Sendable(s.todo) && |s.log| <= |s.sent| && |h| == 4
    requires Frames(s.sent[..|s.log|]) + h + rest == s.written
    ensures |s.log| < |OnWire(s)| && FromBigEndian(h) == |OnWire(s)[|s.log|]|
  {
    hide Frames, FromBigEndian, Left;
    StreamPrefix(s);
    OnWirePrefix(s);
    var more := Left(s) + Frames(Rest(s));
    Assoc(Frames(s.sent[..|s.log|]) + h, rest, more);
    HeaderIsNext(OnWire(s), |s.log|, h, rest + more);
  }

  /** The sizes that the read calls of a run use. */
  ghost predicate UsesSizes(acts: seq<Action>, sizes: set<Option<nat>>) {
    forall a :: a in acts && a.BeginRead? ==> a.max in sizes
  }

  ghost predicate SizeIn(r: ReaderPc, sizes: set<Option<nat>>) {
    r != Between ==> r.max in sizes
  }

  /** Some non-empty string does not fit in some of the buffers. */
  ghost predicate Oversize(ss: seq<seq<Byte>>, sizes: set<Option<nat>>) {
    exists i, max :: 0 <= i < |ss| && Some(max) in sizes && ss[i] != [] && max <= |ss[i]|
  }

  lemma TearOnlyIfOversize(s: State, a: Action, sizes: set<Option<nat>>)
    requires Inv(s) && !s.cut && !s.torn && Step(s, a).torn && a != WriteError && a != ReadError
    requires SizeIn(s.reader, sizes)
    ensures Oversize(OnWire(s), sizes)
  {
    var h := HeaderOfTear(s, a);
    var t := Step(s, a);
    StepKeepsInv(s, a);
    HeaderOfString(s, h, t.fifo);
    var i := |s.log|;
    assert Some(s.reader.max.value) in sizes && OnWire(s)[i] != [] && s.reader.max.value <= |OnWire(s)[i]|;
  }

  lemma {:induction false} TornOnlyIfOversize(s: State, acts: seq<Action>, sizes: set<Option<nat>>)
    requires Inv(s) && !s.cut && !s.torn && SizeIn(s.reader, sizes) && UsesSizes(acts, sizes)
    requires WriteError !in acts && ReadError !in acts && Run(s, acts).torn
    ensures Oversize(OnWire(s), sizes)
    decreases |acts|
  {
    hide Inv, Oversize;
    if acts != [] {
      var a := acts[0];
      var t := Step(s, a);
      assert a in acts && SizeIn(t.reader, sizes);
      if t.torn {
        TearOnlyIfOversize(s, a, sizes);
      } else {
        StepKeepsInv(s, a);
        StepSkipsNothing(s, a);
        TornOnlyIfOversize(t, acts[1..], sizes);
      }
    }
  }

  /** If every non-empty string fits in every buffer, the outcomes of all calls are exactly the next
      strings, in every run without errors. */
  lemma FittingRun(strings: seq<seq<Byte>>, acts: seq<Action>, sizes: set<Option<nat>>)
    requires Sendable(strings) && !Oversize(strings, sizes) && UsesSizes(acts, sizes)
    requires WriteError !in acts && ReadError !in acts
    ensures var s := Run(Start(strings), acts);
            !s.torn && |s.log| <= |strings| && forall i :: 0 <= i < |s.log| ==>
              s.log[i].result == if s.log[i].max.Some? && s.log[i].max.value <= |strings[i]| then None else Some(strings[i])
  {
    hide Oversize;
    var s := Start(strings);
    assert OnWire(s) == strings;
    StartInv(strings);
    EveryRun(strings, acts);
    if Run(s, acts).torn {
      TornOnlyIfOversize(s, acts, sizes);
    }
  }

  lemma {:induction false} TornStays(s: State, acts: seq<Action>)
    requires s.torn
    ensures Run(s, acts).torn
    decreases |acts|
  {
    if acts != [] {
      TornStays(Step(s, acts[0]), acts[1..]);
    }
  }

  lemma {:induction false} RunConcat(s: State, a: seq<Action>, b: seq<Action>)
    ensures Run(s, a + b) == Run(Run(s, a), b)
    decreases |a|
  {
    hide Step;
    if a == [] {
      assert a + b == b;
    } else {
      RunConcat(Step(s, a[0]), a[1..], b);
      assert (a + b)[0] == a[0] && (a + b)[1..] == a[1..] + b;
    }
  }

  lemma RunThree(s: State, a: Action, b: Action, c: Action)
    ensures Run(s, [a, b, c]) == Step(Step(Step(s, a), b), c)
  {
    hide Step;
    assert [a, b, c][1..] == [b, c] && [b, c][1..] == [c] && [c][1..] == [];
    var u := Step(Step(s, a), b);
    assert Run(u, [c]) == Run(Step(u, c), []);
  }

  /** Both sides are between calls, and nothing is in flight. */
  ghost predicate AtRest(s: State) {
    s.writer == Idle && !s.closed && s.fifo == [] && s.reader == Between && !s.ended
  }

  /** write_str for the next string, without interruption. */
  function WriteOne(x: seq<Byte>): seq<Action> {
    [BeginWrite, Write(4), Write(|x|)]
  }

  function ReadOne(x: seq<Byte>, max: Option<nat>): seq<Action> {
    [BeginRead(max), Read(4), Read(|x|)]
  }

  lemma WriteOneMeans(s: State)
    requires AtRest(s) && s.todo != [] && |s.todo[0]| < WORD32
    ensures var t := Run(s, WriteOne(s.todo[0]));
            && t.writer == Idle && t.todo == s.todo[1..] && t.fifo == EncodeBuf(s.todo[0])
            && t.reader == Between && !t.ended && !t.closed && t.torn == s.torn && t.log == s.log
  {
    hide BigEndian;
    var x := s.todo[0];
    RunThree(s, BeginWrite, Write(4), Write(|x|));
    var h := BigEndian(4, |x| % WORD32);
    var s1 := Step(s, BeginWrite);
    var s2 := Step(s1, Write(4));
    assert h[..4] == h && h[4..] == [] && [] + h == h;
    assert x[..|x|] == x && x[|x|..] == [];
    assert s2.fifo == h && s2.writer == if x == [] then Idle else Payload(x);
    Assoc(h, [], []);
  }

  lemma ReadHeaderMeans(s: State, x: seq<Byte>, max: nat)
    requires s.reader == Length(Some(max), []) && !s.ended && s.fifo == EncodeBuf(x) && |x| < WORD32
    ensures var t := Step(s, Read(4)); var u := s.(fifo := x, consumed := s.consumed + BigEndian(4, |x|));
            t == if max <= |x| then Finished(u, Outcome(Some(max), None), x == [])
                 else if x == [] then Finished(u, Outcome(Some(max), Some([])), true)
                 else u.(reader := Text(Some(max), |x|, []))
  {
    FrameHeader(x);
    hide BigEndian, FromBigEndian, EncodeBuf, AfterRead, Step;
    var h := BigEndian(4, |x|);
    HeaderTaken(s, h, x);
    HeaderJudged(s.(reader := Length(Some(max), h), fifo := x, consumed := s.consumed + h), max, h, x);
  }

  lemma HeaderTaken(s: State, h: seq<Byte>, x: seq<Byte>)
    requires s.reader.Length? && s.reader.got == [] && !s.ended && s.fifo == h + x && |h| == 4
    ensures Step(s, Read(4)) == AfterRead(s.(reader := Length(s.reader.max, h), fifo := x, consumed := s.consumed + h))
  {
    hide AfterRead;
    assert s.fifo[..4] == h && s.fifo[4..] == x && [] + h == h;
  }

  lemma HeaderJudged(t: State, max: nat, h: seq<Byte>, x: seq<Byte>)
    requires t.reader == Length(Some(max), h) && |h| == 4 && FromBigEndian(h) == |x|
    ensures AfterRead(t) == if max <= |x| then Finished(t, Outcome(Some(max), None), x == [])
                            else if x == [] then Finished(t, Outcome(Some(max), Some([])), true)
                            else t.(reader := Text(Some(max), |x|, []))
  {
    hide FromBigEndian;
  }

  lemma ReadOneMeans(s: State, x: seq<Byte>, max: nat)
    requires s.reader == Between && !s.ended && s.fifo == EncodeBuf(x) && |x| < WORD32
    ensures var t := Run(s, ReadOne(x, Some(max)));
            && t.writer == s.writer && t.todo == s.todo && t.closed == s.closed && !t.ended && t.reader == Between
            && (s.torn ==> t.torn)
            && (if x != [] && max <= |x| then t.torn else t.fifo == [])
            && t.log == s.log + [Outcome(Some(max), if |x| < max then Some(x) else None)]
  {
    hide EncodeBuf, BigEndian, FromBigEndian;
    RunThree(s, BeginRead(Some(max)), Read(4), Read(|x|));
    var s1 := Step(s, BeginRead(Some(max)));
    ReadHeaderMeans(s1, x, max);
    assert x[..|x|] == x && x[|x|..] == [] && [] + x == x;
  }

  /** write_str and read_str in turns, for all strings. */
  function Turns(ss: seq<seq<Byte>>, max: nat): seq<Action> {
    if ss == [] then [] else WriteOne(ss[0]) + ReadOne(ss[0], Some(max)) + Turns(ss[1..], max)
  }

  lemma {:induction false} TurnsAreCalm(ss: seq<seq<Byte>>, max: nat)
    ensures WriteError !in Turns(ss, max) && ReadError !in Turns(ss, max)
    ensures forall a :: a in Turns(ss, max) && a.BeginRead? ==> a.max == Some(max)
  {
    if ss != [] {
      TurnsAreCalm(ss[1..], max);
    }
  }

  /** Taking turns does end a call inside a frame, if a non-empty string does not fit. */
  lemma {:induction false} TurnsTear(s: State, max: nat, i: nat)
    requires AtRest(s) && Sendable(s.todo) && i < |s.todo| && s.todo[i] != [] && max <= |s.todo[i]|
    ensures Run(s, Turns(s.todo, max)).torn
    decreases i
  {
    hide Step, EncodeBuf;
    var x := s.todo[0];
    var a, b, c := WriteOne(x), ReadOne(x, Some(max)), Turns(s.todo[1..], max);
    RunConcat(s, a + b, c);
    RunConcat(s, a, b);
    WriteOneMeans(s);
    var t := Run(s, a);
    ReadOneMeans(t, x, max);
    var u := Run(t, b);
    if u.torn {
      TornStays(u, c);
    } else {
      assert s.todo[1..][i - 1] == s.todo[i];
      TurnsTear(u, max, i - 1);
    }
  }

  /** Without errors, some run ends a read call inside a frame exactly if some non-empty string does
      not fit in some of the buffers that the reader may use. */
  lemma TornIff(strings: seq<seq<Byte>>, sizes: set<Option<nat>>)
    requires Sendable(strings)
    ensures (exists acts :: WriteError !in acts && ReadError !in acts && UsesSizes(acts, sizes)
                            && Run(Start(strings), acts).torn)
       <==> exists i, max :: 0 <= i < |strings| && Some(max) in sizes && strings[i] != [] && max <= |strings[i]|
  {
    var s := Start(strings);
    assert OnWire(s) == strings;
    StartInv(strings);
    forall acts | WriteError !in acts && ReadError !in acts && UsesSizes(acts, sizes) && Run(s, acts).torn
      ensures Oversize(strings, sizes)
    {
      TornOnlyIfOversize(s, acts, sizes);
    }
    if Oversize(strings, sizes) {
      var i, max :| 0 <= i < |strings| && Some(max) in sizes && strings[i] != [] && max <= |strings[i]|;
      var acts := Turns(strings, max);
      TurnsAreCalm(strings, max);
      TurnsTear(s, max, i);
      assert UsesSizes(acts, sizes);
    }
  }

  /** A run that tears passes a state inside a frame. */
  lemma {:induction false} TearIsPassed(s: State, acts: seq<Action>) returns (n: nat)
    requires Inv(s) && !s.cut && !s.torn && WriteError !in acts && Run(s, acts).torn
    ensures n <= |acts| && Inside(Run(s, acts[..n]), OnWire(s))
    decreases |acts|
  {
    hide Inv, Inside, Step;
    var a, t := acts[0], Step(s, acts[0]);
    if t.torn {
      TornIsInside(s, a);
      assert acts[..1][1..] == [];
      assert Run(s, acts[..1]) == Run(t, []);
      return 1;
    }
    StepKeepsInv(s, a);
    StepSkipsNothing(s, a);
    n := TearIsPassed(t, acts[1..]);
    assert acts[..n + 1][1..] == acts[1..][..n];
    return n + 1;
  }

  /** Between two read calls, the reader can stand inside a frame exactly if some non-empty string
      does not fit in some of the buffers. */
  lemma InsideIff(strings: seq<seq<Byte>>, sizes: set<Option<nat>>)
    requires Sendable(strings)
    ensures (exists acts :: WriteError !in acts && ReadError !in acts && UsesSizes(acts, sizes)
                            && var t := Run(Start(strings), acts);
                               t.reader == Between && forall k: nat :: k <= |strings| ==> t.consumed != Frames(strings[..k]))
       <==> exists i, max :: 0 <= i < |strings| && Some(max) in sizes && strings[i] != [] && max <= |strings[i]|
  {
    assert Oversize(strings, sizes)
      <==> exists i, max :: 0 <= i < |strings| && Some(max) in sizes && strings[i] != [] && max <= |strings[i]|;
    hide Oversize, Inv;
    var s := Start(strings);
    assert OnWire(s) == strings;
    StartInv(strings);
    TornIff(strings, sizes);
    forall acts | WriteError !in acts && ReadError !in acts && UsesSizes(acts, sizes) && Inside(Run(s, acts), strings)
      ensures Oversize(strings, sizes)
    {
      hide Inside;
      RunKeepsInv(s, acts);
      NoErrorNoSkip(s, acts);
      if !Run(s, acts).torn {
        UntornIsOutside(Run(s, acts));
      }
    }
    if Oversize(strings, sizes) {
      var acts :| WriteError !in acts && ReadError !in acts && UsesSizes(acts, sizes) && Run(s, acts).torn;
      var n := TearIsPassed(s, acts);
      assert UsesSizes(acts[..n], sizes);
      assert WriteError !in acts[..n] && ReadError !in acts[..n];
    }
  }

  /** For example, the five bytes 0 0 0 1 'A' and read_str with a buffer of three bytes: the first
      call fails, and the second one returns "A", which has never been sent. */
  lemma OversizeMisleads()
    ensures var s := Run(Start([[0, 0, 0, 1, 65]]),
                         [BeginWrite, Write(4), Write(5), BeginRead(Some(3)), Read(4), BeginRead(Some(3)), Read(4), Read(1)]);
            s.torn && s.log == [Outcome(Some(3), None), Outcome(Some(3), Some([65]))]
  {
    var x: seq<Byte> := [0, 0, 0, 1, 65];
    var y: seq<Byte> := [65];
    var s0 := Start([x]);
    var b := [BeginRead(Some(3)), Read(4)];
    OneByteFrame(y);
    assert WriteOne(x) + b + ReadOne(y, Some(3))
        == [BeginWrite, Write(4), Write(5), BeginRead(Some(3)), Read(4), BeginRead(Some(3)), Read(4), Read(1)];
    hide Step, EncodeBuf, BigEndian;
    RunConcat(s0, WriteOne(x) + b, ReadOne(y, Some(3)));
    RunConcat(s0, WriteOne(x), b);
    WriteOneMeans(s0);
    var s1 := Run(s0, WriteOne(x));
    FirstReadFails(s1, x);
    ReadOneMeans(Run(s1, b), y, 3);
  }

  lemma OneByteFrame(y: seq<Byte>)
    requires |y| == 1
    ensures EncodeBuf(y) == [0, 0, 0, 1] + y
  {
    assert BigEndian(1, 0) == [0] && BigEndian(2, 0) == [0, 0] && BigEndian(3, 0) == [0, 0, 0];
    assert BigEndian(4, 1) == BigEndian(3, 0) + [1];
  }

  lemma FirstReadFails(s: State, x: seq<Byte>)
    requires s.reader == Between && !s.ended && s.fifo == EncodeBuf(x) && 3 <= |x| < WORD32
    ensures var t := Run(s, [BeginRead(Some(3)), Read(4)]);
            t.reader == Between && !t.ended && t.fifo == x && t.torn && t.log == s.log + [Outcome(Some(3), None)]
  {
    hide EncodeBuf, BigEndian, FromBigEndian;
    var s1 := Step(s, BeginRead(Some(3)));
    ReadHeaderMeans(s1, x, 3);
    hide Step;
    var s2 := Step(s1, Read(4));
    assert Run(s, [BeginRead(Some(3)), Read(4)]) == Run(s1, [Read(4)]) == Run(s2, []);
  }
}
