/** Runs of the channel are finite but for interruptions and errors, and those that cannot go on
    have delivered every string. */
module ChannelProgress {
  import opened Memory
  import opened Wire
  import opened Channel
  import opened ChannelRuns

  // ---- every step makes progress ----

  /** The bytes that have still to be sent count three, those in flight two. */
  function Measure(s: State): nat {
    3 * (|Left(s)| + |Frames(Rest(s))|) + 2 * |s.fifo| + 2 * |s.todo|
    + (if s.writer == Idle then 1 else 0) + (if s.reader == Between then 1 else 0)
    + (if s.closed then 0 else 1) + (if s.ended then 0 else 1)
  }

  lemma BeginDecreases(s: State)
    requires WriterOk(s) && s.writer == Idle && s.todo != [] && !s.closed
    ensures Measure(Step(s, BeginWrite)) < Measure(s)
  {}

  lemma WriteDecreases(s: State, n: nat)
    requires WriterOk(s) && s.writer != Idle && n > 0
    ensures Measure(DoWrite(s, n)) < Measure(s)
  {
    hide AfterWrite, Frames;
    var k := Min(n, |s.writer.left|);
    AfterWriteMeasure(s.(writer := s.writer.(left := s.writer.left[k..]),
                         fifo := s.fifo + s.writer.left[..k], written := s.written + s.writer.left[..k]));
  }

  lemma AfterWriteMeasure(t: State)
    requires t.writer != Idle && t.todo != []
    ensures Measure(AfterWrite(t)) <= Measure(t)
  {
    hide Frames;
  }

  lemma ReadDecreases(s: State, n: nat)
    requires ReaderOk(s.reader) && s.reader != Between && !s.ended && n > 0 && s.fifo != []
    ensures Measure(DoRead(s, n)) < Measure(s)
  {
    hide Left, Rest, Frames;
    assert if Overruns(s.reader) then DoRead(s, n).fifo == s.fifo else |DoRead(s, n).fifo| < |s.fifo| by {
      ReadTakes(s, n);
    }
    ReadLeavesWriter(s, n);
    hide DoRead;
    SameWriter(s, DoRead(s, n));
  }

  lemma ReadTakes(s: State, n: nat)
    requires ReaderOk(s.reader) && s.reader != Between && n > 0 && s.fifo != []
    ensures if Overruns(s.reader) then DoRead(s, n).fifo == s.fifo else |DoRead(s, n).fifo| < |s.fifo|
  {
    hide FromBigEndian;
  }

  lemma SameWriter(s: State, t: State)
    requires t.todo == s.todo && t.writer == s.writer
    ensures Left(t) == Left(s) && Rest(t) == Rest(s)
  {}

  /** Apart from failing reads, which the caller may repeat, every step that has an effect decreases
      the measure. */
  lemma StepDecreases(s: State, a: Action)
    requires Inv(s) && a != ReadError && Step(s, a) != s
    ensures Measure(Step(s, a)) < Measure(s)
  {
    hide Frames, Framed, Aligned, EncodeBuf;
    match a
    case BeginWrite => BeginDecreases(s);
    case Write(n) => WriteDecreases(s, n);
    case Read(n) => ReadDecreases(s, n);
    case _ =>
  }

  /** Every action has an effect, and no read fails. */
  predicate Effective(s: State, acts: seq<Action>)
    decreases |acts|
  {
    acts == [] || (acts[0] != ReadError && Step(s, acts[0]) != s && Effective(Step(s, acts[0]), acts[1..]))
  }

  lemma {:induction false} EffectiveIff(s: State, acts: seq<Action>)
    ensures Effective(s, acts)
       <==> forall i :: 0 <= i < |acts| ==>
              acts[i] != ReadError && Step(Run(s, acts[..i]), acts[i]) != Run(s, acts[..i])
    decreases |acts|
  {
    hide Step;
    if acts != [] {
      var t, rest := Step(s, acts[0]), acts[1..];
      EffectiveIff(t, rest);
      assert Run(s, acts[..0]) == s;
      forall i | 0 <= i < |rest|
        ensures rest[i] == acts[i + 1] && Run(t, rest[..i]) == Run(s, acts[..i + 1])
      {
        assert acts[..i + 1][0] == acts[0] && acts[..i + 1][1..] == rest[..i];
      }
      if Effective(s, acts) {
        forall i | 0 <= i < |acts|
          ensures acts[i] != ReadError && Step(Run(s, acts[..i]), acts[i]) != Run(s, acts[..i])
        {
          if i > 0 {
            assert rest[i - 1] == acts[i];
          }
        }
      }
    }
  }

  lemma {:induction false} EffectiveRunsEnd(s: State, acts: seq<Action>)
    requires Inv(s) && Effective(s, acts)
    ensures |acts| + Measure(Run(s, acts)) <= Measure(s)
    decreases |acts|
  {
    hide Inv, Step, Measure;
    if acts != [] {
      StepDecreases(s, acts[0]);
      StepKeepsInv(s, acts[0]);
      EffectiveRunsEnd(Step(s, acts[0]), acts[1..]);
    }
  }

  // ---- and all strings arrive ----

  /** A read call with this size returns strings of `n` bytes. */
  predicate Takes(max: Option<nat>, n: nat) {
    Accepts(max, n) && (max == None ==> n < WORD32 - 1)
  }

  ghost predicate AllTake(sizes: set<Option<nat>>, ss: seq<seq<Byte>>) {
    forall max, i :: max in sizes && 0 <= i < |ss| ==> Takes(max, |ss[i]|)
  }

  ghost predicate LogIn(log: seq<Outcome>, sizes: set<Option<nat>>) {
    forall i :: 0 <= i < |log| ==> log[i].max in sizes
  }

  /** The end of input has been seen where it is. */
  predicate EndIsEnd(s: State) {
    s.ended ==> s.closed && s.writer == Idle && s.fifo == []
  }

  ghost predicate Smooth(s: State, sizes: set<Option<nat>>) {
    && Inv(s) && !s.cut && !s.torn && EndIsEnd(s)
    && SizeIn(s.reader, sizes) && LogIn(s.log, sizes) && AllTake(sizes, OnWire(s))
  }

  lemma NoOverrun(s: State, sizes: set<Option<nat>>)
    requires Smooth(s, sizes)
    ensures !Overruns(s.reader)
  {
    hide Frames, Framed, BigEndian, FromBigEndian;
    match s.reader
    case Text(max, need, got) =>
      var h := BigEndian(4, need);
      WordSizes();
      FromBigEndianOf(4, need);
      Assoc(Frames(s.sent[..|s.log|]), h, got);
      Assoc(Frames(s.sent[..|s.log|]) + h, got, s.fifo);
      HeaderOfString(s, h, got + s.fifo);
      assert Takes(max, |OnWire(s)[|s.log|]|);
    case _ =>
  }

  lemma StepIsSmooth(s: State, a: Action, sizes: set<Option<nat>>)
    requires Smooth(s, sizes) && a != WriteError && a != ReadError && (a.BeginRead? ==> a.max in sizes)
    ensures Smooth(Step(s, a), sizes)
  {
    var t := Step(s, a);
    NoOverrun(s, sizes);
    StepKeepsInv(s, a);
    StepSkipsNothing(s, a);
    if t.torn {
      TearOnlyIfOversize(s, a, sizes);
    } else {
      hide Inv, Step, Overruns;
      SizesKept(s, a, sizes);
    }
  }

  lemma SizesKept(s: State, a: Action, sizes: set<Option<nat>>)
    requires SizeIn(s.reader, sizes) && LogIn(s.log, sizes) && (a.BeginRead? ==> a.max in sizes)
    requires ReaderOk(s.reader) && !Overruns(s.reader) && EndIsEnd(s) && WriterOk(s)
    ensures var t := Step(s, a); SizeIn(t.reader, sizes) && LogIn(t.log, sizes) && EndIsEnd(t)
  {
    if a.Read? && s.reader != Between {
      ReadLeavesWriter(s, a.n);
      ReadSizes(s, a.n, sizes);
    }
    hide DoRead;
  }

  lemma ReadSizes(s: State, n: nat, sizes: set<Option<nat>>)
    requires SizeIn(s.reader, sizes) && LogIn(s.log, sizes) && s.reader != Between && 0 <= Wanted(s.reader)
    ensures SizeIn(DoRead(s, n).reader, sizes) && LogIn(DoRead(s, n).log, sizes)
  {
    hide AfterRead;
    var k := Min(Min(n, Wanted(s.reader)), |s.fifo|);
    AfterReadSizes(s.(reader := Got(s.reader, s.fifo[..k]), fifo := s.fifo[k..], consumed := s.consumed + s.fifo[..k]), sizes);
  }

  lemma AfterReadSizes(t: State, sizes: set<Option<nat>>)
    requires SizeIn(t.reader, sizes) && LogIn(t.log, sizes)
    ensures SizeIn(AfterRead(t).reader, sizes) && LogIn(AfterRead(t).log, sizes)
  {
    hide FromBigEndian;
  }

  lemma {:induction false} RunIsSmooth(s: State, acts: seq<Action>, sizes: set<Option<nat>>)
    requires Smooth(s, sizes) && WriteError !in acts && ReadError !in acts && UsesSizes(acts, sizes)
    ensures Smooth(Run(s, acts), sizes)
    decreases |acts|
  {
    hide Smooth, Step;
    if acts != [] {
      assert acts[0] in acts;
      StepIsSmooth(s, acts[0], sizes);
      RunIsSmooth(Step(s, acts[0]), acts[1..], sizes);
    }
  }

  lemma {:induction false} StaysOpen(s: State, acts: seq<Action>)
    requires !s.closed && Close !in acts
    ensures !Run(s, acts).closed
    decreases |acts|
  {
    if acts != [] {
      StaysOpen(Step(s, acts[0]), acts[1..]);
    }
  }

  /** Neither side can go on: the reader waits in a call, or has seen the end of input. */
  ghost predicate Stuck(s: State) {
    forall a: Action :: a.BeginWrite? || a.Write? || a.BeginRead? || a.Read? ==> Step(s, a) == s
  }

  /** There is no deadlock with something left to be done. */
  lemma StuckMeansDone(s: State)
    requires Inv(s) && EndIsEnd(s)
    ensures Stuck(s)
       <==> && s.writer == Idle && (s.todo == [] || s.closed) && s.fifo == []
            && (s.reader != Between || s.ended)
  {
    if Stuck(s) {
      StuckIsDone(s);
    }
    hide Inv, DoRead, DoWrite;
  }

  lemma StuckIsDone(s: State)
    requires Inv(s) && EndIsEnd(s) && Stuck(s)
    ensures s.writer == Idle && (s.todo == [] || s.closed) && s.fifo == [] && (s.reader != Between || s.ended)
  {
    hide Inv, Frames, Measure, DoRead, DoWrite;
    assert WriterOk(s) && ReaderOk(s.reader) by { OkOf(s); }
    var a, b, c, d := Write(1), BeginWrite, BeginRead(None), Read(1);
    assert Step(s, a) == s && Step(s, b) == s && Step(s, c) == s && Step(s, d) == s;
    if s.writer != Idle {
      WriteDecreases(s, 1);
    } else if s.fifo != [] {
      ReadDecreases(s, 1);
    }
  }

  lemma OkOf(s: State)
    requires Inv(s)
    ensures WriterOk(s) && ReaderOk(s.reader)
  {}

  /** Without errors, and with buffers that take every string, a run has only so many steps with an
      effect; and when neither side can go on, the reader has received every string that was sent.
      These are all strings, unless the writer has closed its end before. */
  lemma CompleteRun(strings: seq<seq<Byte>>, acts: seq<Action>, sizes: set<Option<nat>>)
    requires Sendable(strings) && UsesSizes(acts, sizes)
    requires forall max, i :: max in sizes && 0 <= i < |strings| ==>
               if max.Some? then |strings[i]| < max.value else |strings[i]| < WORD32 - 1
    requires WriteError !in acts && ReadError !in acts
    ensures var t := Run(Start(strings), acts);
            && (Effective(Start(strings), acts) ==> |acts| <= 3 * |Frames(strings)| + 2 * |strings| + 4)
            && (Stuck(t) ==> |t.log| == |t.sent| && forall i :: 0 <= i < |t.log| ==> t.log[i].result == Some(t.sent[i]))
            && (Stuck(t) && Close !in acts ==> t.sent == strings)
  {
    var s := Start(strings);
    assert OnWire(s) == strings;
    StartInv(strings);
    RunIsSmooth(s, acts, sizes);
    var t := Run(s, acts);
    if Effective(s, acts) {
      EffectiveRunsEnd(s, acts);
    }
    if Stuck(t) {
      StuckMeansDone(t);
      EmptyMeansBoundary(t);
      Received(t, sizes);
      NoErrorNoSkip(s, acts);
      if Close !in acts {
        StaysOpen(s, acts);
        assert t.sent + [] == t.sent;
      }
    }
  }

  lemma Received(t: State, sizes: set<Option<nat>>)
    requires Smooth(t, sizes)
    ensures |t.log| <= |t.sent| && forall i :: 0 <= i < |t.log| ==> t.log[i].result == Some(t.sent[i])
  {
    hide Frames;
    forall i | 0 <= i < |t.log|
      ensures t.log[i].result == Some(t.sent[i])
    {
      assert OnWire(t)[i] == t.sent[i];
      assert Exact(t.log[i], t.sent[i]) && Takes(t.log[i].max, |OnWire(t)[i]|);
    }
  }
}
