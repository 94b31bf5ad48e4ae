/** The steps of one side alone amount to one call of io.c: the reader's to what read_str and
    read_stra are proved to do, and the writer's to write_str. */
module ChannelSides {
  import opened Memory
  import opened Wire
  import opened Channel

  // ---- the reader ----

  /** Only reads that return bytes, or are interrupted. */
  predicate Reads(acts: seq<Action>) {
    forall a :: a in acts ==> a.Read? || a.ReadInterrupted?
  }

  /** The call is under way: what it has got and what is left make up the input `f`. */
  predicate During(max: Option<nat>, f: seq<Byte>, log: seq<Outcome>, t: State) {
    && t.reader != Between && t.reader.max == max && ReaderOk(t.reader)
    && Partial(t.reader) + t.fifo == f && t.log == log
    && (t.ended ==> Overruns(t.reader) && t.fifo != [])
  }

  /** The call has done to the input `f` what ReadCall says. */
  predicate Returned(max: Option<nat>, f: seq<Byte>, log: seq<Outcome>, t: State) {
    && t.reader == Between && !t.ended
    && match ReadCall(max, f)
       case Frame(x, rest) => t.fifo == rest && t.log == log + [Outcome(max, Some(x))]
       case TooLong(rest) => t.fifo == rest && t.log == log + [Outcome(max, None)]
       case TooShort => false
  }

  lemma HeaderDone(t: State, max: Option<nat>, f: seq<Byte>)
    requires t.reader.Length? && t.reader.max == max && |t.reader.got| == 4 && t.reader.got + t.fifo == f && !t.ended
    ensures During(max, f, t.log, AfterRead(t)) || Returned(max, f, t.log, AfterRead(t))
  {
    hide BigEndian, FromBigEndian, ReadCall, During;
    var l := FromBigEndian(t.reader.got);
    ReadCallOn(max, t.reader.got, t.fifo);
    if Accepts(max, l) && l > 0 {
      TextBegins(t, max, l, f);
    } else if l == 0 {
      assert t.fifo[..0] == [] && t.fifo[0..] == t.fifo;
    }
  }

  lemma TextBegins(t: State, max: Option<nat>, l: nat, f: seq<Byte>)
    requires t.reader.Length? && |t.reader.got| == 4 && t.reader.got + t.fifo == f && !t.ended
    requires l == FromBigEndian(t.reader.got) && l > 0 && Accepts(max, l)
    ensures During(max, f, t.log, t.(reader := Text(max, l, [])))
  {
    WordSizes();
    BigEndianOf(t.reader.got);
    hide BigEndian, FromBigEndian;
    Assoc(t.reader.got, [], []);
  }

  lemma ReadCallOn(max: Option<nat>, h: seq<Byte>, rest: seq<Byte>)
    requires |h| == 4
    ensures var l := FromBigEndian(h);
            ReadCall(max, h + rest) == if !Accepts(max, l) then TooLong(rest)
                                       else if |rest| < l then TooShort else Frame(rest[..l], rest[l..])
  {
    hide FromBigEndian;
    assert (h + rest)[..4] == h && (h + rest)[4..] == rest;
  }

  lemma TextDone(t: State, max: Option<nat>, f: seq<Byte>)
    requires t.reader.Text? && t.reader.max == max && |t.reader.got| == t.reader.need < WORD32 && Accepts(max, t.reader.need)
    requires Partial(t.reader) + t.fifo == f && !t.ended
    ensures Returned(max, f, t.log, AfterRead(t))
  {
    var need, got := t.reader.need, t.reader.got;
    WordSizes();
    FromBigEndianOf(4, need);
    hide BigEndian, FromBigEndian;
    Sliced(BigEndian(4, need), got, t.fifo);
    assert f[4..] == got + t.fifo;
  }

  lemma ReadOn(s: State, n: nat, max: Option<nat>, f: seq<Byte>)
    requires During(max, f, s.log, s) && !s.ended && n > 0 && s.fifo != []
    ensures During(max, f, s.log, DoRead(s, n)) || Returned(max, f, s.log, DoRead(s, n))
  {
    hide AfterRead, BigEndian, FromBigEndian, ReadCall;
    if !Overruns(s.reader) {
      var k := Min(Min(n, Wanted(s.reader)), |s.fifo|);
      var data := s.fifo[..k];
      var t := s.(reader := Got(s.reader, data), fifo := s.fifo[k..], consumed := s.consumed + data);
      PartialGrows(s.reader, data);
      assert s.fifo == data + t.fifo;
      Assoc(Partial(s.reader), data, t.fifo);
      if Wanted(t.reader) > 0 {
        ReadNotDone(t);
      } else if t.reader.Length? {
        HeaderDone(t, max, f);
      } else {
        TextDone(t, max, f);
      }
    }
  }

  lemma ReadNotDone(t: State)
    requires Wanted(t.reader) > 0
    ensures AfterRead(t) == t
  {}

  lemma {:induction false} ReadsKeep(s: State, acts: seq<Action>, max: Option<nat>, f: seq<Byte>, log: seq<Outcome>)
    requires Reads(acts) && (During(max, f, log, s) || Returned(max, f, log, s))
    ensures During(max, f, log, Run(s, acts)) || Returned(max, f, log, Run(s, acts))
    decreases |acts|
  {
    hide DoRead;
    if acts != [] {
      assert acts[0] in acts;
      var t := Step(s, acts[0]);
      if t != s {
        assert During(max, f, log, s) && acts[0].Read?;
        ReadOn(s, acts[0].n, max, f);
      }
      hide During, Returned, Step;
      ReadsKeep(t, acts[1..], max, f, log);
    }
  }

  /** A read call that the writer does not interfere with: when it returns, it has done what ReadCall
      says; it still waits on an empty input exactly if that is too short; and only read_stra on
      its limit overruns. */
  lemma ReaderAlone(s: State, max: Option<nat>, acts: seq<Action>)
    requires s.reader == Between && !s.ended && Reads(acts)
    ensures var t := Run(Step(s, BeginRead(max)), acts);
            && (t.reader == Between ==>
                  match ReadCall(max, s.fifo)
                  case Frame(x, rest) => t.fifo == rest && t.log == s.log + [Outcome(max, Some(x))]
                  case TooLong(rest) => t.fifo == rest && t.log == s.log + [Outcome(max, None)]
                  case TooShort => false)
            && (t.reader != Between && t.fifo == [] ==> ReadCall(max, s.fifo).TooShort? && t.log == s.log)
            && (t.ended ==> max == None && 4 < |s.fifo| && FromBigEndian(s.fifo[..4]) == WORD32 - 1)
  {
    var s1 := Step(s, BeginRead(max));
    Assoc(s.fifo, [], []);
    assert Partial(s1.reader) + s1.fifo == s.fifo;
    ReadsKeep(s1, acts, max, s.fifo, s.log);
    var t := Run(s1, acts);
    if During(max, s.fifo, s.log, t) {
      PartialHeader(t, s.fifo);
    }
  }

  lemma PartialHeader(t: State, f: seq<Byte>)
    requires t.reader != Between && ReaderOk(t.reader) && Partial(t.reader) + t.fifo == f
    ensures t.fifo == [] ==> ReadCall(t.reader.max, f).TooShort?
    ensures t.reader.Text? ==> 4 <= |f| && FromBigEndian(f[..4]) == t.reader.need && |f| == 4 + |t.reader.got| + |t.fifo|
  {
    if t.reader.Text? {
      WordSizes();
      FromBigEndianOf(4, t.reader.need);
      hide BigEndian, FromBigEndian;
      assert f[..4] == BigEndian(4, t.reader.need);
    }
  }

  // ---- the writer ----

  predicate Writes(acts: seq<Action>) {
    forall a :: a in acts ==> a.Write? || a.WriteInterrupted?
  }

  /** The call for the first string of `todo` is under way or over: all but `Left(t)` of the frame is
      out. */
  predicate Sending(before: seq<Byte>, todo: seq<seq<Byte>>, t: State)
    requires todo != []
  {
    if t.writer == Idle then t.written == before + EncodeBuf(todo[0]) && t.todo == todo[1..]
    else t.todo == todo && t.writer.left != [] && t.written + Left(t) == before + EncodeBuf(todo[0])
  }

  lemma WriteOn(s: State, n: nat, before: seq<Byte>, todo: seq<seq<Byte>>)
    requires todo != [] && Sending(before, todo, s) && s.writer != Idle && n > 0
    ensures Sending(before, todo, DoWrite(s, n))
  {
    hide EncodeBuf, Sending, AfterWrite;
    assert s.todo == todo && s.writer.left != [] && s.written + Left(s) == before + EncodeBuf(todo[0]) by {
      SendingNow(s, before, todo);
    }
    var k := Min(n, |s.writer.left|);
    var data, left := s.writer.left[..k], s.writer.left[k..];
    var t := s.(writer := s.writer.(left := left), fifo := s.fifo + data, written := s.written + data);
    assert s.writer.left == data + left;
    assert Left(s) == data + Left(t) by {
      Assoc(data, left, todo[0]);
    }
    Assoc(s.written, data, Left(t));
    PartOut(t, before, todo);
  }

  lemma SendingNow(s: State, before: seq<Byte>, todo: seq<seq<Byte>>)
    requires todo != [] && Sending(before, todo, s) && s.writer != Idle
    ensures s.todo == todo && s.writer.left != [] && s.written + Left(s) == before + EncodeBuf(todo[0])
  {}

  lemma PartOut(t: State, before: seq<Byte>, todo: seq<seq<Byte>>)
    requires todo != [] && t.writer != Idle && t.todo == todo && t.written + Left(t) == before + EncodeBuf(todo[0])
    ensures Sending(before, todo, AfterWrite(t))
  {
    hide EncodeBuf;
    Assoc(todo[0], [], []);
    Assoc(t.written, [], []);
  }

  lemma {:induction false} WritesKeep(s: State, acts: seq<Action>, before: seq<Byte>, todo: seq<seq<Byte>>)
    requires Writes(acts) && todo != [] && Sending(before, todo, s)
    ensures Sending(before, todo, Run(s, acts))
    decreases |acts|
  {
    hide DoWrite;
    if acts != [] {
      assert acts[0] in acts;
      var t := Step(s, acts[0]);
      if t != s {
        WriteOn(s, acts[0].n, before, todo);
      }
      hide Sending, Step;
      WritesKeep(t, acts[1..], before, todo);
    }
  }

  /** A write call on its own: it sends a prefix of the frame, and has returned exactly when that is
      the whole frame. A call that fails instead of returning has sent a strict prefix. */
  lemma WriterAlone(s: State, acts: seq<Action>)
    requires s.writer == Idle && s.todo != [] && !s.closed && Writes(acts)
    ensures var t := Run(Step(s, BeginWrite), acts); var e := EncodeBuf(s.todo[0]);
            && s.written <= t.written <= s.written + e
            && (t.writer == Idle <==> t.written == s.written + e)
            && t.todo == if t.writer == Idle then s.todo[1..] else s.todo
  {
    var s1 := Step(s, BeginWrite);
    WritesKeep(s1, acts, s.written, s.todo);
    var t := Run(s1, acts);
    WrittenGrows(s1, acts);
    if t.writer != Idle {
      assert |Left(t)| > 0;
      assert t.written <= t.written + Left(t);
    }
  }

  lemma {:induction false} WrittenGrows(s: State, acts: seq<Action>)
    ensures s.written <= Run(s, acts).written
    decreases |acts|
  {
    if acts != [] {
      StepGrows(s, acts[0]);
      hide Step;
      WrittenGrows(Step(s, acts[0]), acts[1..]);
    }
  }

  lemma StepGrows(s: State, a: Action)
    ensures s.written <= Step(s, a).written
  {
    hide DoRead;
    if a.Read? && 0 <= Wanted(s.reader) {
      ReadLeavesWriter(s, a.n);
    }
  }
}
