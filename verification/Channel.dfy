/** One writer calling write_str and one reader calling read_str or read_stra over a channel, in
    every interleaving of their system calls. */
module Channel {
  import opened Memory
  import opened Wire

  /** Where the writer is: between calls, or in one of the two write_all loops of write_str. */
  datatype WriterPc = Idle | Header(left: seq<Byte>) | Payload(left: seq<Byte>)

  /** Where the reader is: between calls, in the read_all loop for the length, or in the one for the
      payload. `max` is the buffer size of read_str, chosen for each call; read_stra has none. */
  datatype ReaderPc =
    | Between
    | Length(max: Option<nat>, got: seq<Byte>)
    | Text(max: Option<nat>, need: nat, got: seq<Byte>)

  /** What a call has made of a frame: the string, or `None` if it does not fit. */
  datatype Outcome = Outcome(max: Option<nat>, result: Option<seq<Byte>>)

  /** `todo` are the strings still to be written, the current one first. Histories: `written` and
      `consumed`, the bytes at the two ends; `cut`, a write_str has failed inside its frame; `sent`,
      the strings that were sent whole before that; `torn`, a read call has ended inside a frame;
      `log`, the outcomes of the other calls. */
  datatype State = State(
    todo: seq<seq<Byte>>, writer: WriterPc, closed: bool, cut: bool, sent: seq<seq<Byte>>,
    fifo: seq<Byte>, written: seq<Byte>, consumed: seq<Byte>,
    reader: ReaderPc, ended: bool, torn: bool, log: seq<Outcome>)

  /** The next move of one side, with the outcome of its system call chosen by the kernel. A write
      that returns 0 is a WriteError; a failing malloc in read_stra is a ReadError. */
  datatype Action =
    | BeginWrite
    | Write(n: nat)
    | WriteInterrupted
    | WriteError
    | Close
    | BeginRead(max: Option<nat>)
    | Read(n: nat)
    | ReadInterrupted
    | ReadEof
    | ReadError

  function Start(strings: seq<seq<Byte>>): State {
    State(strings, Idle, false, false, [], [], [], [], Between, false, false, [])
  }

  // ---- the writer ----

  /** The bytes of the current frame that are not out yet. */
  function Left(s: State): seq<Byte> {
    if s.todo == [] then [] else
      match s.writer
      case Idle => []
      case Header(left) => left + s.todo[0]
      case Payload(left) => left
  }

  /** The code after a write_all loop has sent its last byte. */
  function AfterWrite(s: State): State
    requires s.writer != Idle && s.todo != []
  {
    if s.writer.left != [] then s
    else if s.writer.Header? && s.todo[0] != [] then s.(writer := Payload(s.todo[0]))
    else s.(writer := Idle, todo := s.todo[1..], sent := if s.cut then s.sent else s.sent + [s.todo[0]])
  }

  function DoWrite(s: State, n: nat): State
    requires s.writer != Idle && s.todo != []
  {
    var k := Min(n, |s.writer.left|);
    var data := s.writer.left[..k];
    AfterWrite(s.(writer := s.writer.(left := s.writer.left[k..]), fifo := s.fifo + data, written := s.written + data))
  }

  /** write_str returns false; the caller may go on with its next string. */
  function FailWrite(s: State): State
    requires s.writer != Idle && s.todo != []
  {
    s.(writer := Idle, todo := s.todo[1..], cut := s.cut || Left(s) != EncodeBuf(s.todo[0]))
  }

  // ---- the reader ----

  function Wanted(r: ReaderPc): int {
    match r
    case Between => 0
    case Length(_, got) => 4 - |got|
    case Text(_, need, got) => need - |got|
  }

  function Got(r: ReaderPc, data: seq<Byte>): ReaderPc {
    match r
    case Between => Between
    case Length(max, got) => Length(max, got + data)
    case Text(max, need, got) => Text(max, need, got + data)
  }

  predicate Accepts(max: Option<nat>, n: nat) {
    max.Some? ==> n < max.value
  }

  /** A call ends; `whole` says whether it has consumed its frame. */
  function Finished(s: State, o: Outcome, whole: bool): State {
    s.(reader := Between, log := s.log + [o], torn := s.torn || !whole || (s.cut && |s.sent| <= |s.log|))
  }

  /** The code after read_all has filled its buffer. */
  function AfterRead(s: State): State {
    match s.reader
    case Between => s
    case Length(max, got) =>
      if |got| < 4 then s else
        var slen := FromBigEndian(got);
        if !Accepts(max, slen) then Finished(s, Outcome(max, None), slen == 0)
        else if slen == 0 then Finished(s, Outcome(max, Some([])), true)
        else s.(reader := Text(max, slen, []))
    case Text(max, need, got) =>
      if |got| < need then s else Finished(s, Outcome(max, Some(got)), true)
  }

  /** read_stra with a block that is too small: the run ends at the first store behind it. */
  predicate Overruns(r: ReaderPc) {
    r.Text? && r.max.None? && r.need == WORD32 - 1
  }

  function DoRead(s: State, n: nat): State
    requires 0 <= Wanted(s.reader)
  {
    var k := Min(Min(n, Wanted(s.reader)), |s.fifo|);
    if Overruns(s.reader) then s.(ended := true)
    else AfterRead(s.(reader := Got(s.reader, s.fifo[..k]), fifo := s.fifo[k..], consumed := s.consumed + s.fifo[..k]))
  }

  /** The bytes of the frame the reader has begun. */
  function Partial(r: ReaderPc): seq<Byte> {
    match r
    case Between => []
    case Length(_, got) => got
    case Text(_, need, got) => BigEndian(4, need) + got
  }

  // ---- steps and runs ----

  /** One step; an action that is not possible in `s` changes nothing. After the end of input every
      further call fails at once, so `ended` is final; a read call that fails with an error may be
      followed by others. */
  function Step(s: State, a: Action): State {
    match a
    case BeginWrite =>
      if s.writer == Idle && s.todo != [] && !s.closed then s.(writer := Header(BigEndian(4, |s.todo[0]| % WORD32))) else s
    case Write(n) => if s.writer != Idle && s.todo != [] && n > 0 then DoWrite(s, n) else s
    case WriteInterrupted => s
    case WriteError => if s.writer != Idle && s.todo != [] then FailWrite(s) else s
    case Close => if s.writer == Idle then s.(closed := true) else s
    case BeginRead(max) => if s.reader == Between && !s.ended then s.(reader := Length(max, [])) else s
    case Read(n) => if s.reader != Between && !s.ended && n > 0 && s.fifo != [] && 0 <= Wanted(s.reader) then DoRead(s, n) else s
    case ReadInterrupted => s
    case ReadEof => if s.reader != Between && s.fifo == [] && s.closed then s.(ended := true) else s
    case ReadError =>
      if s.reader != Between && !s.ended then s.(reader := Between, torn := s.torn || Partial(s.reader) != []) else s
  }

  function Run(s: State, acts: seq<Action>): State
    decreases |acts|
  {
    if acts == [] then s else Run(Step(s, acts[0]), acts[1..])
  }

  // ---- the stream ----

  function Frames(ss: seq<seq<Byte>>): seq<Byte> {
    if ss == [] then [] else EncodeBuf(ss[0]) + Frames(ss[1..])
  }

  lemma Assoc(a: seq<Byte>, b: seq<Byte>, c: seq<Byte>)
    ensures a + b + c == a + (b + c)
    ensures a + [] == a && [] + a == a
  {}

  lemma {:induction false} FramesConcat(a: seq<seq<Byte>>, b: seq<seq<Byte>>)
    ensures Frames(a + b) == Frames(a) + Frames(b)
  {
    hide EncodeBuf;
    if a == [] {
      assert a + b == b;
      Assoc(Frames(b), [], []);
    } else {
      FramesConcat(a[1..], b);
      assert (a + b)[0] == a[0] && (a + b)[1..] == a[1..] + b;
      Assoc(EncodeBuf(a[0]), Frames(a[1..]), Frames(b));
    }
  }

  lemma FramesSnoc(ss: seq<seq<Byte>>, x: seq<Byte>)
    ensures Frames(ss + [x]) == Frames(ss) + EncodeBuf(x)
  {
    FramesConcat(ss, [x]);
    assert Frames([x]) == EncodeBuf(x) + Frames([]);
    Assoc(EncodeBuf(x), [], []);
  }

  lemma FramesSplit(ss: seq<seq<Byte>>, r: nat)
    requires r <= |ss|
    ensures Frames(ss) == Frames(ss[..r]) + Frames(ss[r..])
  {
    assert ss == ss[..r] + ss[r..];
    FramesConcat(ss[..r], ss[r..]);
  }

  /** Lengths are sent in 32 bits. */
  ghost predicate Sendable(strings: seq<seq<Byte>>) {
    forall i :: 0 <= i < |strings| ==> |strings[i]| < WORD32
  }

  lemma CancelLeft(a: seq<Byte>, b: seq<Byte>, c: seq<Byte>)
    requires a + b == a + c
    ensures b == c
  {
    assert b == (a + b)[|a|..] && c == (a + c)[|a|..];
  }

  lemma CancelRight(a: seq<Byte>, b: seq<Byte>, c: seq<Byte>)
    requires a + c == b + c
    ensures a == b
  {
    assert |a| == |b|;
    assert a == (a + c)[..|a|] && b == (b + c)[..|b|];
  }

  // ---- the invariant ----

  predicate WriterOk(s: State) {
    s.writer != Idle ==> s.todo != [] && s.writer.left != [] && !s.closed
  }

  predicate ReaderOk(r: ReaderPc) {
    match r
    case Between => true
    case Length(_, got) => |got| < 4
    case Text(max, need, got) => need < WORD32 && |got| < need && Accepts(max, need)
  }

  function Current(s: State): seq<Byte> {
    if s.writer == Idle || s.todo == [] then [] else EncodeBuf(s.todo[0])
  }

  /** The outcome that the string `x` must have. */
  predicate Exact(o: Outcome, x: seq<Byte>) {
    o.result == if Accepts(o.max, |x|) then Some(x) else None
  }

  /** The reader stands where its log says, and the log is right. */
  ghost predicate Aligned(s: State) {
    && |s.log| <= |s.sent|
    && s.consumed == Frames(s.sent[..|s.log|]) + Partial(s.reader)
    && forall i :: 0 <= i < |s.log| ==> Exact(s.log[i], s.sent[i])
  }

  /** The stream consists of whole frames, and the part of the current one that is out. */
  ghost predicate Framed(s: State) {
    s.written + Left(s) == Frames(s.sent) + Current(s)
  }

  ghost predicate Inv(s: State) {
    && WriterOk(s) && ReaderOk(s.reader) && Sendable(s.sent) && Sendable(s.todo)
    && s.written == s.consumed + s.fifo
    && Frames(s.sent) <= s.written
    && (!s.cut ==> Framed(s))
    && (!s.torn ==> Aligned(s))
  }

  // ---- the writer keeps it ----

  lemma BeginKeepsInv(s: State)
    requires Inv(s)
    ensures Inv(Step(s, BeginWrite))
  {
    hide Frames;
    if s.writer == Idle && s.todo != [] && !s.closed {
      Assoc(s.written, [], []);
      Assoc(Frames(s.sent), [], []);
    }
  }

  lemma WriteKeepsInv(s: State, n: nat)
    requires Inv(s) && s.writer != Idle && n > 0
    ensures Inv(DoWrite(s, n))
  {
    hide Frames, EncodeBuf, Sendable, Aligned, Framed, Exact, AfterWrite, ReaderOk;
    var k := Min(n, |s.writer.left|);
    var data := s.writer.left[..k];
    var t := s.(writer := s.writer.(left := s.writer.left[k..]), fifo := s.fifo + data, written := s.written + data);
    DataOut(s, k);
    Assoc(s.consumed, s.fifo, data);
    AlignedFrame(s, t, s.sent);
    assert Frames(t.sent) <= t.written;
    AfterWriteKeepsInv(t);
  }

  lemma DataOut(s: State, k: nat)
    requires s.writer != Idle && s.todo != [] && k <= |s.writer.left|
    ensures Framed(s) ==> Framed(s.(writer := s.writer.(left := s.writer.left[k..]), fifo := s.fifo + s.writer.left[..k],
                                    written := s.written + s.writer.left[..k]))
  {
    hide Frames, EncodeBuf;
    var data, left := s.writer.left[..k], s.writer.left[k..];
    assert s.writer.left == data + left;
    Assoc(data, left, s.todo[0]);
    Assoc(s.written, data, if s.writer.Header? then left + s.todo[0] else left);
  }

  /** Alignment only depends on the reader and on a prefix of what was sent. */
  lemma AlignedFrame(s: State, t: State, sent: seq<seq<Byte>>)
    requires t.consumed == s.consumed && t.reader == s.reader && t.log == s.log && s.sent <= t.sent
    ensures Aligned(s) ==> Aligned(t)
  {
    if Aligned(s) {
      assert t.sent[..|s.log|] == s.sent[..|s.log|];
    }
  }

  lemma AfterWriteKeepsInv(t: State)
    requires t.writer != Idle && t.todo != [] && !t.closed && ReaderOk(t.reader) && Sendable(t.sent) && Sendable(t.todo)
    requires t.written == t.consumed + t.fifo && Frames(t.sent) <= t.written
    requires (!t.cut ==> Framed(t)) && (!t.torn ==> Aligned(t))
    ensures Inv(AfterWrite(t))
  {
    hide Frames, EncodeBuf, Aligned, Exact, ReaderOk;
    var u := AfterWrite(t);
    if t.writer.left == [] {
      if t.writer.Payload? || t.todo[0] == [] {
        assert u.sent == if t.cut then t.sent else t.sent + [t.todo[0]];
        FrameIsOut(t);
      } else {
        Assoc(t.todo[0], [], []);
      }
    }
    AlignedFrame(t, u, t.sent);
  }

  lemma FrameIsOut(t: State)
    requires t.todo != [] && t.writer != Idle && t.writer.left == [] && (t.writer.Payload? || t.todo[0] == [])
    ensures Framed(t) ==> t.written == Frames(t.sent + [t.todo[0]])
    ensures t.written + [] == t.written && Frames(t.sent + [t.todo[0]]) + [] == Frames(t.sent + [t.todo[0]])
  {
    assert Left(t) == [];
    FramesSnoc(t.sent, t.todo[0]);
    hide Frames;
    Assoc(t.written, [], []);
    Assoc(Frames(t.sent + [t.todo[0]]), [], []);
  }

  lemma FailKeepsInv(s: State)
    requires Inv(s) && s.writer != Idle
    ensures Inv(FailWrite(s))
  {
    hide Frames, EncodeBuf, Aligned, Exact;
    var u := FailWrite(s);
    if !u.cut {
      CancelRight(s.written, Frames(s.sent), EncodeBuf(s.todo[0]));
      Assoc(Frames(s.sent), [], []);
    }
    AlignedFrame(s, u, s.sent);
  }

  // ---- the reader keeps it ----

  /** A frame at position `r` of the stream is the next string sent. */
  lemma NextFrame(sent: seq<seq<Byte>>, r: nat, x: seq<Byte>, rest: seq<Byte>, junk: seq<Byte>)
    requires Sendable(sent) && r < |sent| && |x| < WORD32
    requires Frames(sent[..r]) + EncodeBuf(x) + rest == Frames(sent) + junk
    ensures x == sent[r] && Frames(sent[..r + 1]) == Frames(sent[..r]) + EncodeBuf(x)
  {
    FramesSplit(sent, r);
    assert sent[r..][0] == sent[r];
    var more := Frames(sent[r..][1..]);
    {
      hide Frames, EncodeBuf;
      Assoc(Frames(sent[..r]), EncodeBuf(x), rest);
      Assoc(Frames(sent[..r]), Frames(sent[r..]), junk);
      CancelLeft(Frames(sent[..r]), EncodeBuf(x) + rest, Frames(sent[r..]) + junk);
      Assoc(EncodeBuf(sent[r]), more, junk);
    }
    DecodeBufOf(None, x, rest);
    DecodeBufOf(None, sent[r], more + junk);
    OneMore(sent, r);
  }

  lemma OneMore(ss: seq<seq<Byte>>, r: nat)
    requires r < |ss|
    ensures Frames(ss[..r + 1]) == Frames(ss[..r]) + EncodeBuf(ss[r])
  {
    assert ss[..r + 1] == ss[..r] + [ss[r]];
    FramesSnoc(ss[..r], ss[r]);
  }

  /** A frame without its end does not decode. */
  lemma StrictPrefix(y: seq<Byte>, l: seq<Byte>, x: seq<Byte>)
    requires y + l == EncodeBuf(x) && l != [] && |x| < WORD32
    ensures DecodeBuf(None, y) == None
  {
    WordSizes();
    FromBigEndianOf(4, |x|);
    hide FromBigEndian;
    var h := BigEndian(4, |x|);
    assert (h + x)[..4] == h;
    hide BigEndian;
    if |y| >= 4 {
      assert y[..4] == (y + l)[..4];
    }
  }

  /** What is out of the current frame does not decode: no frame has been consumed that was not sent
      whole. */
  lemma OpenFrame(s: State, y: seq<Byte>)
    requires WriterOk(s) && Sendable(s.todo) && Framed(s) && Frames(s.sent) + y == s.written
    ensures DecodeBuf(None, y) == None
  {
    hide Frames, EncodeBuf;
    Assoc(Frames(s.sent), y, Left(s));
    CancelLeft(Frames(s.sent), y + Left(s), Current(s));
    if s.writer != Idle {
      StrictPrefix(y, Left(s), s.todo[0]);
    }
  }

  /** A call that has consumed its frame `x`. */
  lemma FinishedKeepsInv(s: State, o: Outcome, x: seq<Byte>)
    requires WriterOk(s) && Sendable(s.sent) && Sendable(s.todo) && s.written == s.consumed + s.fifo
    requires Frames(s.sent) <= s.written && (!s.cut ==> Framed(s))
    requires !s.torn ==> |s.log| <= |s.sent| && s.consumed == Frames(s.sent[..|s.log|]) + EncodeBuf(x)
    requires !s.torn ==> forall i :: 0 <= i < |s.log| ==> Exact(s.log[i], s.sent[i])
    requires |x| < WORD32 && Exact(o, x)
    ensures Inv(Finished(s, o, true))
  {
    hide Frames, EncodeBuf, Exact;
    var r := |s.log|;
    var t := Finished(s, o, true);
    if !t.torn {
      if r == |s.sent| {
        assert s.sent[..r] == s.sent;
        Assoc(Frames(s.sent), EncodeBuf(x), s.fifo);
        OpenFrame(s, EncodeBuf(x) + s.fifo);
        DecodeBufOf(None, x, s.fifo);
      } else {
        var junk := s.written[|Frames(s.sent)|..];
        NextFrame(s.sent, r, x, s.fifo, junk);
        Assoc(t.consumed, [], []);
      }
    }
  }

  lemma EmptyFrame(h: seq<Byte>)
    requires |h| == 4 && FromBigEndian(h) == 0
    ensures EncodeBuf([]) == h
  {
    BigEndianOf(h);
    assert h + [] == h;
  }

  lemma AfterReadKeepsInv(t: State)
    requires WriterOk(t) && Sendable(t.sent) && Sendable(t.todo) && t.written == t.consumed + t.fifo
    requires Frames(t.sent) <= t.written && (!t.cut ==> Framed(t)) && (!t.torn ==> Aligned(t))
    requires 0 <= Wanted(t.reader)
    requires t.reader.Text? ==> 0 < t.reader.need < WORD32 && Accepts(t.reader.max, t.reader.need)
    ensures Inv(AfterRead(t))
  {
    hide Frames, Framed, BigEndian, FromBigEndian, EncodeBuf;
    match t.reader
    case Between =>
    case Length(max, got) =>
      if |got| == 4 {
        LengthRead(t, max, got);
      }
    case Text(max, need, got) =>
      if |got| == need {
        EncodedText(need, got);
        FinishedKeepsInv(t, Outcome(max, Some(got)), got);
      }
  }

  lemma EncodedText(need: nat, got: seq<Byte>)
    requires |got| == need < WORD32
    ensures EncodeBuf(got) == BigEndian(4, need) + got
  {}

  lemma LengthRead(t: State, max: Option<nat>, got: seq<Byte>)
    requires WriterOk(t) && Sendable(t.sent) && Sendable(t.todo) && t.written == t.consumed + t.fifo
    requires Frames(t.sent) <= t.written && (!t.cut ==> Framed(t)) && (!t.torn ==> Aligned(t))
    requires t.reader == Length(max, got) && |got| == 4
    ensures Inv(AfterRead(t))
  {
    hide Frames, EncodeBuf, Sendable, Exact;
    WordSizes();
    BigEndianOf(got);
    assert BigEndian(4, FromBigEndian(got)) + [] == got;
    hide BigEndian, FromBigEndian;
    var slen := FromBigEndian(got);
    if slen == 0 {
      EmptyFrame(got);
      assert Exact(Outcome(max, if Accepts(max, 0) then Some([]) else None), []) by {
        ExactEmpty(max);
      }
      FinishedKeepsInv(t, Outcome(max, if Accepts(max, 0) then Some([]) else None), []);
    } else if Accepts(max, slen) {
      var u := t.(reader := Text(max, slen, []));
      assert !t.torn ==> Aligned(u);
    }
  }

  lemma ExactEmpty(max: Option<nat>)
    ensures Exact(Outcome(max, if Accepts(max, 0) then Some([]) else None), [])
  {}

  lemma PartialGrows(r: ReaderPc, data: seq<Byte>)
    ensures r != Between ==> Partial(Got(r, data)) == Partial(r) + data
  {
    if r.Text? {
      Assoc(BigEndian(4, r.need), r.got, data);
    }
  }

  lemma ReadKeepsInv(s: State, n: nat)
    requires Inv(s) && s.reader != Between && n > 0 && s.fifo != []
    ensures Inv(DoRead(s, n))
  {
    hide Frames, EncodeBuf, BigEndian, FromBigEndian, Sendable, Exact, AfterRead;
    if !Overruns(s.reader) {
      var k := Min(Min(n, Wanted(s.reader)), |s.fifo|);
      var data := s.fifo[..k];
      var t := s.(reader := Got(s.reader, data), fifo := s.fifo[k..], consumed := s.consumed + data);
      assert s.fifo == data + t.fifo;
      Assoc(s.consumed, data, t.fifo);
      PartialGrows(s.reader, data);
      if !s.torn {
        Assoc(Frames(s.sent[..|s.log|]), Partial(s.reader), data);
      }
      AfterReadKeepsInv(t);
    }
  }

  lemma ReadErrorKeepsInv(s: State)
    requires Inv(s)
    ensures Inv(Step(s, ReadError))
  {
    hide Frames, EncodeBuf, BigEndian, Sendable, Exact;
  }

  lemma StepKeepsInv(s: State, a: Action)
    requires Inv(s)
    ensures Inv(Step(s, a))
  {
    match a
    case BeginWrite => BeginKeepsInv(s);
    case Write(n) =>
      if s.writer != Idle && n > 0 {
        WriteKeepsInv(s, n);
      }
    case WriteError =>
      if s.writer != Idle {
        FailKeepsInv(s);
      }
    case Read(n) =>
      if s.reader != Between && n > 0 && s.fifo != [] {
        ReadKeepsInv(s, n);
      }
    case ReadError => ReadErrorKeepsInv(s);
    case BeginRead(max) => Assoc(s.consumed, [], []);
    case _ =>
  }

  // ---- every run ----

  lemma {:induction false} RunKeepsInv(s: State, acts: seq<Action>)
    requires Inv(s)
    ensures Inv(Run(s, acts))
    decreases |acts|
  {
    hide Inv, Step;
    if acts != [] {
      StepKeepsInv(s, acts[0]);
      RunKeepsInv(Step(s, acts[0]), acts[1..]);
    }
  }

  /** While no write has failed inside a frame, nothing is skipped. */
  lemma {:induction false} NoErrorNoSkip(s: State, acts: seq<Action>)
    requires WriteError !in acts
    ensures Run(s, acts).cut == s.cut
    ensures !s.cut ==> Run(s, acts).sent + Run(s, acts).todo == s.sent + s.todo
    decreases |acts|
  {
    if acts != [] {
      var t := Step(s, acts[0]);
      assert t.cut == s.cut && (!s.cut ==> t.sent + t.todo == s.sent + s.todo) by {
        StepSkipsNothing(s, acts[0]);
      }
      NoErrorNoSkip(t, acts[1..]);
    }
  }

  lemma StepSkipsNothing(s: State, a: Action)
    requires a != WriteError
    ensures Step(s, a).cut == s.cut && (!s.cut ==> Step(s, a).sent + Step(s, a).todo == s.sent + s.todo)
  {
    hide AfterRead;
    if s.todo != [] {
      assert s.sent + s.todo == s.sent + [s.todo[0]] + s.todo[1..];
    }
    if a.Read? && s.reader != Between && 0 <= Wanted(s.reader) {
      ReadLeavesWriter(s, a.n);
    }
  }

  lemma ReadLeavesWriter(s: State, n: nat)
    requires 0 <= Wanted(s.reader)
    ensures var t := DoRead(s, n);
            t.todo == s.todo && t.writer == s.writer && t.sent == s.sent && t.cut == s.cut && t.written == s.written
            && t.closed == s.closed && (t.ended <==> s.ended || Overruns(s.reader))
  {
    hide AfterRead;
    var k := Min(Min(n, Wanted(s.reader)), |s.fifo|);
    AfterReadLeaves(s.(reader := Got(s.reader, s.fifo[..k]), fifo := s.fifo[k..], consumed := s.consumed + s.fifo[..k]));
  }

  lemma AfterReadLeaves(t: State)
    ensures var u := AfterRead(t); u == t.(reader := u.reader, log := u.log, torn := u.torn)
  {
    hide FromBigEndian;
  }

  lemma StartInv(strings: seq<seq<Byte>>)
    requires Sendable(strings)
    ensures Inv(Start(strings))
  {}

  /** In every reachable state nothing is lost, repeated or reordered on the way. As long as no read
      call has ended inside a frame, the outcomes of the calls are exactly the next strings sent: the
      string itself, or a failure if it does not fit. Without write errors these are the strings
      given. */
  lemma EveryRun(strings: seq<seq<Byte>>, acts: seq<Action>)
    requires Sendable(strings)
    ensures var s := Run(Start(strings), acts);
            && s.written == s.consumed + s.fifo
            && (!s.torn ==> |s.log| <= |s.sent| && forall i :: 0 <= i < |s.log| ==>
                  s.log[i].result == if s.log[i].max.Some? && s.log[i].max.value <= |s.sent[i]| then None else Some(s.sent[i]))
            && (WriteError !in acts ==> s.sent + s.todo == strings)
  {
    StartInv(strings);
    RunKeepsInv(Start(strings), acts);
    if WriteError !in acts {
      NoErrorNoSkip(Start(strings), acts);
    }
  }
}
