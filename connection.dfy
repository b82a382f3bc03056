/** One OTPP connection end to end: the client thread frames the bytes the
    socket delivers and the command processor answers the frames, each reply
    written back to the socket.

    The two threads run concurrently and share the frame queue. Here they
    are interleaved at byte granularity: after each byte the processor either
    drains the queue or does not run, as a schedule says. When the socket
    closes, the processor stops and whatever is still queued is dropped. */
module Connection {
  import opened CString
  import opened CmdProcessor
  import opened ClientThread
  import WorkedFrames

  /** Taking frames off the front of the queue commutes with framing one
      more byte. */
  lemma FrameStepFrom(st: Framing, ch: char, k: nat)
    requires k <= |st.frames|
    ensures FrameStep(Framing(st.buffer, st.frames[k..]), ch) ==
            Framing(FrameStep(st, ch).buffer, FrameStep(st, ch).frames[k..])
    ensures FrameStep(st, ch).frames[..k] == st.frames[..k]
  {
    if ch == CR {
      var frame := RingWrite(st.buffer, ch);
      assert (st.frames + [frame])[k..] == st.frames[k..] + [frame];
      assert (st.frames + [frame])[..k] == st.frames[..k];
    }
  }

  /** Framing one more byte of the input extends the framing of the bytes
      before it. */
  lemma FramePrefix(st: Framing, input: string, pos: nat)
    requires pos < |input|
    ensures FrameAll(st, input[..pos + 1]) == FrameStep(FrameAll(st, input[..pos]), input[pos])
  {
    assert input[..pos + 1][..pos] == input[..pos];
  }

  /** The two threads agree with the framer in state st when the ring
      buffer is st's, the first `answered` of st's frames have been answered
      on the socket and the rest are waiting in the queue. */
  ghost predicate Tracks(reader: Reader, st: Framing, answered: nat)
    reads reader, reader.cpa
  {
    reader.inBuf == st.buffer && answered <= |st.frames| &&
    reader.cpa.queue == st.frames[answered..] &&
    reader.cpa.sent == Replies(st.frames[..answered])
  }

  /** How many bytes had been read when the processor last drained the
      queue: one past the last index where drains is true, or 0 when it never
      ran. */
  function Drained(drains: seq<bool>): (k: nat)
    ensures k <= |drains|
    ensures k > 0 ==> drains[k - 1]
  {
    if drains == [] then 0
    else if drains[|drains| - 1] then |drains|
    else Drained(drains[..|drains| - 1])
  }

  /** The processor does not run after the last drain. */
  lemma {:induction false} DrainedIsLast(drains: seq<bool>, i: nat)
    requires Drained(drains) <= i < |drains|
    ensures !drains[i]
    decreases |drains|
  {
    var init := drains[..|drains| - 1];
    if i < |drains| - 1 {
      DrainedIsLast(init, i);
    }
  }

  lemma DrainedSnoc(drains: seq<bool>, pos: nat)
    requires pos < |drains|
    ensures Drained(drains[..pos + 1]) == if drains[pos] then pos + 1 else Drained(drains[..pos])
  {
    assert drains[..pos + 1][..pos] == drains[..pos];
  }

  /** After pos bytes, answered counts the frames made by the time the
      processor last drained the queue (answered0 when it has not run). */
  ghost predicate AnsweredAt(st0: Framing, answered0: nat, input: string, drains: seq<bool>,
                             pos: nat, answered: nat)
    requires pos <= |input| == |drains|
  {
    var k := Drained(drains[..pos]);
    (k == 0 ==> answered == answered0) &&
    (k > 0 ==> answered == |FrameAll(st0, input[..k]).frames|)
  }

  lemma AnsweredStep(st0: Framing, answered0: nat, input: string, drains: seq<bool>,
                     pos: nat, answered: nat, answered': nat)
    requires pos < |input| == |drains|
    requires AnsweredAt(st0, answered0, input, drains, pos, answered)
    requires drains[pos] ==> answered' == |FrameAll(st0, input[..pos + 1]).frames|
    requires !drains[pos] ==> answered' == answered
    ensures AnsweredAt(st0, answered0, input, drains, pos + 1, answered')
  {
    DrainedSnoc(drains, pos);
  }

  /** Once all of the input is read, the frames answered are those made by
      the time of the last drain; when the processor ran after the last
      byte, that is every frame. */
  lemma AnsweredAll(st0: Framing, answered0: nat, input: string, drains: seq<bool>, answered: nat)
    requires |input| == |drains|
    requires AnsweredAt(st0, answered0, input, drains, |input|, answered)
    ensures Drained(drains) == 0 ==> answered == answered0
    ensures Drained(drains) > 0 ==> answered == |FrameAll(st0, input[..Drained(drains)]).frames|
    ensures input != [] && drains[|input| - 1] ==> answered == |FrameAll(st0, input).frames|
  {
    assert drains[..|input|] == drains;
    assert input[..|input|] == input;
  }

  /** One byte delivered by the socket, read by the client thread, and then,
      when drain says so, a run of the processor until the queue is empty. */
  method Tick(reader: Reader, ch: char, drain: bool, ghost st: Framing, answered: nat)
    returns (answered': nat)
    requires reader.cpa.alive && Tracks(reader, st, answered)
    modifies reader`inBuf, reader.cpa`queue, reader.cpa`sent
    ensures Tracks(reader, FrameStep(st, ch), answered')
    ensures drain ==> answered' == |FrameStep(st, ch).frames|
    ensures !drain ==> answered' == answered
  {
    var cpa := reader.cpa;
    ghost var st' := FrameStep(st, ch);
    FrameStepFrom(st, ch, answered);
    reader.Feed(ch);
    answered' := answered;
    if drain {
      var total := answered + |cpa.queue|;
      cpa.Drain();
      RepliesSplit(st'.frames, answered);
      assert st'.frames[..total] == st'.frames;
      answered' := total;
    }
  }

  /** The threads, after reading the first pos bytes of input with the
      processor draining after byte i exactly when drains[i], agree with the
      framer fed those bytes, and have answered the frames made by the last
      drain. */
  ghost predicate Pumped(reader: Reader, input: string, drains: seq<bool>, pos: nat,
                         st0: Framing, answered0: nat, answered: nat)
    reads reader, reader.cpa
  {
    pos <= |input| == |drains| && reader.cpa.alive &&
    Tracks(reader, FrameAll(st0, input[..pos]), answered) &&
    AnsweredAt(st0, answered0, input, drains, pos, answered)
  }

  /** Before the first byte, the threads are where they started. */
  lemma PumpStart(reader: Reader, input: string, drains: seq<bool>, st0: Framing, answered0: nat)
    requires |input| == |drains|
    requires reader.cpa.alive && Tracks(reader, st0, answered0)
    ensures Pumped(reader, input, drains, 0, st0, answered0, answered0)
  {
    assert input[..0] == [] && drains[..0] == [];
  }

  /** After the last byte, the threads agree with the framer fed all of
      input. */
  lemma PumpEnd(reader: Reader, input: string, drains: seq<bool>, st0: Framing, answered0: nat, answered: nat)
    requires Pumped(reader, input, drains, |input|, st0, answered0, answered)
    ensures Tracks(reader, FrameAll(st0, input), answered)
    ensures AnsweredAt(st0, answered0, input, drains, |input|, answered)
  {
    assert input[..|input|] == input;
  }

  /** Byte pos of the input, read and then drained when drains[pos] says
      so: the agreement with the framer and the count of answered frames
      move on by one byte. */
  method TickAt(reader: Reader, input: string, drains: seq<bool>, pos: nat,
                ghost st0: Framing, ghost answered0: nat, answered: nat)
    returns (answered': nat)
    requires pos < |input| && Pumped(reader, input, drains, pos, st0, answered0, answered)
    modifies reader`inBuf, reader.cpa`queue, reader.cpa`sent
    ensures Pumped(reader, input, drains, pos + 1, st0, answered0, answered')
  {
    ghost var st := FrameAll(st0, input[..pos]);
    answered' := Tick(reader, input[pos], drains[pos], st, answered);
    FramePrefix(st0, input, pos);
    AnsweredStep(st0, answered0, input, drains, pos, answered, answered');
  }

  /** The client thread reading input and the processor draining the queue
      after byte i exactly when drains[i], from any state that agrees with
      the framer: the threads end agreeing with the framer fed input. */
  method Pump(reader: Reader, input: string, drains: seq<bool>, ghost st0: Framing, answered0: nat)
    returns (answered: nat)
    requires |drains| == |input|
    requires reader.cpa.alive && Tracks(reader, st0, answered0)
    modifies reader`inBuf, reader.cpa`queue, reader.cpa`sent
    ensures Tracks(reader, FrameAll(st0, input), answered)
    ensures AnsweredAt(st0, answered0, input, drains, |input|, answered)
  {
    answered := answered0;
    var pos := 0;
    PumpStart(reader, input, drains, st0, answered0);
    while pos < |input|
      invariant pos <= |input| && Pumped(reader, input, drains, pos, st0, answered0, answered)
    {
      answered := TickAt(reader, input, drains, pos, st0, answered0, answered);
      pos := pos + 1;
    }
    PumpEnd(reader, input, drains, st0, answered0, answered);
  }

  /** The connection fed input, with the processor draining the queue after
      byte i exactly when drains[i]. The socket receives the replies to the
      first `answered` frames, in order: frames still queued when the socket
      closes get no reply. When the processor runs after the last byte,
      every frame is answered. */
  method Serve(input: string, drains: seq<bool>) returns (wire: string, answered: nat)
    requires |drains| == |input|
    ensures answered <= |FrameAll(Start, input).frames|
    ensures wire == Replies(FrameAll(Start, input).frames[..answered])
    ensures input == [] || drains[|input| - 1] ==> answered == |FrameAll(Start, input).frames|
    ensures answered == |FrameAll(Start, input[..Drained(drains)]).frames|
  {
    var cpa := new Processor();
    var reader := new Reader(cpa);
    assert Tracks(reader, Start, 0);
    answered := Pump(reader, input, drains, Start, 0);
    AnsweredAll(Start, 0, input, drains, answered);
    assert input[..0] == [];
    wire := cpa.sent;
    reader.Close();
    cpa.Shutdown();
  }

  /** Two frames, each answered, put their two replies on the wire in
      order. */
  lemma TwoFrameReplies(f1: string, f2: string, r1: string, r2: string)
    requires Reply(f1) == Some(r1) && Reply(f2) == Some(r2)
    ensures Replies([f1, f2]) == r1 + r2
  {
    ConcatMapPair(Output, f1, f2);
  }

  /** Two short lines sent back to back come out as two frames. */
  lemma TwoLineFrames(a: string, b: string)
    requires CR !in a && |a| < CAPACITY && CR !in b && |b| < CAPACITY
    ensures FrameAll(Start, a + [CR] + b + [CR]).frames == [a + [CR], b + [CR]]
  {
    LineAfter(Start, a);
    LineAfter(Framing([], [a + [CR]]), b);
    assert [] + [a + [CR]] == [a + [CR]];
    assert a + [CR] + b + [CR] == (a + [CR]) + (b + [CR]);
    FrameAllAppend(Start, a + [CR], b + [CR]);
  }

  /** Two requests sent back to back on one connection, the frames they make
      and the replies those draw. */
  const LINE1: string := "X\t1\tversion"
  const LINE2: string := "X\t2\tt_echo hello"
  const FRAME1: string := "X\t1\tversion\r"
  const FRAME2: string := "X\t2\tt_echo hello\r"
  const SESSION: string := "X\t1\tversion\rX\t2\tt_echo hello\r"
  const REPLY1: string := "r\t1\t0.0.1\r"
  const REPLY2: string := "r\t2\thello\r"

  lemma SessionLines()
    ensures SESSION == LINE1 + [CR] + LINE2 + [CR]
    ensures FRAME1 == LINE1 + [CR] && FRAME2 == LINE2 + [CR]
  {
  }

  lemma SessionFrames()
    ensures FrameAll(Start, SESSION).frames == [FRAME1, FRAME2]
  {
    SessionLines();
    assert CR !in LINE1 && CR !in LINE2;
    TwoLineFrames(LINE1, LINE2);
  }

  /** The two requests, framed by the client thread and answered by the
      processor, put exactly their two replies on the wire, in order. */
  lemma SessionWire()
    ensures Replies(FrameAll(Start, SESSION).frames) == REPLY1 + REPLY2
  {
    SessionFrames();
    WorkedFrames.VersionFrame();
    WorkedFrames.EchoFrame();
    TwoFrameReplies(FRAME1, FRAME2, REPLY1, REPLY2);
  }
}
