/** The client thread of one OTPP connection (src/client_thread.c): it reads
    the socket one byte at a time into a 500-byte ring buffer and, on every
    carriage return, hands the buffered bytes, carriage return included, to
    the command processor as one frame.

    The ring buffer library is not part of this model. Its overflow policy,
    RINGS_OVERFLOW_SHIFT, is taken to keep the newest CAPACITY bytes and
    drop the oldest first. */
module ClientThread {
  import opened CmdProcessor

  /** The size given to RINGS_createRingBuffer. */
  const CAPACITY: nat := 500

  /** What a shifting ring buffer of CAPACITY bytes holds after s has been
      written into it: the newest CAPACITY bytes. */
  function Newest(s: string): (r: string)
    ensures |r| == if |s| <= CAPACITY then |s| else CAPACITY
    ensures r == s[|s| - |r|..]
  {
    if |s| <= CAPACITY then s else s[|s| - CAPACITY..]
  }

  /** Writing more into the ring buffer only sees its newest bytes. */
  lemma NewestAppend(s: string, t: string)
    ensures Newest(Newest(s) + t) == Newest(s + t)
  {
    var n := Newest(s);
    var a := n + t;
    var b := s + t;
    assert a == b[|b| - |a|..];
    assert Newest(a) == Newest(b);
  }

  /** RINGS_write of one byte. */
  function RingWrite(buffer: string, ch: char): (r: string)
    ensures |r| <= CAPACITY && r != [] && r[|r| - 1] == ch
    ensures |buffer| < CAPACITY ==> r == buffer + [ch]
  {
    Newest(buffer + [ch])
  }

  /** The framer's state: the ring buffer's contents and the frames handed
      to the command processor so far, oldest first. */
  datatype Framing = Framing(buffer: string, frames: seq<string>)

  const Start := Framing([], [])

  /** One byte read (lines 31-42). Any byte is written into the ring buffer;
      a carriage return then empties it into a new frame. */
  function FrameStep(st: Framing, ch: char): (r: Framing)
    ensures |r.frames| == |st.frames| + (if ch == CR then 1 else 0)
    ensures r.frames[..|st.frames|] == st.frames
    ensures ch == CR ==> r.buffer == [] && r.frames[|st.frames|] == RingWrite(st.buffer, CR)
    ensures |st.buffer| < CAPACITY ==>
              if ch == CR then r.frames[|st.frames|] == st.buffer + [CR]
              else r.buffer == st.buffer + [ch]
  {
    var buffer := RingWrite(st.buffer, ch);
    if ch == CR then Framing([], st.frames + [buffer])
    else Framing(buffer, st.frames)
  }

  /** The framer after reading all of input, one byte at a time. */
  function FrameAll(st: Framing, input: string): (r: Framing)
    ensures |r.frames| >= |st.frames| && r.frames[..|st.frames|] == st.frames
    decreases |input|
  {
    if input == [] then st
    else FrameStep(FrameAll(st, input[..|input| - 1]), input[|input| - 1])
  }

  lemma {:induction false} FrameAllAppend(st: Framing, a: string, b: string)
    ensures FrameAll(st, a + b) == FrameAll(FrameAll(st, a), b)
    decreases |b|
  {
    if b == [] {
      assert a + b == a;
    } else {
      var init := b[..|b| - 1];
      var c := b[|b| - 1];
      calc {
        FrameAll(st, a + b);
        { assert (a + b)[..|a + b| - 1] == a + init; }
        FrameStep(FrameAll(st, a + init), c);
        { FrameAllAppend(st, a, init); }
        FrameStep(FrameAll(FrameAll(st, a), init), c);
        FrameAll(FrameAll(st, a), b);
      }
    }
  }

  /** What a frame handed to the command processor looks like: it ends in
      the carriage return that closed it, holds no other, and fits the ring
      buffer. */
  predicate IsFrame(f: string)
  {
    f != [] && f[|f| - 1] == CR && CR !in f[..|f| - 1] && |f| <= CAPACITY
  }

  /** The framer's invariant: the buffer fits and holds no carriage return,
      and everything handed on is a frame. */
  predicate Good(st: Framing)
  {
    |st.buffer| <= CAPACITY && CR !in st.buffer &&
    forall i :: 0 <= i < |st.frames| ==> IsFrame(st.frames[i])
  }

  lemma FrameStepGood(st: Framing, ch: char)
    requires Good(st)
    ensures Good(FrameStep(st, ch))
  {
    var s := st.buffer + [ch];
    var buffer := Newest(s);
    assert CR !in buffer[..|buffer| - 1] by {
      assert buffer[..|buffer| - 1] == st.buffer[|st.buffer| - (|buffer| - 1)..];
    }
    if ch == CR {
      assert IsFrame(buffer);
      var frames := st.frames + [buffer];
      assert forall i :: 0 <= i < |st.frames| ==> frames[i] == st.frames[i];
    }
  }

  /** Whatever the input, the buffer never exceeds 500 bytes and every frame
      handed on ends in its carriage return, holds no other and is at most
      500 bytes long. */
  lemma {:induction false} FramesWellFormed(input: string)
    ensures Good(FrameAll(Start, input))
    decreases |input|
  {
    if input != [] {
      FramesWellFormed(input[..|input| - 1]);
      FrameStepGood(FrameAll(Start, input[..|input| - 1]), input[|input| - 1]);
    }
  }

  /** One frame is handed on per carriage return in the input, in the order
      the carriage returns arrive (line 39). */
  lemma {:induction false} OneFramePerTerminator(st: Framing, input: string)
    ensures |FrameAll(st, input).frames| == |st.frames| + multiset(input)[CR]
    ensures FrameAll(st, input).frames[..|st.frames|] == st.frames
    decreases |input|
  {
    if input != [] {
      var init := input[..|input| - 1];
      assert input == init + [input[|input| - 1]];
      assert multiset(input) == multiset(init) + multiset{input[|input| - 1]};
      OneFramePerTerminator(st, init);
      var mid := FrameAll(st, init);
      assert FrameAll(st, input).frames[..|mid.frames|] == mid.frames;
      assert mid.frames[..|st.frames|] == st.frames;
    }
  }

  lemma AppendInitLast(a: string, s: string)
    requires s != []
    ensures a + s[..|s| - 1] + [s[|s| - 1]] == a + s
  {
    assert s[..|s| - 1] + [s[|s| - 1]] == s;
  }

  /** Bytes without a carriage return only fill the buffer, which keeps the
      newest 500 of them. */
  lemma {:induction false} FeedText(st: Framing, s: string)
    requires |st.buffer| <= CAPACITY && CR !in s
    ensures FrameAll(st, s) == Framing(Newest(st.buffer + s), st.frames)
    decreases |s|
  {
    if s == [] {
      assert st.buffer + s == st.buffer;
    } else {
      var init := s[..|s| - 1];
      assert CR !in init by {
        assert forall i :: 0 <= i < |init| ==> init[i] == s[i];
      }
      FeedText(st, init);
      NewestAppend(st.buffer + init, [s[|s| - 1]]);
      AppendInitLast(st.buffer, s);
    }
  }

  /** A line followed by its carriage return hands on one frame: the newest
      500 bytes of the buffer, the line and the carriage return. */
  lemma FeedLine(st: Framing, line: string)
    requires |st.buffer| <= CAPACITY && CR !in line
    ensures FrameAll(st, line + [CR]) ==
            Framing([], st.frames + [Newest(st.buffer + line + [CR])])
  {
    FrameAllAppend(st, line, [CR]);
    FeedText(st, line);
    NewestAppend(st.buffer + line, [CR]);
  }

  /** A line read with an empty buffer hands on the newest 500 bytes of the
      line and its carriage return. */
  lemma LineFromEmpty(st: Framing, line: string)
    requires st.buffer == [] && CR !in line
    ensures FrameAll(st, line + [CR]) == Framing([], st.frames + [Newest(line + [CR])])
  {
    FeedLine(st, line);
    assert st.buffer + line == line;
  }

  /** A short line read with an empty buffer becomes one whole frame. */
  lemma LineAfter(st: Framing, line: string)
    requires st.buffer == [] && CR !in line && |line| < CAPACITY
    ensures FrameAll(st, line + [CR]) == Framing([], st.frames + [line + [CR]])
  {
    LineFromEmpty(st, line);
  }

  /** The bytes a client sends for a run of lines: each line followed by a
      carriage return. */
  function Terminated(lines: seq<string>): string
  {
    if lines == [] then []
    else Terminated(lines[..|lines| - 1]) + lines[|lines| - 1] + [CR]
  }

  /** The frames the framer hands on for those lines: each line and its
      carriage return, cut to the newest 500 bytes. */
  function FramedLines(lines: seq<string>): (r: seq<string>)
    ensures |r| == |lines|
  {
    if lines == [] then []
    else FramedLines(lines[..|lines| - 1]) + [Newest(lines[|lines| - 1] + [CR])]
  }

  /** Framing a run of lines hands on one frame per line, in order, and
      leaves the buffer empty. */
  lemma {:induction false} FramesOfLines(lines: seq<string>)
    requires forall i :: 0 <= i < |lines| ==> CR !in lines[i]
    ensures FrameAll(Start, Terminated(lines)) == Framing([], FramedLines(lines))
    decreases |lines|
  {
    if lines != [] {
      var init := lines[..|lines| - 1];
      var last := lines[|lines| - 1];
      var mid := Framing([], FramedLines(init));
      assert FrameAll(Start, Terminated(lines)) == FrameAll(mid, last + [CR]) by {
        assert forall i :: 0 <= i < |init| ==> init[i] == lines[i];
        FramesOfLines(init);
        AppendAssoc(Terminated(init), last, [CR]);
        FrameAllAppend(Start, Terminated(init), last + [CR]);
      }
      assert CR !in last;
      LineFromEmpty(mid, last);
    }
  }

  /** Lines shorter than the buffer come back whole: the frames are exactly
      the lines sent, each with its carriage return. */
  lemma FramingRoundTrip(lines: seq<string>)
    requires forall i :: 0 <= i < |lines| ==> CR !in lines[i] && |lines[i]| < CAPACITY
    ensures var st := FrameAll(Start, Terminated(lines));
            st.buffer == [] && |st.frames| == |lines| &&
            forall i :: 0 <= i < |lines| ==> st.frames[i] == lines[i] + [CR]
  {
    FramesOfLines(lines);
    FramedLinesShort(lines);
  }

  lemma {:induction false} FramedLinesShort(lines: seq<string>)
    requires forall i :: 0 <= i < |lines| ==> |lines[i]| < CAPACITY
    ensures forall i :: 0 <= i < |lines| ==> FramedLines(lines)[i] == lines[i] + [CR]
    decreases |lines|
  {
    if lines != [] {
      var init := lines[..|lines| - 1];
      FramedLinesShort(init);
      assert forall i :: 0 <= i < |init| ==> init[i] == lines[i];
    }
  }

  lemma SuffixSnoc(x: string, c: char, k: nat)
    requires k <= |x|
    ensures (x + [c])[k..] == x[k..] + [c]
  {
  }

  lemma NewestOverflow(line: string)
    requires |line| >= CAPACITY
    ensures Newest(line + [CR]) == line[|line| - (CAPACITY - 1)..] + [CR]
  {
    SuffixSnoc(line, CR, |line| - (CAPACITY - 1));
  }

  /** A line that overflows the buffer loses its oldest bytes: the frame is
      its newest 499 bytes and the carriage return. */
  lemma OverflowKeepsNewest(line: string)
    requires CR !in line && |line| >= CAPACITY
    ensures FrameAll(Start, line + [CR]).frames == [line[|line| - (CAPACITY - 1)..] + [CR]]
  {
    LineFromEmpty(Start, line);
    NewestOverflow(line);
    assert Start.frames + [Newest(line + [CR])] == [Newest(line + [CR])];
  }

  /** The client thread of one connection: the ring buffer it fills, and the
      command processor whose queue it feeds and whose alive flag it clears
      when the socket closes. */
  class Reader {
    var inBuf: string
    const cpa: Processor

    constructor (cpa: Processor)
      ensures this.cpa == cpa && inBuf == []
    {
      this.cpa := cpa;
      inBuf := [];
    }

    /** One byte read from the socket (lines 31-42). On a carriage return it
        is written, the buffered length taken, that many bytes extracted as a
        new frame, the buffer cleared and the frame enqueued. */
    method Feed(ch: char)
      modifies this`inBuf, cpa`queue
      ensures var st := FrameStep(Framing(old(inBuf), old(cpa.queue)), ch);
              inBuf == st.buffer && cpa.queue == st.frames
    {
      if ch == CR {
        inBuf := RingWrite(inBuf, ch);
        var len := |inBuf|;
        var str := inBuf[|inBuf| - len..];
        assert |str| == len;
        inBuf := [];
        cpa.queue := cpa.queue + [str];
      } else {
        inBuf := RingWrite(inBuf, ch);
      }
    }

    /** After the loop (lines 49-51): the processor is told to stop and the
        ring buffer is freed, bytes not yet framed included. */
    method Close()
      modifies this`inBuf, cpa`alive
      ensures !cpa.alive && inBuf == []
    {
      cpa.alive := false;
      inBuf := [];
    }

    /** ClientThread_run: bytes are read from the socket until a read returns
        nothing (lines 28-47), then the thread winds down. The socket is given
        as the bytes it will deliver before it closes. Every frame of the
        input is enqueued, in order, and nothing after. */
    method Run(input: string)
      modifies this`inBuf, cpa`queue, cpa`alive
      ensures cpa.queue == FrameAll(Framing(old(inBuf), old(cpa.queue)), input).frames
      ensures !cpa.alive && inBuf == []
    {
      var start := Framing(inBuf, cpa.queue);
      var alive := true;
      var pos := 0;
      while alive
        invariant 0 <= pos <= |input|
        invariant Framing(inBuf, cpa.queue) == FrameAll(start, input[..pos])
        invariant !alive ==> pos == |input|
        decreases |input| - pos + (if alive then 1 else 0)
      {
        if pos < |input| {
          var ch := input[pos];
          assert input[..pos + 1][..pos] == input[..pos];
          Feed(ch);
          pos := pos + 1;
        } else {
          alive := false;
        }
      }
      assert input[..pos] == input;
      Close();
    }
  }
}
