/** The command processor of one OTPP connection (src/cmd_processor.c): it
    takes frames off the handoff queue, splits each into tab fields and the
    command clause into space tokens, dispatches on the command name and
    writes at most one reply line to the socket.

    Both strtok loops of CmdProcessor_run PREPEND what they find, so the
    lists it indexes are the wire order reversed: field 0 is the last tab
    piece of the frame and element size-1 is the first space token of the
    command clause. Parse and Respond keep the source's indexing;
    FieldsWireOrder and RespondWireOrder say what it means on the wire. */
module CmdProcessor {
  import opened CString

  const TAB: char := '\t'
  const SPACE: char := ' '
  const CR: char := '\r'
  const VERSION: string := "0.0.1"

  // ---------------------------------------------------------------------
  // Replies

  /** The size CmdProcessor_createResponse passes to pmalloc. */
  function ResponseBufferSize(kind: string, msgId: nat, content: string): nat
  {
    |kind| + 2 + |Decimal(msgId)| + 2 + |content|
  }

  /** CmdProcessor_createResponse: kind, packet id and content separated by
      tabs and closed by a carriage return. The line and the NUL sprintf puts
      after it fill the allocated buffer exactly. */
  function CreateResponse(kind: string, msgId: nat, content: string): (r: string)
    ensures |r| + 1 == ResponseBufferSize(kind, msgId, content)
    ensures r != [] && r[|r| - 1] == CR
  {
    kind + [TAB] + Decimal(msgId) + [TAB] + content + [CR]
  }

  /** The start of an ordinary response: its kind and packet id, each
      followed by a tab. */
  function Header(kind: string, msgId: nat): string
  {
    kind + [TAB] + Decimal(msgId) + [TAB]
  }

  /** r is an ordinary response line of that kind under that packet id. */
  predicate AnswersAs(r: string, kind: string, msgId: nat)
  {
    var h := Header(kind, msgId);
    |h| < |r| && r[..|h|] == h && r[|r| - 1] == CR
  }

  /** r is an ordinary response of that kind under that packet id, and what
      stands between its header and its carriage return is content. */
  predicate Carries(r: string, kind: string, msgId: nat, content: string)
  {
    AnswersAs(r, kind, msgId) && r[|Header(kind, msgId)|..|r| - 1] == content
  }

  /** A line that differs from a header within its kind, its tab or the
      first digit of its packet id is not a response of that kind and id. */
  lemma NotAnswer(r: string, kind: string, msgId: nat, i: nat)
    requires i <= |kind| + 1 && i < |r|
    requires i < |kind| ==> r[i] != kind[i]
    requires i == |kind| ==> r[i] != TAB
    requires i == |kind| + 1 ==> !IsDigit(r[i])
    ensures !AnswersAs(r, kind, msgId)
  {
    var h := Header(kind, msgId);
    var d := Decimal(msgId);
    assert h == kind + ([TAB] + d + [TAB]);
    assert h[|kind|] == TAB && h[|kind| + 1] == d[0];
    assert i < |kind| ==> h[i] == kind[i];
    assert h[i] != r[i];
    assert |h| < |r| ==> r[..|h|][i] == r[i];
  }

  lemma CreateResponseAnswers(kind: string, msgId: nat, content: string)
    ensures Carries(CreateResponse(kind, msgId, content), kind, msgId, content)
  {
    var h := Header(kind, msgId);
    var r := CreateResponse(kind, msgId, content);
    assert r == h + (content + [CR]);
    assert r[|h|..|r| - 1] == content;
  }

  function NotEnoughArgs(packetId: nat): (r: string)
    ensures Carries(r, "e", packetId, "Not enough arguments")
  {
    CreateResponseAnswers("e", packetId, "Not enough arguments");
    CreateResponse("e", packetId, "Not enough arguments")
  }

  function CmdVersion(packetId: nat): (r: string)
    ensures Carries(r, "r", packetId, VERSION)
  {
    CreateResponseAnswers("r", packetId, VERSION);
    CreateResponse("r", packetId, VERSION)
  }

  function CmdEcho(packetId: nat, str: string): (r: string)
    ensures Carries(r, "r", packetId, str)
  {
    CreateResponseAnswers("r", packetId, str);
    CreateResponse("r", packetId, str)
  }

  /** The delay itself is not modelled: the reply is the one sent after it. */
  function CmdTmt(packetId: nat): (r: string)
    ensures Carries(r, "r", packetId, "ok")
  {
    CreateResponseAnswers("r", packetId, "ok");
    CreateResponse("r", packetId, "ok")
  }

  function CmdErr(packetId: nat, str: string): (r: string)
    ensures Carries(r, "e", packetId, str)
  {
    CreateResponseAnswers("e", packetId, str);
    CreateResponse("e", packetId, str)
  }

  /** Codes "0" to "3" answer with a fixed, deliberately malformed line that
      ignores the packet id; any other code is an ordinary error reply. The
      malformed lines still end in a carriage return, but none is an error
      response under the request's id, and those of codes "0" to "2" are
      not ordinary responses under it at all. */
  function CmdRe(packetId: nat, code: string): (r: string)
    ensures r != [] && r[|r| - 1] == CR
    ensures code !in ["0", "1", "2", "3"] ==> Carries(r, "e", packetId, "Unknown type")
    ensures code in ["0", "1", "2", "3"] ==> !AnswersAs(r, "e", packetId)
    ensures code in ["0", "1", "2"] ==> !AnswersAs(r, "r", packetId)
  {
    if code == "0" then
      NotAnswer("_\t1\terror\r", "e", packetId, 0);
      NotAnswer("_\t1\terror\r", "r", packetId, 0);
      "_\t1\terror\r"
    else if code == "1" then
      NotAnswer("r\terror\r", "e", packetId, 0);
      NotAnswer("r\terror\r", "r", packetId, 2);
      "r\terror\r"
    else if code == "2" then
      NotAnswer("r\ta\terror\r", "e", packetId, 0);
      NotAnswer("r\ta\terror\r", "r", packetId, 2);
      "r\ta\terror\r"
    else if code == "3" then
      NotAnswer("r\t1234\terror\r", "e", packetId, 0);
      "r\t1234\terror\r"
    else
      CreateResponseAnswers("e", packetId, "Unknown type");
      CreateResponse("e", packetId, "Unknown type")
  }

  /** The dispatch of CmdProcessor_run on the command name (case-sensitive
      strcmp), given argument 1 when the element list has one. */
  function Command(packetId: nat, name: string, arg: Option<string>): (r: string)
    ensures r != [] && r[|r| - 1] == CR
  {
    if name == "version" then CmdVersion(packetId)
    else if name == "t_echo" then
      (if arg.Some? then CmdEcho(packetId, arg.value) else NotEnoughArgs(packetId))
    else if name == "t_tmt" then
      (if arg.None? then NotEnoughArgs(packetId)
       else if Strtol(arg.value) != 0 then CmdTmt(packetId)
       else CreateResponse("e", packetId, "First arg must be a number"))
    else if name == "t_err" then
      (if arg.Some? then CmdErr(packetId, arg.value) else NotEnoughArgs(packetId))
    else if name == "t_re" then
      (if arg.Some? then CmdRe(packetId, arg.value) else NotEnoughArgs(packetId))
    else CreateResponse("e", packetId, "Unknown command")
  }

  /** The commands that succeed: version, t_echo with an argument and t_tmt
      with a delay strtol reads as non-zero. */
  predicate Accepted(name: string, arg: Option<string>)
  {
    name == "version" || (name == "t_echo" && arg.Some?) ||
    (name == "t_tmt" && arg.Some? && Strtol(arg.value) != 0)
  }

  /** t_re with one of the codes that ask for a malformed reply. */
  predicate BrokenReplyCode(name: string, arg: Option<string>)
  {
    name == "t_re" && arg.Some? && arg.value in ["0", "1", "2", "3"]
  }

  /** Apart from the malformed lines t_re asks for, every reply is an
      ordinary response under the request's own packet id: kind "r" exactly
      when the command succeeded, "e" otherwise. */
  lemma CommandAnswersUnderId(packetId: nat, name: string, arg: Option<string>)
    requires !BrokenReplyCode(name, arg)
    ensures AnswersAs(Command(packetId, name, arg), if Accepted(name, arg) then "r" else "e", packetId)
  {
    if name == "version" {
      CreateResponseAnswers("r", packetId, VERSION);
    } else if name == "t_echo" && arg.Some? {
      CreateResponseAnswers("r", packetId, arg.value);
    } else if name == "t_tmt" && arg.Some? {
      if Strtol(arg.value) != 0 {
        CreateResponseAnswers("r", packetId, "ok");
      } else {
        CreateResponseAnswers("e", packetId, "First arg must be a number");
      }
    } else if name == "t_err" && arg.Some? {
      CreateResponseAnswers("e", packetId, arg.value);
    } else if name == "t_re" && arg.Some? {
      CreateResponseAnswers("e", packetId, "Unknown type");
    } else if name == "t_echo" || name == "t_tmt" || name == "t_err" || name == "t_re" {
      CreateResponseAnswers("e", packetId, "Not enough arguments");
    } else {
      CreateResponseAnswers("e", packetId, "Unknown command");
    }
  }

  /** The malformed lines: each is fixed, whatever the packet id. */
  lemma BrokenReplies(packetId: nat)
    ensures Command(packetId, "t_re", Some("0")) == "_\t1\terror\r"
    ensures Command(packetId, "t_re", Some("1")) == "r\terror\r"
    ensures Command(packetId, "t_re", Some("2")) == "r\ta\terror\r"
    ensures Command(packetId, "t_re", Some("3")) == "r\t1234\terror\r"
  {
  }

  // ---------------------------------------------------------------------
  // Parsing

  /** The list a loop builds by prepending each of xs in turn onto acc. */
  function PrependAll(acc: seq<string>, xs: seq<string>): (r: seq<string>)
    ensures |r| == |xs| + |acc|
    decreases |xs|
  {
    if xs == [] then acc else PrependAll([xs[0]] + acc, xs[1..])
  }

  /** Prepending reverses: xs comes out back to front, ahead of acc. */
  lemma {:induction false} PrependAllReverses(acc: seq<string>, xs: seq<string>)
    ensures forall i :: 0 <= i < |xs| ==> PrependAll(acc, xs)[i] == xs[|xs| - 1 - i]
    ensures PrependAll(acc, xs)[|xs|..] == acc
    decreases |xs|
  {
    if xs != [] {
      var acc' := [xs[0]] + acc;
      var r := PrependAll(acc', xs[1..]);
      PrependAllReverses(acc', xs[1..]);
      assert r == PrependAll(acc, xs);
      assert forall i :: 0 <= i < |xs| - 1 ==> r[i] == xs[1..][|xs| - 2 - i];
      assert r[|xs| - 1] == acc'[0];
      assert r[|xs|..] == r[|xs| - 1..][1..];
    }
  }

  /** The list a loop builds by prepending each of xs onto an empty list. */
  function Prepended(xs: seq<string>): seq<string>
  {
    PrependAll([], xs)
  }

  /** A space token holding a carriage return loses its last character
      (strncpy of strlen - 1 characters); a bare "\r" becomes "". */
  function StripCr(token: string): (r: string)
    ensures |r| <= |token| <= |r| + 1 && r == token[..|r|]
    ensures |r| < |token| <==> CR in token
  {
    if CR in token then token[..|token| - 1] else token
  }

  function StripCrAll(tokens: seq<string>): (r: seq<string>)
    ensures |r| == |tokens|
    ensures forall i :: 0 <= i < |tokens| ==> r[i] == StripCr(tokens[i])
  {
    if tokens == [] then [] else [StripCr(tokens[0])] + StripCrAll(tokens[1..])
  }

  /** What survives parsing of one frame: the type tag (never checked), the
      packet id and the command clause's element list, in list order. */
  datatype Packet = Packet(packetType: string, packetId: nat, elements: seq<string>)

  /** The parse steps of CmdProcessor_run once the tab fields are listed.
      None is a silent discard: fewer than three fields, a packet id that
      converts to 0, or a command clause without tokens. */
  function ParseFields(fields: seq<string>): (p: Option<Packet>)
    ensures p.Some? ==> 0 < p.value.packetId < UINT32_MOD && p.value.elements != []
  {
    if |fields| < 3 then None
    else
      var packetId := U32(Strtol(fields[1]));
      if packetId == 0 then None
      else
        var elements := Prepended(StripCrAll(Split(fields[0], SPACE)));
        if elements == [] then None
        else Some(Packet(fields[2], packetId, elements))
  }

  /** The frame's tab fields, as the strtok loop lists them. */
  function Parse(frame: string): (p: Option<Packet>)
    ensures p.Some? ==> |Split(CStr(frame), TAB)| >= 3
  {
    ParseFields(Prepended(Split(CStr(frame), TAB)))
  }

  /** The index (uint16_t)(cmdSize - back), cmdSize being the element count
      held in a uint16_t. */
  function Index16(size: nat, back: nat): (i: nat)
    ensures i < 0x1_0000
  {
    ((size % 0x1_0000) - back) % 0x1_0000
  }

  /** List.get: the element at index i, or NULL when i is out of range. */
  function Get(list: seq<string>, i: nat): (r: Option<string>)
    ensures r.None? <==> i >= |list|
    ensures r.Some? ==> r.value in list
  {
    if i < |list| then Some(list[i]) else None
  }

  lemma Index16Small(size: nat)
    requires 0 < size < 0x1_0000
    ensures Index16(size, 1) == size - 1
    ensures size >= 2 ==> Index16(size, 2) == size - 2
    ensures size == 1 ==> Index16(size, 2) >= size
  {
  }

  /** The command name is element (uint16_t)(cmdSize - 1), argument 1 is
      element (uint16_t)(cmdSize - 2). */
  function Respond(p: Packet): (r: string)
    requires p.elements != []
    ensures r != [] && r[|r| - 1] == CR
    ensures var n := |p.elements|;
            n < 0x1_0000 ==>
              r == Command(p.packetId, p.elements[n - 1], if n >= 2 then Some(p.elements[n - 2]) else None)
  {
    var size := |p.elements|;
    var nameIndex := Index16(size, 1);
    assert nameIndex < size by {
      if size % 0x1_0000 == 0 {
        assert nameIndex == 0xFFFF;
      } else {
        assert nameIndex == size % 0x1_0000 - 1;
      }
    }
    assert size < 0x1_0000 ==>
      nameIndex == size - 1 &&
      Get(p.elements, Index16(size, 2)) == (if size >= 2 then Some(p.elements[size - 2]) else None)
    by {
      if size < 0x1_0000 {
        Index16Small(size);
      }
    }
    Command(p.packetId, p.elements[nameIndex], Get(p.elements, Index16(size, 2)))
  }

  /** The reply line one frame draws, or None when it is discarded. */
  function Reply(frame: string): (r: Option<string>)
    ensures r.Some? ==> r.value != [] && r.value[|r.value| - 1] == CR
    ensures r.Some? ==> |Split(CStr(frame), TAB)| >= 3
  {
    match Parse(frame)
    case None => None
    case Some(p) => Some(Respond(p))
  }

  // ---------------------------------------------------------------------
  // What the parse means on the wire

  /** The request line a client sends: the type tag, the packet id and the
      command clause (the command name first, then its arguments), separated
      by tabs and closed by a carriage return. */
  function Request(packetType: string, packetId: nat, words: seq<string>): string
  {
    packetType + [TAB] + Decimal(packetId) + [TAB] + Join(words, SPACE) + [CR]
  }

  /** Fields are prepended, so the command clause is the LAST tab piece of the
      frame, the packet id the second-to-last and the type tag the
      third-to-last; tokens are prepended too, so the element list is the
      clause's tokens reversed. */
  lemma FieldsWireOrder(pieces: seq<string>)
    ensures var n := |pieces|;
            ParseFields(Prepended(pieces)) ==
              if n < 3 then None
              else if U32(Strtol(pieces[n - 2])) == 0 then None
              else if Split(pieces[n - 1], SPACE) == [] then None
              else Some(Packet(pieces[n - 3], U32(Strtol(pieces[n - 2])),
                               Prepended(StripCrAll(Split(pieces[n - 1], SPACE)))))
  {
    var n := |pieces|;
    PrependAllReverses([], pieces);
    if n >= 3 {
      var fields := Prepended(pieces);
      assert fields[0] == pieces[n - 1] && fields[1] == pieces[n - 2] && fields[2] == pieces[n - 3];
    }
  }

  /** Reading the reversed element list from its end, the command name is the
      FIRST token of the clause and argument 1 the SECOND; with a single token
      argument 1 is missing. */
  lemma RespondWireOrder(packetType: string, packetId: nat, tokens: seq<string>)
    requires 0 < |tokens| < 0x1_0000
    ensures Respond(Packet(packetType, packetId, Prepended(tokens))) ==
            Command(packetId, tokens[0], if |tokens| >= 2 then Some(tokens[1]) else None)
  {
    var elements := Prepended(tokens);
    var m := |tokens|;
    PrependAllReverses([], tokens);
    Index16Small(m);
    assert elements[m - 1] == tokens[0];
    if m >= 2 {
      assert elements[m - 2] == tokens[1];
    }
  }

  /** The reply depends on the frame only through its tab pieces. */
  lemma SamePiecesSameReply(f1: string, f2: string)
    requires Split(CStr(f1), TAB) == Split(CStr(f2), TAB)
    ensures Reply(f1) == Reply(f2)
  {
  }

  /** What the tab pieces of a frame draw, stated in wire order. */
  lemma PiecesReply(pieces: seq<string>)
    requires pieces != [] ==> |pieces[|pieces| - 1]| < 0x1_0000
    ensures var n := |pieces|;
            (match ParseFields(Prepended(pieces))
             case None => None
             case Some(p) => Some(Respond(p))) ==
              if n < 3 then None
              else if U32(Strtol(pieces[n - 2])) == 0 then None
              else
                var words := Split(pieces[n - 1], SPACE);
                if words == [] then None
                else Some(Command(U32(Strtol(pieces[n - 2])), StripCr(words[0]),
                                  if |words| >= 2 then Some(StripCr(words[1])) else None))
  {
    FieldsWireOrder(pieces);
    var n := |pieces|;
    if n >= 3 && U32(Strtol(pieces[n - 2])) != 0 {
      var words := Split(pieces[n - 1], SPACE);
      if words != [] {
        RespondWireOrder(pieces[n - 3], U32(Strtol(pieces[n - 2])), StripCrAll(words));
      }
    }
  }

  /** The reply to a frame, stated in wire order. The uint16_t element count
      and indices wrap past 65535 tokens, which a frame shorter than 65536
      bytes cannot hold. */
  lemma ReplyWireOrder(frame: string)
    requires |frame| < 0x1_0000
    ensures var pieces := Split(CStr(frame), TAB);
            var n := |pieces|;
            Reply(frame) ==
              if n < 3 then None
              else if U32(Strtol(pieces[n - 2])) == 0 then None
              else
                var words := Split(pieces[n - 1], SPACE);
                if words == [] then None
                else Some(Command(U32(Strtol(pieces[n - 2])), StripCr(words[0]),
                                  if |words| >= 2 then Some(StripCr(words[1])) else None))
  {
    var pieces := Split(CStr(frame), TAB);
    assert pieces != [] ==> |pieces[|pieces| - 1]| <= |CStr(frame)| <= |frame|;
    PiecesReply(pieces);
    assert Reply(frame) == match ParseFields(Prepended(pieces))
                           case None => None
                           case Some(p) => Some(Respond(p));
  }

  /** Two lists of tab pieces, each at least three long, whose last two
      pieces (the command clause and the packet id) agree. */
  predicate LastTwoAgree(p1: seq<string>, p2: seq<string>)
  {
    |p1| >= 3 && |p2| >= 3 &&
    p1[|p1| - 1] == p2[|p2| - 1] && p1[|p1| - 2] == p2[|p2| - 2]
  }

  /** Piece lists whose last two pieces agree parse alike except, perhaps,
      for the type tag. */
  lemma FieldsLastTwo(p1: seq<string>, p2: seq<string>)
    requires LastTwoAgree(p1, p2)
    ensures var q1 := ParseFields(Prepended(p1)); var q2 := ParseFields(Prepended(p2));
            (q1.Some? <==> q2.Some?) &&
            (q1.Some? ==> q1.value.packetId == q2.value.packetId &&
                          q1.value.elements == q2.value.elements)
  {
    FieldsWireOrder(p1);
    FieldsWireOrder(p2);
  }

  /** ... and so do their third-to-last pieces (the type tag). */
  predicate LastThreeAgree(p1: seq<string>, p2: seq<string>)
  {
    LastTwoAgree(p1, p2) && p1[|p1| - 3] == p2[|p2| - 3]
  }

  /** The type tag is never checked: two frames whose last two tab pieces
      agree draw the same reply. */
  lemma TypeTagIgnored(f1: string, f2: string)
    requires LastTwoAgree(Split(CStr(f1), TAB), Split(CStr(f2), TAB))
    ensures Reply(f1) == Reply(f2)
  {
    FieldsLastTwo(Split(CStr(f1), TAB), Split(CStr(f2), TAB));
    if Parse(f1).Some? {
      var q1 := Parse(f1).value;
      var q2 := Parse(f2).value;
      assert Respond(q1) == Respond(q2) by {
        assert q1 == Packet(q1.packetType, q2.packetId, q2.elements);
      }
    }
  }

  lemma LeadingPieces(x: string, f: string)
    requires NUL !in x
    ensures Split(CStr(x + [TAB] + f), TAB) == Split(x, TAB) + Split(CStr(f), TAB)
  {
    CStrAppend(x + [TAB], f);
    SplitAppend(x, CStr(f), TAB);
  }

  /** Piece lists whose last three pieces agree parse alike. */
  lemma FieldsLastThree(p1: seq<string>, p2: seq<string>)
    requires LastThreeAgree(p1, p2)
    ensures ParseFields(Prepended(p1)) == ParseFields(Prepended(p2))
  {
    FieldsWireOrder(p1);
    FieldsWireOrder(p2);
  }

  lemma LastThreeOfAppend(a: seq<string>, b: seq<string>)
    requires |b| >= 3
    ensures LastThreeAgree(a + b, b)
  {
  }

  lemma LeadingPiecesParse(x: string, f: string)
    requires NUL !in x
    requires |Split(CStr(f), TAB)| >= 3
    ensures Parse(x + [TAB] + f) == Parse(f)
  {
    LeadingPieces(x, f);
    LastThreeOfAppend(Split(x, TAB), Split(CStr(f), TAB));
    FieldsLastThree(Split(CStr(x + [TAB] + f), TAB), Split(CStr(f), TAB));
  }

  /** Only the last three tab pieces matter: anything before them, up to a
      tab, leaves the reply unchanged. */
  lemma LeadingPiecesIgnored(x: string, f: string)
    requires NUL !in x
    requires |Split(CStr(f), TAB)| >= 3
    ensures Reply(x + [TAB] + f) == Reply(f)
  {
    LeadingPiecesParse(x, f);
  }

  lemma ConsecutiveTabPieces(a: string, b: string)
    ensures Split(CStr(a + [TAB, TAB] + b), TAB) == Split(CStr(a + [TAB] + b), TAB)
  {
    var f2 := a + [TAB, TAB] + b;
    var f1 := a + [TAB] + b;
    assert f2 == a + ([TAB, TAB] + b) && f1 == a + ([TAB] + b);
    CStrAppend(a, [TAB, TAB] + b);
    CStrAppend(a, [TAB] + b);
    if NUL !in a {
      DoubledTabCStr(b);
      DoubledTabSplit(a, CStr(b));
    }
  }

  lemma DoubledTabCStr(b: string)
    ensures CStr([TAB, TAB] + b) == [TAB] + ([TAB] + CStr(b))
    ensures CStr([TAB] + b) == [TAB] + CStr(b)
  {
    CStrAppend([TAB], b);
    CStrAppend([TAB, TAB], b);
  }

  lemma DoubledTabSplit(a: string, c: string)
    ensures Split(a + ([TAB] + ([TAB] + c)), TAB) == Split(a + ([TAB] + c), TAB)
  {
    assert a + ([TAB] + ([TAB] + c)) == a + [TAB] + ([TAB] + c);
    assert a + ([TAB] + c) == a + [TAB] + c;
    SplitAppend(a, [TAB] + c, TAB);
    SplitAppend(a, c, TAB);
    assert ([TAB] + c)[1..] == c;
  }


  /** strtok skips runs of tabs: a doubled tab never creates an empty field. */
  lemma ConsecutiveTabs(a: string, b: string)
    ensures Reply(a + [TAB, TAB] + b) == Reply(a + [TAB] + b)
  {
    ConsecutiveTabPieces(a, b);
    SamePiecesSameReply(a + [TAB, TAB] + b, a + [TAB] + b);
  }

  /** A packet id without any digit converts to 0, so the frame draws no reply. */
  lemma NonNumericIdDiscarded(frame: string)
    requires var pieces := Split(CStr(frame), TAB);
             |pieces| >= 3 && NoDigits(pieces[|pieces| - 2])
    ensures Reply(frame) == None
  {
    var pieces := Split(CStr(frame), TAB);
    NoDigitsIdDiscarded(pieces);
    assert Parse(frame) == ParseFields(Prepended(pieces));
  }

  lemma NoDigitsIdDiscarded(pieces: seq<string>)
    requires |pieces| >= 3 && NoDigits(pieces[|pieces| - 2])
    ensures ParseFields(Prepended(pieces)) == None
  {
    StrtolNoDigits(pieces[|pieces| - 2]);
    FieldsWireOrder(pieces);
  }

  lemma FramedClause(frame: string)
    requires frame != [] && frame[|frame| - 1] == CR && NUL !in frame
    ensures CStr(frame) == frame
    ensures var pieces := Split(frame, TAB);
            pieces != [] && Split(pieces[|pieces| - 1], SPACE) != []
  {
    assert CStr(frame) == frame by {
      CStrAppend(frame, []);
      assert frame + [] == frame;
    }
    ClauseHasWord(frame);
  }

  lemma ClauseHasWord(frame: string)
    requires EndsIn(frame, CR)
    ensures var pieces := Split(frame, TAB);
            pieces != [] && Split(pieces[|pieces| - 1], SPACE) != []
  {
    SplitEndsIn(frame, CR, TAB);
    var pieces := Split(frame, TAB);
    var clause := pieces[|pieces| - 1];
    assert clause[|clause| - 1] == CR;
    SplitHasToken(clause, SPACE, |clause| - 1);
  }

  /** For a frame as the client thread delivers it (ending in its carriage
      return, no NUL byte) the command clause always holds that carriage
      return, so the empty-clause discard never applies: such a frame is
      discarded exactly when it has fewer than three tab pieces or its packet
      id converts to 0. */
  lemma FramedDiscardIff(frame: string)
    requires frame != [] && frame[|frame| - 1] == CR && NUL !in frame
    ensures var pieces := Split(frame, TAB);
            var n := |pieces|;
            Reply(frame).None? <==> n < 3 || U32(Strtol(pieces[n - 2])) == 0
  {
    FramedClause(frame);
    FieldsWireOrder(Split(CStr(frame), TAB));
  }

  lemma RequestPieces(packetType: string, packetId: nat, words: seq<string>)
    requires packetType != [] && TAB !in packetType && NUL !in packetType
    requires forall i :: 0 <= i < |words| ==> TAB !in words[i] && NUL !in words[i]
    ensures Split(CStr(Request(packetType, packetId, words)), TAB) ==
            [packetType, Decimal(packetId), Join(words, SPACE) + [CR]]
  {
    var id := Decimal(packetId);
    var clause := Join(words, SPACE) + [CR];
    var frame := Request(packetType, packetId, words);
    assert frame == packetType + [TAB] + (id + [TAB] + clause);
    JoinExcludes(words, SPACE, NUL);
    JoinExcludes(words, SPACE, TAB);
    assert NUL !in id && TAB !in id;
    assert NUL !in frame;
    CStrAppend(frame, []);
    assert frame + [] == frame;
    SplitSingle(packetType, TAB);
    SplitSingle(id, TAB);
    SplitSingle(clause, TAB);
    SplitAppend(id, clause, TAB);
    SplitAppend(packetType, id + [TAB] + clause, TAB);
  }

  /** The words with a carriage return stuck to the last one. */
  function WithCr(words: seq<string>): (r: seq<string>)
    requires words != []
    ensures |r| == |words|
  {
    words[..|words| - 1] + [words[|words| - 1] + [CR]]
  }

  lemma WithCrStripped(words: seq<string>)
    requires words != []
    requires forall i :: 0 <= i < |words| ==> words[i] != [] && SPACE !in words[i] && CR !in words[i]
    ensures forall i :: 0 <= i < |words| ==> WithCr(words)[i] != [] && SPACE !in WithCr(words)[i]
    ensures StripCrAll(WithCr(words)) == words
  {
    var n := |words|;
    var words' := WithCr(words);
    forall i | 0 <= i < n
      ensures words'[i] != [] && SPACE !in words'[i]
      ensures StripCr(words'[i]) == words[i]
    {
      if i < n - 1 {
        assert words'[i] == words[i];
      } else {
        assert words'[i] == words[i] + [CR];
        assert words'[i][..|words'[i]| - 1] == words[i];
      }
    }
  }

  /** The carriage return that closes a request sticks to its last word and
      is stripped again, so the clause yields exactly the words sent. */
  lemma ClauseWords(words: seq<string>)
    requires words != []
    requires forall i :: 0 <= i < |words| ==> words[i] != [] && SPACE !in words[i] && CR !in words[i]
    ensures StripCrAll(Split(Join(words, SPACE) + [CR], SPACE)) == words
  {
    var words' := WithCr(words);
    WithCrStripped(words);
    assert Join(words, SPACE) + [CR] == Join(words', SPACE) by {
      JoinAppendLast(words, SPACE, CR);
    }
    assert Split(Join(words', SPACE), SPACE) == words' by {
      SplitJoin(words', SPACE);
    }
  }

  /** The end-to-end meaning of a well-formed request: the reply is the
      dispatch-table entry for the first word with the second word as its
      argument, under the request's own packet id. */
  lemma RequestReply(packetType: string, packetId: nat, words: seq<string>)
    requires packetType != [] && TAB !in packetType && NUL !in packetType
    requires 0 < packetId < UINT32_MOD
    requires 0 < |words| < 0x1_0000
    requires forall i :: 0 <= i < |words| ==>
               words[i] != [] && SPACE !in words[i] && TAB !in words[i] &&
               CR !in words[i] && NUL !in words[i]
    ensures Reply(Request(packetType, packetId, words)) ==
            Some(Command(packetId, words[0], if |words| >= 2 then Some(words[1]) else None))
  {
    var pieces := Split(CStr(Request(packetType, packetId, words)), TAB);
    assert ParseFields(Prepended(pieces)) == Some(Packet(packetType, packetId, Prepended(words))) by {
      RequestPieces(packetType, packetId, words);
      assert U32(Strtol(Decimal(packetId))) == packetId by {
        StrtolDecimal(packetId, []);
        assert Decimal(packetId) + [] == Decimal(packetId);
      }
      ClauseWords(words);
      FieldsWireOrder(pieces);
    }
    RespondWireOrder(packetType, packetId, words);
  }

  /** A reply built by CreateResponse reads back as its three fields when kind
      and content are non-empty and free of tabs and carriage returns, and
      its packet id field reads back as the packet id. */
  lemma ResponseRoundTrip(kind: string, msgId: nat, content: string)
    requires kind != [] && TAB !in kind && CR !in kind
    requires content != [] && TAB !in content && CR !in content
    requires msgId < UINT32_MOD
    ensures var r := CreateResponse(kind, msgId, content);
            Split(r[..|r| - 1], TAB) == [kind, Decimal(msgId), content] &&
            U32(Strtol(Decimal(msgId))) == msgId
  {
    var r := CreateResponse(kind, msgId, content);
    var id := Decimal(msgId);
    assert r[..|r| - 1] == kind + [TAB] + (id + [TAB] + content);
    SplitThree(kind, id, content, TAB);
    assert U32(Strtol(id)) == msgId by {
      StrtolDecimal(msgId, []);
      assert id + [] == id;
    }
  }

  // ---------------------------------------------------------------------
  // The processor loop

  lemma PrependAllCons(acc: seq<string>, x: string, xs: seq<string>)
    ensures PrependAll(acc, [x] + xs) == PrependAll([x] + acc, xs)
  {
    assert ([x] + xs)[1..] == xs;
  }

  /** The strtok loop over a frame (lines 102-108): each tab piece strtok
      returns is prepended to the field list. */
  method CollectFields(cmd: string) returns (fields: seq<string>)
    ensures fields == Prepended(Split(cmd, TAB))
  {
    var pieces := Split(cmd, TAB);
    fields := [];
    var i := 0;
    while i < |pieces|
      invariant 0 <= i <= |pieces|
      invariant Prepended(pieces) == PrependAll(fields, pieces[i..])
    {
      assert pieces[i..] == [pieces[i]] + pieces[i + 1..];
      PrependAllCons(fields, pieces[i], pieces[i + 1..]);
      fields := [pieces[i]] + fields;
      i := i + 1;
    }
  }

  /** The strtok loop over the command clause (lines 153-169): each space
      token is prepended to the element list, without its last character
      when it holds a carriage return. */
  method CollectElements(clause: string) returns (elements: seq<string>)
    ensures elements == Prepended(StripCrAll(Split(clause, SPACE)))
  {
    var tokens := Split(clause, SPACE);
    elements := [];
    var i := 0;
    while i < |tokens|
      invariant 0 <= i <= |tokens|
      invariant Prepended(StripCrAll(tokens)) == PrependAll(elements, StripCrAll(tokens[i..]))
    {
      var token := tokens[i];
      assert tokens[i..] == [token] + tokens[i + 1..];
      assert StripCrAll(tokens[i..]) == [StripCr(token)] + StripCrAll(tokens[i + 1..]);
      PrependAllCons(elements, StripCr(token), StripCrAll(tokens[i + 1..]));
      if CR in token {
        elements := [token[..|token| - 1]] + elements;
      } else {
        elements := [token] + elements;
      }
      i := i + 1;
    }
  }

  /** What the socket receives for one frame: its reply, or nothing. */
  function Output(frame: string): string
  {
    match Reply(frame)
    case None => []
    case Some(r) => r
  }

  /** The strings f draws from each of xs, concatenated in order. */
  function ConcatMap(f: string -> string, xs: seq<string>): string
  {
    if xs == [] then []
    else ConcatMap(f, xs[..|xs| - 1]) + f(xs[|xs| - 1])
  }

  lemma {:induction false} ConcatMapAppend(f: string -> string, xs: seq<string>, ys: seq<string>)
    ensures ConcatMap(f, xs + ys) == ConcatMap(f, xs) + ConcatMap(f, ys)
    decreases |ys|
  {
    if ys == [] {
      assert xs + ys == xs;
    } else {
      var init := ys[..|ys| - 1];
      var y := ys[|ys| - 1];
      calc {
        ConcatMap(f, xs + ys);
        { assert (xs + ys)[..|xs + ys| - 1] == xs + init; }
        ConcatMap(f, xs + init) + f(y);
        { ConcatMapAppend(f, xs, init); }
        ConcatMap(f, xs) + ConcatMap(f, init) + f(y);
        { AppendAssoc(ConcatMap(f, xs), ConcatMap(f, init), f(y)); }
        ConcatMap(f, xs) + ConcatMap(f, ys);
      }
    }
  }

  lemma {:induction false} ConcatMapEmpty(f: string -> string, xs: seq<string>)
    requires forall i :: 0 <= i < |xs| ==> f(xs[i]) == []
    ensures ConcatMap(f, xs) == []
    decreases |xs|
  {
    if xs != [] {
      ConcatMapEmpty(f, xs[..|xs| - 1]);
    }
  }

  /** What the socket receives for a run of frames, in order. */
  function Replies(frames: seq<string>): string
  {
    ConcatMap(Output, frames)
  }

  /** Answering two runs of frames one after the other writes the two
      outputs one after the other. */
  lemma RepliesAppend(xs: seq<string>, ys: seq<string>)
    ensures Replies(xs + ys) == Replies(xs) + Replies(ys)
  {
    ConcatMapAppend(Output, xs, ys);
  }

  lemma ConcatMapSnoc(f: string -> string, xs: seq<string>, x: string)
    ensures ConcatMap(f, xs + [x]) == ConcatMap(f, xs) + f(x)
  {
    assert (xs + [x])[..|xs|] == xs;
  }

  /** Cutting a run of frames anywhere splits its output there. */
  lemma RepliesSplit(frames: seq<string>, k: nat)
    requires k <= |frames|
    ensures Replies(frames) == Replies(frames[..k]) + Replies(frames[k..])
  {
    assert frames[..k] + frames[k..] == frames;
    RepliesAppend(frames[..k], frames[k..]);
  }

  lemma ConcatMapPair(f: string -> string, x: string, y: string)
    ensures ConcatMap(f, [x, y]) == f(x) + f(y)
  {
    assert ConcatMap(f, [x]) == f(x) by {
      ConcatMapSnoc(f, [], x);
      assert [] + [x] == [x];
    }
    ConcatMapSnoc(f, [x], y);
    assert [x] + [y] == [x, y];
  }

  /** Answering one more frame appends its output. */
  lemma RepliesSnoc(frames: seq<string>, frame: string)
    ensures Replies(frames + [frame]) == Replies(frames) + Output(frame)
  {
    ConcatMapSnoc(Output, frames, frame);
  }

  lemma AppendAssoc(a: string, b: string, c: string)
    ensures (a + b) + c == a + (b + c)
  {
  }

  /** Frames whose tab pieces number fewer than three add nothing to the
      socket output. */
  lemma FewPiecesSilent(frames: seq<string>)
    requires forall i :: 0 <= i < |frames| ==> |Split(CStr(frames[i]), TAB)| < 3
    ensures Replies(frames) == []
  {
    forall i | 0 <= i < |frames|
      ensures Output(frames[i]) == []
    {
      FieldsWireOrder(Split(CStr(frames[i]), TAB));
    }
    ConcatMapEmpty(Output, frames);
  }

  /** The command processor thread of one connection: the frame queue it
      shares with the client thread, the alive flag the client thread clears,
      and everything written to the socket so far. */
  class Processor {
    var queue: seq<string>
    var alive: bool
    var sent: string

    constructor ()
      ensures queue == [] && alive && sent == []
    {
      queue := [];
      alive := true;
      sent := [];
    }

    /** One pass of the loop of CmdProcessor_run with a frame waiting: the
        frame is dequeued and its reply, if any, written to the socket. */
    method Step()
      requires queue != []
      modifies this`queue, this`sent
      ensures queue == old(queue)[1..]
      ensures sent == old(sent) + Output(old(queue)[0])
    {
      var cmd := queue[0];
      queue := queue[1..];
      var fields := CollectFields(CStr(cmd));
      assert Parse(cmd) == ParseFields(fields);
      if |fields| < 3 {
        return;
      }
      var packetId := U32(Strtol(fields[1]));
      if packetId == 0 {
        return;
      }
      var elements := CollectElements(fields[0]);
      if |elements| == 0 {
        return;
      }
      var packet := Packet(fields[2], packetId, elements);
      assert Parse(cmd) == Some(packet);
      sent := sent + Respond(packet);
    }

    /** The processor loop while the connection is alive and frames are
        waiting: every queued frame is answered, in queue order. */
    method Drain()
      requires alive
      modifies this`queue, this`sent
      ensures queue == []
      ensures sent == old(sent) + Replies(old(queue))
    {
      ghost var done := 0;
      while queue != []
        invariant 0 <= done <= |old(queue)|
        invariant queue == old(queue)[done..]
        invariant sent == old(sent) + Replies(old(queue)[..done])
        decreases |queue|
      {
        ghost var frame := queue[0];
        assert old(queue)[..done + 1] == old(queue)[..done] + [frame];
        RepliesSnoc(old(queue)[..done], frame);
        AppendAssoc(old(sent), Replies(old(queue)[..done]), Output(frame));
        Step();
        done := done + 1;
        assert queue == old(queue)[done..];
      }
      assert old(queue)[..done] == old(queue);
    }

    /** Once the client thread has cleared the alive flag the loop ends and
        the frames still queued are freed without a reply (lines 286-291). */
    method Shutdown()
      requires !alive
      modifies this`queue
      ensures queue == []
    {
      while queue != []
        decreases |queue|
      {
        queue := queue[1..];
      }
    }
  }
}
