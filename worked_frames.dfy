/** Single frames worked through the command processor, each with the
    exact reply line it draws. Every frame is built as a request first, so
    the general results about requests carry the proof; the small lemmas
    beside each one only evaluate the request and the dispatch on the
    literals involved. */
module WorkedFrames {
  import opened CString
  import opened CmdProcessor

  lemma VersionRequest()
    ensures Request("X", 1, ["version"]) == "X\t1\tversion\r"
  {
    assert Decimal(1) == "1";
  }

  lemma VersionCommand()
    ensures Command(1, "version", None) == "r\t1\t0.0.1\r"
  {
    assert Decimal(1) == "1";
  }

  /** The version command answers with the daemon version. */
  lemma VersionFrame()
    ensures Reply("X\t1\tversion\r") == Some("r\t1\t0.0.1\r")
  {
    VersionRequest();
    VersionCommand();
    RequestReply("X", 1, ["version"]);
  }

  lemma EchoRequest()
    ensures Request("X", 2, ["t_echo", "hello"]) == "X\t2\tt_echo hello\r"
  {
    assert Decimal(2) == "2";
    assert Join(["t_echo", "hello"], SPACE) == "t_echo hello";
  }

  lemma EchoCommand()
    ensures Command(2, "t_echo", Some("hello")) == "r\t2\thello\r"
  {
    assert Decimal(2) == "2";
  }

  /** t_echo answers with its argument: the SECOND word of the clause. */
  lemma EchoFrame()
    ensures Reply("X\t2\tt_echo hello\r") == Some("r\t2\thello\r")
  {
    EchoRequest();
    EchoCommand();
    RequestReply("X", 2, ["t_echo", "hello"]);
  }

  lemma TypeFirstRequest()
    ensures Request("version", 1, ["X"]) == "version\t1\tX\r"
  {
    assert Decimal(1) == "1";
  }

  lemma TypeFirstCommand()
    ensures Command(1, "X", None) == CreateResponse("e", 1, "Unknown command")
  {
  }

  /** A frame that puts the command name in the first tab field and the
      type tag last is read the other way round: its last piece "X" is taken
      as the command, which is unknown. */
  lemma TypeFirstFrame()
    ensures Reply("version\t1\tX\r") == Some(CreateResponse("e", 1, "Unknown command"))
  {
    TypeFirstRequest();
    TypeFirstCommand();
    RequestReply("version", 1, ["X"]);
  }

  lemma MissingArgRequest()
    ensures Request("X", 3, ["t_echo"]) == "X\t3\tt_echo\r"
  {
    assert Decimal(3) == "3";
  }

  lemma MissingArgCommand()
    ensures Command(3, "t_echo", None) == CreateResponse("e", 3, "Not enough arguments")
  {
  }

  /** t_echo without an argument is refused. */
  lemma MissingArgFrame()
    ensures Reply("X\t3\tt_echo\r") == Some(CreateResponse("e", 3, "Not enough arguments"))
  {
    MissingArgRequest();
    MissingArgCommand();
    RequestReply("X", 3, ["t_echo"]);
  }

  lemma DelayRequest()
    ensures Request("X", 4, ["t_tmt", "abc"]) == "X\t4\tt_tmt abc\r"
  {
    assert Decimal(4) == "4";
    assert Join(["t_tmt", "abc"], SPACE) == "t_tmt abc";
  }

  lemma AbcNotNumber()
    ensures Strtol("abc") == 0
  {
    assert NoDigits("abc");
    StrtolNoDigits("abc");
  }

  lemma DelayCommand()
    ensures Command(4, "t_tmt", Some("abc")) == CreateResponse("e", 4, "First arg must be a number")
  {
    AbcNotNumber();
  }

  /** t_tmt refuses a delay that strtol reads as 0. */
  lemma NonNumericDelayFrame()
    ensures Reply("X\t4\tt_tmt abc\r") == Some(CreateResponse("e", 4, "First arg must be a number"))
  {
    DelayRequest();
    DelayCommand();
    RequestReply("X", 4, ["t_tmt", "abc"]);
  }

  lemma BrokenReplyRequest()
    ensures Request("X", 5, ["t_re", "0"]) == "X\t5\tt_re 0\r"
  {
    assert Decimal(5) == "5";
    assert Join(["t_re", "0"], SPACE) == "t_re 0";
  }

  /** t_re 0 writes its fixed line whatever the packet id. */
  lemma BrokenReplyFrame()
    ensures Reply("X\t5\tt_re 0\r") == Some("_\t1\terror\r")
  {
    BrokenReplyRequest();
    RequestReply("X", 5, ["t_re", "0"]);
  }

  lemma BareCrRequest()
    ensures Request("X", 1, ["t_echo", ""]) == "X\t1\tt_echo \r"
    ensures Decimal(1) == "1"
    ensures Join(["t_echo", ""], SPACE) + [CR] == "t_echo \r"
  {
    assert Decimal(1) == "1";
    assert Join(["t_echo", ""], SPACE) == "t_echo ";
  }

  lemma BareCrPieces()
    ensures Split(CStr("X\t1\tt_echo \r"), TAB) == ["X", "1", "t_echo \r"]
  {
    BareCrRequest();
    RequestPieces("X", 1, ["t_echo", ""]);
  }

  lemma BareCrWords()
    ensures Split("t_echo \r", SPACE) == ["t_echo", "\r"]
  {
    assert "t_echo \r" == "t_echo" + [SPACE] + "\r";
    SplitPair("t_echo", "\r", SPACE);
  }

  lemma BareCrId()
    ensures U32(Strtol("1")) == 1
  {
    assert Decimal(1) + [] == "1";
    StrtolDecimal(1, []);
  }

  lemma BareCrCommand()
    ensures Command(1, StripCr("t_echo"), Some(StripCr("\r"))) == "r\t1\t\r"
  {
    assert StripCr("\r") == [];
    assert Decimal(1) == "1";
  }

  /** A clause ending in a space leaves a bare carriage return as its last
      token; it is kept, as the empty string, and echoed as such. */
  lemma BareCrFrame()
    ensures Reply("X\t1\tt_echo \r") == Some("r\t1\t\r")
  {
    BareCrPieces();
    BareCrWords();
    BareCrId();
    BareCrCommand();
    ReplyWireOrder("X\t1\tt_echo \r");
  }

  /** strtol reads "-1" as -1, which the cast to uint32_t turns into
      4294967295. */
  lemma MinusOneId()
    ensures U32(Strtol("-1")) == 0xFFFF_FFFF
  {
    assert ['-'] + (Decimal(1) + []) == "-1";
    StrtolNegative(1, []);
  }

  /** Three NUL- and tab-free pieces joined by tabs are the frame's tab
      pieces. */
  lemma TabPieces(a: string, b: string, c: string)
    requires a != [] && b != [] && c != []
    requires TAB !in a && TAB !in b && TAB !in c
    requires NUL !in a && NUL !in b && NUL !in c
    ensures Split(CStr(a + [TAB] + (b + [TAB] + c)), TAB) == [a, b, c]
  {
    var f := a + [TAB] + (b + [TAB] + c);
    assert NUL !in f;
    CStrAppend(f, []);
    assert f + [] == f;
    SplitThree(a, b, c, TAB);
  }

  lemma MinusOnePieces()
    ensures Split(CStr("X\t-1\tversion\r"), TAB) == ["X", "-1", "version\r"]
  {
    var c := "version\r";
    assert TAB !in c && NUL !in c;
    assert "X\t-1\tversion\r" == "X" + [TAB] + ("-1" + [TAB] + c);
    TabPieces("X", "-1", c);
  }

  lemma MinusOneWords()
    ensures Split("version\r", SPACE) == ["version\r"]
  {
    assert SPACE !in "version\r";
    SplitSingle("version\r", SPACE);
  }

  lemma MinusOneCommand()
    ensures Command(0xFFFF_FFFF, StripCr("version\r"), None) == CmdVersion(0xFFFF_FFFF)
  {
    assert StripCr("version\r") == "version";
  }

  /** A negative packet id is not discarded: "-1" wraps to 4294967295, and
      the reply goes out under that id. */
  lemma NegativeIdFrame()
    ensures Reply("X\t-1\tversion\r") == Some(CmdVersion(0xFFFF_FFFF))
  {
    MinusOnePieces();
    MinusOneId();
    MinusOneWords();
    MinusOneCommand();
    ReplyWireOrder("X\t-1\tversion\r");
  }
}
