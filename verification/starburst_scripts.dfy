/** The two SMTP-mimicry scripts of the Starburst tone burst and `perform`,
    which picks one by mode. The client waits for the banner, says EHLO,
    waits for the STARTTLS offer, says STARTTLS and waits for the go-ahead;
    the server says the other half. Only listens run inside the ten-second
    timer; no speak does. */
module StarburstScripts {
  import opened Wrappers
  import opened Utf8
  import opened Ghostwriter
  import opened Starburst

  /** Seconds of the timer around each listen. */
  const ListenTimeout: nat := 10

  /** The byte budget the server gives its listens. */
  const ServerMaxSize: int := 253

  /** One line of text followed by CRLF. */
  function Line(t: string): seq<TypedText> {
    [Text(t), NewlineText(Crlf)]
  }

  // The client's half.
  const ClientBanner := StructuredText([Text("220 "), Regexp("^([a-zA-Z0-9.-]+)"), Text(" SMTP service ready"), NewlineText(Crlf)])
  const ClientEhlo: LiteralText := StructuredText(Line("EHLO mail.imc.org"))
  /** The last line of the EHLO reply; as in the welcome below, the reply
      code is written as a piece of its own. */
  const ClientStartTlsOffer := StructuredText(Line("250 " + "STARTTLS"))
  const ClientStartTls: LiteralText := StructuredText(Line("STARTTLS"))
  const ClientGoAhead := StructuredText([Regexp("^(.+)$"), NewlineText(Crlf)])

  // The server's half.
  const ServerBanner: LiteralText := StructuredText(Line("220 mail.imc.org SMTP service ready"))
  const ServerEhlo := StructuredText([Text("EHLO "), Regexp("^([a-zA-Z0-9.-]+)$"), NewlineText(Crlf)])
  /** The multi-line EHLO reply. The first line's reply code is written as a
      piece of its own so that it can be read off without the rest. */
  const ServerWelcome: LiteralText :=
    StructuredText(Line("250-" + "mail.imc.org offers a warm hug of welcome") + Line("250-8BITMIME") + Line("250-DSN") + Line("250 STARTTLS"))
  const ServerStartTls := StructuredText(Line("STARTTLS"))
  const ServerGoAhead: LiteralText := StructuredText(Line("220 Go ahead"))

  /** `handleSMTPClient`; its listens use the default budget. */
  const ClientScript: seq<Step> := [
    ListenStep(ClientBanner, DefaultMaxSize, Some(ListenTimeout)),
    SpeakStep(ClientEhlo, None),
    ListenStep(ClientStartTlsOffer, DefaultMaxSize, Some(ListenTimeout)),
    SpeakStep(ClientStartTls, None),
    ListenStep(ClientGoAhead, DefaultMaxSize, Some(ListenTimeout))
  ]

  /** `handleSMTPServer`. */
  const ServerScript: seq<Step> := [
    SpeakStep(ServerBanner, None),
    ListenStep(ServerEhlo, ServerMaxSize, Some(ListenTimeout)),
    SpeakStep(ServerWelcome, None),
    ListenStep(ServerStartTls, ServerMaxSize, Some(ListenTimeout)),
    SpeakStep(ServerGoAhead, None)
  ]

  /** The script `perform` runs for each mode. */
  function ScriptFor(mode: StarburstMode): (script: seq<Step>)
    ensures |script| == 5
    ensures mode == SMTPClient ==> script[0].ListenStep?
    ensures mode == SMTPServer ==> script[0].SpeakStep?
  {
    match mode
    case SMTPClient => ClientScript
    case SMTPServer => ServerScript
  }

  lemma RenderLine(t: string)
    ensures RenderParts(Line(t)) == t + "\r\n"
  {
    var p := Line(t);
    assert p[1..] == [NewlineText(Crlf)] && p[1..][1..] == [];
    assert RenderParts(p[1..]) == "\r\n" + "";
    assert "\r\n" + "" == "\r\n";
  }

  /** The text of each single-line speak step. */
  lemma SpokenLines()
    ensures Render(ClientEhlo) == "EHLO mail.imc.org\r\n"
    ensures Render(ClientStartTls) == "STARTTLS\r\n"
    ensures Render(ServerBanner) == "220 mail.imc.org SMTP service ready\r\n"
    ensures Render(ServerGoAhead) == "220 Go ahead\r\n"
  {
    RenderLine("EHLO mail.imc.org");
    RenderLine("STARTTLS");
    RenderLine("220 mail.imc.org SMTP service ready");
    RenderLine("220 Go ahead");
  }

  /** The server's welcome begins with the reply code of a continued line. */
  lemma WelcomeStartsContinued()
    ensures |Render(ServerWelcome)| >= 4 && Render(ServerWelcome)[..4] == "250-"
  {
    var first := "250-" + "mail.imc.org offers a warm hug of welcome";
    var l1, rest := Line(first), Line("250-8BITMIME") + Line("250-DSN") + Line("250 STARTTLS");
    assert ServerWelcome.parts == l1 + rest;
    RenderPartsAppend(l1, rest);
    RenderLine(first);
    var w := Render(ServerWelcome);
    assert w == "250-" + ("mail.imc.org offers a warm hug of welcome" + "\r\n" + RenderParts(rest));
  }

  /** The two scripts interlock: at every position one side listens while the
      other speaks. The client's listens take up to 255 bytes, the server's
      up to 253, and exactly the listens are timed. */
  lemma ScriptsInterlock()
    ensures |ClientScript| == |ServerScript| == 5
    ensures forall i | 0 <= i < 5 :: ClientScript[i].ListenStep? <==> ServerScript[i].SpeakStep?
    ensures forall i | 0 <= i < 5 && ClientScript[i].ListenStep? :: ClientScript[i].maxSize == 255
    ensures forall i | 0 <= i < 5 && ServerScript[i].ListenStep? :: ServerScript[i].maxSize == 253
    ensures forall i | 0 <= i < 5 :: ClientScript[i].timeout.Some? <==> ClientScript[i].ListenStep?
    ensures forall i | 0 <= i < 5 :: ServerScript[i].timeout.Some? <==> ServerScript[i].ListenStep?
    ensures ListensTimed(ClientScript) && ListensTimed(ServerScript)
  {
  }

  /** What a five-step script says, how many listens it holds and how many
      bytes they may take, step by step. */
  lemma Summary(s: seq<Step>)
    requires |s| == 5
    ensures SpokenText(s) == StepText(s[0]) + (StepText(s[1]) + (StepText(s[2]) + (StepText(s[3]) + StepText(s[4]))))
    ensures ListenCount(s) == StepListens(s[0]) + StepListens(s[1]) + StepListens(s[2]) + StepListens(s[3]) + StepListens(s[4])
    ensures ListenBudget(s) == StepBudget(s[0]) + StepBudget(s[1]) + StepBudget(s[2]) + StepBudget(s[3]) + StepBudget(s[4])
  {
    var t4 := [s[4]];
    var t3 := [s[3]] + t4;
    var t2 := [s[2]] + t3;
    var t1 := [s[1]] + t2;
    assert s == [s[0]] + t1;
    assert t4 == [s[4]] + [];
    ScriptCons(s[4], []);
    ScriptCons(s[3], t4);
    ScriptCons(s[2], t3);
    ScriptCons(s[1], t2);
    ScriptCons(s[0], t1);
    assert StepText(s[4]) + "" == StepText(s[4]);
  }

  /** What each script says, how many listens it holds and how many bytes
      they may take at most. */
  lemma ScriptTexts()
    ensures SpokenText(ClientScript) == Render(ClientEhlo) + Render(ClientStartTls)
    ensures SpokenText(ServerScript) == Render(ServerBanner) + (Render(ServerWelcome) + Render(ServerGoAhead))
    ensures ListenCount(ClientScript) == 3 && ListenCount(ServerScript) == 2
    ensures ListenBudget(ClientScript) == 765 && ListenBudget(ServerScript) == 506
  {
    hide Render, RenderParts;
    var c, v := ClientScript, ServerScript;
    Summary(c);
    Summary(v);
    assert StepText(c[0]) == StepText(c[2]) == StepText(c[4]) == "";
    assert StepText(c[1]) == Render(ClientEhlo) && StepText(c[3]) == Render(ClientStartTls);
    assert StepText(v[1]) == StepText(v[3]) == "";
    assert StepText(v[0]) == Render(ServerBanner) && StepText(v[2]) == Render(ServerWelcome) && StepText(v[4]) == Render(ServerGoAhead);
    assert Render(ClientStartTls) + "" == Render(ClientStartTls);
    assert Render(ServerWelcome) + ("" + Render(ServerGoAhead)) == Render(ServerWelcome) + Render(ServerGoAhead);
  }

  /** `perform`: the mode's script, awaited step by step. A completed run wrote
      exactly that side's half of the conversation; no run reads more than
      its listens' budgets or waits forever; the only faults are a failed
      write, a full buffer, a closed peer and a timeout. */
  method Perform(mode: StarburstMode, m: Matcher, conn: Connection) returns (r: Result<(), Fault>, conn': Connection)
    ensures r == Run(ScriptFor(mode), m, conn).result && conn' == Run(ScriptFor(mode), m, conn).conn
    ensures r.Ok? && mode == SMTPClient ==> conn'.output == conn.output + Render(ClientEhlo) + Render(ClientStartTls)
    ensures r.Ok? && mode == SMTPServer ==> conn'.output == conn.output + Render(ServerBanner) + Render(ServerWelcome) + Render(ServerGoAhead)
    ensures IsSuffixOf(conn'.input, conn.input)
    ensures |conn.input| - |conn'.input| <= (if mode == SMTPClient then 765 else 506)
    ensures r.Err? ==> r.error in {Thrown(WriteFailed), Thrown(MaxSizeReached), ReadError, TimedOut}
  {
    hide Run, Listening, Decode, DecodeFirst, EncodeChar, Encode, RenderParts, SpokenText, ListenBudget, ListenCount;
    var script := ScriptFor(mode);
    r, conn' := Execute(script, m, conn);
    ScriptTexts();
    RunWritesSpokenText(script, m, conn);
    RunConsumption(script, m, conn);
    RunFaults(script, m, conn);
    ScriptsInterlock();
    TimedRunsNeverStall(script, m, conn);
  }

  // ---------------------------------------------------------------------------
  // The two halves against each other, with a literal matcher
  // ---------------------------------------------------------------------------

  /** The server's STARTTLS listen hears the client's STARTTLS line: it
      succeeds after exactly its ten bytes, whatever follows. */
  lemma ServerHearsStartTls(m: Matcher, more: seq<byte>, closed: bool)
    requires AgreesWithLiteral(m, ServerStartTls)
    ensures ListenOn(m, ServerStartTls, ServerMaxSize, Encode(Render(ClientStartTls)) + more, closed)
         == Heard(Ok(Success([])), 10)
  {
    assert Render(ServerStartTls) == Render(ClientStartTls) == "STARTTLS\r\n";
    AsciiEncoding("STARTTLS\r\n");
    ListenHearsLiteral(m, ServerStartTls, ServerMaxSize, more, closed);
  }

  /** The literal matcher's verdicts on the first four characters of the
      welcome, against the offer the client waits for. */
  lemma OfferVerdicts()
    ensures var lit := Render(ClientStartTlsOffer);
      && LiteralMatch(lit, "2") == Short && LiteralMatch(lit, "25") == Short
      && LiteralMatch(lit, "250") == Short && LiteralMatch(lit, "250-") == Failure
  {
    RenderLine("250 " + "STARTTLS");
    var lit := Render(ClientStartTlsOffer);
    assert lit == "250 " + ("STARTTLS" + "\r\n");
    assert lit[..1] == "2" && lit[..2] == "25" && lit[..3] == "250";
    assert lit[3] != "250-"[3];
  }

  /** The client's listen for `250 STARTTLS` is shown the server's
      multi-line welcome, which starts `250-`: after four bytes the matcher
      says `Failure`, and the listen returns that verdict. */
  lemma ClientMisreadsWelcome(m: Matcher, more: seq<byte>, closed: bool)
    requires AgreesWithLiteral(m, ClientStartTlsOffer)
    ensures ListenOn(m, ClientStartTlsOffer, DefaultMaxSize, Encode(Render(ServerWelcome)) + more, closed)
         == Heard(Ok(Failure), 4)
  {
    hide Listening, Decode, DecodeFirst, EncodeChar, Encode, RenderParts;
    var head := "250-";
    var w := Render(ServerWelcome);
    WelcomeStartsContinued();
    var tail := w[4..];
    assert w == head + tail;
    var input := Encode(head + tail) + more;
    OfferVerdicts();
    assert IsAscii(head);
    VerdictOnAsciiPrefix(m, ClientStartTlsOffer, head, tail, more, 1);
    VerdictOnAsciiPrefix(m, ClientStartTlsOffer, head, tail, more, 2);
    VerdictOnAsciiPrefix(m, ClientStartTlsOffer, head, tail, more, 3);
    VerdictOnAsciiPrefix(m, ClientStartTlsOffer, head, tail, more, 4);
    assert head[..1] == "2" && head[..2] == "25" && head[..3] == "250" && head[..4] == head;
    ListenStopsAt(m, ClientStartTlsOffer, DefaultMaxSize, input, closed, 4);
  }

  /** That `Failure` is dropped: the client goes on to say STARTTLS with the
      rest of the welcome still unread. */
  lemma ClientCarriesOnAfterMisreading(m: Matcher, conn: Connection, more: seq<byte>)
    requires AgreesWithLiteral(m, ClientStartTlsOffer)
    requires conn.input == Encode(Render(ServerWelcome)) + more
    ensures var o := Run(ClientScript[3..], m, conn.(input := conn.input[4..]));
      Run(ClientScript[2..], m, conn) == o.(verdicts := [Failure] + o.verdicts)
  {
    ClientMisreadsWelcome(m, more, conn.closed);
    assert ClientScript[2..][1..] == ClientScript[3..];
    FailureVerdictContinues(ClientScript[2..], m, conn);
  }
}
