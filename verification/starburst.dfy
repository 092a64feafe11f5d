/** The Starburst tone-burst engine: the speak and listen primitives and the
    interpreter that runs a script of such steps over one connection.

    A connection is its remaining input bytes, whether the peer has closed its
    side, the text written so far, and whether writing still works. A read of
    one byte either takes the next input byte, throws (peer closed, no input
    left), or waits for bytes that never come (input used up, peer still
    open). */
module Starburst {
  import opened Wrappers
  import opened Utf8
  import opened Ghostwriter

  /** The two roles of the SMTP mimicry, and the raw values they are stored under. */
  datatype StarburstMode = SMTPClient | SMTPServer

  function ModeRawValue(mode: StarburstMode): string {
    match mode
    case SMTPClient => "SMTPClient"
    case SMTPServer => "SMTPServer"
  }

  /** Decoding a stored mode: only the two raw values are accepted. */
  function ModeFromRawValue(raw: string): (r: Option<StarburstMode>)
    ensures r.Some? ==> ModeRawValue(r.value) == raw
  {
    if raw == "SMTPClient" then Some(SMTPClient)
    else if raw == "SMTPServer" then Some(SMTPServer)
    else None
  }

  lemma ModeRawValueRoundTrip(mode: StarburstMode)
    ensures ModeFromRawValue(ModeRawValue(mode)) == Some(mode)
  {
  }

  datatype StarburstError =
    | Timeout
    | ConnectionClosed
    | WriteFailed
    | ReadFailed
    | ListenFailed
    | SpeakFailed
    | MaxSizeReached
    | Unimplemented

  /** What stops a step: an error thrown by the engine itself, the error the
      connection throws when a read finds the peer gone, a read that waits
      forever, or the step's timer firing. */
  datatype Fault =
    | Thrown(error: StarburstError)
    | ReadError
    | Stalled
    | TimedOut

  /** The bytes on the wire for the output are `Encode(output)`: the log keeps
      the text that `writeString` was given. `writes` is how many more writes
      will succeed; the write after those fails, so a script can fail at any
      of its speaks. */
  datatype Connection = Connection(input: seq<byte>, closed: bool, output: string, writes: nat)

  /** The connection after one successful write of `t`. */
  function Written(conn: Connection, t: string): Connection
    requires conn.writes > 0
  {
    conn.(output := conn.output + t, writes := conn.writes - 1)
  }

  // ---------------------------------------------------------------------------
  // listen
  // ---------------------------------------------------------------------------

  /** Default byte budget of `listen`. */
  const DefaultMaxSize: int := 255

  /** What `listen` ends with, and how many input bytes it took. */
  datatype Heard = Heard(result: Result<MatchResult, Fault>, consumed: nat)

  /** The `listen` loop from a given state: `buffer` holds the bytes read so
      far, `rest` the bytes still to come. One byte is read per round; an
      invalid-UTF-8 buffer is never shown to the matcher; `Short` keeps
      reading; `Failure` and `Success` end the loop; a full buffer throws. */
  function Listening(m: Matcher, text: StructuredText, maxSize: int,
                     buffer: seq<byte>, rest: seq<byte>, closed: bool): (h: Heard)
    ensures h.consumed <= |rest|
    ensures |buffer| >= maxSize ==> h.consumed == 0
    ensures |buffer| < maxSize ==> |buffer| + h.consumed <= maxSize
    decreases |rest|
  {
    if |buffer| >= maxSize then
      Heard(Err(Thrown(MaxSizeReached)), 0)
    else if rest == [] then
      Heard(Err(if closed then ReadError else Stalled), 0)
    else
      var buffer' := buffer + [rest[0]];
      var decoded := Decode(buffer');
      if decoded.Some? && !m(text, decoded.value).Short? then
        Heard(Ok(m(text, decoded.value)), 1)
      else
        // not yet valid text (in the middle of a character), or Short
        var h := Listening(m, text, maxSize, buffer', rest[1..], closed);
        Heard(h.result, h.consumed + 1)
  }

  /** `listen(structuredText:maxSize:)` run on the connection's input. */
  function ListenOn(m: Matcher, text: StructuredText, maxSize: int, input: seq<byte>, closed: bool): (h: Heard)
    ensures h.consumed <= |input| && h.consumed <= Max0(maxSize)
  {
    Listening(m, text, maxSize, [], input, closed)
  }

  /** The matcher's verdict on the first `k` input bytes, if they are valid text. */
  function VerdictAt(m: Matcher, text: StructuredText, input: seq<byte>, k: nat): Option<MatchResult>
    requires k <= |input|
  {
    match Decode(input[..k])
    case None => None
    case Some(s) => Some(m(text, s))
  }

  /** After `k` bytes the matcher, shown all of them, gives a final verdict. */
  predicate Decisive(m: Matcher, text: StructuredText, input: seq<byte>, k: nat) {
    1 <= k <= |input| && VerdictAt(m, text, input, k).Some? && !VerdictAt(m, text, input, k).value.Short?
  }

  /** The loop from any intermediate state, related to prefixes of the whole input. */
  lemma {:induction false} ListeningFacts(m: Matcher, text: StructuredText, maxSize: int,
                                          buffer: seq<byte>, rest: seq<byte>, closed: bool)
    requires |buffer| < maxSize
    ensures var h := Listening(m, text, maxSize, buffer, rest, closed);
      var input := buffer + rest;
      var k := |buffer| + h.consumed;
      && (forall j | |buffer| < j < k :: !Decisive(m, text, input, j))
      && (h.result.Ok? ==> h.consumed >= 1 && Decisive(m, text, input, k) && h.result.value == VerdictAt(m, text, input, k).value)
      && (h.result.Err? ==> !Decisive(m, text, input, k) || k == |buffer|)
      && (h.result == Err(Thrown(MaxSizeReached)) <==> (h.result.Err? && k == maxSize))
      && (h.result == Err(ReadError) <==> (h.result.Err? && closed && k < maxSize))
      && (h.result == Err(Stalled) <==> (h.result.Err? && !closed && k < maxSize))
      && (h.result.Err? && k < maxSize ==> k == |input|)
      && (h.result.Ok? || h.result == Err(Thrown(MaxSizeReached)) || h.result == Err(ReadError) || h.result == Err(Stalled))
    decreases |rest|
  {
    hide Decode, DecodeFirst, EncodeChar;
    var h := Listening(m, text, maxSize, buffer, rest, closed);
    var input := buffer + rest;
    if rest != [] {
      var buffer' := buffer + [rest[0]];
      assert buffer' + rest[1..] == input;
      assert input[..|buffer'|] == buffer';
      if |buffer'| < maxSize {
        ListeningFacts(m, text, maxSize, buffer', rest[1..], closed);
      }
    }
  }

  function Max0(n: int): nat {
    if n < 0 then 0 else n
  }

  /** Everything `listen` promises, in terms of the prefixes of its input:
      it reads at most `maxSize` bytes and never past the input; each
      verdict it sees is on the whole buffer from the first byte; it stops
      at the first `Failure` or `Success`; it throws `maxSizeReached` exactly
      when `maxSize` bytes gave no final verdict; otherwise it ran out of
      input first. */
  lemma ListenOutcome(m: Matcher, text: StructuredText, maxSize: int, input: seq<byte>, closed: bool)
    ensures var h := ListenOn(m, text, maxSize, input, closed);
      var k := h.consumed;
      && k <= |input| && k <= Max0(maxSize)
      && (forall j | 1 <= j < k :: !Decisive(m, text, input, j))
      && (h.result.Ok? <==> Decisive(m, text, input, k))
      && (h.result.Ok? ==> h.result.value == VerdictAt(m, text, input, k).value)
      && (h.result == Err(Thrown(MaxSizeReached)) <==> (!Decisive(m, text, input, k) && k == Max0(maxSize)))
      && (h.result == Err(ReadError) <==> (closed && !Decisive(m, text, input, k) && k == |input| < maxSize))
      && (h.result == Err(Stalled) <==> (!closed && !Decisive(m, text, input, k) && k == |input| < maxSize))
      && (h.result.Ok? || h.result == Err(Thrown(MaxSizeReached)) || h.result == Err(ReadError) || h.result == Err(Stalled))
  {
    hide Decode, DecodeFirst, EncodeChar;
    if 0 < maxSize {
      assert [] + input == input;
      ListeningFacts(m, text, maxSize, [], input, closed);
    }
  }

  /** One round of the listen loop, and its two ways out. */
  lemma ListeningRound(m: Matcher, text: StructuredText, maxSize: int,
                       buffer: seq<byte>, rest: seq<byte>, closed: bool)
    ensures var h := Listening(m, text, maxSize, buffer, rest, closed);
      && (|buffer| >= maxSize ==> h == Heard(Err(Thrown(MaxSizeReached)), 0))
      && (|buffer| < maxSize && rest == [] ==> h == Heard(Err(if closed then ReadError else Stalled), 0))
      && (|buffer| < maxSize && rest != [] ==>
            var buffer' := buffer + [rest[0]];
            var h' := Listening(m, text, maxSize, buffer', rest[1..], closed);
            h == if Decode(buffer').Some? && !m(text, Decode(buffer').value).Short?
                 then Heard(Ok(m(text, Decode(buffer').value)), 1)
                 else Heard(h'.result, h'.consumed + 1))
  {
  }

  /** `listen`, as the loop it is in the source. */
  method Listen(m: Matcher, text: StructuredText, maxSize: int, conn: Connection)
    returns (r: Result<MatchResult, Fault>, conn': Connection)
    ensures var h := ListenOn(m, text, maxSize, conn.input, conn.closed);
      r == h.result && conn' == conn.(input := conn.input[h.consumed..])
  {
    hide Listening, Decode, DecodeFirst, EncodeChar;
    var buffer: seq<byte> := [];
    var rest := conn.input;
    while |buffer| < maxSize
      invariant |buffer| <= |conn.input|
      invariant buffer == conn.input[..|buffer|] && rest == conn.input[|buffer|..]
      invariant var h := ListenOn(m, text, maxSize, conn.input, conn.closed);
        var h' := Listening(m, text, maxSize, buffer, rest, conn.closed);
        h.result == h'.result && h.consumed == |buffer| + h'.consumed
      decreases |rest|
    {
      ListeningRound(m, text, maxSize, buffer, rest, conn.closed);
      if rest == [] {
        r := Err(if conn.closed then ReadError else Stalled);
        conn' := conn.(input := rest);
        return;
      }
      assert conn.input[..|buffer| + 1] == buffer + [rest[0]];
      buffer := buffer + [rest[0]];
      rest := rest[1..];
      var decoded := Decode(buffer);
      if decoded.None? {
        // in the middle of a multi-byte character
        continue;
      }
      var verdict := m(text, decoded.value);
      if !verdict.Short? {
        r := Ok(verdict);
        conn' := conn.(input := rest);
        return;
      }
    }
    ListeningRound(m, text, maxSize, buffer, rest, conn.closed);
    r := Err(Thrown(MaxSizeReached));
    conn' := conn.(input := rest);
  }

  /** A listen ends at the first prefix that gets a final verdict, if that
      prefix fits in the budget: it returns that verdict having read exactly
      that many bytes. */
  lemma ListenStopsAt(m: Matcher, text: StructuredText, maxSize: int, input: seq<byte>, closed: bool, k: nat)
    requires k <= maxSize && Decisive(m, text, input, k)
    requires forall j | 1 <= j < k :: !Decisive(m, text, input, j)
    ensures ListenOn(m, text, maxSize, input, closed) == Heard(Ok(VerdictAt(m, text, input, k).value), k)
  {
    hide Listening, Decode, DecodeFirst, EncodeChar;
    var h := ListenOn(m, text, maxSize, input, closed);
    ListenOutcome(m, text, maxSize, input, closed);
  }

  // ---------------------------------------------------------------------------
  // speak
  // ---------------------------------------------------------------------------

  /** `speak`: writes the rendered text; any write error becomes `writeFailed`. */
  function Speak(text: LiteralText, conn: Connection): (r: Result<Connection, Fault>)
    ensures r.Ok? <==> conn.writes > 0
    ensures r.Err? ==> r.error == Thrown(WriteFailed)
    ensures r.Ok? ==> r.value.input == conn.input && r.value.closed == conn.closed && r.value.writes == conn.writes - 1
    ensures r.Ok? ==> r.value.output == conn.output + Render(text)
  {
    if conn.writes > 0 then Ok(Written(conn, Render(text))) else Err(Thrown(WriteFailed))
  }

  /** On the wire, a successful speak appends exactly the UTF-8 bytes of the
      rendered text, and those bytes read back as that text. */
  lemma SpeakPutsTextOnWire(text: LiteralText, conn: Connection)
    requires conn.writes > 0
    ensures var out := Speak(text, conn).value.output;
      && Encode(out) == Encode(conn.output) + Encode(Render(text))
      && Decode(Encode(out)[|Encode(conn.output)|..]) == Some(Render(text))
  {
    EncodeAppend(conn.output, Render(text));
    DecodeEncode(Render(text));
    var out := Speak(text, conn).value.output;
    assert Encode(out)[|Encode(conn.output)|..] == Encode(Render(text));
  }

  // ---------------------------------------------------------------------------
  // Scripts
  // ---------------------------------------------------------------------------

  /** One step of a tone burst. `timeout` is the number of seconds of the
      `Timeout` the step runs inside, if it runs inside one. */
  datatype Step =
    | SpeakStep(text: LiteralText, timeout: Option<nat>)
    | ListenStep(pattern: StructuredText, maxSize: int, timeout: Option<nat>)

  /** Inside a `Timeout`, a read that would wait forever is cut off by the timer. */
  function WithTimeout<T>(timeout: Option<nat>, r: Result<T, Fault>): (r': Result<T, Fault>)
    ensures r'.Ok? <==> r.Ok?
    ensures r' != Err(Stalled) || timeout.None?
    ensures timeout.None? || r != Err(Stalled) ==> r' == r
    ensures timeout.Some? && r == Err(Stalled) ==> r' == Err(TimedOut)
  {
    if timeout.Some? && r == Err(Stalled) then Err(TimedOut) else r
  }

  /** The end of a run: its result, the connection afterwards, and the verdicts
      of the listens that completed (which the source discards). */
  datatype Outcome = Outcome(result: Result<(), Fault>, conn: Connection, verdicts: seq<MatchResult>)

  /** The listen of a listen step, on the connection, inside the step's timer. */
  function ListenStepOn(step: Step, m: Matcher, conn: Connection): (Result<MatchResult, Fault>, Connection)
    requires step.ListenStep?
  {
    var h := ListenOn(m, step.pattern, step.maxSize, conn.input, conn.closed);
    (WithTimeout(step.timeout, h.result), conn.(input := conn.input[h.consumed..]))
  }

  /** Runs the steps in order. A listen's verdict is thrown away, so only a
      fault stops the run. */
  function Run(script: seq<Step>, m: Matcher, conn: Connection): (o: Outcome)
    ensures |o.verdicts| <= ListenCount(script)
    ensures o.conn.closed == conn.closed && o.conn.writes <= conn.writes
    decreases |script|
  {
    if script == [] then
      Outcome(Ok(()), conn, [])
    else if script[0].SpeakStep? then
      var r := Speak(script[0].text, conn);
      if r.Err? then Outcome(Err(r.error), conn, [])
      else Run(script[1..], m, r.value)
    else
      var (r, conn') := ListenStepOn(script[0], m, conn);
      if r.Err? then Outcome(Err(r.error), conn', [])
      else
        var o := Run(script[1..], m, conn');
        o.(verdicts := [r.value] + o.verdicts)
  }

  // ---------------------------------------------------------------------------
  // Facts about runs
  // ---------------------------------------------------------------------------

  /** The text a script speaks, in order. */
  function SpokenText(script: seq<Step>): string {
    if script == [] then ""
    else if script[0].SpeakStep? then Render(script[0].text) + SpokenText(script[1..])
    else SpokenText(script[1..])
  }

  function ListenCount(script: seq<Step>): nat {
    if script == [] then 0 else (if script[0].ListenStep? then 1 else 0) + ListenCount(script[1..])
  }

  /** The most input bytes the listens of a script may take. */
  function ListenBudget(script: seq<Step>): nat {
    if script == [] then 0
    else (if script[0].ListenStep? then Max0(script[0].maxSize) else 0) + ListenBudget(script[1..])
  }

  predicate ListensTimed(script: seq<Step>) {
    forall i | 0 <= i < |script| :: script[i].ListenStep? ==> script[i].timeout.Some?
  }

  /** What one step contributes to a script's spoken text, listen count and
      listen budget. */
  function StepText(step: Step): string {
    if step.SpeakStep? then Render(step.text) else ""
  }

  function StepListens(step: Step): nat {
    if step.ListenStep? then 1 else 0
  }

  function StepBudget(step: Step): nat {
    if step.ListenStep? then Max0(step.maxSize) else 0
  }

  /** The summaries of a script, one step at a time. */
  lemma ScriptCons(step: Step, rest: seq<Step>)
    ensures SpokenText([step] + rest) == StepText(step) + SpokenText(rest)
    ensures ListenCount([step] + rest) == StepListens(step) + ListenCount(rest)
    ensures ListenBudget([step] + rest) == StepBudget(step) + ListenBudget(rest)
  {
    assert ([step] + rest)[1..] == rest;
  }

  /** One speak step of a run. */
  lemma RunSpeakStep(script: seq<Step>, m: Matcher, conn: Connection)
    requires script != [] && script[0].SpeakStep?
    ensures Run(script, m, conn)
         == if conn.writes > 0 then Run(script[1..], m, Written(conn, Render(script[0].text)))
            else Outcome(Err(Thrown(WriteFailed)), conn, [])
  {
  }

  /** One listen step of a run. */
  lemma RunListenStep(script: seq<Step>, m: Matcher, conn: Connection)
    requires script != [] && script[0].ListenStep?
    ensures var (r, conn') := ListenStepOn(script[0], m, conn);
      var o := Run(script[1..], m, conn');
      Run(script, m, conn) == if r.Err? then Outcome(Err(r.error), conn', []) else o.(verdicts := [r.value] + o.verdicts)
  {
  }

  /** The property RunWritesSpokenText proves, for one run. */
  predicate WroteSpokenText(script: seq<Step>, m: Matcher, conn: Connection) {
    var o := Run(script, m, conn);
    o.result.Ok? ==> o.conn.output == conn.output + SpokenText(script)
  }

  lemma SpokenTextStep(script: seq<Step>)
    requires script != []
    ensures SpokenText(script) == StepText(script[0]) + SpokenText(script[1..])
  {
  }

  lemma SpeakStepWrites(script: seq<Step>, m: Matcher, conn: Connection)
    requires script != [] && script[0].SpeakStep?
    requires conn.writes > 0 ==>
      WroteSpokenText(script[1..], m, Written(conn, Render(script[0].text)))
    ensures WroteSpokenText(script, m, conn)
  {
    hide Run, Listening, Decode, DecodeFirst, EncodeChar, SpokenText, Render, RenderParts;
    RunSpeakStep(script, m, conn);
    SpokenTextStep(script);
    var t := Render(script[0].text);
    assert StepText(script[0]) == t;
    if conn.writes > 0 {
      assert (conn.output + t) + SpokenText(script[1..]) == conn.output + (t + SpokenText(script[1..]));
    }
  }

  lemma ListenStepWrites(script: seq<Step>, m: Matcher, conn: Connection)
    requires script != [] && script[0].ListenStep?
    requires WroteSpokenText(script[1..], m, ListenStepOn(script[0], m, conn).1)
    ensures WroteSpokenText(script, m, conn)
  {
    RunListenStep(script, m, conn);
    assert SpokenText(script) == SpokenText(script[1..]);
  }

  /** A completed run wrote exactly the script's spoken text, in order. */
  lemma {:induction false} RunWritesSpokenText(script: seq<Step>, m: Matcher, conn: Connection)
    ensures var o := Run(script, m, conn);
      o.result.Ok? ==> o.conn.output == conn.output + SpokenText(script)
    decreases |script|
  {
    if script != [] {
      hide Run, Listening, Decode, DecodeFirst, EncodeChar, SpokenText, RenderParts;
      if script[0].SpeakStep? {
        if conn.writes > 0 {
          RunWritesSpokenText(script[1..], m, Written(conn, Render(script[0].text)));
        }
        SpeakStepWrites(script, m, conn);
      } else {
        RunWritesSpokenText(script[1..], m, ListenStepOn(script[0], m, conn).1);
        ListenStepWrites(script, m, conn);
      }
    }
  }

  /** A completed run heard one verdict per listen, whatever those verdicts were. */
  lemma {:induction false} RunHearsEveryListen(script: seq<Step>, m: Matcher, conn: Connection)
    ensures var o := Run(script, m, conn);
      o.result.Ok? ==> |o.verdicts| == ListenCount(script)
    decreases |script|
  {
    if script != [] {
      hide Run, Listening, Decode, DecodeFirst, EncodeChar;
      if script[0].SpeakStep? {
        RunSpeakStep(script, m, conn);
        if conn.writes > 0 {
          RunHearsEveryListen(script[1..], m, Written(conn, Render(script[0].text)));
        }
      } else {
        RunListenStep(script, m, conn);
        RunHearsEveryListen(script[1..], m, ListenStepOn(script[0], m, conn).1);
      }
    }
  }

  /** `a` is what is left of `b` after some bytes were taken from its front. */
  predicate IsSuffixOf(a: seq<byte>, b: seq<byte>) {
    |a| <= |b| && b[|b| - |a|..] == a
  }

  lemma DropIsSuffix(b: seq<byte>, k: nat)
    requires k <= |b|
    ensures IsSuffixOf(b[k..], b)
  {
  }

  lemma SuffixTransitive(a: seq<byte>, b: seq<byte>, c: seq<byte>)
    requires IsSuffixOf(a, b) && IsSuffixOf(b, c)
    ensures IsSuffixOf(a, c)
  {
    assert c[|c| - |a|..] == c[|c| - |b|..][|b| - |a|..];
  }

  /** Whatever happens, a run only reads forward through its input and takes
      no more bytes than its listens' budgets add up to. */
  lemma {:induction false} RunConsumption(script: seq<Step>, m: Matcher, conn: Connection)
    ensures var o := Run(script, m, conn);
      && IsSuffixOf(o.conn.input, conn.input)
      && |conn.input| - |o.conn.input| <= ListenBudget(script)
    decreases |script|
  {
    hide Decode, DecodeFirst, EncodeChar;
    if script != [] {
      if script[0].SpeakStep? {
        if conn.writes > 0 {
          RunConsumption(script[1..], m, Speak(script[0].text, conn).value);
        }
      } else {
        var h := ListenOn(m, script[0].pattern, script[0].maxSize, conn.input, conn.closed);
        var conn' := ListenStepOn(script[0], m, conn).1;
        assert conn'.input == conn.input[h.consumed..];
        DropIsSuffix(conn.input, h.consumed);
        if ListenStepOn(script[0], m, conn).0.Ok? {
          RunConsumption(script[1..], m, conn');
          SuffixTransitive(Run(script[1..], m, conn').conn.input, conn'.input, conn.input);
        }
      }
    }
  }

  /** Two matchers that agree on when to keep reading. */
  ghost predicate SameShortness(m1: Matcher, m2: Matcher) {
    forall st: StructuredText, s: string :: m1(st, s).Short? <==> m2(st, s).Short?
  }

  lemma {:induction false} ListeningSameShortness(m1: Matcher, m2: Matcher, text: StructuredText, maxSize: int,
                                                  buffer: seq<byte>, rest: seq<byte>, closed: bool)
    requires SameShortness(m1, m2)
    ensures Listening(m1, text, maxSize, buffer, rest, closed).consumed == Listening(m2, text, maxSize, buffer, rest, closed).consumed
    ensures Listening(m1, text, maxSize, buffer, rest, closed).result.Ok? == Listening(m2, text, maxSize, buffer, rest, closed).result.Ok?
    ensures Listening(m1, text, maxSize, buffer, rest, closed).result.Err? ==>
      Listening(m1, text, maxSize, buffer, rest, closed).result == Listening(m2, text, maxSize, buffer, rest, closed).result
    decreases |rest|
  {
    hide Decode, DecodeFirst, EncodeChar;
    if |buffer| < maxSize && rest != [] {
      ListeningSameShortness(m1, m2, text, maxSize, buffer + [rest[0]], rest[1..], closed);
    }
  }

  /** Verdicts are discarded: whether a listen ends in `Failure` or `Success`
      changes nothing about the rest of the run. Two matchers that only agree
      on when to keep reading give runs with the same result, the same text
      written and the same input left. */
  lemma {:induction false} RunIgnoresVerdicts(script: seq<Step>, m1: Matcher, m2: Matcher, conn: Connection)
    requires SameShortness(m1, m2)
    ensures Run(script, m1, conn).result == Run(script, m2, conn).result
    ensures Run(script, m1, conn).conn == Run(script, m2, conn).conn
    decreases |script|
  {
    hide Decode, DecodeFirst, EncodeChar;
    if script != [] {
      if script[0].SpeakStep? {
        if conn.writes > 0 {
          RunIgnoresVerdicts(script[1..], m1, m2, Speak(script[0].text, conn).value);
        }
      } else {
        ListeningSameShortness(m1, m2, script[0].pattern, script[0].maxSize, [], conn.input, conn.closed);
        RunIgnoresVerdicts(script[1..], m1, m2, ListenStepOn(script[0], m1, conn).1);
      }
    }
  }

  /** A listen that ends in `Failure` does not stop the script: the run goes
      on with the next step from where the listen left the input. */
  lemma FailureVerdictContinues(script: seq<Step>, m: Matcher, conn: Connection)
    requires |script| > 0 && script[0].ListenStep?
    requires ListenOn(m, script[0].pattern, script[0].maxSize, conn.input, conn.closed).result == Ok(Failure)
    ensures var h := ListenOn(m, script[0].pattern, script[0].maxSize, conn.input, conn.closed);
      var o := Run(script[1..], m, conn.(input := conn.input[h.consumed..]));
      Run(script, m, conn) == o.(verdicts := [Failure] + o.verdicts)
  {
  }

  /** Running two scripts back to back. A fault in the first ends the run
      there, so no step of the second runs; otherwise the second runs on the
      connection the first left, and the verdicts of both are kept in order. */
  lemma {:induction false} RunAppend(a: seq<Step>, b: seq<Step>, m: Matcher, conn: Connection)
    ensures var oa := Run(a, m, conn);
      Run(a + b, m, conn)
        == if oa.result.Err? then oa
           else var ob := Run(b, m, oa.conn); ob.(verdicts := oa.verdicts + ob.verdicts)
    decreases |a|
  {
    hide Listening, Decode, DecodeFirst, EncodeChar, Render;
    if a == [] {
      assert a + b == b;
    } else {
      assert (a + b)[0] == a[0];
      assert (a + b)[1..] == a[1..] + b;
      if a[0].SpeakStep? {
        RunSpeakStep(a, m, conn);
        RunSpeakStep(a + b, m, conn);
        if conn.writes > 0 {
          RunAppend(a[1..], b, m, Written(conn, Render(a[0].text)));
        }
      } else {
        RunListenStep(a, m, conn);
        RunListenStep(a + b, m, conn);
        var (r, conn') := ListenStepOn(a[0], m, conn);
        if r.Ok? {
          RunAppend(a[1..], b, m, conn');
          var oa' := Run(a[1..], m, conn');
          if oa'.result.Ok? {
            var ob := Run(b, m, oa'.conn);
            assert [r.value] + (oa'.verdicts + ob.verdicts) == ([r.value] + oa'.verdicts) + ob.verdicts;
          }
        }
      }
    }
  }

  /** A fault ends the script: whatever steps follow a faulting prefix, none
      of them runs, so the outcome, the text written and the input left are
      those of the prefix alone. */
  lemma FaultStopsScript(a: seq<Step>, b: seq<Step>, m: Matcher, conn: Connection)
    requires Run(a, m, conn).result.Err?
    ensures Run(a + b, m, conn) == Run(a, m, conn)
  {
    RunAppend(a, b, m, conn);
  }

  /** A write can fail partway through a script: with one write left, the
      first of two speaks goes out and the second throws `writeFailed`,
      leaving the first line on the wire. */
  lemma LaterWriteFails(first: LiteralText, second: LiteralText, m: Matcher, conn: Connection)
    requires conn.writes == 1
    ensures Run([SpeakStep(first, None), SpeakStep(second, None)], m, conn)
         == Outcome(Err(Thrown(WriteFailed)), Written(conn, Render(first)), [])
  {
    var script := [SpeakStep(first, None), SpeakStep(second, None)];
    RunSpeakStep(script, m, conn);
    RunSpeakStep(script[1..], m, Written(conn, Render(first)));
  }

  /** When every listen runs inside a timer, no run is left waiting forever:
      a read that would wait ends the run as a timeout. */
  lemma {:induction false} TimedRunsNeverStall(script: seq<Step>, m: Matcher, conn: Connection)
    requires ListensTimed(script)
    ensures Run(script, m, conn).result != Err(Stalled)
    decreases |script|
  {
    hide Listening, Decode, DecodeFirst, EncodeChar;
    if script != [] {
      assert ListensTimed(script[1..]) by {
        forall i | 0 <= i < |script[1..]| ensures script[1..][i].ListenStep? ==> script[1..][i].timeout.Some? {
          assert script[1..][i] == script[i + 1];
        }
      }
      if script[0].SpeakStep? {
        if conn.writes > 0 {
          TimedRunsNeverStall(script[1..], m, Speak(script[0].text, conn).value);
        }
      } else {
        TimedRunsNeverStall(script[1..], m, ListenStepOn(script[0], m, conn).1);
      }
    }
  }

  /** The faults a run can end with. Of the engine's own errors only
      `writeFailed` and `maxSizeReached` are ever thrown. */
  lemma {:induction false} RunFaults(script: seq<Step>, m: Matcher, conn: Connection)
    ensures var r := Run(script, m, conn).result;
      r.Err? ==> r.error in {Thrown(WriteFailed), Thrown(MaxSizeReached), ReadError, Stalled, TimedOut}
    decreases |script|
  {
    if script != [] {
      hide Run, Listening, Decode, DecodeFirst, EncodeChar;
      if script[0].SpeakStep? {
        RunSpeakStep(script, m, conn);
        if conn.writes > 0 {
          RunFaults(script[1..], m, Written(conn, Render(script[0].text)));
        }
      } else {
        RunListenStep(script, m, conn);
        ListenOutcome(m, script[0].pattern, script[0].maxSize, conn.input, conn.closed);
        RunFaults(script[1..], m, ListenStepOn(script[0], m, conn).1);
      }
    }
  }

  /** The steps of a script awaited one after the other, as the handlers do;
      the verdict of each listen is dropped. */
  method Execute(script: seq<Step>, m: Matcher, conn: Connection) returns (r: Result<(), Fault>, conn': Connection)
    ensures r == Run(script, m, conn).result && conn' == Run(script, m, conn).conn
  {
    var i := 0;
    conn' := conn;
    while i < |script|
      invariant 0 <= i <= |script|
      invariant Run(script[i..], m, conn').result == Run(script, m, conn).result
      invariant Run(script[i..], m, conn').conn == Run(script, m, conn).conn
    {
      var step := script[i];
      assert script[i..][1..] == script[i + 1..];
      if step.SpeakStep? {
        RunSpeakStep(script[i..], m, conn');
        var spoken := Speak(step.text, conn');
        if spoken.Err? {
          return Err(spoken.error), conn';
        }
        conn' := spoken.value;
      } else {
        RunListenStep(script[i..], m, conn');
        var heard, after := Listen(m, step.pattern, step.maxSize, conn');
        var timed := WithTimeout(step.timeout, heard);
        if timed.Err? {
          return Err(timed.error), after;
        }
        conn' := after;
      }
      i := i + 1;
    }
    r := Ok(());
  }

  /** On input that starts with the bytes of ASCII text, the matcher is
      shown that text's prefixes, one more character per byte. */
  lemma VerdictOnAsciiPrefix(m: Matcher, text: StructuredText, head: string, tail: string, more: seq<byte>, j: nat)
    requires IsAscii(head) && 1 <= j <= |head|
    ensures var input := Encode(head + tail) + more;
      j <= |input| && VerdictAt(m, text, input, j) == Some(m(text, head[..j]))
  {
    hide EncodeChar, DecodeFirst;
    var input := Encode(head + tail) + more;
    EncodeAppend(head, tail);
    AsciiEncoding(head);
    assert input[..j] == Encode(head)[..j] == Encode(head[..j]);
    DecodeEncode(head[..j]);
  }

  /** A literal listen fed exactly the bytes of its rendering (followed by
      anything) succeeds after reading exactly those bytes, provided they fit
      in the budget: every earlier prefix is either cut mid-character or a
      strict prefix of the text, so the matcher says `Short`. */
  lemma ListenHearsLiteral(m: Matcher, text: StructuredText, maxSize: int, more: seq<byte>, closed: bool)
    requires AgreesWithLiteral(m, text) && Render(text) != []
    requires |Encode(Render(text))| <= maxSize
    ensures ListenOn(m, text, maxSize, Encode(Render(text)) + more, closed)
         == Heard(Ok(Success([])), |Encode(Render(text))|)
  {
    var lit := Render(text);
    var e := Encode(lit);
    var input := e + more;
    var h := ListenOn(m, text, maxSize, input, closed);
    ListenOutcome(m, text, maxSize, input, closed);
    forall j | 1 <= j <= |e|
      ensures input[..j] == e[..j]
      ensures Decisive(m, text, input, j) <==> j == |e|
      ensures j == |e| ==> VerdictAt(m, text, input, j) == Some(Success([]))
    {
      assert input[..j] == e[..j];
      PrefixOfEncoding(lit, j);
      if j == |e| {
        assert e[..j] == e;
        DecodeEncode(lit);
      }
    }
    assert Decisive(m, text, input, |e|);
  }

  /** A literal listen returns `Success` only after reading exactly the bytes
      of its rendering: a stream that differs from them anywhere in that span
      can never be accepted. */
  lemma ListenSuccessMeansLiteral(m: Matcher, text: StructuredText, maxSize: int, input: seq<byte>, closed: bool)
    requires AgreesWithLiteral(m, text)
    ensures var h := ListenOn(m, text, maxSize, input, closed);
      h.result.Ok? && h.result.value.Success? ==> input[..h.consumed] == Encode(Render(text))
  {
    var h := ListenOn(m, text, maxSize, input, closed);
    ListenOutcome(m, text, maxSize, input, closed);
    if h.result.Ok? && h.result.value.Success? {
      var s := Decode(input[..h.consumed]).value;
      assert s == Render(text);
      EncodeDecode(input[..h.consumed]);
    }
  }
}
