/** The part of the Ghostwriter library the tone burst relies on: structured
    text built from typed parts, its rendering for the speaking side, and the
    three-way verdict of its matcher for the listening side.

    The library itself is not part of this model. The matcher is therefore a
    parameter of every operation that listens (`Matcher`), and this module
    adds one concrete assumption about it, stated as a predicate: on text made
    only of literal parts it behaves as an anchored prefix match. */
module Ghostwriter {

  /** The line terminators the scripts use. */
  datatype Newline = Crlf

  /** One part of a structured text. */
  datatype TypedText =
    | Text(text: string)
    | Regexp(pattern: string)
    | NewlineText(kind: Newline)

  datatype StructuredText = StructuredText(parts: seq<TypedText>)

  /** The matcher's verdict on an accumulated string: more input is needed,
      the input can never match, or it matched (with the captured groups). */
  datatype MatchResult = Short | Failure | Success(captures: seq<string>)

  /** `StructuredText.match(string:)`: supplied by the library, so a parameter here. */
  type Matcher = (StructuredText, string) -> MatchResult

  function NewlineString(kind: Newline): string {
    match kind
    case Crlf => "\r\n"
  }

  /** Text with no regular-expression parts: the only kind the scripts speak. */
  predicate IsLiteral(st: StructuredText) {
    forall i | 0 <= i < |st.parts| :: !st.parts[i].Regexp?
  }

  /** Structured text that can be spoken. */
  type LiteralText = st: StructuredText | IsLiteral(st) witness StructuredText([])

  function RenderParts(parts: seq<TypedText>): string
    requires forall i | 0 <= i < |parts| :: !parts[i].Regexp?
  {
    if parts == [] then ""
    else
      (match parts[0]
       case Text(t) => t
       case NewlineText(k) => NewlineString(k)) + RenderParts(parts[1..])
  }

  /** Rendering works part by part. */
  lemma {:induction false} RenderPartsAppend(p: seq<TypedText>, q: seq<TypedText>)
    requires forall i | 0 <= i < |p| :: !p[i].Regexp?
    requires forall i | 0 <= i < |q| :: !q[i].Regexp?
    ensures forall i | 0 <= i < |p + q| :: !(p + q)[i].Regexp?
    ensures RenderParts(p + q) == RenderParts(p) + RenderParts(q)
  {
    if p == [] {
      assert p + q == q;
    } else {
      assert (p + q)[1..] == p[1..] + q;
      RenderPartsAppend(p[1..], q);
    }
  }

  /** `.string` of a literal structured text: its parts, concatenated. */
  function Render(st: StructuredText): string
    requires IsLiteral(st)
  {
    RenderParts(st.parts)
  }

  /** A text whose last part is a newline renders to a line ending in CRLF. */
  lemma RenderEndsLine(st: StructuredText)
    requires IsLiteral(st) && st.parts != [] && st.parts[|st.parts| - 1] == NewlineText(Crlf)
    ensures |Render(st)| >= 2 && Render(st)[|Render(st)| - 2..] == "\r\n"
  {
    var n := |st.parts| - 1;
    assert st.parts == st.parts[..n] + [st.parts[n]];
    RenderPartsAppend(st.parts[..n], [st.parts[n]]);
    assert [st.parts[n]][1..] == [];
  }

  /** Anchored literal matching of an accumulated string `s` against `lit`. */
  function LiteralMatch(lit: string, s: string): (v: MatchResult)
    ensures v.Success? ==> v.captures == []
  {
    if s == lit then Success([])
    else if s < lit then Short
    else Failure
  }

  /** The assumption about the library: on a literal text, `m` is LiteralMatch
      against its rendering. */
  ghost predicate AgreesWithLiteral(m: Matcher, st: StructuredText) {
    IsLiteral(st) && forall s: string :: m(st, s) == LiteralMatch(Render(st), s)
  }

  /** A concrete matcher: literal prefix matching for literal texts, and the
      given `regexps` matcher for texts with regular-expression parts. */
  function LiteralMatcher(regexps: Matcher): (m: Matcher)
    ensures forall st: StructuredText | IsLiteral(st) :: AgreesWithLiteral(m, st)
  {
    (st: StructuredText, s: string) =>
      if IsLiteral(st) then LiteralMatch(Render(st), s) else regexps(st, s)
  }

  /** The three verdicts of the literal matcher, each characterised. */
  lemma LiteralVerdicts(lit: string, s: string)
    ensures LiteralMatch(lit, s).Success? <==> s == lit
    ensures LiteralMatch(lit, s).Short? <==> |s| < |lit| && s == lit[..|s|]
    ensures LiteralMatch(lit, s).Failure? <==> !(s <= lit)
  {
  }

  /** A `Failure` is final: no further input can turn it into anything else. */
  lemma LiteralFailureIsFinal(lit: string, s: string, more: string)
    requires LiteralMatch(lit, s) == Failure
    ensures LiteralMatch(lit, s + more) == Failure
  {
  }

  /** A `Short` can always be completed: adding the rest of the literal succeeds. */
  lemma LiteralShortCompletes(lit: string, s: string)
    requires LiteralMatch(lit, s) == Short
    ensures LiteralMatch(lit, s + lit[|s|..]) == Success([])
  {
    assert s + lit[|s|..] == lit;
  }

  /** The rendering of a literal text is what its matcher accepts, and every
      strict prefix of it asks for more input. */
  lemma RenderedTextMatches(st: StructuredText, k: nat)
    requires IsLiteral(st) && k <= |Render(st)|
    ensures LiteralMatch(Render(st), Render(st)[..k]) == (if k == |Render(st)| then Success([]) else Short)
  {
  }

  /** A candidate of the right length that differs from the literal in even
      one character fails; it never succeeds. */
  lemma AlteredCharacterFails(lit: string, i: nat, c: char)
    requires i < |lit| && c != lit[i]
    ensures LiteralMatch(lit, lit[i := c]) == Failure
  {
    assert lit[i := c][i] != lit[i];
  }
}
