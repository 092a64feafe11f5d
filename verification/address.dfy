/** Deriving a server's IP and port from a `"host:port"` address string, as
    every Starbridge config initialiser does: split on ':' (empty pieces are
    dropped), take the first piece as the IP and parse the second as a
    `UInt16`; any further pieces are ignored. */
module Address {
  import opened Wrappers

  // ---------------------------------------------------------------------------
  // Removing spaces (`replacingOccurrences(of: " ", with: "")`)
  // ---------------------------------------------------------------------------

  function RemoveSpaces(s: string): (r: string)
    ensures |r| <= |s|
    ensures forall i | 0 <= i < |r| :: r[i] != ' '
  {
    if s == [] then []
    else (if s[0] == ' ' then [] else [s[0]]) + RemoveSpaces(s[1..])
  }

  /** Removing spaces works piece by piece, so it keeps every other character
      in order. */
  lemma {:induction false} RemoveSpacesAppend(a: string, b: string)
    ensures RemoveSpaces(a + b) == RemoveSpaces(a) + RemoveSpaces(b)
  {
    if a == [] {
      assert a + b == b;
    } else {
      assert (a + b)[1..] == a[1..] + b;
      RemoveSpacesAppend(a[1..], b);
    }
  }

  /** Text without spaces is left as it is. */
  lemma {:induction false} RemoveSpacesKeeps(s: string)
    requires forall i | 0 <= i < |s| :: s[i] != ' '
    ensures RemoveSpaces(s) == s
  {
    if s != [] {
      RemoveSpacesKeeps(s[1..]);
    }
  }

  lemma RemoveSpacesOfSeparators()
    ensures RemoveSpaces(":") == ":" && RemoveSpaces(" ") == ""
  {
    assert ":"[1..] == [] && " "[1..] == [];
  }

  /** A space right after the colon of a space-free `host:port` is removed. */
  lemma RemoveSpaceAfterColon(host: string, p: string)
    requires Avoids(host, ' ') && Avoids(p, ' ')
    ensures RemoveSpaces(host + ": " + p) == host + ":" + p
  {
    hide RemoveSpaces;
    RemoveSpacesOfSeparators();
    RemoveSpacesKeeps(host);
    RemoveSpacesKeeps(p);
    RemoveSpacesAppend(host, ":");
    RemoveSpacesAppend(" ", p);
    RemoveSpacesAppend(host + ":", " " + p);
    assert host + ": " + p == (host + ":") + (" " + p) by {
      assert ": " == ":" + " ";
      assert (host + ":" + " ") + p == (host + ":") + (" " + p);
    }
    assert "" + p == p;
  }

  // ---------------------------------------------------------------------------
  // Splitting (`split(separator:)`, which omits empty subsequences)
  // ---------------------------------------------------------------------------

  predicate Avoids(s: string, sep: char) {
    forall i | 0 <= i < |s| :: s[i] != sep
  }

  /** Length of the run of non-separator characters at the front of `s`. */
  function RunLength(s: string, sep: char): (n: nat)
    ensures n <= |s|
    ensures Avoids(s[..n], sep)
    ensures n < |s| ==> s[n] == sep
  {
    if s == [] || s[0] == sep then 0
    else
      var n := RunLength(s[1..], sep);
      assert s[..n + 1] == [s[0]] + s[1..][..n];
      n + 1
  }

  /** The maximal runs of non-separator characters of `s`, in order. */
  function Split(s: string, sep: char): (pieces: seq<string>)
    ensures forall i | 0 <= i < |pieces| :: pieces[i] != [] && Avoids(pieces[i], sep)
    decreases |s|
  {
    if s == [] then []
    else if s[0] == sep then Split(s[1..], sep)
    else
      var n := RunLength(s, sep);
      [s[..n]] + Split(s[n..], sep)
  }

  /** The pieces written back out with one separator between neighbours. */
  function Join(pieces: seq<string>, sep: char): string {
    if |pieces| == 0 then ""
    else if |pieces| == 1 then pieces[0]
    else pieces[0] + [sep] + Join(pieces[1..], sep)
  }

  function Concat(pieces: seq<string>): string {
    if pieces == [] then "" else pieces[0] + Concat(pieces[1..])
  }

  /** `s` with every separator deleted. */
  function Without(s: string, sep: char): string {
    if s == [] then "" else (if s[0] == sep then "" else [s[0]]) + Without(s[1..], sep)
  }

  lemma {:induction false} WithoutKeepsRun(s: string, sep: char, n: nat)
    requires n <= |s| && Avoids(s[..n], sep)
    ensures Without(s, sep) == s[..n] + Without(s[n..], sep)
  {
    if n > 0 {
      assert s[1..][..n - 1] == s[1..n];
      WithoutKeepsRun(s[1..], sep, n - 1);
      assert s[1..][n - 1..] == s[n..];
      assert s[..n] == [s[0]] + s[1..n];
    }
  }

  /** Splitting loses nothing but separators: the pieces, run together, are
      the input with its separators deleted. */
  lemma {:induction false} SplitKeepsText(s: string, sep: char)
    ensures Concat(Split(s, sep)) == Without(s, sep)
    decreases |s|
  {
    if s != [] {
      if s[0] == sep {
        SplitKeepsText(s[1..], sep);
      } else {
        var n := RunLength(s, sep);
        SplitKeepsText(s[n..], sep);
        WithoutKeepsRun(s, sep, n);
        assert ([s[..n]] + Split(s[n..], sep))[1..] == Split(s[n..], sep);
      }
    }
  }

  /** A character the input avoids is avoided by every piece as well. */
  lemma {:induction false} SplitKeepsAvoiding(s: string, sep: char, c: char)
    requires Avoids(s, c)
    ensures forall i | 0 <= i < |Split(s, sep)| :: Avoids(Split(s, sep)[i], c)
    decreases |s|
  {
    if s != [] {
      if s[0] == sep {
        SplitKeepsAvoiding(s[1..], sep, c);
      } else {
        var n := RunLength(s, sep);
        SplitKeepsAvoiding(s[n..], sep, c);
        assert Split(s, sep) == [s[..n]] + Split(s[n..], sep);
      }
    }
  }

  lemma RunLengthOfPiece(p: string, sep: char, rest: string)
    requires Avoids(p, sep)
    requires rest == [] || rest[0] == sep
    ensures RunLength(p + rest, sep) == |p|
    decreases |p|
  {
    if p != [] {
      assert (p + rest)[1..] == p[1..] + rest;
      RunLengthOfPiece(p[1..], sep, rest);
    }
  }

  /** One unfolding of Split at a run. */
  lemma SplitAtRun(s: string, sep: char)
    requires s != [] && s[0] != sep
    ensures Split(s, sep) == [s[..RunLength(s, sep)]] + Split(s[RunLength(s, sep)..], sep)
  {
  }

  /** Appending a separator and more text leaves the first run of `a` as it is. */
  lemma RunOfJoined(a: string, sep: char, b: string)
    ensures var n := RunLength(a, sep); var s := a + [sep] + b;
      RunLength(s, sep) == n && s[..n] == a[..n] && s[n..] == a[n..] + [sep] + b
  {
    var n := RunLength(a, sep);
    var rest := a[n..] + [sep] + b;
    assert rest[0] == sep;
    assert a + [sep] + b == a[..n] + rest;
    RunLengthOfPiece(a[..n], sep, rest);
  }

  lemma SplitAroundRun(a: string, sep: char, b: string, n: nat)
    requires a != [] && a[0] != sep && n == RunLength(a, sep)
    requires Split(a[n..] + [sep] + b, sep) == Split(a[n..], sep) + Split(b, sep)
    ensures Split(a + [sep] + b, sep) == Split(a, sep) + Split(b, sep)
  {
    var s := a + [sep] + b;
    RunOfJoined(a, sep, b);
    assert s[0] == a[0];
    SplitAtRun(s, sep);
    SplitAtRun(a, sep);
    hide Split, RunLength;
    var head, tail, right := [a[..n]], Split(a[n..], sep), Split(b, sep);
    assert Split(s, sep) == head + (tail + right);
    assert Split(a, sep) == head + tail;
    assert head + (tail + right) == (head + tail) + right;
  }

  /** The step of SplitAround when `a` starts with a separator. */
  lemma SplitAroundSep(a: string, sep: char, b: string)
    requires a != [] && a[0] == sep
    requires Split(a[1..] + [sep] + b, sep) == Split(a[1..], sep) + Split(b, sep)
    ensures Split(a + [sep] + b, sep) == Split(a, sep) + Split(b, sep)
  {
    var s := a + [sep] + b;
    assert s[0] == sep;
    assert s[1..] == a[1..] + [sep] + b;
  }

  /** Splitting around a separator splits each side on its own: separators
      at either end, or next to each other, add no empty pieces. */
  lemma {:induction false} SplitAround(a: string, sep: char, b: string)
    ensures Split(a + [sep] + b, sep) == Split(a, sep) + Split(b, sep)
    decreases |a|
  {
    if a == [] {
      var s := a + [sep] + b;
      assert s == [sep] + b;
      assert s[1..] == b;
    } else if a[0] == sep {
      SplitAround(a[1..], sep, b);
      SplitAroundSep(a, sep, b);
    } else {
      var n := RunLength(a, sep);
      SplitAround(a[n..], sep, b);
      SplitAroundRun(a, sep, b, n);
    }
  }

  lemma SplitOfPiece(p: string, sep: char)
    requires p != [] && Avoids(p, sep)
    ensures Split(p, sep) == [p]
  {
    RunLengthOfPiece(p, sep, []);
    assert p + [] == p;
  }

  /** Joining non-empty, separator-free pieces and splitting again gives the
      pieces back. */
  lemma {:induction false} SplitJoin(pieces: seq<string>, sep: char)
    requires forall i | 0 <= i < |pieces| :: pieces[i] != [] && Avoids(pieces[i], sep)
    ensures Split(Join(pieces, sep), sep) == pieces
  {
    if |pieces| == 1 {
      SplitOfPiece(pieces[0], sep);
    } else if |pieces| > 1 {
      SplitJoin(pieces[1..], sep);
      SplitAround(pieces[0], sep, Join(pieces[1..], sep));
      SplitOfPiece(pieces[0], sep);
      assert pieces == [pieces[0]] + pieces[1..];
    }
  }

  // ---------------------------------------------------------------------------
  // `UInt16(_: String)`
  // ---------------------------------------------------------------------------

  const UInt16Max: int := 65535

  predicate IsDigit(c: char) {
    '0' <= c <= '9'
  }

  predicate AllDigits(d: string) {
    forall i | 0 <= i < |d| :: IsDigit(d[i])
  }

  /** The number a string of decimal digits denotes (leading zeros allowed). */
  function DigitsValue(d: string): nat
    requires AllDigits(d)
  {
    if d == [] then 0 else DigitsValue(d[..|d| - 1]) * 10 + (d[|d| - 1] as int - '0' as int)
  }

  /** Swift's integer parser for `UInt16`: an optional '+' or '-' sign and
      then at least one ASCII digit, nothing else; the value must fit in 16
      bits. A minus sign is only accepted in front of a value of zero. */
  function ParseUInt16(s: string): (r: Option<int>)
    ensures r.Some? ==> 0 <= r.value <= UInt16Max
    ensures r.Some? ==> s != [] && (s[0] == '+' || s[0] == '-' || IsDigit(s[0]))
    // Only numerals are accepted, and the result is the value they spell.
    ensures r.Some? && IsDigit(s[0]) ==> AllDigits(s) && r.value == DigitsValue(s)
    ensures r.Some? && s[0] == '+' ==> |s| >= 2 && AllDigits(s[1..]) && r.value == DigitsValue(s[1..])
    ensures r.Some? && s[0] == '-' ==> |s| >= 2 && AllDigits(s[1..]) && DigitsValue(s[1..]) == 0 && r.value == 0
    // Every in-range numeral is accepted, leading zeros included.
    ensures s != [] && AllDigits(s) && DigitsValue(s) <= UInt16Max ==> r == Some(DigitsValue(s))
  {
    if s == [] then None
    else
      var negative := s[0] == '-';
      var digits := if s[0] == '+' || s[0] == '-' then s[1..] else s;
      if digits == [] || !AllDigits(digits) then None
      else if negative then (if DigitsValue(digits) == 0 then Some(0) else None)
      else if DigitsValue(digits) <= UInt16Max then Some(DigitsValue(digits))
      else None
  }

  /** The shortest decimal spelling of `n`. */
  function FormatNat(n: nat): (d: string)
    ensures d != [] && AllDigits(d)
  {
    if n < 10 then ['0' + n as char] else FormatNat(n / 10) + ['0' + (n % 10) as char]
  }

  lemma {:induction false} FormatNatValue(n: nat)
    ensures DigitsValue(FormatNat(n)) == n
  {
    var d := FormatNat(n);
    if n >= 10 {
      FormatNatValue(n / 10);
      assert d[..|d| - 1] == FormatNat(n / 10);
    }
  }

  /** Every port number reads back from its decimal spelling. */
  lemma ParseFormat(n: nat)
    requires n <= UInt16Max
    ensures ParseUInt16(FormatNat(n)) == Some(n)
  {
    FormatNatValue(n);
  }

  /** An explicit plus sign changes nothing. */
  lemma ParsePlus(d: string)
    requires d != [] && AllDigits(d)
    ensures ParseUInt16("+" + d) == ParseUInt16(d)
  {
    assert ("+" + d)[1..] == d;
  }

  /** A minus sign is accepted only in front of zero. */
  lemma ParseMinus(d: string)
    requires d != [] && AllDigits(d)
    ensures ParseUInt16("-" + d) == if DigitsValue(d) == 0 then Some(0) else None
  {
    assert ("-" + d)[1..] == d;
  }

  /** Values above 65535 do not parse, however they are written. */
  lemma ParseRejectsOverflow(d: string)
    requires d != [] && AllDigits(d) && DigitsValue(d) > UInt16Max
    ensures ParseUInt16(d) == None && ParseUInt16("+" + d) == None
  {
    assert ("+" + d)[1..] == d;
  }

  // ---------------------------------------------------------------------------
  // The derived endpoint
  // ---------------------------------------------------------------------------

  datatype Endpoint = Endpoint(ip: string, port: int)

  /** The colon-separated fields of an address. */
  function Fields(address: string): seq<string> {
    Split(address, ':')
  }

  /** IP and port from the fields of an address; None when the second field
      is not a `UInt16`. Indexing a second field that is not there traps in
      the source, so at least two fields are required. */
  function DeriveEndpoint(fields: seq<string>): (r: Option<Endpoint>)
    requires |fields| >= 2
    ensures r.Some? <==> ParseUInt16(fields[1]).Some?
    ensures r.Some? ==> r.value.ip == fields[0] && r.value.port == ParseUInt16(fields[1]).value
    ensures r.Some? ==> 0 <= r.value.port <= UInt16Max
  {
    match ParseUInt16(fields[1])
    case None => None
    case Some(port) => Some(Endpoint(fields[0], port))
  }

  /** A host and a port written as `host:port`, followed by nothing or by
      further colon-separated fields, derive that host and port: later
      fields are ignored. */
  lemma EndpointOfAddress(host: string, port: nat, extra: string)
    requires host != [] && Avoids(host, ':') && port <= UInt16Max
    requires extra == [] || extra[0] == ':'
    ensures var address := host + ":" + FormatNat(port) + extra;
      |Fields(address)| >= 2 && DeriveEndpoint(Fields(address)) == Some(Endpoint(host, port))
  {
    var p := FormatNat(port);
    assert Avoids(p, ':') by {
      forall i | 0 <= i < |p| ensures p[i] != ':' {
        assert IsDigit(p[i]);
      }
    }
    ParseFormat(port);
    assert host + ":" + p + extra == host + [':'] + (p + extra);
    SplitAround(host, ':', p + extra);
    SplitOfPiece(host, ':');
    RunLengthOfPiece(p, ':', extra);
    assert (p + extra)[..|p|] == p && (p + extra)[|p|..] == extra;
  }

  /** Splitting does not trim: a space after the colon stays at the front of
      the port field, which then does not parse. */
  lemma SpacedPortFields(host: string, digits: string)
    requires host != [] && Avoids(host, ':') && AllDigits(digits)
    ensures Fields(host + ": " + digits) == [host, " " + digits]
    ensures ParseUInt16(" " + digits) == None
  {
    var d := " " + digits;
    assert Avoids(d, ':') by {
      forall i | 0 <= i < |d| ensures d[i] != ':' {
        if i > 0 {
          assert d[i] == digits[i - 1] && IsDigit(digits[i - 1]);
        }
      }
    }
    assert host + ": " + digits == host + [':'] + d;
    SplitAround(host, ':', d);
    SplitOfPiece(host, ':');
    SplitOfPiece(d, ':');
  }
}
