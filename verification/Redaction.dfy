/** Redaction of one log line: secrets, then MongoDB URIs, replaced one after the other. */
module Redaction {
  import opened Text

  const REDACTED: text := "[REDACTED]"
  const REDACTED_URI: text := "[REDACTED URI]"

  // What gets replaced: a literal secret, or mongodb(?:\+srv)?://[^\s"']+
  datatype Pattern = Literal(secret: text) | Uri

  predicate InUri(c: byte) { c !in [' ', '\t', '\n', '\U{000C}', '\r', '"', '\''] }

  function UriRun(s: text): (n: nat)
    ensures n <= |s|
  {
    if s != [] && InUri(s[0]) then 1 + UriRun(s[1..]) else 0
  }

  const PLAIN: text := "mongodb://"
  const SRV: text := "mongodb+srv://"

  // The length of the match at the start of s, 0 when there is none.
  function MatchLength(p: Pattern, s: text): (n: nat)
    ensures n <= |s|
  {
    match p
    case Literal(secret) => if HasPrefix(s, secret) then |secret| else 0
    case Uri =>
      if HasPrefix(s, SRV) && UriRun(s[|SRV|..]) > 0 then |SRV| + UriRun(s[|SRV|..])
      else if HasPrefix(s, PLAIN) && UriRun(s[|PLAIN|..]) > 0 then |PLAIN| + UriRun(s[|PLAIN|..])
      else 0
  }

  // strings.ReplaceAll and Regexp.ReplaceAllString: leftmost matches, not overlapping.
  function ReplaceAll(p: Pattern, s: text, marker: text): text
    decreases |s|
  {
    if s == [] then []
    else
      var n := MatchLength(p, s);
      if n > 0 then marker + ReplaceAll(p, s[n..], marker) else [s[0]] + ReplaceAll(p, s[1..], marker)
  }

  function RedactSecrets(secrets: seq<text>, s: text): text {
    if secrets == [] then s
    else
      var before := RedactSecrets(secrets[..|secrets| - 1], s);
      var secret := secrets[|secrets| - 1];
      if secret != [] then ReplaceAll(Literal(secret), before, REDACTED) else before
  }

  function Redact(secrets: seq<text>, line: text): text {
    ReplaceAll(Uri, RedactSecrets(secrets, line), REDACTED_URI)
  }

  // ---- What the log never shows ------------------------------------------------------------

  ghost predicate NoMatch(p: Pattern, s: text) {
    forall i {:trigger s[i..]} :: 0 <= i <= |s| ==> MatchLength(p, s[i..]) == 0
  }

  // Text free of the marker's first byte that starts the result also starts the input, and
  // the rest of the result is what became of the rest of the input.
  lemma {:induction false} PrefixWasThere(p: Pattern, s: text, marker: text, w: text)
    requires marker != [] && marker[0] !in w && HasPrefix(ReplaceAll(p, s, marker), w)
    ensures HasPrefix(s, w)
    ensures ReplaceAll(p, s, marker)[|w|..] == ReplaceAll(p, s[|w|..], marker)
    decreases |s|
  {
    hide MatchLength;
    if w != [] {
      var r := ReplaceAll(p, s, marker);
      assert r[0] == w[0];
      if MatchLength(p, s) > 0 { assert false; }
      assert r[1..] == ReplaceAll(p, s[1..], marker);
      assert HasPrefix(r[1..], w[1..]) by { assert r[1..][..|w| - 1] == r[..|w|][1..]; }
      PrefixWasThere(p, s[1..], marker, w[1..]);
      assert s[..|w|] == [s[0]] + s[1..][..|w| - 1];
      assert r[|w|..] == r[1..][|w| - 1..] && s[|w|..] == s[1..][|w| - 1..];
    }
  }

  // ---- No URI survives -------------------------------------------------------------------

  lemma UriMatchParts(s: text) returns (scheme: text)
    requires MatchLength(Uri, s) > 0
    ensures (scheme == PLAIN || scheme == SRV) && HasPrefix(s, scheme) && |s| > |scheme| && InUri(s[|scheme|])
  {
    scheme := if HasPrefix(s, SRV) && UriRun(s[|SRV|..]) > 0 then SRV else PLAIN;
  }

  lemma UriMatchFrom(s: text, scheme: text)
    requires (scheme == PLAIN || scheme == SRV) && HasPrefix(s, scheme) && |s| > |scheme| && InUri(s[|scheme|])
    ensures MatchLength(Uri, s) > 0
  {
  }

  // What follows in the result is text a URI may continue with only if the input had some.
  lemma ContinuesInInput(s: text)
    requires var r := ReplaceAll(Uri, s, REDACTED_URI); r != [] && InUri(r[0])
    ensures s != [] && InUri(s[0])
  {
    if MatchLength(Uri, s) > 0 { var scheme := UriMatchParts(s); assert s[0] == scheme[0] == 'm'; }
  }

  // Replacing does not make a match where there was none.
  lemma NoNewUri(s: text)
    requires MatchLength(Uri, s) == 0
    ensures MatchLength(Uri, ReplaceAll(Uri, s, REDACTED_URI)) == 0
  {
    var r := ReplaceAll(Uri, s, REDACTED_URI);
    if MatchLength(Uri, r) > 0 {
      var scheme := UriMatchParts(r);
      assert REDACTED_URI[0] !in scheme;
      PrefixWasThere(Uri, s, REDACTED_URI, scheme);
      ContinuesInInput(s[|scheme|..]);
      UriMatchFrom(s, scheme);
    }
  }

  lemma StartsOtherwise(s: text)
    requires s == [] || s[0] != 'm'
    ensures MatchLength(Uri, s) == 0
  {
    if MatchLength(Uri, s) > 0 { var scheme := UriMatchParts(s); }
  }

  lemma DropInto(a: text, b: text, i: nat)
    requires i <= |a + b|
    ensures if i < |a| then (a + b)[i..] != [] && (a + b)[i..][0] == a[i] else (a + b)[i..] == b[i - |a|..]
  {
  }

  // No emitted text contains a match of the URI pattern.
  lemma {:induction false} UrisGone(s: text, i: nat)
    requires i <= |ReplaceAll(Uri, s, REDACTED_URI)|
    ensures MatchLength(Uri, ReplaceAll(Uri, s, REDACTED_URI)[i..]) == 0
    decreases |s|
  {
    hide MatchLength;
    var r, n := ReplaceAll(Uri, s, REDACTED_URI), MatchLength(Uri, s);
    if s == [] {
      StartsOtherwise(r[i..]);
    } else if n > 0 {
      DropInto(REDACTED_URI, ReplaceAll(Uri, s[n..], REDACTED_URI), i);
      if i < |REDACTED_URI| { StartsOtherwise(r[i..]); } else { UrisGone(s[n..], i - |REDACTED_URI|); }
    } else {
      DropInto([s[0]], ReplaceAll(Uri, s[1..], REDACTED_URI), i);
      if i == 0 { NoNewUri(s); assert r[0..] == r; } else { UrisGone(s[1..], i - 1); }
    }
  }

  // ---- No secret survives -----------------------------------------------------------------

  // An uppercase marker between brackets: both markers are of this shape.
  predicate IsMarker(marker: text) {
    |marker| >= 2 && marker[0] == '[' && marker[|marker| - 1] == ']'
  }

  predicate Bracketless(x: text) { '[' !in x && ']' !in x }

  lemma OccursLater(a: text, b: text, x: text, i: int)
    requires |a| <= i
    ensures OccursAt(a + b, x, i) <==> OccursAt(b, x, i - |a|)
  {
    if i + |x| <= |a + b| { assert (a + b)[i..i + |x|] == b[i - |a|..i - |a| + |x|]; }
  }

  lemma OccursByte(s: text, x: text, i: int, k: int)
    requires OccursAt(s, x, i) && 0 <= k < |x|
    ensures x[k] == s[i + k]
  {
  }

  // A string without brackets that occurs neither in the input nor inside the marker does
  // not occur in the result: it cannot straddle a marker.
  lemma {:induction false} StaysAbsent(p: Pattern, s: text, marker: text, x: text, i: int)
    requires IsMarker(marker) && x != [] && Bracketless(x) && !Contains(marker[1..|marker| - 1], x)
    requires p == Literal(x) || !Contains(s, x)
    ensures !OccursAt(ReplaceAll(p, s, marker), x, i)
    decreases |s|
  {
    var r := ReplaceAll(p, s, marker);
    if s != [] && OccursAt(r, x, i) {
      var n := MatchLength(p, s);
      if n > 0 {
        var rest := ReplaceAll(p, s[n..], marker);
        if i >= |marker| {
          OccursLater(marker, rest, x, i);
          SuffixAbsent(s, n, x);
          StaysAbsent(p, s[n..], marker, x, i - |marker|);
        } else {
          MarkerAbsent(marker, rest, x, i);
        }
      } else if i > 0 {
        var rest := ReplaceAll(p, s[1..], marker);
        OccursLater([s[0]], rest, x, i);
        SuffixAbsent(s, 1, x);
        StaysAbsent(p, s[1..], marker, x, i - 1);
      } else {
        PrefixWasThere(p, s, marker, x);
        assert OccursAt(s, x, 0);
      }
    }
  }

  lemma SuffixAbsent(s: text, n: nat, x: text)
    requires n <= |s|
    ensures Contains(s[n..], x) ==> Contains(s, x)
  {
    if Contains(s[n..], x) {
      var i :| OccursAt(s[n..], x, i);
      assert s == s[..n] + s[n..];
      OccursLater(s[..n], s[n..], x, n + i);
    }
  }

  lemma MarkerAbsent(marker: text, rest: text, x: text, i: nat)
    requires IsMarker(marker) && x != [] && Bracketless(x) && !Contains(marker[1..|marker| - 1], x)
    requires i < |marker|
    ensures !OccursAt(marker + rest, x, i)
  {
    var r := marker + rest;
    if OccursAt(r, x, i) {
      var last := |marker| - 1;
      if i == 0 {
        OccursByte(r, x, i, 0);
      } else if i + |x| > last {
        OccursByte(r, x, i, last - i);
      } else {
        assert r[i..i + |x|] == marker[i..i + |x|] == marker[1..last][i - 1..i - 1 + |x|];
        assert OccursAt(marker[1..last], x, i - 1);
      }
    }
  }

  lemma NowhereIn(p: Pattern, s: text, marker: text, x: text)
    requires IsMarker(marker) && x != [] && Bracketless(x) && !Contains(marker[1..|marker| - 1], x)
    requires p == Literal(x) || !Contains(s, x)
    ensures !Contains(ReplaceAll(p, s, marker), x)
  {
    forall i ensures !OccursAt(ReplaceAll(p, s, marker), x, i) { StaysAbsent(p, s, marker, x, i); }
  }

  // A secret the log can be expected to hide.
  ghost predicate Hideable(x: text) { x != [] && Bracketless(x) && !Contains("REDACTED URI", x) }

  lemma MarkersFree(x: text)
    requires Hideable(x)
    ensures IsMarker(REDACTED) && !Contains(REDACTED[1..|REDACTED| - 1], x)
    ensures IsMarker(REDACTED_URI) && !Contains(REDACTED_URI[1..|REDACTED_URI| - 1], x)
  {
    assert REDACTED_URI[1..|REDACTED_URI| - 1] == "REDACTED URI";
    assert REDACTED[1..|REDACTED| - 1] == "REDACTED";
    PartOfMarker(x);
  }

  lemma PartOfMarker(x: text)
    ensures Contains("REDACTED", x) ==> Contains("REDACTED URI", x)
  {
    var short: text, long: text := "REDACTED", "REDACTED URI";
    if Contains(short, x) {
      var i :| OccursAt(short, x, i);
      assert long[..8] == short;
      assert long[i..i + |x|] == short[i..i + |x|];
      assert OccursAt(long, x, i);
    }
  }

  lemma ShortMarkerFree(x: text)
    requires x != [] && Bracketless(x) && !Contains("REDACTED", x)
    ensures IsMarker(REDACTED) && !Contains(REDACTED[1..|REDACTED| - 1], x)
  {
    assert REDACTED[1..|REDACTED| - 1] == "REDACTED";
  }

  lemma {:induction false} SecretsGone(secrets: seq<text>, line: text, x: text)
    requires x in secrets && x != [] && Bracketless(x) && !Contains("REDACTED", x)
    ensures !Contains(RedactSecrets(secrets, line), x)
  {
    var shorter, last := secrets[..|secrets| - 1], secrets[|secrets| - 1];
    assert secrets == shorter + [last];
    ShortMarkerFree(x);
    if x in shorter { SecretsGone(shorter, line, x); }
    if last != [] { NowhereIn(Literal(last), RedactSecrets(shorter, line), REDACTED, x); }
  }

  // Whatever the order of the replacements, an emitted line shows no match of the URI
  // pattern and none of the secrets, unless a secret has a bracket in it or is part of the
  // text of the markers themselves.
  lemma RedactionSound(secrets: seq<text>, line: text)
    ensures NoMatch(Uri, Redact(secrets, line))
    ensures forall x :: x in secrets && Hideable(x) ==> !Contains(Redact(secrets, line), x)
  {
    hide Redact;
    LineHasNoUri(secrets, line);
    forall x | x in secrets && Hideable(x) ensures !Contains(Redact(secrets, line), x) {
      PartOfMarker(x);
      LineShows(secrets, line, x);
    }
  }

  lemma LineHasNoUri(secrets: seq<text>, line: text)
    ensures NoMatch(Uri, Redact(secrets, line))
  {
    var s := RedactSecrets(secrets, line);
    forall i | 0 <= i <= |ReplaceAll(Uri, s, REDACTED_URI)|
      ensures MatchLength(Uri, ReplaceAll(Uri, s, REDACTED_URI)[i..]) == 0
    {
      UrisGone(s, i);
    }
  }

  // ---- Which secrets a line shows -------------------------------------------------------------

  lemma ContainsPart(a: text, b: text, x: text)
    requires Contains(a, b) && Contains(b, x)
    ensures Contains(a, x)
  {
    var i :| OccursAt(a, b, i);
    var j :| OccursAt(b, x, j);
    var before, after := a[..i], a[i + |b|..];
    assert a == before + (b + after);
    assert (b + after)[j..j + |x|] == b[j..j + |x|];
    OccursLater(before, b + after, x, i + j);
  }

  lemma {:induction false} NoMatchUnchanged(p: Pattern, s: text, marker: text)
    requires NoMatch(p, s)
    ensures ReplaceAll(p, s, marker) == s
  {
    if s != [] {
      assert s[0..] == s;
      forall i | 0 <= i <= |s[1..]| ensures MatchLength(p, s[1..][i..]) == 0 { assert s[1..][i..] == s[i + 1..]; }
      NoMatchUnchanged(p, s[1..], marker);
    }
  }

  // A match anywhere leaves the marker somewhere.
  lemma {:induction false} MatchLeavesMarker(p: Pattern, s: text, marker: text, i: nat)
    requires i < |s| && MatchLength(p, s[i..]) > 0
    ensures Contains(ReplaceAll(p, s, marker), marker)
    decreases |s|
  {
    var n := MatchLength(p, s);
    if n > 0 {
      assert OccursAt(marker + ReplaceAll(p, s[n..], marker), marker, 0);
    } else {
      assert s[0..] == s;
      assert s[i..] == s[1..][i - 1..];
      MatchLeavesMarker(p, s[1..], marker, i - 1);
      var rest := ReplaceAll(p, s[1..], marker);
      var j :| OccursAt(rest, marker, j);
      OccursLater([s[0]], rest, marker, j + 1);
    }
  }

  lemma PrefixOccurs(y: text, s: text, i: nat)
    requires i <= |s|
    ensures HasPrefix(s[i..], y) <==> OccursAt(s, y, i)
  {
    if i + |y| <= |s| { assert s[i..][..|y|] == s[i..i + |y|]; }
  }

  lemma LiteralMatches(y: text, s: text)
    requires y != []
    ensures Contains(s, y) <==> !NoMatch(Literal(y), s)
    ensures Contains(s, y) ==> Contains(ReplaceAll(Literal(y), s, REDACTED), REDACTED)
    ensures !Contains(s, y) ==> ReplaceAll(Literal(y), s, REDACTED) == s
  {
    if Contains(s, y) {
      var i :| OccursAt(s, y, i);
      PrefixOccurs(y, s, i);
      MatchLeavesMarker(Literal(y), s, REDACTED, i);
    } else {
      forall i | 0 <= i <= |s| ensures MatchLength(Literal(y), s[i..]) == 0 { PrefixOccurs(y, s, i); }
      NoMatchUnchanged(Literal(y), s, REDACTED);
    }
  }

  // Either no secret applied, or the last one that did left its marker whole.
  lemma {:induction false} SecretsLeaveMarker(secrets: seq<text>, s: text)
    ensures RedactSecrets(secrets, s) == s || Contains(RedactSecrets(secrets, s), REDACTED)
    ensures forall x :: x in secrets && x != [] && Contains(s, x) ==> Contains(RedactSecrets(secrets, s), REDACTED)
  {
    hide ReplaceAll;
    if secrets != [] {
      var shorter, last := secrets[..|secrets| - 1], secrets[|secrets| - 1];
      assert secrets == shorter + [last];
      SecretsLeaveMarker(shorter, s);
      if last != [] { LiteralMatches(last, RedactSecrets(shorter, s)); }
    }
  }

  // What a line may show of a secret: a part of the first marker, or a part of the second
  // where the second is put.
  lemma LineShows(secrets: seq<text>, line: text, x: text)
    requires x in secrets && x != [] && Bracketless(x)
    ensures Contains(Redact(secrets, line), x) ==>
              Contains("REDACTED", x) || (Contains("REDACTED URI", x) && !NoMatch(Uri, RedactSecrets(secrets, line)))
  {
    hide ReplaceAll, NoMatch, RedactSecrets;
    if !Contains("REDACTED", x) {
      var s := RedactSecrets(secrets, line);
      SecretsGone(secrets, line, x);
      if NoMatch(Uri, s) { NoMatchUnchanged(Uri, s, REDACTED_URI); }
      if !Contains("REDACTED URI", x) { MarkersFree(x); NowhereIn(Uri, s, REDACTED_URI, x); }
    }
  }

  lemma MarkerTexts()
    ensures Contains(REDACTED, "REDACTED") && Contains(REDACTED_URI, "REDACTED URI")
      && Contains("REDACTED URI", "REDACTED")
  {
    assert OccursAt(REDACTED, "REDACTED", 1) && OccursAt(REDACTED_URI, "REDACTED URI", 1);
    assert OccursAt("REDACTED URI", "REDACTED", 0);
  }

  lemma UriLeavesText(secrets: seq<text>, line: text, x: text)
    requires Contains("REDACTED URI", x) && !NoMatch(Uri, RedactSecrets(secrets, line))
    ensures Contains(Redact(secrets, line), x)
  {
    hide ReplaceAll, RedactSecrets;
    var s := RedactSecrets(secrets, line);
    var i :| 0 <= i <= |s| && MatchLength(Uri, s[i..]) > 0;
    MatchLeavesMarker(Uri, s, REDACTED_URI, i);
    MarkerTexts();
    ContainsPart(REDACTED_URI, "REDACTED URI", x);
    ContainsPart(Redact(secrets, line), REDACTED_URI, x);
  }

  // A secret that is part of the first marker shows in the line that consists of it.
  lemma SecretLeavesText(secrets: seq<text>, x: text)
    requires x in secrets && x != [] && Contains("REDACTED", x)
    ensures Contains(Redact(secrets, x), x)
  {
    hide ReplaceAll, RedactSecrets, NoMatch;
    assert OccursAt(x, x, 0);
    SecretsLeaveMarker(secrets, x);
    var s := RedactSecrets(secrets, x);
    MarkerTexts();
    if NoMatch(Uri, s) {
      NoMatchUnchanged(Uri, s, REDACTED_URI);
      ContainsPart(REDACTED, "REDACTED", x);
      ContainsPart(s, REDACTED, x);
    } else {
      ContainsPart("REDACTED URI", "REDACTED", x);
      UriLeavesText(secrets, x, x);
    }
  }

  // For any list of secrets, which of them some line shows: those in the first marker, and
  // those in the second if there is a line in which a URI outlives the secrets.
  lemma HidingExact(secrets: seq<text>, x: text)
    requires x in secrets && x != [] && Bracketless(x)
    ensures (exists line :: Contains(Redact(secrets, line), x)) <==>
              Contains("REDACTED", x) ||
              (Contains("REDACTED URI", x) && exists line :: !NoMatch(Uri, RedactSecrets(secrets, line)))
  {
    hide Redact, RedactSecrets, NoMatch;
    if line :| Contains(Redact(secrets, line), x) { LineShows(secrets, line, x); }
    if Contains("REDACTED", x) { SecretLeavesText(secrets, x); }
    if Contains("REDACTED URI", x) {
      if line :| !NoMatch(Uri, RedactSecrets(secrets, line)) { UriLeavesText(secrets, line, x); }
    }
  }

  const EXAMPLE: text := "mongodb://q"

  lemma ExampleUri()
    ensures ReplaceAll(Uri, EXAMPLE, REDACTED_URI) == REDACTED_URI
  {
    assert EXAMPLE[10..] == ['q'] && UriRun(EXAMPLE[10..]) == 1;
    assert HasPrefix(EXAMPLE, PLAIN) && !HasPrefix(EXAMPLE, SRV);
    assert MatchLength(Uri, EXAMPLE) == 11 && EXAMPLE[11..] == [];
  }

  predicate MarkerByte(c: byte) { c == ' ' || 'A' <= c <= 'Z' }

  lemma ExampleAvoids(c: byte)
    requires MarkerByte(c)
    ensures c !in EXAMPLE
  {
  }

  lemma InnerBytes(i: nat)
    requires i < |"REDACTED URI"|
    ensures MarkerByte("REDACTED URI"[i])
  {
  }

  lemma InsideBrackets(inner: text, x: text, i: nat)
    requires OccursAt(inner, x, i)
    ensures OccursAt(['['] + (inner + [']']), x, i + 1)
  {
    OccursLater(['['], inner + [']'], x, i + 1);
    assert (inner + [']'])[i..i + |x|] == inner[i..i + |x|];
  }

  lemma ShownIn(x: text, line: text)
    requires x != [] && x[0] !in line && Contains(ReplaceAll(Uri, line, REDACTED_URI), x)
    ensures Contains(Redact([x], line), x)
  {
    Untouched(x, line);
    assert [x][..0] == [];
    assert RedactSecrets([x][..0], line) == line;
  }

  lemma ShownByMarker(x: text)
    requires x != [] && Contains("REDACTED URI", x)
    ensures Contains(Redact([x], EXAMPLE), x)
  {
    var i :| OccursAt("REDACTED URI", x, i);
    OccursByte("REDACTED URI", x, i, 0);
    InnerBytes(i);
    ExampleAvoids(x[0]);
    InsideBrackets("REDACTED URI", x, i);
    assert REDACTED_URI == ['['] + ("REDACTED URI" + [']']);
    ExampleUri();
    ShownIn(x, EXAMPLE);
  }

  lemma {:induction false} Untouched(x: text, s: text)
    requires x != [] && x[0] !in s
    ensures ReplaceAll(Literal(x), s, REDACTED) == s
  {
    if s != [] { Untouched(x, s[1..]); }
  }

  // ---- Replacement, written out ------------------------------------------------------------------

  // A byte that ends a URI: white space or a quotation mark, by its code.
  predicate Stop(c: byte) { c as nat in {9, 10, 12, 13, 32, 34, 39} }

  predicate Word(w: text) { w != [] && forall i :: 0 <= i < |w| ==> !Stop(w[i]) }
  predicate Stops(b: text) { b == [] || Stop(b[0]) }
  predicate Scheme(s: text) { s == "mongodb://" || s == "mongodb+srv://" }
  ghost predicate NoScheme(a: text) { !Contains(a, "mongodb://") && !Contains(a, "mongodb+srv://") }

  lemma StopsUri(c: byte)
    ensures Stop(c) <==> !InUri(c)
  {
  }

  lemma {:induction false} WholeRun(w: text, b: text)
    requires (w == [] || Word(w)) && Stops(b)
    ensures UriRun(w + b) == |w|
  {
    if w == [] {
      assert w + b == b;
      if b != [] { StopsUri(b[0]); }
    } else {
      StopsUri(w[0]);
      assert (w + b)[1..] == w[1..] + b;
      WholeRun(w[1..], b);
    }
  }

  lemma SchemeMatches(scheme: text, w: text, b: text)
    requires Scheme(scheme) && (w == [] || Word(w)) && Stops(b)
    ensures MatchLength(Uri, scheme + w + b) == if w == [] then 0 else |scheme| + |w|
  {
    hide Scheme, Word, Stops, UriRun, HasPrefix;
    WholeRun(w, b);
    Assoc(scheme, w, b);
    assert (scheme + (w + b))[|scheme|..] == w + b;
    OneSchemeOnly(scheme, w + b);
  }

  lemma OneSchemeOnly(scheme: text, rest: text)
    requires Scheme(scheme)
    ensures scheme == PLAIN || scheme == SRV
    ensures HasPrefix(scheme + rest, PLAIN) <==> scheme == PLAIN
    ensures HasPrefix(scheme + rest, SRV) <==> scheme == SRV
  {
    var s := scheme + rest;
    assert s[..|scheme|] == scheme && s[7] == scheme[7];
    assert HasPrefix(s, SRV) ==> s[..|SRV|][7] == '+';
    assert HasPrefix(s, PLAIN) ==> s[..|PLAIN|][7] == ':';
  }

  // What no match starts in is passed over.
  lemma {:induction false} PassedOver(p: Pattern, s: text, marker: text, n: nat)
    requires n <= |s| && forall i :: 0 <= i < n ==> MatchLength(p, s[i..]) == 0
    ensures ReplaceAll(p, s, marker) == s[..n] + ReplaceAll(p, s[n..], marker)
  {
    hide MatchLength;
    if n == 0 {
      assert s[0..] == s;
    } else {
      assert s[0..] == s;
      forall i | 0 <= i < n - 1 ensures MatchLength(p, s[1..][i..]) == 0 { assert s[1..][i..] == s[i + 1..]; }
      PassedOver(p, s[1..], marker, n - 1);
      assert s[1..][n - 1..] == s[n..];
      assert s[..n] == [s[0]] + s[1..][..n - 1];
    }
  }

  lemma SchemeStarts(scheme: text, k: nat)
    requires Scheme(scheme) && k < |scheme|
    ensures scheme[k] == 'm' <==> k == 0
  {
  }

  lemma Within(a: text, rest: text, scheme: text, i: nat)
    requires i + |scheme| <= |a|
    ensures HasPrefix(a[i..] + rest, scheme) ==> Contains(a, scheme)
  {
    assert (a[i..] + rest)[..|scheme|] == a[i..i + |scheme|];
    assert HasPrefix(a[i..] + rest, scheme) ==> OccursAt(a, scheme, i);
  }

  lemma Across(a: text, rest: text, scheme: text, i: nat)
    requires Scheme(scheme) && i < |a| < i + |scheme| && (rest == [] || rest[0] == 'm')
    ensures !HasPrefix(a[i..] + rest, scheme)
  {
    var s, k := a[i..] + rest, |a| - i;
    SchemeStarts(scheme, k);
    if rest != [] { assert s[k] == 'm'; }
    if |scheme| <= |s| { assert s[..|scheme|][k] == s[k]; }
  }

  // Before the first scheme no match starts: none can reach across into it.
  lemma NoneBefore(a: text, rest: text, i: nat)
    requires NoScheme(a) && i < |a| && (rest == [] || rest[0] == 'm')
    ensures MatchLength(Uri, (a + rest)[i..]) == 0
  {
    hide MatchLength, HasPrefix, Contains;
    assert (a + rest)[i..] == a[i..] + rest;
    if MatchLength(Uri, a[i..] + rest) > 0 {
      var scheme := UriMatchParts(a[i..] + rest);
      if i + |scheme| <= |a| { Within(a, rest, scheme, i); } else { Across(a, rest, scheme, i); }
    }
  }

  lemma NoneInside(scheme: text, b: text, i: nat)
    requires Scheme(scheme) && 0 < i < |scheme|
    ensures MatchLength(Uri, (scheme + b)[i..]) == 0
  {
    SchemeStarts(scheme, i);
    assert (scheme + b)[i..][0] == scheme[i];
    StartsOtherwise((scheme + b)[i..]);
  }

  // A URI goes as a whole, from its scheme to the next white space or quotation mark, and what
  // comes behind it is treated as if it stood alone.
  lemma UriReplaced(a: text, scheme: text, w: text, b: text)
    requires NoScheme(a) && Scheme(scheme) && Word(w) && Stops(b)
    ensures Redact([], a + scheme + w + b) == a + "[REDACTED URI]" + Redact([], b)
  {
    hide MatchLength, NoScheme, Stops;
    var s, rest := a + scheme + w + b, scheme + w + b;
    assert s == a + rest && s[..|a|] == a && s[|a|..] == rest;
    forall i | 0 <= i < |a| ensures MatchLength(Uri, s[i..]) == 0 { NoneBefore(a, rest, i); }
    PassedOver(Uri, s, REDACTED_URI, |a|);
    SchemeMatches(scheme, w, b);
    assert rest[|scheme| + |w|..] == b;
    Assoc(a, REDACTED_URI, ReplaceAll(Uri, b, REDACTED_URI));
  }

  // A scheme with nothing behind it stays,
  lemma BareScheme(a: text, scheme: text, b: text)
    requires NoScheme(a) && Scheme(scheme) && Stops(b)
    ensures Redact([], a + scheme + b) == a + scheme + Redact([], b)
  {
    hide MatchLength, NoScheme, Stops;
    var rest := scheme + b;
    var s := a + scheme + b;
    assert s == a + rest && s[..|a + scheme|] == a + scheme && s[|a + scheme|..] == b;
    forall i | 0 <= i < |a + scheme| ensures MatchLength(Uri, s[i..]) == 0 {
      if i < |a| {
        NoneBefore(a, rest, i);
      } else {
        assert s[i..] == rest[i - |a|..];
        assert scheme + [] == scheme;
        if i > |a| { NoneInside(scheme, b, i - |a|); } else { SchemeMatches(scheme, [], b); }
      }
    }
    PassedOver(Uri, s, REDACTED_URI, |a + scheme|);
  }

  // and so does text without one.
  lemma WithoutScheme(a: text)
    requires NoScheme(a)
    ensures Redact([], a) == a
  {
    hide MatchLength, NoScheme;
    forall i | 0 <= i < |a| ensures MatchLength(Uri, a[i..]) == 0 { NoneBefore(a, [], i); assert a + [] == a; }
    PassedOver(Uri, a, REDACTED_URI, |a|);
    assert a[..|a|] == a && a[|a|..] == [];
  }

  // A secret goes as a whole where it first occurs, and on from behind it.
  lemma SecretReplaced(a: text, x: text, b: text)
    requires x != [] && forall i :: 0 <= i < |a| ==> !OccursAt(a + x + b, x, i)
    ensures RedactSecrets([x], a + x + b) == a + "[REDACTED]" + RedactSecrets([x], b)
  {
    hide MatchLength, OccursAt;
    var s := a + x + b;
    OneSecret(x, s);
    OneSecret(x, b);
    forall i | 0 <= i < |a| ensures MatchLength(Literal(x), s[i..]) == 0 { LiteralHere(x, s, i); }
    PassedOver(Literal(x), s, REDACTED, |a|);
    assert s[..|a|] == a && s[|a|..] == x + b && (x + b)[|x|..] == b;
    LiteralHere(x, s, |a|);
    assert OccursAt(s, x, |a|) by { ItOccurs(a, x, b); }
    Assoc(a, REDACTED, ReplaceAll(Literal(x), b, REDACTED));
  }

  lemma ItOccurs(a: text, x: text, b: text)
    ensures OccursAt(a + x + b, x, |a|)
  {
  }

  lemma LiteralHere(x: text, s: text, i: nat)
    requires i <= |s|
    ensures MatchLength(Literal(x), s[i..]) == if OccursAt(s, x, i) then |x| else 0
  {
    PrefixOccurs(x, s, i);
  }

  lemma OneSecret(x: text, s: text)
    requires x != []
    ensures RedactSecrets([x], s) == ReplaceAll(Literal(x), s, REDACTED)
  {
    assert [x][..0] == [] && RedactSecrets([], s) == s;
  }

  // The secrets one after the other, the empty ones left out, and the URIs after all of them.
  lemma InTurn(secrets: seq<text>, x: text, line: text)
    ensures RedactSecrets([], line) == line && RedactSecrets([[]], line) == line
    ensures RedactSecrets(secrets + [x], line) == RedactSecrets([x], RedactSecrets(secrets, line))
    ensures x != [] && !Contains(line, x) ==> RedactSecrets([x], line) == line
    ensures Redact(secrets, line) == Redact([], RedactSecrets(secrets, line))
  {
    hide ReplaceAll, Contains;
    var none: text := [];
    assert (secrets + [x])[..|secrets|] == secrets && [x][..0] == [] && [none][..0] == [];
    assert RedactSecrets([], RedactSecrets(secrets, line)) == RedactSecrets(secrets, line);
    if x != [] { OneSecret(x, line); LiteralMatches(x, line); }
  }
}
