/** The log filter: lines put together again from any chunking, capped, and redacted. */
module LogFilter {
  import opened Text
  import opened Redaction
  import opened Splitting

  const LINE_CAP: nat := 65536
  const OMITTED: text := "[oversized tool log line omitted]\n"

  // ---- The whole stream --------------------------------------------------------------------

  // A terminated line, newline included, and what is left after the last newline.
  function RenderLine(redact: text -> text, line: text): text {
    if |line| <= LINE_CAP then redact(line) else OMITTED
  }

  function RenderTail(redact: text -> text, tail: text): text {
    if |tail| <= LINE_CAP then redact(tail) else []
  }

  // The log of a list of lines, given without their newlines.
  function RenderLines(redact: text -> text, lines: seq<text>): text {
    if lines == [] then []
    else RenderLines(redact, lines[..|lines| - 1]) + RenderLine(redact, lines[|lines| - 1] + ['\n'])
  }

  // The lines of a stream, without their newlines, and what follows the last of them.
  function Lines(s: text): seq<text> {
    var parts := Split(s, '\n');
    parts[..|parts| - 1]
  }

  function Tail(s: text): text {
    var parts := Split(s, '\n');
    parts[|parts| - 1]
  }

  // What the log must show of a stream.
  function Render(redact: text -> text, s: text): text {
    RenderLines(redact, Lines(s)) + RenderTail(redact, Tail(s))
  }

  predicate AreLines(lines: seq<text>, tail: text) {
    Free(tail, '\n') && forall i :: 0 <= i < |lines| ==> Free(lines[i], '\n')
  }

  // Lines and Tail are the one way to cut a stream at its newlines.
  lemma LinesJoin(s: text)
    ensures Join(Lines(s) + [Tail(s)], '\n') == s && AreLines(Lines(s), Tail(s))
  {
    SplitJoin(s, '\n');
    assert Lines(s) + [Tail(s)] == Split(s, '\n');
  }

  lemma LinesUnique(lines: seq<text>, tail: text)
    requires AreLines(lines, tail)
    ensures Lines(Join(lines + [tail], '\n')) == lines && Tail(Join(lines + [tail], '\n')) == tail
  {
    JoinSplit(lines + [tail], '\n');
  }

  // What the log shows, line by line.
  lemma RenderPerLine(redact: text -> text, lines: seq<text>, tail: text)
    requires AreLines(lines, tail)
    ensures Render(redact, Join(lines + [tail], '\n')) == RenderLines(redact, lines) + RenderTail(redact, tail)
  {
    LinesUnique(lines, tail);
  }

  lemma {:induction false} LinesAppend(redact: text -> text, first: text, lines: seq<text>)
    ensures RenderLines(redact, [first] + lines) == RenderLine(redact, first + ['\n']) + RenderLines(redact, lines)
  {
    hide RenderLine;
    var all := [first] + lines;
    if lines == [] {
      assert all == [first] && all[..0] == [];
    } else {
      var before := lines[..|lines| - 1];
      LinesAppend(redact, first, before);
      assert all[..|all| - 1] == [first] + before && all[|all| - 1] == lines[|lines| - 1];
    }
  }

  lemma EmptyStream(redact: text -> text)
    ensures Lines([]) == [] && Tail([]) == [] && RenderLines(redact, Lines([])) == []
  {
  }

  lemma {:induction false} AppendPiece(s: text, piece: text)
    requires Free(piece, '\n')
    ensures Lines(s + piece) == Lines(s) && Tail(s + piece) == Tail(s) + piece
  {
    if piece == [] {
      assert s + piece == s;
    } else {
      var shorter, c := piece[..|piece| - 1], piece[|piece| - 1];
      AppendPiece(s, shorter);
      assert (s + piece)[..|s + piece| - 1] == s + shorter;
      Assoc(Tail(s), shorter, [c]);
      assert piece == shorter + [c];
    }
  }

  lemma AppendBreak(redact: text -> text, s: text)
    ensures Tail(s + ['\n']) == []
    ensures RenderLines(redact, Lines(s + ['\n'])) ==
            RenderLines(redact, Lines(s)) + RenderLine(redact, Tail(s) + ['\n'])
  {
    assert (s + ['\n'])[..|s|] == s;
    var lines := Lines(s) + [Tail(s)];
    assert Lines(s + ['\n']) == lines && lines[..|lines| - 1] == Lines(s);
  }

  // ---- What a whole log shows --------------------------------------------------------------

  function Redactor(secrets: seq<text>): text -> text { (line: text) => Redact(secrets, line) }

  // The last byte of a rendered piece is a newline or the bracket of a marker.
  predicate Ends(s: text) { s == [] || s[|s| - 1] in ['\n', ']'] }

  lemma {:induction false} ReplaceAllEnds(p: Pattern, s: text, marker: text)
    requires IsMarker(marker) && Ends(s)
    ensures Ends(ReplaceAll(p, s, marker))
    decreases |s|
  {
    hide MatchLength;
    if s != [] {
      var n := if MatchLength(p, s) > 0 then MatchLength(p, s) else 1;
      ReplaceAllEnds(p, s[n..], marker);
    }
  }

  lemma {:induction false} SecretsEnd(secrets: seq<text>, s: text)
    requires Ends(s)
    ensures Ends(RedactSecrets(secrets, s))
  {
    hide ReplaceAll;
    if secrets != [] {
      var shorter, last := secrets[..|secrets| - 1], secrets[|secrets| - 1];
      SecretsEnd(shorter, s);
      ReplaceAllEnds(Literal(last), RedactSecrets(shorter, s), REDACTED);
    }
  }

  lemma RedactEnds(secrets: seq<text>, s: text)
    requires Ends(s)
    ensures Ends(Redact(secrets, s))
  {
    SecretsEnd(secrets, s);
    ReplaceAllEnds(Uri, RedactSecrets(secrets, s), REDACTED_URI);
  }

  // Text that cannot continue behind a newline or a bracket.
  predicate Unbroken(x: text) { x != [] && Bracketless(x) && forall i :: 0 <= i < |x| - 1 ==> x[i] != '\n' }

  lemma JoinHides(a: text, b: text, x: text)
    requires Unbroken(x) && Ends(a) && !Contains(a, x) && !Contains(b, x)
    ensures !Contains(a + b, x)
  {
    forall i ensures !OccursAt(a + b, x, i) {
      if i >= |a| { OccursLater(a, b, x, i); } else { NotAcross(a, b, x, i); }
    }
  }

  lemma NotAcross(a: text, b: text, x: text, i: int)
    requires Unbroken(x) && Ends(a) && i < |a|
    ensures OccursAt(a + b, x, i) ==> OccursAt(a, x, i)
  {
    if OccursAt(a + b, x, i) {
      if i + |x| > |a| {
        OccursByte(a + b, x, i, |a| - 1 - i);
      } else {
        assert (a + b)[i..i + |x|] == a[i..i + |x|];
      }
    }
  }

  lemma JoinHasNoUri(a: text, b: text)
    requires Ends(a) && NoMatch(Uri, a) && NoMatch(Uri, b)
    ensures NoMatch(Uri, a + b)
  {
    forall i | 0 <= i <= |a + b| ensures MatchLength(Uri, (a + b)[i..]) == 0 {
      DropInto(a, b, i);
      if i < |a| {
        assert (a + b)[i..] == a[i..] + b;
        assert Ends(a[i..]);
        if MatchLength(Uri, a[i..] + b) > 0 { UriAcross(a[i..], b); }
      }
    }
  }

  // A URI that starts in a text ends in it, or its scheme goes beyond the end.
  lemma UriAcross(a: text, b: text)
    requires a != [] && MatchLength(Uri, a + b) > 0
    ensures MatchLength(Uri, a) > 0 || !Ends(a)
  {
    var scheme := UriMatchParts(a + b);
    if |a| <= |scheme| {
      assert (a + b)[..|scheme|][|a| - 1] == a[|a| - 1];
    } else {
      assert (a + b)[..|scheme|] == a[..|scheme|] && (a + b)[|scheme|] == a[|scheme|];
      UriMatchFrom(a, scheme);
    }
  }

  // A line as it reaches Redact: short enough, with a newline at most at its end.
  predicate Emitted(line: text) { |line| <= LINE_CAP && forall i :: 0 <= i < |line| - 1 ==> line[i] != '\n' }

  ghost predicate HiddenInLines(secrets: seq<text>, x: text) {
    !Contains(OMITTED, x) && forall line :: Emitted(line) ==> !Contains(Redact(secrets, line), x)
  }

  lemma {:induction false} LinesHide(secrets: seq<text>, lines: seq<text>, x: text)
    requires Unbroken(x) && HiddenInLines(secrets, x) && forall i :: 0 <= i < |lines| ==> Free(lines[i], '\n')
    ensures !Contains(RenderLines(Redactor(secrets), lines), x) && Ends(RenderLines(Redactor(secrets), lines))
  {
    hide Redact, Contains;
    if lines == [] {
      NotInNothing(x);
    } else {
      var before, line := lines[..|lines| - 1], lines[|lines| - 1] + ['\n'];
      LinesHide(secrets, before, x);
      RedactEnds(secrets, line);
      JoinHides(RenderLines(Redactor(secrets), before), RenderLine(Redactor(secrets), line), x);
    }
  }

  lemma NotInNothing(x: text)
    requires x != []
    ensures !Contains([], x)
  {
  }

  lemma LogHides(secrets: seq<text>, stream: text, x: text)
    requires Unbroken(x) && HiddenInLines(secrets, x)
    ensures !Contains(Render(Redactor(secrets), stream), x)
  {
    hide Redact, Contains, RenderLines, Lines, Tail;
    LinesJoin(stream);
    LinesHide(secrets, Lines(stream), x);
    NotInNothing(x);
    JoinHides(RenderLines(Redactor(secrets), Lines(stream)), RenderTail(Redactor(secrets), Tail(stream)), x);
  }

  lemma {:induction false} LinesHaveNoUri(secrets: seq<text>, lines: seq<text>)
    ensures NoMatch(Uri, RenderLines(Redactor(secrets), lines)) && Ends(RenderLines(Redactor(secrets), lines))
  {
    hide Redact, NoMatch;
    NoUriInText();
    if lines != [] {
      var before, line := lines[..|lines| - 1], lines[|lines| - 1] + ['\n'];
      LinesHaveNoUri(secrets, before);
      RedactEnds(secrets, line);
      LineHasNoUri(secrets, line);
      JoinHasNoUri(RenderLines(Redactor(secrets), before), RenderLine(Redactor(secrets), line));
    }
  }

  lemma UriHasColon(s: text)
    ensures MatchLength(Uri, s) > 0 ==> ':' in s
  {
    if MatchLength(Uri, s) > 0 {
      var scheme := UriMatchParts(s);
      var k := if scheme == PLAIN then 7 else 11;
      assert s[..|scheme|][k] == s[k];
    }
  }

  lemma NoColonNoUri(s: text)
    requires ':' !in s
    ensures NoMatch(Uri, s)
  {
    hide MatchLength;
    forall i | 0 <= i <= |s| ensures MatchLength(Uri, s[i..]) == 0 { UriHasColon(s[i..]); }
  }

  lemma NoUriInText()
    ensures NoMatch(Uri, []) && NoMatch(Uri, OMITTED)
  {
    hide NoMatch;
    NoColonNoUri([]);
    NoColonNoUri(OMITTED);
  }

  lemma LogHasNoUri(secrets: seq<text>, stream: text)
    ensures NoMatch(Uri, Render(Redactor(secrets), stream))
  {
    hide Redact, NoMatch, RenderLines, Lines, Tail;
    LinesHaveNoUri(secrets, Lines(stream));
    LineHasNoUri(secrets, Tail(stream));
    NoUriInText();
    JoinHasNoUri(RenderLines(Redactor(secrets), Lines(stream)), RenderTail(Redactor(secrets), Tail(stream)));
  }

  // A secret that no log shows: without brackets, a newline at most at its end, and part of
  // none of the texts the filter itself writes.
  ghost predicate Concealed(x: text) { Unbroken(x) && !Contains("REDACTED URI", x) && !Contains(OMITTED, x) }

  // Whatever is written: no URI in the log, and no secret of this kind, on any line or across lines.
  lemma LogSound(secrets: seq<text>, stream: text)
    ensures NoMatch(Uri, Render(Redactor(secrets), stream))
    ensures forall x :: x in secrets && Concealed(x) ==> !Contains(Render(Redactor(secrets), stream), x)
  {
    hide Render, Redact, Contains;
    LogHasNoUri(secrets, stream);
    forall x | x in secrets && Concealed(x) ensures !Contains(Render(Redactor(secrets), stream), x) {
      forall line | Emitted(line) ensures !Contains(Redact(secrets, line), x) { RedactionSound(secrets, line); }
      LogHides(secrets, stream, x);
    }
  }

  // ---- Exactly which secrets a log can show ------------------------------------------------------

  ghost predicate SomeLogShows(secrets: seq<text>, x: text) {
    exists stream :: Contains(Render(Redactor(secrets), stream), x)
  }

  // There is a line in which a URI outlives the replacement of the secrets.
  ghost predicate UriOutlives(secrets: seq<text>) {
    exists line :: Emitted(line) && !NoMatch(Uri, RedactSecrets(secrets, line))
  }

  ghost predicate FreeOf(secrets: seq<text>, s: text) { forall x :: x in secrets && x != [] ==> !Contains(s, x) }

  // It does where some scheme and one byte more contain no secret,
  lemma UriOutlivesIf(secrets: seq<text>, scheme: text, c: byte)
    requires (scheme == PLAIN || scheme == SRV) && InUri(c)
    requires FreeOf(secrets, scheme + [c])
    ensures UriOutlives(secrets)
  {
    hide Contains;
    var line := scheme + [c];
    SecretsPass(secrets, line);
    assert line[..|scheme|] == scheme && line[|scheme|] == c && line[0..] == line;
    UriMatchFrom(line, scheme);
    assert Emitted(line);
  }

  lemma {:induction false} SecretsPass(secrets: seq<text>, line: text)
    requires FreeOf(secrets, line)
    ensures RedactSecrets(secrets, line) == line
  {
    hide Contains, ReplaceAll;
    if secrets != [] {
      var shorter, last := secrets[..|secrets| - 1], secrets[|secrets| - 1];
      assert secrets == shorter + [last];
      SecretsPass(shorter, line);
      if last != [] { LiteralMatches(last, line); }
    }
  }

  // and only where some scheme contains none.
  lemma UriOutlivesOnlyIf(secrets: seq<text>)
    requires UriOutlives(secrets)
    ensures FreeOf(secrets, PLAIN) || FreeOf(secrets, SRV)
  {
    hide Contains, MatchLength, RedactSecrets;
    var line :| Emitted(line) && !NoMatch(Uri, RedactSecrets(secrets, line));
    var s := RedactSecrets(secrets, line);
    var i :| 0 <= i <= |s| && MatchLength(Uri, s[i..]) > 0;
    var scheme := UriMatchParts(s[i..]);
    assert s == s[..i] + scheme + s[i + |scheme|..];
    ContainsMiddle(s[..i], scheme, s[i + |scheme|..]);
    forall x | x in secrets && x != [] ensures !Contains(scheme, x) { SchemeHasNoSecret(secrets, line, scheme, x); }
  }

  lemma SchemeHasNoSecret(secrets: seq<text>, line: text, scheme: text, x: text)
    requires (scheme == PLAIN || scheme == SRV) && x in secrets && x != []
    requires Contains(RedactSecrets(secrets, line), scheme)
    ensures !Contains(scheme, x)
  {
    hide RedactSecrets;
    if Contains(scheme, x) {
      ContainsPart(RedactSecrets(secrets, line), scheme, x);
      SchemePart(scheme, x);
      SecretsGone(secrets, line, x);
    }
  }

  // No byte of a scheme occurs in a marker.
  predicate SchemeByte(c: byte) { 'a' <= c <= 'z' || c in ['+', ':', '/'] }

  lemma SchemeBytes(k: nat)
    ensures k < |PLAIN| ==> SchemeByte(PLAIN[k])
    ensures k < |SRV| ==> SchemeByte(SRV[k])
  {
  }

  lemma MarkerByteIsNoSchemeByte(k: nat)
    requires k < |"REDACTED"|
    ensures !SchemeByte("REDACTED"[k])
  {
  }

  lemma SchemePart(scheme: text, x: text)
    requires (scheme == PLAIN || scheme == SRV) && x != [] && Contains(scheme, x)
    ensures Bracketless(x) && !Contains("REDACTED", x)
  {
    hide SchemeByte;
    var i :| OccursAt(scheme, x, i);
    forall k | 0 <= k < |x| ensures SchemeByte(x[k]) {
      OccursByte(scheme, x, i, k);
      SchemeBytes(i + k);
    }
    BracketIsNoSchemeByte();
    forall j ensures !OccursAt("REDACTED", x, j) { FirstByteFits(x, j); }
  }

  lemma BracketIsNoSchemeByte()
    ensures !SchemeByte('[') && !SchemeByte(']')
  {
  }

  lemma FirstByteFits(x: text, j: int)
    requires x != []
    ensures OccursAt("REDACTED", x, j) ==> !SchemeByte(x[0])
  {
    if OccursAt("REDACTED", x, j) {
      OccursByte("REDACTED", x, j, 0);
      MarkerByteIsNoSchemeByte(j);
    }
  }

  lemma ContainsFront(a: text, b: text, x: text)
    requires Contains(a, x)
    ensures Contains(a + b, x)
  {
    var i :| OccursAt(a, x, i);
    assert (a + b)[i..i + |x|] == a[i..i + |x|];
    assert OccursAt(a + b, x, i);
  }

  lemma OneLineStream(redact: text -> text, body: text)
    requires Free(body, '\n')
    ensures Render(redact, body + ['\n']) == RenderLine(redact, body + ['\n']) + RenderTail(redact, [])
  {
    hide Render, RenderLine, RenderTail, Split;
    RenderPerLine(redact, [body], []);
    var parts: seq<text> := [body] + [[]];
    assert parts[..1] == [body] && Join([body], '\n') == body;
    assert Join(parts, '\n') == body + ['\n'];
    assert [body][..0] == [];
    assert RenderLines(redact, [body]) == RenderLine(redact, body + ['\n']);
  }

  lemma NoLineStream(redact: text -> text, body: text)
    requires Free(body, '\n')
    ensures Render(redact, body) == RenderTail(redact, body)
  {
    hide Render, RenderTail, Split;
    RenderPerLine(redact, [], body);
    assert [] + [body] == [body] && Join([body], '\n') == body;
  }

  lemma LineShown(secrets: seq<text>, line: text, x: text)
    requires Emitted(line) && Contains(Redact(secrets, line), x)
    ensures SomeLogShows(secrets, x)
  {
    hide Redact, Render, Contains;
    var r := Redactor(secrets);
    if line != [] && line[|line| - 1] == '\n' {
      OneLineStream(r, line[..|line| - 1]);
      assert line == line[..|line| - 1] + ['\n'];
      ContainsFront(RenderLine(r, line), RenderTail(r, []), x);
    } else {
      NoLineStream(r, line);
    }
    assert Contains(Render(r, line), x);
  }

  // The line that is too long by one byte.
  function Oversized(): text { seq(LINE_CAP, _ => 'a') + ['\n'] }

  // The placeholder is written as it is, whatever the secrets.
  lemma OversizedShown(secrets: seq<text>, x: text)
    requires Contains(OMITTED, x)
    ensures Contains(Render(Redactor(secrets), Oversized()), x) && SomeLogShows(secrets, x)
  {
    hide Redact, Render, Contains;
    var r, body := Redactor(secrets), seq(LINE_CAP, _ => 'a');
    OneLineStream(r, body);
    ContainsFront(RenderLine(r, Oversized()), RenderTail(r, []), x);
  }

  lemma PartIsShort(x: text)
    requires Contains("REDACTED", x) && Unbroken(x)
    ensures Emitted(x)
  {
    var i :| OccursAt("REDACTED", x, i);
  }

  lemma MarkerShown(x: text)
    requires x != [] && Contains("REDACTED URI", x)
    ensures SomeLogShows([x], x)
  {
    hide Redact, Contains;
    ShownByMarker(x);
    LineShown([x], EXAMPLE, x);
  }

  // For any list of secrets: a log shows one of them if and only if it is part of the
  // placeholder of an oversized line, of the first marker, or - where a URI can outlive the
  // secrets - of the second.
  lemma LogShowsExactly(secrets: seq<text>, x: text)
    requires x in secrets && Unbroken(x)
    ensures SomeLogShows(secrets, x) <==>
              Contains(OMITTED, x) || Contains("REDACTED", x) || (Contains("REDACTED URI", x) && UriOutlives(secrets))
  {
    hide Render, Redact, RedactSecrets, NoMatch, Contains;
    if Contains(OMITTED, x) { OversizedShown(secrets, x); }
    if Contains("REDACTED", x) {
      SecretLeavesText(secrets, x);
      PartIsShort(x);
      LineShown(secrets, x, x);
    }
    if Contains("REDACTED URI", x) && UriOutlives(secrets) {
      var line :| Emitted(line) && !NoMatch(Uri, RedactSecrets(secrets, line));
      UriLeavesText(secrets, line, x);
      LineShown(secrets, line, x);
    }
    if SomeLogShows(secrets, x) {
      var stream :| Contains(Render(Redactor(secrets), stream), x);
      if HiddenInLines(secrets, x) { LogHides(secrets, stream, x); }
      if !Contains(OMITTED, x) {
        var line :| Emitted(line) && Contains(Redact(secrets, line), x);
        LineShows(secrets, line, x);
      }
    }
  }

  lemma ConcealedExactly(x: text)
    requires Unbroken(x)
    ensures (forall secrets :: x in secrets ==> !SomeLogShows(secrets, x)) <==> Concealed(x)
  {
    hide Contains, SomeLogShows;
    forall secrets | x in secrets ensures SomeLogShows(secrets, x) ==> !Concealed(x) {
      LogShowsExactly(secrets, x);
      PartOfMarker(x);
    }
    if !Concealed(x) {
      LogShowsExactly([x], x);
      if Contains("REDACTED URI", x) { MarkerShown(x); }
      assert x in [x];
    }
  }

  // ---- Secrets with a newline inside -------------------------------------------------------------

  predicate Broken(x: text) { exists i :: 0 <= i < |x| - 1 && x[i] == '\n' }

  lemma TooLongForALine(x: text, line: text)
    requires Broken(x) && Emitted(line)
    ensures !Contains(line, x)
  {
    var j :| 0 <= j < |x| - 1 && x[j] == '\n';
    forall i ensures !OccursAt(line, x, i) { if OccursAt(line, x, i) { OccursByte(line, x, i, j); } }
  }

  lemma PartHasNoUri(a: text, line: text, b: text)
    requires NoMatch(Uri, a + line + b)
    ensures NoMatch(Uri, line)
  {
    forall i | 0 <= i <= |line| ensures MatchLength(Uri, line[i..]) == 0 {
      assert (a + line + b)[|a| + i..] == line[i..] + b;
      if MatchLength(Uri, line[i..]) > 0 { LongerUri(line[i..], b); }
    }
  }

  lemma LongerUri(a: text, b: text)
    requires MatchLength(Uri, a) > 0
    ensures MatchLength(Uri, a + b) > 0
  {
    var scheme := UriMatchParts(a);
    assert (a + b)[..|scheme|] == a[..|scheme|];
    UriMatchFrom(a + b, scheme);
  }

  lemma Unredacted(x: text, line: text)
    requires Broken(x) && Emitted(line) && NoMatch(Uri, line)
    ensures Redact([x], line) == line
  {
    hide ReplaceAll, NoMatch, Contains;
    TooLongForALine(x, line);
    LiteralMatches(x, line);
    assert [x][..0] == [] && RedactSecrets([], line) == line;
    NoMatchUnchanged(Uri, line, REDACTED_URI);
  }

  lemma JoinTwo(before: seq<text>, last: text, rest: text)
    ensures Join(before + [last] + [rest], '\n') == Join(before + [last + ['\n'] + rest], '\n')
  {
    var parts, merged := before + [last] + [rest], before + [last + ['\n'] + rest];
    assert parts[..|parts| - 1] == before + [last] && (before + [last])[..|before|] == before;
    assert merged[..|before|] == before;
    if before != [] {
      Assoc(Join(before, '\n') + ['\n'], last, ['\n']);
      Assoc(Join(before, '\n') + ['\n'], last + ['\n'], rest);
    }
  }

  // Every line of it is short enough to be emitted.
  predicate Fits(x: text) {
    |Tail(x)| <= LINE_CAP && forall i :: 0 <= i < |Lines(x)| ==> |Lines(x)[i]| < LINE_CAP
  }

  // Lines that nothing applies to come out as they are.
  lemma {:induction false} LinesPass(x: text, lines: seq<text>, rest: text)
    requires Broken(x) && NoMatch(Uri, Join(lines + [rest], '\n'))
    requires forall i :: 0 <= i < |lines| ==> Free(lines[i], '\n') && |lines[i]| < LINE_CAP
    ensures RenderLines(Redactor([x]), lines) + rest == Join(lines + [rest], '\n')
  {
    hide Redact, NoMatch, Broken;
    if lines == [] {
      assert lines + [rest] == [rest];
    } else {
      var before, last := lines[..|lines| - 1], lines[|lines| - 1];
      var line := last + ['\n'];
      assert lines == before + [last];
      JoinTwo(before, last, rest);
      LinesPass(x, before, line + rest);
      var front := RenderLines(Redactor([x]), before);
      Assoc(front, line, rest);
      PartHasNoUri(front, line, rest);
      Unredacted(x, line);
    }
  }

  // A secret with a newline before its end shows where it is written, if it holds no URI and
  // no oversized line: no line has all of it.
  lemma BrokenShown(x: text)
    requires Broken(x) && Fits(x) && NoMatch(Uri, x)
    ensures Render(Redactor([x]), x) == x && SomeLogShows([x], x)
  {
    hide Redact, NoMatch, Broken, Lines, Tail, RenderLines;
    LinesJoin(x);
    LinesPass(x, Lines(x), Tail(x));
    var front := RenderLines(Redactor([x]), Lines(x));
    assert front + Tail(x) + [] == x;
    PartHasNoUri(front, Tail(x), []);
    Unredacted(x, Tail(x));
    assert OccursAt(x, x, 0);
  }

  // ---- What no log shows, whatever the secrets ---------------------------------------------------

  lemma ContainsMiddle(a: text, b: text, c: text)
    ensures Contains(a + b + c, b)
  {
    assert (a + b + c)[|a|..|a| + |b|] == b;
    assert OccursAt(a + b + c, b, |a|);
  }

  lemma ShownHasNoUri(secrets: seq<text>, x: text)
    requires SomeLogShows(secrets, x)
    ensures NoMatch(Uri, x)
  {
    hide Render, NoMatch;
    var stream :| Contains(Render(Redactor(secrets), stream), x);
    var log := Render(Redactor(secrets), stream);
    LogHasNoUri(secrets, stream);
    var i :| OccursAt(log, x, i);
    assert log == log[..i] + x + log[i + |x|..];
    PartHasNoUri(log[..i], x, log[i + |x|..]);
  }

  // Text without brackets that is longer than the markers does not come out of a line it was
  // not in.
  lemma {:induction false} AbsentFromSecrets(secrets: seq<text>, line: text, x: text)
    requires Hideable(x) && !Contains(line, x)
    ensures !Contains(RedactSecrets(secrets, line), x)
  {
    MarkersFree(x);
    if secrets != [] {
      var shorter, last := secrets[..|secrets| - 1], secrets[|secrets| - 1];
      AbsentFromSecrets(shorter, line, x);
      if last != [] { NowhereIn(Literal(last), RedactSecrets(shorter, line), REDACTED, x); }
    }
  }

  lemma AbsentFromLine(secrets: seq<text>, line: text, x: text)
    requires Hideable(x) && !Contains(line, x)
    ensures !Contains(Redact(secrets, line), x)
  {
    AbsentFromSecrets(secrets, line, x);
    MarkersFree(x);
    NowhereIn(Uri, RedactSecrets(secrets, line), REDACTED_URI, x);
  }

  lemma TooLong(s: text, x: text)
    requires |x| > |s|
    ensures !Contains(s, x)
  {
  }

  lemma OversizedHidden(secrets: seq<text>, x: text)
    requires Unbroken(x) && |x| > LINE_CAP
    ensures !SomeLogShows(secrets, x)
  {
    hide Redact, Contains, Render;
    TooLong("REDACTED URI", x);
    TooLong(OMITTED, x);
    forall line | Emitted(line) ensures !Contains(Redact(secrets, line), x) {
      TooLong(line, x);
      AbsentFromLine(secrets, line, x);
    }
    forall stream ensures !Contains(Render(Redactor(secrets), stream), x) { LogHides(secrets, stream, x); }
  }

  lemma {:induction false} PartContained(parts: seq<text>, i: nat)
    requires i < |parts|
    ensures Contains(Join(parts, '\n'), if i < |parts| - 1 then parts[i] + ['\n'] else parts[i])
  {
    hide Contains;
    var last := |parts| - 1;
    if last == 0 {
      ContainsMiddle([], parts[0], []);
      assert [] + parts[0] + [] == parts[0];
    } else {
      var before := parts[..last];
      var front := Join(before, '\n') + ['\n'];
      if i == last {
        ContainsMiddle(front, parts[last], []);
        assert front + parts[last] + [] == Join(parts, '\n');
      } else if i < last - 1 {
        PartContained(before, i);
        ContainsFront(Join(before, '\n'), ['\n'] + parts[last], parts[i] + ['\n']);
        Assoc(Join(before, '\n'), ['\n'], parts[last]);
      } else {
        var head := if last == 1 then [] else Join(before[..last - 1], '\n') + ['\n'];
        assert Join(before, '\n') == head + parts[i];
        Assoc(head, parts[i], ['\n']);
        ContainsMiddle(head, parts[i] + ['\n'], parts[last]);
      }
    }
  }

  lemma PartShown(secrets: seq<text>, x: text, part: text)
    requires SomeLogShows(secrets, x) && Contains(x, part)
    ensures SomeLogShows(secrets, part)
  {
    hide Render, Contains;
    var stream :| Contains(Render(Redactor(secrets), stream), x);
    ContainsPart(Render(Redactor(secrets), stream), x, part);
  }

  lemma PartBracketless(x: text, part: text)
    requires Bracketless(x) && Contains(x, part)
    ensures Bracketless(part)
  {
    var i :| OccursAt(x, part, i);
    forall k | 0 <= k < |part| ensures part[k] in x { OccursByte(x, part, i, k); }
  }

  lemma ShownFits(secrets: seq<text>, x: text)
    requires SomeLogShows(secrets, x) && Bracketless(x)
    ensures Fits(x)
  {
    hide Contains, SomeLogShows, Bracketless, Lines, Tail;
    LinesJoin(x);
    var parts := Lines(x) + [Tail(x)];
    forall i: nat | i < |parts| ensures |if i < |parts| - 1 then parts[i] + ['\n'] else parts[i]| <= LINE_CAP {
      var part := if i < |parts| - 1 then parts[i] + ['\n'] else parts[i];
      PartContained(parts, i);
      PartBracketless(x, part);
      PartShown(secrets, x, part);
      assert part != [] ==> Unbroken(part) by { assert Free(parts[i], '\n'); }
      if |part| > LINE_CAP { OversizedHidden(secrets, part); }
    }
    forall i | 0 <= i < |Lines(x)| ensures |Lines(x)[i]| < LINE_CAP { assert parts[i] == Lines(x)[i]; }
    assert parts[|parts| - 1] == Tail(x);
  }

  // A secret without brackets is hidden by every list it is on, in every log, if and only if:
  // with a newline at most at its end, it is part of none of the texts the filter writes; with
  // a newline before its end, it holds a URI or a line that is never emitted.
  lemma HiddenExactly(x: text)
    requires x != [] && Bracketless(x)
    ensures (forall secrets :: x in secrets ==> !SomeLogShows(secrets, x)) <==>
              if Broken(x) then !NoMatch(Uri, x) || !Fits(x) else Concealed(x)
  {
    hide SomeLogShows, NoMatch, Fits, Concealed, Bracketless;
    if Broken(x) {
      forall secrets | SomeLogShows(secrets, x) ensures NoMatch(Uri, x) && Fits(x) {
        ShownHasNoUri(secrets, x);
        ShownFits(secrets, x);
      }
      if NoMatch(Uri, x) && Fits(x) { BrokenShown(x); assert x in [x]; }
    } else {
      ConcealedExactly(x);
    }
  }

  // ---- The log, line by line -----------------------------------------------------------------------

  lemma {:induction false} JoinFront(first: text, parts: seq<text>)
    requires |parts| > 0
    ensures Join([first] + parts, '\n') == first + ['\n'] + Join(parts, '\n')
  {
    var all := [first] + parts;
    if |parts| == 1 {
      assert all[..1] == [first];
    } else {
      var before, last := parts[..|parts| - 1], parts[|parts| - 1];
      JoinFront(first, before);
      assert all[..|all| - 1] == [first] + before && all[|all| - 1] == last;
      hide Join;
      Assoc(first + ['\n'], Join(before, '\n') + ['\n'], last);
      Assoc(first + ['\n'], Join(before, '\n'), ['\n']);
      assert Join(all, '\n') == Join([first] + before, '\n') + ['\n'] + last by { JoinEnd([first] + before, last); }
      assert Join(parts, '\n') == Join(before, '\n') + ['\n'] + last by {
        JoinEnd(before, last);
        assert before + [last] == parts;
      }
    }
  }

  lemma JoinEnd(parts: seq<text>, last: text)
    requires |parts| > 0
    ensures Join(parts + [last], '\n') == Join(parts, '\n') + ['\n'] + last
  {
    assert (parts + [last])[..|parts|] == parts;
  }

  // One line more at the front: up to 65536 bytes with its newline it is redacted by itself.
  lemma LogByLine(secrets: seq<text>, body: text, rest: text)
    requires forall i :: 0 <= i < |body| ==> body[i] != '\n'
    ensures Render(Redactor(secrets), body + ['\n'] + rest) ==
            (if |body| <= 65535 then Redact(secrets, body + ['\n']) else "[oversized tool log line omitted]\n")
            + Render(Redactor(secrets), rest)
    ensures Render(Redactor(secrets), body) == if |body| <= 65536 then Redact(secrets, body) else []
  {
    hide Redact, Split, Join, RenderLines;
    var r, lines, tail := Redactor(secrets), Lines(rest), Tail(rest);
    LinesJoin(rest);
    JoinFront(body, lines + [tail]);
    assert [body] + (lines + [tail]) == [body] + lines + [tail];
    LinesUnique([body] + lines, tail);
    LinesAppend(r, body, lines);
    NoLineStream(r, body);
  }

  // A URI in a tool's output reaches the log as the marker, wherever it ends and whatever follows.
  lemma UriLogged(a: text, scheme: text, w: text, b: text, rest: text)
    requires NoScheme(a) && Scheme(scheme) && Word(w) && Stops(b) && '\n' !in a + b
    requires |a + scheme + w + b| <= 65535
    ensures Render(Redactor([]), a + scheme + w + b + ['\n'] + rest) ==
            a + "[REDACTED URI]" + Redact([], b + ['\n']) + Render(Redactor([]), rest)
  {
    hide Redact, Render, NoScheme;
    var body := a + scheme + w + b;
    forall i | 0 <= i < |body| ensures body[i] != '\n' {
      if |a + scheme| <= i < |a + scheme + w| { assert body[i] == w[i - |a + scheme|]; }
      else if |a + scheme + w| <= i { assert body[i] == (a + b)[i - |scheme| - |w|]; }
      else if i < |a| { assert body[i] == (a + b)[i]; }
    }
    LogByLine([], body, rest);
    assert body + ['\n'] == a + scheme + w + (b + ['\n']);
    UriReplaced(a, scheme, w, b + ['\n']);
  }

  // ---- The writer --------------------------------------------------------------------------

  // bytes.IndexByte(p, '\n')
  method IndexNewline(p: text) returns (idx: int)
    ensures -1 <= idx < |p|
    ensures idx < 0 ==> Free(p, '\n')
    ensures idx >= 0 ==> p[idx] == '\n' && Free(p[..idx], '\n')
  {
    for i := 0 to |p|
      invariant Free(p[..i], '\n')
    {
      if p[i] == '\n' { return i; }
    }
    return -1;
  }

  class SecretWriter {
    const secrets: seq<text>
    var dst: text
    var pending: text
    var dropping: bool
    // What was written since the last flush, and what dst held before it.
    ghost var stream: text
    ghost var base: text

    ghost predicate Valid()
      reads this
    {
      && dst == base + RenderLines(Redactor(secrets), Lines(stream))
      && dropping == (|Tail(stream)| > LINE_CAP)
      && pending == (if dropping then [] else Tail(stream))
    }

    // The buffer never holds more than one line, nor more of it than the cap.
    lemma BufferBounded()
      requires Valid()
      ensures |pending| <= LINE_CAP && Free(pending, '\n')
      ensures dropping ==> pending == []
    {
      LinesJoin(stream);
    }

    constructor (secrets: seq<text>, dst: text)
      ensures Valid() && this.secrets == secrets && stream == [] && base == dst == this.dst
    {
      this.secrets, this.dst, pending, dropping := secrets, dst, [], false;
      stream, base := [], dst;
    }

    method Emit(line: text)
      modifies this`dst
      ensures dst == old(dst) + Redactor(secrets)(line)
    {
      var s := line;
      for i := 0 to |secrets|
        invariant s == RedactSecrets(secrets[..i], line)
      {
        assert secrets[..i + 1][..i] == secrets[..i];
        if secrets[i] != "" { s := ReplaceAll(Literal(secrets[i]), s, REDACTED); }
      }
      assert secrets[..|secrets|] == secrets;
      s := ReplaceAll(Uri, s, REDACTED_URI);
      dst := dst + s;
    }

    // One turn of the loop in Write: `part` is the piece of a line, with its newline if the
    // line ends there.
    method Take(part: text, ghost piece: text, complete: bool)
      requires Valid() && Free(piece, '\n') && part == (if complete then piece + ['\n'] else piece)
      modifies this
      ensures Valid() && stream == old(stream) + part && base == old(base)
    {
      hide Lines, Tail, RenderLines, Redact, Free;
      AppendPiece(stream, piece);
      stream := stream + piece;
      if !dropping {
        if |pending| + |part| > LINE_CAP {
          pending := [];
          dropping := true;
        } else {
          pending := pending + part;
        }
      }
      if complete {
        ghost var line := Tail(stream) + ['\n'];
        Assoc(Tail(old(stream)), piece, ['\n']);
        Assoc(old(stream), piece, ['\n']);
        Assoc(base, RenderLines(Redactor(secrets), Lines(stream)), RenderLine(Redactor(secrets), line));
        AppendBreak(Redactor(secrets), stream);
        stream := stream + ['\n'];
        if dropping {
          dst := dst + OMITTED;
        } else {
          Emit(pending);
        }
        pending := [];
        dropping := false;
      }
    }

    // Any number of bytes, cut anywhere.
    method Write(input: text) returns (n: nat)
      requires Valid()
      modifies this
      ensures Valid() && n == |input|
      ensures stream == old(stream) + input && base == old(base)
    {
      hide Lines, Tail, RenderLines, Redact;
      n := |input|;
      var p := input;
      while p != []
        invariant Valid() && base == old(base) && stream + p == old(stream) + input
        decreases |p|
      {
        var idx := IndexNewline(p);
        var end := if idx >= 0 then idx + 1 else |p|;
        var part := p[..end];
        assert part + p[end..] == p;
        Assoc(stream, part, p[end..]);
        Take(part, if idx >= 0 then p[..idx] else p, idx >= 0);
        p := p[end..];
      }
    }

    // After a flush the log holds exactly the rendering of what was written before it.
    method Flush()
      requires Valid()
      modifies this
      ensures Valid() && dst == old(base) + Render(Redactor(secrets), old(stream))
      ensures stream == [] && base == dst && pending == []
    {
      hide Lines, Tail, RenderLines, Redact;
      EmptyStream(Redactor(secrets));
      Assoc(base, RenderLines(Redactor(secrets), Lines(stream)), RenderTail(Redactor(secrets), Tail(stream)));
      if !dropping { Emit(pending); }
      pending := [];
      dropping := false;
      stream, base := [], dst;
    }
  }

  // The log depends on the bytes alone, not on how they were cut into writes.
  method FilterLog(secrets: seq<text>, chunks: seq<text>) returns (log: text)
    ensures log == Render(Redactor(secrets), Concat(chunks))
    ensures NoMatch(Uri, log)
    ensures forall x :: x in secrets && Concealed(x) ==> !Contains(log, x)
  {
    hide Render, RenderLines, Lines, Tail, Redact, NoMatch, Contains;
    var w := new SecretWriter(secrets, []);
    for i := 0 to |chunks|
      invariant fresh(w) && w.Valid() && w.base == [] && w.secrets == secrets
      invariant w.stream == Concat(chunks[..i])
    {
      assert chunks[..i + 1][..i] == chunks[..i];
      var _ := w.Write(chunks[i]);
    }
    assert chunks[..|chunks|] == chunks;
    w.Flush();
    log := w.dst;
    LogSound(secrets, Concat(chunks));
  }
}
