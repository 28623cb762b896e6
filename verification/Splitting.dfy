/** strings.Split and strings.Join for a separator of one byte. */
module Splitting {
  import opened Text

  predicate Free(s: text, sep: byte) { forall i :: 0 <= i < |s| ==> s[i] != sep }

  function Split(s: text, sep: byte): (parts: seq<text>)
    ensures |parts| > 0
  {
    if s == [] then [[]]
    else
      var parts := Split(s[..|s| - 1], sep);
      var last := |parts| - 1;
      if s[|s| - 1] == sep then parts + [[]] else parts[last := parts[last] + [s[|s| - 1]]]
  }

  function Join(parts: seq<text>, sep: byte): text
    requires |parts| > 0
  {
    if |parts| == 1 then parts[0] else Join(parts[..|parts| - 1], sep) + [sep] + parts[|parts| - 1]
  }

  lemma {:induction false} OnePart(s: text, sep: byte)
    requires Free(s, sep)
    ensures Split(s, sep) == [s]
  {
    if s != [] {
      OnePart(s[..|s| - 1], sep);
      assert s == s[..|s| - 1] + [s[|s| - 1]];
    }
  }

  lemma {:induction false} SplitJoin(s: text, sep: byte)
    ensures Join(Split(s, sep), sep) == s
    ensures forall i :: 0 <= i < |Split(s, sep)| ==> Free(Split(s, sep)[i], sep)
  {
    if s != [] {
      var before, c := s[..|s| - 1], s[|s| - 1];
      SplitJoin(before, sep);
      var parts, all := Split(before, sep), Split(s, sep);
      var last := |parts| - 1;
      assert s == before + [c];
      if c == sep {
        assert all[..|all| - 1] == parts;
        assert s + [] == s;
      } else {
        if last > 0 {
          assert all[..last] == parts[..last];
          Assoc(Join(parts[..last], sep) + [sep], parts[last], [c]);
        }
      }
    }
  }

  lemma {:induction false} JoinSplit(parts: seq<text>, sep: byte)
    requires |parts| > 0 && forall i :: 0 <= i < |parts| ==> Free(parts[i], sep)
    ensures Split(Join(parts, sep), sep) == parts
    decreases |parts|, |parts[|parts| - 1]|
  {
    var last := |parts| - 1;
    var part := parts[last];
    if part == [] {
      if last > 0 { JoinSplit(parts[..last], sep); }
      SplitAfter(parts[..last], sep);
      assert parts == parts[..last] + [[]];
    } else {
      var before, c := part[..|part| - 1], part[|part| - 1];
      var shorter := parts[last := before];
      forall i | 0 <= i < |shorter| ensures Free(shorter[i], sep) { assert Free(parts[i], sep); }
      JoinSplit(shorter, sep);
      assert before + [c] == part;
      assert parts[..last] + [before + [c]] == parts && parts[..last] + [before] == shorter;
      assert Free(part, sep) && c != sep;
      SplitLonger(parts[..last], before, c, sep);
    }
  }

  lemma SplitAfter(parts: seq<text>, sep: byte)
    requires |parts| > 0 ==> Split(Join(parts, sep), sep) == parts
    ensures Split(Join(parts + [[]], sep), sep) == parts + [[]]
  {
    if |parts| > 0 {
      var before, longer := Join(parts, sep), parts + [[]];
      assert longer[..|parts|] == parts;
      assert Join(longer, sep) == before + [sep];
      assert (before + [sep])[..|before|] == before;
    } else {
      assert parts + [[]] == [[]];
    }
  }

  lemma SplitLonger(parts: seq<text>, part: text, c: byte, sep: byte)
    requires c != sep && Split(Join(parts + [part], sep), sep) == parts + [part]
    ensures Split(Join(parts + [part + [c]], sep), sep) == parts + [part + [c]]
  {
    hide Join;
    JoinLast(parts, part, c, sep);
    var before := Join(parts + [part], sep);
    assert (before + [c])[..|before|] == before;
  }

  lemma JoinLast(parts: seq<text>, part: text, c: byte, sep: byte)
    ensures Join(parts + [part + [c]], sep) == Join(parts + [part], sep) + [c]
  {
    assert (parts + [part + [c]])[..|parts|] == parts && (parts + [part])[..|parts|] == parts;
    if |parts| > 0 { Assoc(Join(parts, sep) + [sep], part, [c]); }
  }
}
