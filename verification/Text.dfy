/** Go strings and byte slices: sequences of bytes, written as characters below 256. */
module Text {
  type byte = c: char | (c as int) < 256 witness 'a'
  type text = seq<byte>

  datatype Option<+T> = None | Some(value: T)

  // Bytewise lexicographic order: Go's `<` on strings.
  predicate Less(a: text, b: text) {
    b != [] && (a == [] || a[0] < b[0] || (a[0] == b[0] && Less(a[1..], b[1..])))
  }

  // strings.HasPrefix and strings.HasSuffix.
  predicate HasPrefix(s: text, p: text) { |p| <= |s| && s[..|p|] == p }
  predicate HasSuffix(s: text, p: text) { |p| <= |s| && s[|s| - |p|..] == p }

  // strings.Contains.
  ghost predicate Contains(s: text, p: text) { exists i {:trigger OccursAt(s, p, i)} :: OccursAt(s, p, i) }
  predicate OccursAt(s: text, p: text, i: int) { 0 <= i && i + |p| <= |s| && s[i..i + |p|] == p }

  // Two ways to bracket a concatenation, as one fact.
  lemma Assoc(a: text, b: text, c: text)
    ensures a + b + c == a + (b + c)
  {
  }

  // All pieces in one.
  function Concat(pieces: seq<text>): text {
    if pieces == [] then [] else Concat(pieces[..|pieces| - 1]) + pieces[|pieces| - 1]
  }
}
