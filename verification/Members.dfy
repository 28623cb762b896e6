/** Names of bundle members: which are safe, and where they lead when extracted. */
module Members {
  import opened Splitting
  import opened Text

  // ---- Paths as components --------------------------------------------------------------

  function Components(s: text): (parts: seq<text>)
    ensures |parts| > 0
  {
    Split(s, '/')
  }

  function JoinSlash(parts: seq<text>): text
    requires |parts| > 0
  {
    Join(parts, '/')
  }

  // ---- path.Clean ------------------------------------------------------------------------------

  // One component read from the left: "" and "." vanish, ".." takes the last name back or,
  // where there is none, stays at the front of a path that is not rooted.
  function Push(rooted: bool, stack: seq<text>, part: text): seq<text> {
    if part == "" || part == "." then stack
    else if part == ".." then
      if stack != [] && stack[|stack| - 1] != ".." then stack[..|stack| - 1]
      else if rooted then stack else stack + [part]
    else stack + [part]
  }

  function CleanParts(rooted: bool, parts: seq<text>): seq<text> {
    if parts == [] then []
    else Push(rooted, CleanParts(rooted, parts[..|parts| - 1]), parts[|parts| - 1])
  }

  function Clean(s: text): text {
    var rooted := HasPrefix(s, "/");
    var parts := CleanParts(rooted, Components(s));
    if parts == [] then (if rooted then "/" else ".")
    else if rooted then "/" + JoinSlash(parts) else JoinSlash(parts)
  }

  // ---- UTF-8, section 4 of RFC 3629 ----------------------------------------------------------------

  predicate Continuation(c: byte) { 0x80 <= c as nat <= 0xBF }

  function RuneLength(s: text): (n: nat)
    requires s != []
    ensures n <= |s|
  {
    var b := s[0] as nat;
    if b < 0x80 then 1
    else if 0xC2 <= b <= 0xDF && |s| >= 2 && Continuation(s[1]) then 2
    else if 0xE0 <= b <= 0xEF && |s| >= 3 && Continuation(s[1]) && Continuation(s[2])
            && (b == 0xE0 ==> s[1] as nat >= 0xA0) && (b == 0xED ==> s[1] as nat <= 0x9F) then 3
    else if 0xF0 <= b <= 0xF4 && |s| >= 4 && Continuation(s[1]) && Continuation(s[2]) && Continuation(s[3])
            && (b == 0xF0 ==> s[1] as nat >= 0x90) && (b == 0xF4 ==> s[1] as nat <= 0x8F) then 4
    else 0
  }

  predicate ValidUtf8(s: text)
    decreases |s|
  {
    s == [] || (RuneLength(s) > 0 && ValidUtf8(s[RuneLength(s)..]))
  }

  predicate Ascii(s: text) { forall i :: 0 <= i < |s| ==> s[i] as nat < 0x80 }

  lemma {:induction false} AsciiIsUtf8(s: text)
    requires Ascii(s)
    ensures ValidUtf8(s)
  {
    if s != [] { AsciiIsUtf8(s[1..]); }
  }

  // A Unicode scalar value, and its octets by the table of section 3.
  predicate Scalar(code: nat) { code < 0xD800 || 0xE000 <= code < 0x110000 }

  function Octets(code: nat): (s: text)
    requires Scalar(code)
    ensures s != []
  {
    if code < 0x80 then [code as char]
    else if code < 0x800 then [(0xC0 + code / 64) as char, (0x80 + code % 64) as char]
    else if code < 0x10000 then
      [(0xE0 + code / 4096) as char, (0x80 + code / 64 % 64) as char, (0x80 + code % 64) as char]
    else
      [(0xF0 + code / 262144) as char, (0x80 + code / 4096 % 64) as char, (0x80 + code / 64 % 64) as char,
       (0x80 + code % 64) as char]
  }

  predicate AllScalar(codes: seq<nat>) { forall i :: 0 <= i < |codes| ==> Scalar(codes[i]) }

  function AllOctets(codes: seq<nat>): text
    requires AllScalar(codes)
  {
    if codes == [] then [] else Octets(codes[0]) + AllOctets(codes[1..])
  }

  lemma RuneOfOctets(code: nat, rest: text)
    requires Scalar(code)
    ensures RuneLength(Octets(code) + rest) == |Octets(code)|
  {
    var s := Octets(code) + rest;
    assert forall i :: 0 <= i < |Octets(code)| ==> s[i] == Octets(code)[i];
  }

  lemma TwoOctets(a: nat, b: nat)
    requires 0xC2 <= a <= 0xDF && 0x80 <= b <= 0xBF
    ensures var code := (a - 0xC0) * 64 + (b - 0x80);
            0x80 <= code < 0x800 && Octets(code) == [a as char, b as char]
  {
  }

  lemma ThreeOctets(a: nat, b: nat, c: nat)
    requires 0xE0 <= a <= 0xEF && 0x80 <= b <= 0xBF && 0x80 <= c <= 0xBF
    requires (a == 0xE0 ==> b >= 0xA0) && (a == 0xED ==> b <= 0x9F)
    ensures var code := (a - 0xE0) * 4096 + (b - 0x80) * 64 + (c - 0x80);
            0x800 <= code < 0x10000 && Scalar(code) && Octets(code) == [a as char, b as char, c as char]
  {
    var code := (a - 0xE0) * 4096 + (b - 0x80) * 64 + (c - 0x80);
    assert code / 64 == (a - 0xE0) * 64 + (b - 0x80) && code % 64 == c - 0x80;
  }

  lemma FourOctets(a: nat, b: nat, c: nat, d: nat)
    requires 0xF0 <= a <= 0xF4 && 0x80 <= b <= 0xBF && 0x80 <= c <= 0xBF && 0x80 <= d <= 0xBF
    requires (a == 0xF0 ==> b >= 0x90) && (a == 0xF4 ==> b <= 0x8F)
    ensures var code := (a - 0xF0) * 262144 + (b - 0x80) * 4096 + (c - 0x80) * 64 + (d - 0x80);
      && 0x10000 <= code && Scalar(code) && Octets(code) == [a as char, b as char, c as char, d as char]
  {
    var code := (a - 0xF0) * 262144 + (b - 0x80) * 4096 + (c - 0x80) * 64 + (d - 0x80);
    assert code / 64 == (a - 0xF0) * 4096 + (b - 0x80) * 64 + (c - 0x80) && code % 64 == d - 0x80;
    assert code / 4096 == (a - 0xF0) * 64 + (b - 0x80);
  }

  lemma RuneIsOctets(s: text) returns (code: nat)
    requires s != [] && RuneLength(s) > 0
    ensures Scalar(code) && Octets(code) == s[..RuneLength(s)]
  {
    hide Octets;
    var n, a := RuneLength(s), s[0] as nat;
    if n == 1 {
      code := a;
      assert Octets(code) == [s[0]] by { OneOctet(a); }
    } else if n == 2 {
      TwoOctets(a, s[1] as nat);
      code := (a - 0xC0) * 64 + (s[1] as nat - 0x80);
    } else if n == 3 {
      ThreeOctets(a, s[1] as nat, s[2] as nat);
      code := (a - 0xE0) * 4096 + (s[1] as nat - 0x80) * 64 + (s[2] as nat - 0x80);
    } else {
      FourOctets(a, s[1] as nat, s[2] as nat, s[3] as nat);
      code := (a - 0xF0) * 262144 + (s[1] as nat - 0x80) * 4096 + (s[2] as nat - 0x80) * 64 + (s[3] as nat - 0x80);
    }
  }

  lemma OneOctet(a: nat)
    requires a < 0x80
    ensures Octets(a) == [a as char]
  {
  }

  // Valid is exactly what consists of the octets of scalar values.
  lemma {:induction false} Utf8Exactly(s: text)
    ensures ValidUtf8(s) <==> exists codes: seq<nat> :: AllScalar(codes) && AllOctets(codes) == s
    decreases |s|
  {
    hide RuneLength, Octets;
    if ValidUtf8(s) {
      if s == [] { assert AllOctets([]) == s; } else { var codes := Decoded(s); }
    }
    if codes: seq<nat> :| AllScalar(codes) && AllOctets(codes) == s { OctetsAreValid(codes); }
  }

  lemma {:induction false} Decoded(s: text) returns (codes: seq<nat>)
    requires ValidUtf8(s)
    ensures AllScalar(codes) && AllOctets(codes) == s
    decreases |s|
  {
    hide RuneLength, Octets;
    codes := [];
    if s != [] {
      var n := RuneLength(s);
      var code := RuneIsOctets(s);
      var more := Decoded(s[n..]);
      codes := [code] + more;
      assert codes[1..] == more && s == s[..n] + s[n..];
    }
  }

  lemma {:induction false} OctetsAreValid(codes: seq<nat>)
    requires AllScalar(codes)
    ensures ValidUtf8(AllOctets(codes))
  {
    hide RuneLength, Octets;
    if codes != [] {
      var rest := AllOctets(codes[1..]);
      OctetsAreValid(codes[1..]);
      RuneOfOctets(codes[0], rest);
      assert (Octets(codes[0]) + rest)[|Octets(codes[0])|..] == rest;
    }
  }

  // ---- The two tests on member names -----------------------------------------------------------------

  predicate Plain(s: text) { forall i :: 0 <= i < |s| ==> s[i] !in ['\\', ':', '\0'] }

  predicate SafeMember(name: text) {
    && name != "" && ValidUtf8(name) && Plain(name) && !HasPrefix(name, "/")
    && Clean(name) == name && name != "." && name != ".." && !HasPrefix(name, "../")
  }

  const MANIFEST: text := "manifest.json"
  const REPLICA_SET: text := "replica-set.json"
  const DATA: text := "data.archive.gz"
  const AUTH: text := "auth.archive.gz"
  const CONFIG: text := "config/"

  predicate AllowedMember(name: text) {
    name == MANIFEST || name == REPLICA_SET || name == DATA || name == AUTH || HasPrefix(name, CONFIG)
  }

  // ---- What a safe name is ------------------------------------------------------------------------------

  // A component that names an entry of the directory it is looked up in.
  predicate Ordinary(part: text) { part != "" && part != "." && part != ".." }

  predicate AllOrdinary(parts: seq<text>) { forall i :: 0 <= i < |parts| ==> Ordinary(parts[i]) }

  // Clean leaves a path with ".." only at its front.
  predicate Normal(parts: seq<text>) {
    forall i :: 0 <= i < |parts| ==>
      parts[i] != "" && parts[i] != "." && (parts[i] == ".." ==> forall j :: 0 <= j < i ==> parts[j] == "..")
  }

  lemma {:induction false} CleanNormal(rooted: bool, parts: seq<text>)
    ensures Normal(CleanParts(rooted, parts))
    ensures forall i :: 0 <= i < |CleanParts(rooted, parts)| ==> CleanParts(rooted, parts)[i] in parts
  {
    if parts != [] {
      var before, part := parts[..|parts| - 1], parts[|parts| - 1];
      CleanNormal(rooted, before);
      var stack := CleanParts(rooted, before);
      if part == ".." && (stack == [] || stack[|stack| - 1] == "..") {
        forall j | 0 <= j < |stack| ensures stack[j] == ".." { }
      }
    }
  }

  lemma {:induction false} CleanKeeps(rooted: bool, parts: seq<text>)
    requires AllOrdinary(parts)
    ensures CleanParts(rooted, parts) == parts
  {
    if parts != [] { CleanKeeps(rooted, parts[..|parts| - 1]); }
  }

  lemma NormalParts(parts: seq<text>)
    requires parts != [] && Normal(parts)
    ensures var before, part := parts[..|parts| - 1], parts[|parts| - 1];
      && Normal(before) && part != "" && part != "." && (part == ".." && before != [] ==> before[|before| - 1] == "..")
  {
    assert parts[|parts| - 1] == ".." && |parts| > 1 ==> parts[|parts| - 2] == "..";
  }

  lemma {:induction false} CleanKeepsNormal(parts: seq<text>)
    requires Normal(parts)
    ensures CleanParts(false, parts) == parts
  {
    if parts != [] {
      var before, part := parts[..|parts| - 1], parts[|parts| - 1];
      NormalParts(parts);
      CleanKeepsNormal(before);
      hide Normal;
    }
  }

  lemma CleanIsNormal(s: text)
    requires !HasPrefix(s, "/") && Clean(s) == s && s != "."
    ensures Normal(Components(s))
  {
    hide Normal;
    var all := Components(s);
    var parts := CleanParts(false, all);
    SplitJoin(s, '/');
    CleanNormal(false, all);
    forall i | 0 <= i < |parts| ensures Free(parts[i], '/') { var k :| 0 <= k < |all| && all[k] == parts[i]; }
    JoinSplit(parts, '/');
  }

  lemma NormalIsClean(s: text)
    requires !HasPrefix(s, "/") && Normal(Components(s))
    ensures Clean(s) == s
  {
    CleanKeepsNormal(Components(s));
    SplitJoin(s, '/');
  }

  lemma DotIsClean()
    ensures !HasPrefix(".", "/") && Clean(".") == "."
  {
    OnePart(".", '/');
    assert CleanParts(false, []) == [];
  }

  // A relative path that is clean already: "." or names behind any number of ".." - and Clean
  // changes every other.
  lemma CleanFixes(s: text)
    requires !HasPrefix(s, "/")
    ensures Clean(s) == s <==>
      s == "." || forall i :: 0 <= i < |Components(s)| ==>
        var part := Components(s)[i];
        part != "" && part != "." && (part == ".." ==> forall j :: 0 <= j < i ==> Components(s)[j] == "..")
  {
    hide Clean, Components;
    DotIsClean();
    if Clean(s) == s && s != "." { CleanIsNormal(s); }
    if Normal(Components(s)) { NormalIsClean(s); }
  }

  lemma {:induction false} FirstComponent(parts: seq<text>)
    requires |parts| > 0
    ensures HasPrefix(JoinSlash(parts), parts[0])
    ensures |parts| > 1 ==> HasPrefix(JoinSlash(parts), parts[0] + ['/'])
  {
    if |parts| > 1 {
      FirstComponent(parts[..|parts| - 1]);
      if |parts| == 2 { assert parts[..1] == [parts[0]]; }
    }
  }

  // The tests of safeMember are exactly: valid text without backslash, colon or null byte,
  // whose every component is an ordinary name.
  lemma SafeMemberExact(name: text)
    ensures SafeMember(name) <==> ValidUtf8(name) && Plain(name) && AllOrdinary(Components(name))
    ensures SafeMember(name) <==>
      && ValidUtf8(name) && (forall i :: 0 <= i < |name| ==> name[i] as nat !in {0x5C, 0x3A, 0})
      && forall i :: 0 <= i < |Components(name)| ==>
        Components(name)[i] != "" && Components(name)[i] != "." && Components(name)[i] != ".."
  {
    if SafeMember(name) { SafeIsOrdinary(name); }
    if ValidUtf8(name) && Plain(name) && AllOrdinary(Components(name)) { OrdinaryIsSafe(name); }
  }

  lemma DotsFirst(name: text)
    requires Components(name)[0] == ".."
    ensures name == ".." || HasPrefix(name, "../")
  {
    SplitJoin(name, '/');
    FirstComponent(Components(name));
  }

  lemma SafeIsOrdinary(name: text)
    requires SafeMember(name)
    ensures AllOrdinary(Components(name))
  {
    hide Clean, ValidUtf8, Plain, Components;
    CleanIsNormal(name);
    if Components(name)[0] == ".." { DotsFirst(name); }
  }

  lemma OrdinaryIsSafe(name: text)
    requires ValidUtf8(name) && Plain(name)
    requires AllOrdinary(Components(name))
    ensures SafeMember(name)
  {
    var all := Components(name);
    SplitJoin(name, '/');
    FirstComponent(all);
    CleanKeeps(false, all);
    assert all[0][0] == name[0] != '/';
    if name == "." || name == ".." || HasPrefix(name, "../") { StartsWithDots(name); }
  }

  lemma {:induction false} StartsWithDots(name: text)
    requires name == "." || name == ".." || HasPrefix(name, "../")
    ensures Components(name)[0] == (if name == "." then "." else "..")
    ensures HasPrefix(name, "../") ==> |Components(name)| > 1
  {
    if name == "." || name == ".." {
      OnePart(name, '/');
    } else if |name| == 3 {
      OnePart("..", '/');
      assert name[..2] == ".." && Split(name, '/') == Split("..", '/') + [[]];
    } else {
      assert name[..|name| - 1][..3] == "../";
      StartsWithDots(name[..|name| - 1]);
    }
  }

  // ---- Where a safe name leads ----------------------------------------------------------------

  lemma Extended(a: seq<text>, b: seq<text>, c: byte)
    requires |b| > 0
    ensures var last := |a + b| - 1;
            (a + b)[last := (a + b)[last] + [c]] == a + b[|b| - 1 := b[|b| - 1] + [c]]
    ensures a + b + [[]] == a + (b + [[]])
  {
  }

  lemma {:induction false} ComponentsJoin(a: text, b: text)
    ensures Components(a + ['/'] + b) == Components(a) + Components(b)
  {
    var s := a + ['/'] + b;
    if b == [] {
      assert s[..|s| - 1] == a;
    } else {
      var before := b[..|b| - 1];
      ComponentsJoin(a, before);
      assert s[..|s| - 1] == a + ['/'] + before && s[|s| - 1] == b[|b| - 1];
      Extended(Components(a), Components(before), b[|b| - 1]);
    }
  }

  // filepath.Join of the staging directory and a member: the name comes out unchanged below
  // the directory, so the target lies strictly inside it.
  lemma TargetInside(dir: text, name: text)
    requires HasPrefix(dir, "/") && AllOrdinary(Components(dir)[1..])
    requires SafeMember(name)
    ensures Clean(dir + ['/'] + name) == dir + ['/'] + name
    ensures Components(Clean(dir + ['/'] + name)) == Components(dir) + Components(name)
  {
    SafeMemberExact(name);
    ComponentsJoin(dir, name);
    RootComponent(dir);
    hide SafeMember, Components, Clean, ValidUtf8, Plain;
    var path := dir + ['/'] + name;
    assert path[..1] == dir[..1];
    assert Components(path)[1..] == Components(dir)[1..] + Components(name);
    CleanAbsolute(path);
  }

  lemma CleanAbsolute(path: text)
    requires HasPrefix(path, "/") && AllOrdinary(Components(path)[1..])
    ensures Clean(path) == path
  {
    RootComponent(path);
    CleanRooted(Components(path));
    SplitJoin(path, '/');
    JoinFirst(Components(path));
  }

  lemma {:induction false} RootComponent(s: text)
    requires HasPrefix(s, "/")
    ensures Components(s)[0] == [] && |Components(s)| > 1
  {
    if |s| > 1 {
      assert s[..|s| - 1][..1] == s[..1];
      RootComponent(s[..|s| - 1]);
    } else {
      assert s == "/" && s[..0] == [];
    }
  }

  lemma {:induction false} CleanRooted(parts: seq<text>)
    requires |parts| > 0 && parts[0] == [] && AllOrdinary(parts[1..])
    ensures CleanParts(true, parts) == parts[1..]
  {
    if |parts| > 1 {
      var rest, last := parts[..|parts| - 1], parts[|parts| - 1];
      assert rest[1..] == parts[1..][..|parts| - 2];
      CleanRooted(rest);
      assert last == parts[1..][|parts| - 2];
      assert rest[1..] + [last] == parts[1..];
    }
  }

  lemma {:induction false} JoinFirst(parts: seq<text>)
    requires |parts| > 1 && parts[0] == []
    ensures JoinSlash(parts) == ['/'] + JoinSlash(parts[1..])
  {
    var rest, last := parts[..|parts| - 1], parts[|parts| - 1];
    if |parts| == 2 {
      assert rest == [parts[0]] && parts[1..] == [last];
      assert Join(rest, '/') == [];
    } else {
      JoinFirst(rest);
      assert rest[1..] == parts[1..][..|parts| - 2] && last == parts[1..][|parts| - 2];
      Assoc(['/'], JoinSlash(rest[1..]) + ['/'], last);
      Assoc(['/'], JoinSlash(rest[1..]), ['/']);
    }
  }
}
