/** Object names: percent-encoding, the scope of a backup, and the choice of the latest one. */
module Keys {
  import opened Text
  import opened Calendar

  // The settings that shape object names, as LoadConfig leaves them.
  datatype Mode = Full | PerDatabase
  datatype Naming = Timestamped | Fixed
  datatype Config = Config(mode: Mode, naming: Naming, prefix: text, passphrase: text)

  // ---- Percent-encoding --------------------------------------------------------------------

  // The unreserved characters of section 2.3 of RFC 3986.
  predicate Unreserved(b: byte) {
    'a' <= b <= 'z' || 'A' <= b <= 'Z' || '0' <= b <= '9' || b in ['-', '.', '_', '~']
  }

  const HEX: text := "0123456789ABCDEF"

  function EncodeByte(b: byte): text {
    if Unreserved(b) then [b] else ['%', HEX[b as nat / 16], HEX[b as nat % 16]]
  }

  function Encode(value: text): text {
    if value == [] then [] else Encode(value[..|value| - 1]) + EncodeByte(value[|value| - 1])
  }

  method EncodeComponent(value: text) returns (result: text)
    ensures result == Encode(value)
  {
    result := [];
    for i := 0 to |value|
      invariant result == Encode(value[..i])
    {
      assert value[..i + 1][..i] == value[..i];
      var b := value[i];
      if Unreserved(b) {
        result := result + [b];
      } else {
        result := result + ['%', HEX[b as nat / 16], HEX[b as nat % 16]];
      }
    }
    assert value[..|value|] == value;
  }

  function HexValue(c: byte): nat {
    if '0' <= c <= '9' then c as nat - '0' as nat
    else if 'A' <= c <= 'F' then c as nat - 'A' as nat + 10 else 0
  }

  // Percent-decoding, section 2.1 of RFC 3986.
  function Decode(s: text): text
    decreases |s|
  {
    if s == [] then []
    else if s[0] == '%' && |s| >= 3 then [(16 * HexValue(s[1]) + HexValue(s[2])) as char] + Decode(s[3..])
    else [s[0]] + Decode(s[1..])
  }

  lemma HexRoundTrip(n: nat)
    requires n < 16
    ensures HexValue(HEX[n]) == n && Unreserved(HEX[n])
  {
  }

  lemma DecodeByte(b: byte, rest: text)
    ensures Decode(EncodeByte(b) + rest) == [b] + Decode(rest)
    ensures '/' !in EncodeByte(b)
  {
    var s := EncodeByte(b) + rest;
    HexRoundTrip(b as nat / 16);
    HexRoundTrip(b as nat % 16);
    if Unreserved(b) {
      assert s[1..] == rest;
    } else {
      assert s[3..] == rest;
    }
  }

  lemma {:induction false} DecodeEncode(value: text, rest: text)
    ensures Decode(Encode(value) + rest) == value + Decode(rest)
    ensures '/' !in Encode(value)
  {
    hide EncodeByte, Decode;
    if value == [] {
      assert Encode(value) + rest == rest;
    } else {
      var before, last := value[..|value| - 1], value[|value| - 1];
      DecodeByte(last, rest);
      DecodeEncode(before, EncodeByte(last) + rest);
      Assoc(Encode(before), EncodeByte(last), rest);
      Assoc(before, [last], Decode(rest));
      assert value == before + [last];
    }
  }

  // Encoding loses nothing, and its result has no slash in it.
  lemma EncodingFaithful(a: text, b: text)
    ensures Decode(Encode(a)) == a && '/' !in Encode(a)
    ensures Encode(a) == Encode(b) ==> a == b
  {
    DecodeEncode(a, []);
    DecodeEncode(b, []);
    assert Encode(a) + [] == Encode(a) && Encode(b) + [] == Encode(b);
    assert Decode([]) == [] && a + [] == a && b + [] == b;
  }

  // Digits, letters, and - . _ ~ by their codes.
  predicate Kept(code: nat) {
    48 <= code <= 57 || 65 <= code <= 90 || 97 <= code <= 122 || code in {45, 46, 95, 126}
  }

  // What is kept as it is; any other byte becomes a percent sign and its two hex digits.
  lemma EncodedExactly(value: text, b: byte)
    ensures Encode([]) == []
    ensures Kept(b as nat) ==> Encode(value + [b]) == Encode(value) + [b]
    ensures !Kept(b as nat) ==>
      Encode(value + [b]) == Encode(value) + ['%', HexDigit(b as nat / 16), HexDigit(b as nat % 16)]
  {
    assert (value + [b])[..|value|] == value;
    HexDigits(b as nat / 16);
    HexDigits(b as nat % 16);
  }

  function HexDigit(n: nat): byte
    requires n < 16
  {
    if n < 10 then '0' + n as char else 'A' + (n - 10) as char
  }

  lemma HexDigits(n: nat)
    requires n < 16
    ensures HEX[n] == HexDigit(n)
  {
  }

  // ---- Names ----------------------------------------------------------------------------------

  // strings.TrimRight(s, "/")
  function TrimSlashes(s: text): text {
    if s != [] && s[|s| - 1] == '/' then TrimSlashes(s[..|s| - 1]) else s
  }

  // Slashes at the end go, all of them, and nothing else.
  lemma {:induction false} TrimSlashesExact(s: text) returns (slashes: text)
    ensures s == TrimSlashes(s) + slashes && (forall i :: 0 <= i < |slashes| ==> slashes[i] == '/')
    ensures TrimSlashes(s) == [] || TrimSlashes(s)[|TrimSlashes(s)| - 1] != '/'
  {
    slashes := [];
    if s != [] && s[|s| - 1] == '/' {
      var fewer := TrimSlashesExact(s[..|s| - 1]);
      slashes := fewer + ['/'];
      Assoc(TrimSlashes(s), fewer, ['/']);
    }
  }

  // The configured prefix as a directory, or nothing.
  function Base(c: Config): text {
    var p := TrimSlashes(c.prefix);
    if p != [] then p + ['/'] else []
  }

  function FileType(c: Config): text { if c.passphrase != [] then ".zip.gpg" else ".zip" }

  function TimestampPrefix(c: Config, database: text): text {
    match c.mode
    case Full => Base(c) + "full/"
    case PerDatabase => Base(c) + "per-database/" + Encode(database) + "/"
  }

  function FixedKey(c: Config, database: text): text { TimestampPrefix(c, database) + "latest" + FileType(c) }

  function BackupKey(c: Config, database: text, now: nat): text {
    match c.naming
    case Fixed => FixedKey(c, database)
    case Timestamped => TimestampPrefix(c, database) + Layout(CivilOf(now)) + FileType(c)
  }

  // ^[0-9]{4}-[0-9]{2}-[0-9]{2}T[0-9]{2}:[0-9]{2}:[0-9]{2}\.zip(\.gpg)?$
  predicate MatchesSuffix(s: text) {
    |s| >= 19 && MatchesLayout(s[..19]) && (s[19..] == ".zip" || s[19..] == ".zip.gpg")
  }

  predicate IsTimestampBackup(c: Config, database: text, key: text) {
    var prefix := TimestampPrefix(c, database);
    HasPrefix(key, prefix) && MatchesSuffix(key[|prefix|..])
  }

  // A timestamp by its shape: digits, and the five separators in their places.
  predicate Stamp(s: text) {
    |s| == 19 && forall i :: 0 <= i < 19 ==>
      if i == 4 || i == 7 then s[i] == '-'
      else if i == 10 then s[i] == 'T'
      else if i == 13 || i == 16 then s[i] == ':'
      else '0' <= s[i] <= '9'
  }

  lemma StampMatches(s: text)
    ensures Stamp(s) <==> MatchesLayout(s)
  {
    if MatchesLayout(s) {
      forall i | 0 <= i < 19 && i !in {4, 7, 10, 13, 16} ensures '0' <= s[i] <= '9' { LayoutDigit(s, i); }
    }
  }

  lemma LayoutDigit(s: text, i: nat)
    requires MatchesLayout(s) && i < 19 && i !in {4, 7, 10, 13, 16}
    ensures IsDigit(s[i])
  {
    if i < 4 { assert IsDigit(s[..4][i]); }
    else if 5 <= i < 7 { assert IsDigit(s[5..7][i - 5]); }
    else if 8 <= i < 10 { assert IsDigit(s[8..10][i - 8]); }
    else if 11 <= i < 13 { assert IsDigit(s[11..13][i - 11]); }
    else if 14 <= i < 16 { assert IsDigit(s[14..16][i - 14]); }
    else { assert IsDigit(s[17..19][i - 17]); }
  }

  // The keys a scope recognises: its prefix, the shape of a timestamp, one of two endings.
  lemma RecognisedExactly(c: Config, database: text, key: text)
    ensures IsTimestampBackup(c, database, key) <==>
      exists stamp: text :: Stamp(stamp)
        && (key == TimestampPrefix(c, database) + (stamp + ".zip")
            || key == TimestampPrefix(c, database) + (stamp + ".zip.gpg"))
  {
    hide TimestampPrefix, Stamp, MatchesLayout;
    var prefix := TimestampPrefix(c, database);
    if IsTimestampBackup(c, database, key) {
      var rest := key[|prefix|..];
      StampMatches(rest[..19]);
      assert rest == rest[..19] + rest[19..] && key == prefix + rest;
    }
    if stamp: text :| Stamp(stamp) && (key == prefix + (stamp + ".zip") || key == prefix + (stamp + ".zip.gpg")) {
      StampMatches(stamp);
      assert |stamp| == 19 by { StampIsLong(stamp); }
      var rest := if key == prefix + (stamp + ".zip") then stamp + ".zip" else stamp + ".zip.gpg";
      assert key[..|prefix|] == prefix && key[|prefix|..] == rest && rest[..19] == stamp;
    }
  }

  lemma StampIsLong(s: text)
    requires Stamp(s)
    ensures |s| == 19
  {
  }

  // A key made for a backup is recognised by its own scope exactly when it is a timestamped
  // one of the years 0000 to 9999.
  lemma BackupKeyRecognised(c: Config, database: text, now: nat)
    ensures IsTimestampBackup(c, database, BackupKey(c, database, now)) <==>
            c.naming.Timestamped? && CivilOf(now).year < 10000
  {
    var prefix, civil := TimestampPrefix(c, database), CivilOf(now);
    var key := BackupKey(c, database, now);
    match c.naming
    case Fixed =>
      assert key[|prefix|..] == "latest" + FileType(c);
      assert (("latest" + FileType(c))[0] == 'l');
    case Timestamped =>
      var rest := Layout(civil) + FileType(c);
      Assoc(prefix, Layout(civil), FileType(c));
      assert key[|prefix|..] == rest;
      CivilOfReal(now);
      if civil.year < 10000 {
        PrintParse(civil);
        assert rest[..19] == Layout(civil) && rest[19..] == FileType(c);
      } else {
        LongYear(civil, FileType(c));
      }
  }

  lemma LongYear(c: Civil, more: text)
    requires c.year >= 10000
    ensures (Layout(c) + more)[4] != '-'
  {
    YearDigits(c.year);
    assert (Layout(c) + more)[4] == Layout(c)[4] == YearText(c.year)[4];
  }

  lemma {:induction false} YearDigits(y: nat)
    ensures AllDigits(YearText(y))
  {
    if y < 10000 { assert Power10(4) == 10000; ValueOfDigits(y, 4); } else { YearDigits(y / 10); }
  }

  // ---- Scopes ------------------------------------------------------------------------------------

  lemma SuffixHasNoSlash(s: text)
    requires MatchesSuffix(s)
    ensures '/' !in s
  {
    forall i | 0 <= i < |s| ensures s[i] != '/' {
      if i >= 19 { assert s[i] == s[19..][i - 19]; } else { LayoutHasNoSlash(s[..19], i); }
    }
  }

  lemma LayoutHasNoSlash(s: text, i: nat)
    requires MatchesLayout(s) && i < |s|
    ensures s[i] != '/'
  {
    if i !in {4, 7, 10, 13, 16} { LayoutDigit(s, i); }
  }

  // A string that ends in '/' followed by one without any can be cut in one place only.
  lemma LastSlash(a: text, b: text, x: text, y: text)
    requires a != [] && a[|a| - 1] == '/' && b != [] && b[|b| - 1] == '/'
    requires '/' !in x && '/' !in y && a + x == b + y
    ensures a == b && x == y
  {
    NotShorter(a, b, x, y);
    NotShorter(b, a, y, x);
    assert a == (a + x)[..|a|] && b == (b + y)[..|b|] && x == (a + x)[|a|..] && y == (b + y)[|b|..];
  }

  lemma NotShorter(a: text, b: text, x: text, y: text)
    requires b != [] && b[|b| - 1] == '/' && '/' !in x && a + x == b + y
    ensures |b| <= |a|
  {
    assert (b + y)[|b| - 1] == '/';
    assert forall i :: |a| <= i < |a + x| ==> (a + x)[i] == x[i - |a|];
  }

  lemma RecognisedByPrefix(c: Config, database: text, c': Config, database': text, key: text)
    requires IsTimestampBackup(c, database, key) && IsTimestampBackup(c', database', key)
    ensures TimestampPrefix(c, database) == TimestampPrefix(c', database')
  {
    var p, p' := TimestampPrefix(c, database), TimestampPrefix(c', database');
    SuffixHasNoSlash(key[|p|..]);
    SuffixHasNoSlash(key[|p'|..]);
    LastSlash(p, p', key[|p|..], key[|p'|..]);
  }

  lemma {:induction false} DigitsNoSlash(n: nat, w: nat)
    ensures '/' !in Digits(n, w)
  {
    if w > 0 { DigitsNoSlash(n / 10, w - 1); }
  }

  lemma KeyEndNoSlash(c: Config, now: nat)
    ensures '/' !in "latest" + FileType(c) && '/' !in Layout(CivilOf(now)) + FileType(c)
  {
    hide Digits, CivilOf, YearText;
    var t := CivilOf(now);
    YearDigits(t.year);
    assert '/' !in YearText(t.year);
    DigitsNoSlash(t.month, 2);
    DigitsNoSlash(t.day, 2);
    DigitsNoSlash(t.hour, 2);
    DigitsNoSlash(t.minute, 2);
    DigitsNoSlash(t.second, 2);
  }

  // A key is its prefix and an end without a slash.
  function KeyEnd(c: Config, now: nat): text {
    match c.naming
    case Fixed => "latest" + FileType(c)
    case Timestamped => Layout(CivilOf(now)) + FileType(c)
  }

  lemma KeyParts(c: Config, database: text, now: nat)
    ensures BackupKey(c, database, now) == TimestampPrefix(c, database) + KeyEnd(c, now) && '/' !in KeyEnd(c, now)
    ensures FixedKey(c, database) == TimestampPrefix(c, database) + ("latest" + FileType(c))
      && '/' !in "latest" + FileType(c)
  {
    hide TimestampPrefix, FileType, Layout, CivilOf;
    KeyEndNoSlash(c, now);
    Assoc(TimestampPrefix(c, database), "latest", FileType(c));
    Assoc(TimestampPrefix(c, database), Layout(CivilOf(now)), FileType(c));
  }

  lemma PrefixEnds(c: Config, database: text)
    ensures TimestampPrefix(c, database) != []
      && TimestampPrefix(c, database)[|TimestampPrefix(c, database)| - 1] == '/'
  {
    PrefixParts(c, database);
  }

  // Two keys are equal only when their prefixes are, and their ends.
  lemma SameKey(c: Config, database: text, end: text, c': Config, database': text, end': text)
    requires '/' !in end && '/' !in end'
    ensures TimestampPrefix(c, database) + end == TimestampPrefix(c', database') + end' <==>
              ScopesMeet(c, database, c', database') && end == end'
  {
    hide TimestampPrefix, ScopesMeet;
    var p, p' := TimestampPrefix(c, database), TimestampPrefix(c', database');
    PrefixEnds(c, database);
    PrefixEnds(c', database');
    if p + end == p' + end' {
      LastSlash(p, p', end, end');
      SamePrefixMeets(c, database, c', database');
    }
    if ScopesMeet(c, database, c', database') { MeetingPrefixes(c, database, c', database'); }
  }

  // What a configuration recognises it recognises at the end behind its prefix.
  lemma RecognisedEnd(c: Config, database: text, key: text)
    requires IsTimestampBackup(c, database, key)
    ensures var p := TimestampPrefix(c, database);
            |p| <= |key| && key == p + key[|p|..] && MatchesSuffix(key[|p|..]) && '/' !in key[|p|..]
  {
    hide TimestampPrefix, MatchesSuffix;
    SuffixHasNoSlash(key[|TimestampPrefix(c, database)|..]);
  }

  // A key is taken for a timestamped backup only by scopes that meet the one it was made for:
  // under one configuration, by its own database alone.
  lemma KeyOfOneScope(c: Config, database: text, now: nat, c': Config, database': text)
    requires IsTimestampBackup(c', database', BackupKey(c, database, now))
    ensures ScopesMeet(c, database, c', database') && c.naming.Timestamped?
    ensures c == c' ==> SameScope(c, database, c', database')
  {
    hide IsTimestampBackup, TimestampPrefix, BackupKey, SameScope, MatchesSuffix, FileType, CivilOf, Layout;
    var key := BackupKey(c, database, now);
    KeyParts(c, database, now);
    RecognisedEnd(c', database', key);
    var end := key[|TimestampPrefix(c', database')|..];
    SameKey(c, database, KeyEnd(c, now), c', database', end);
    LatestIsNoSuffix(c);
  }

  lemma LatestIsNoSuffix(c: Config)
    ensures !MatchesSuffix("latest" + FileType(c))
  {
    assert |"latest" + FileType(c)| < 19;
  }

  // No configuration takes an object with a fixed name for a timestamped backup.
  lemma FixedIsNoBackup(c: Config, database: text, c': Config, database': text)
    ensures !IsTimestampBackup(c', database', FixedKey(c, database))
  {
    if IsTimestampBackup(c', database', FixedKey(c, database)) {
      KeyOfOneScope(c.(naming := Fixed), database, 0, c', database');
    }
  }

  // Nor is a timestamped key ever a fixed one.
  lemma TimestampedIsNotFixed(c: Config, database: text, now: nat, c': Config, database': text)
    requires c.naming.Timestamped?
    ensures BackupKey(c, database, now) != FixedKey(c', database')
  {
    hide TimestampPrefix, BackupKey, FixedKey, FileType, ScopesMeet, CivilOf, Layout;
    KeyParts(c, database, now);
    KeyParts(c', database', 0);
    SameKey(c, database, KeyEnd(c, now), c', database', "latest" + FileType(c'));
    LayoutStarts(CivilOf(now), FileType(c));
    assert ("latest" + FileType(c'))[0] == 'l';
  }

  lemma LayoutStarts(c: Civil, more: text)
    ensures (Layout(c) + more)[0] != 'l'
  {
    YearDigits(c.year);
    assert (Layout(c) + more)[0] == YearText(c.year)[0];
  }

  // Two configurations write the same fixed key if and only if their scopes meet and they
  // agree on whether to encrypt.
  lemma FixedKeysMeetExactly(c: Config, database: text, c': Config, database': text)
    ensures FixedKey(c, database) == FixedKey(c', database') <==>
              ScopesMeet(c, database, c', database') && (c.passphrase == [] <==> c'.passphrase == [])
  {
    hide TimestampPrefix, FixedKey, ScopesMeet, FileType, KeyEnd, BackupKey;
    var end, end' := "latest" + FileType(c), "latest" + FileType(c');
    FixedEnds(c, c');
    KeyParts(c, database, 0);
    KeyParts(c', database', 0);
    SameKey(c, database, end, c', database', end');
  }

  lemma FixedEnds(c: Config, c': Config)
    ensures "latest" + FileType(c) == "latest" + FileType(c') <==> (c.passphrase == [] <==> c'.passphrase == [])
  {
    assert |FileType(c)| == if c.passphrase == [] then 4 else 8;
    assert |FileType(c')| == if c'.passphrase == [] then 4 else 8;
  }

  const FULL: text := "full"
  const DIRECTORY: text := "per-database/"

  // Every prefix is a directory followed by one name without a slash.
  function Parent(c: Config): text { if c.mode.Full? then Base(c) else Base(c) + DIRECTORY }
  function Leaf(c: Config, database: text): text { if c.mode.Full? then FULL else Encode(database) }

  lemma PrefixParts(c: Config, database: text)
    ensures TimestampPrefix(c, database) == Parent(c) + Leaf(c, database) + ['/'] && '/' !in Leaf(c, database)
    ensures Parent(c) == [] || Parent(c)[|Parent(c)| - 1] == '/'
  {
    EncodingFaithful(database, database);
  }

  lemma SamePrefixParts(c: Config, database: text, c': Config, database': text)
    requires TimestampPrefix(c, database) == TimestampPrefix(c', database')
    ensures Parent(c) == Parent(c') && Leaf(c, database) == Leaf(c', database')
  {
    PrefixParts(c, database);
    PrefixParts(c', database');
    var a, x := Parent(c), Leaf(c, database);
    var b, y := Parent(c'), Leaf(c', database');
    assert a + x == TimestampPrefix(c, database)[..|a + x|] && b + y == TimestampPrefix(c', database')[..|b + y|];
    Assoc(['/'], a, x);
    Assoc(['/'], b, y);
    LastSlash(['/'] + a, ['/'] + b, x, y);
    assert a == (['/'] + a)[1..] && b == (['/'] + b)[1..];
  }

  // One full and one per-database configuration whose prefixes meet.
  predicate Crossed(full: Config, perDatabase: Config, database: text) {
    full.mode.Full? && perDatabase.mode.PerDatabase? && database == FULL && Base(full) == Base(perDatabase) + DIRECTORY
  }

  predicate SameScope(c: Config, database: text, c': Config, database': text) {
    c.mode == c'.mode && Base(c) == Base(c') && (c.mode.PerDatabase? ==> database == database')
  }

  lemma EncodeFull(database: text)
    ensures Encode(database) == FULL <==> database == FULL
  {
    EncodingFaithful(database, FULL);
    EncodeName(FULL);
  }

  lemma {:induction false} EncodeName(s: text)
    requires forall i :: 0 <= i < |s| ==> Unreserved(s[i])
    ensures Encode(s) == s
  {
    hide Unreserved;
    if s != [] {
      var before, last := s[..|s| - 1], s[|s| - 1];
      EncodeName(before);
      assert EncodeByte(last) == [last] && s == before + [last];
    }
  }

  predicate ScopesMeet(c: Config, database: text, c': Config, database': text) {
    SameScope(c, database, c', database') || Crossed(c, c', database') || Crossed(c', c, database)
  }

  lemma SamePrefixMeets(c: Config, database: text, c': Config, database': text)
    requires TimestampPrefix(c, database) == TimestampPrefix(c', database')
    ensures ScopesMeet(c, database, c', database')
  {
    SamePrefixParts(c, database, c', database');
    if c.mode == c'.mode == PerDatabase {
      EncodingFaithful(database, database');
      assert Base(c) == Parent(c)[..|Parent(c)| - |DIRECTORY|] == Parent(c')[..|Parent(c')| - |DIRECTORY|] == Base(c');
    } else if c.mode != c'.mode {
      EncodeFull(if c.mode.Full? then database' else database);
    }
  }

  lemma MeetingPrefixes(c: Config, database: text, c': Config, database': text)
    requires ScopesMeet(c, database, c', database')
    ensures TimestampPrefix(c, database) == TimestampPrefix(c', database')
  {
    PrefixParts(c, database);
    PrefixParts(c', database');
    if c.mode != c'.mode { EncodeFull(FULL); }
  }

  // Two configurations recognise a common key if and only if they have the same scope, or
  // one backs up everything under the very directory the other uses for a database named
  // "full". Distinct values of S3_PREFIX alone do not keep scopes apart.
  lemma ScopesMeetExactly(c: Config, database: text, c': Config, database': text)
    ensures (exists key :: IsTimestampBackup(c, database, key) && IsTimestampBackup(c', database', key)) <==>
            ScopesMeet(c, database, c', database')
  {
    hide IsTimestampBackup, TimestampPrefix, ScopesMeet, CivilOf, Layout;
    if key :| IsTimestampBackup(c, database, key) && IsTimestampBackup(c', database', key) {
      RecognisedByPrefix(c, database, c', database', key);
      SamePrefixMeets(c, database, c', database');
    }
    if ScopesMeet(c, database, c', database') {
      MeetingPrefixes(c, database, c', database');
      SomeKey(c, database);
      SomeKey(c', database');
    }
  }

  lemma SomeKey(c: Config, database: text)
    ensures IsTimestampBackup(c, database, TimestampPrefix(c, database) + Layout(CivilOf(0)) + ".zip")
  {
    BackupKeyRecognised(c.(naming := Timestamped, passphrase := []), database, 0);
  }

  // For instance: different values of S3_PREFIX, and every key of the one is a key of the other.
  lemma DifferentPrefixesMeet(naming: Naming, passphrase: text)
    ensures var full := Config(Full, naming, "b/per-database", passphrase);
            var one := Config(PerDatabase, naming, "b", passphrase);
            full.prefix != one.prefix && ScopesMeet(full, [], one, FULL)
              && forall now :: BackupKey(full, [], now) == BackupKey(one, FULL, now)
  {
    hide IsTimestampBackup, Encode, BackupKey;
    var full, one := Config(Full, naming, "b/per-database", passphrase), Config(PerDatabase, naming, "b", passphrase);
    ExampleBases(full, one);
    MeetingPrefixes(full, [], one, FULL);
    forall now: nat ensures BackupKey(full, [], now) == BackupKey(one, FULL, now) {
      KeyParts(full, [], now);
      KeyParts(one, FULL, now);
    }
  }

  lemma ExampleBases(full: Config, one: Config)
    requires full.prefix == "b/per-database" && one.prefix == "b"
    ensures Base(full) == Base(one) + DIRECTORY
  {
    assert TrimSlashes(full.prefix) == full.prefix && TrimSlashes(one.prefix) == one.prefix;
  }

  // Keys piece by piece: a prefix with slashes around it, an encoded name, and encryption;
  lemma EncryptedKey()
    ensures BackupKey(Config(PerDatabase, Timestamped, "/b//", "secret"), "a b~", 63_884_343_600) ==
            "/b/" + "per-database/" + "a%20b~" + "/" + "2024-05-31T03:00:00" + ".zip.gpg"
  {
    var c := Config(PerDatabase, Timestamped, "/b//", "secret");
    hide Layout, CivilOf, Encode, Base;
    LastOfMay();
    EncodedExample();
    BaseExample(c);
  }

  lemma BaseExample(c: Config)
    requires c.prefix == "/b//"
    ensures Base(c) == "/b/"
  {
    assert "/b//"[..3] == "/b/" && "/b/"[..2] == "/b";
    assert TrimSlashes("/b//") == TrimSlashes("/b/") == "/b";
  }

  lemma EncodedExample()
    ensures Encode("a b~") == "a%20b~"
  {
    var s: text := "a b~";
    assert s[..3] == "a b" && s[..3][..2] == "a " && s[..3][..2][..1] == "a";
    assert Encode("a") == [] + ['a'] && Encode("a ") == "a%20" && Encode("a b") == "a%20b";
  }

  // and the plain ones of the full replica set and of a database without a prefix.
  lemma PlainKeys(now: nat)
    ensures BackupKey(Config(Full, Fixed, [], []), [], now) == "full/" + "latest" + ".zip"
    ensures BackupKey(Config(PerDatabase, Fixed, "/", "secret"), "a b~", now) ==
            "per-database/" + "a%20b~" + "/" + "latest" + ".zip.gpg"
    ensures BackupKey(Config(Full, Timestamped, [], []), [], 63_884_343_600) == "full/" + "2024-05-31T03:00:00" + ".zip"
  {
    LastOfMay();
    EncodedExample();
    assert TrimSlashes("/") == TrimSlashes([]) == [];
    hide Layout, CivilOf, Encode, TrimSlashes;
    var none: text := [];
    assert none + "full/" == "full/" && none + "per-database/" == "per-database/";
  }

  // Under one prefix no key is a timestamp backup of two scopes.
  lemma ScopesDisjoint(c: Config, database: text, c': Config, database': text, key: text)
    requires c.prefix == c'.prefix
    requires IsTimestampBackup(c, database, key) && IsTimestampBackup(c', database', key)
    ensures SameScope(c, database, c', database')
  {
    ScopesMeetExactly(c, database, c', database');
  }

  // ---- The latest backup -----------------------------------------------------------------------

  lemma {:induction false} LessTransitive(a: text, b: text, c: text)
    requires Less(a, b) && Less(b, c)
    ensures Less(a, c)
  {
    if a != [] && a[0] == b[0] == c[0] { LessTransitive(a[1..], b[1..], c[1..]); }
  }

  lemma {:induction false} LessTotal(a: text, b: text)
    ensures a == b || Less(a, b) || Less(b, a)
    ensures !(Less(a, b) && Less(b, a)) && !Less(a, a)
  {
    if a != [] && b != [] && a[0] == b[0] {
      LessTotal(a[1..], b[1..]);
      assert a == [a[0]] + a[1..] && b == [b[0]] + b[1..];
    }
    if a != [] { LessTotal(a[1..], a[1..]); }
  }

  // The choice withBundle makes among the listed backups, in whatever order they come.
  method SelectLatest(c: Config, keys: seq<text>) returns (key: text)
    ensures key == [] <==> forall k :: k in keys ==> !HasSuffix(k, FileType(c))
    ensures key != [] ==> key in keys && HasSuffix(key, FileType(c))
    ensures forall k :: k in keys && HasSuffix(k, FileType(c)) ==> !Less(key, k)
  {
    key := [];
    for i := 0 to |keys|
      invariant key == [] <==> forall k :: k in keys[..i] ==> !HasSuffix(k, FileType(c))
      invariant key != [] ==> key in keys[..i] && HasSuffix(key, FileType(c))
      invariant forall k :: k in keys[..i] && HasSuffix(k, FileType(c)) ==> !Less(key, k)
    {
      assert forall k :: k in keys[..i + 1] <==> k in keys[..i] || k == keys[i];
      LessTotal(keys[i], keys[i]);
      if HasSuffix(keys[i], FileType(c)) && Less(key, keys[i]) {
        forall k | k in keys[..i] && HasSuffix(k, FileType(c)) ensures !Less(keys[i], k) {
          if Less(keys[i], k) { LessTransitive(key, keys[i], k); }
        }
        key := keys[i];
      }
    }
    assert keys[..|keys|] == keys;
  }

  // Within one scope and file type, keys compare like the seconds they were made in.
  lemma KeysInOrder(c: Config, database: text, s: nat, t: nat)
    requires c.naming.Timestamped? && CivilOf(s).year < 10000 && CivilOf(t).year < 10000
    ensures Less(BackupKey(c, database, s), BackupKey(c, database, t)) <==> s < t
  {
    var p, f := TimestampPrefix(c, database), FileType(c);
    var a, b := Layout(CivilOf(s)), Layout(CivilOf(t));
    Assoc(p, a, f);
    Assoc(p, b, f);
    LessByParts(p, p, a + f, b + f);
    LessTotal(p, p);
    LayoutParts(CivilOf(s));
    LayoutParts(CivilOf(t));
    LessByParts(a, b, f, f);
    LessTotal(f, f);
    PrintingIsMonotone(s, t);
  }
}
