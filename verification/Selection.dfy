/** Which databases a run backs up: the selectors, their lists of names, and the choice itself. */
module Selection {
  import opened Keys
  import opened Members
  import opened Splitting
  import opened Text

  // ---- Lists of names -----------------------------------------------------------------------

  // One character of white space as Unicode defines it, in UTF-8.
  predicate Space(s: text) {
    || (|s| == 1 && (9 <= s[0] as nat <= 13 || s[0] == ' '))
    || (|s| == 2 && s[0] as nat == 0xC2 && s[1] as nat in {0x85, 0xA0})
    || (|s| == 3 && s[0] as nat == 0xE1 && s[1] as nat == 0x9A && s[2] as nat == 0x80)
    || (|s| == 3 && s[0] as nat == 0xE2 && s[1] as nat == 0x80
      && (0x80 <= s[2] as nat <= 0x8A || s[2] as nat in {0xA8, 0xA9, 0xAF}))
    || (|s| == 3 && s[0] as nat == 0xE2 && s[1] as nat == 0x81 && s[2] as nat == 0x9F)
    || (|s| == 3 && s[0] as nat == 0xE3 && s[1] as nat == 0x80 && s[2] as nat == 0x80)
  }

  // The code points with Unicode's property White_Space.
  const WHITE: set<nat> := {
    9, 10, 11, 12, 13, 0x20, 0x85, 0xA0, 0x1680, 0x2000, 0x2001, 0x2002, 0x2003, 0x2004, 0x2005, 0x2006, 0x2007, 0x2008,
    0x2009, 0x200A, 0x2028, 0x2029, 0x202F, 0x205F, 0x3000
  }

  lemma SpaceExactly(s: text)
    ensures Space(s) <==> exists code: nat :: code in WHITE && Scalar(code) && Octets(code) == s
  {
    if Space(s) { var code := SpaceCode(s); }
    if code: nat :| code in WHITE && Scalar(code) && Octets(code) == s { WhiteIsSpace(code); }
  }

  lemma SpaceCode(s: text) returns (code: nat)
    requires Space(s)
    ensures code in WHITE && Scalar(code) && Octets(code) == s
  {
    hide Octets;
    var a, b, c := s[0] as nat, if |s| > 1 then s[1] as nat else 0, if |s| > 2 then s[2] as nat else 0;
    if |s| == 1 {
      OneOctet(a);
      code := a;
    } else if |s| == 2 {
      TwoOctets(a, b);
      code := (a - 0xC0) * 64 + (b - 0x80);
    } else {
      ThreeOctets(a, b, c);
      code := (a - 0xE0) * 4096 + (b - 0x80) * 64 + (c - 0x80);
    }
    assert s == if |s| == 1 then [s[0]] else if |s| == 2 then [s[0], s[1]] else [s[0], s[1], s[2]];
  }

  lemma WhiteIsSpace(code: nat)
    requires code in WHITE
    ensures Scalar(code) && Space(Octets(code))
  {
  }

  predicate SpaceFirst(s: text, n: nat) { n <= |s| && Space(s[..n]) }
  predicate SpaceLast(s: text, n: nat) { n <= |s| && Space(s[|s| - n..]) }

  // The length of one character of white space at the start, or at the end; 0 if there is none.
  function Leading(s: text): (n: nat)
    ensures n <= |s| && (n > 0 ==> SpaceFirst(s, n))
  {
    if SpaceFirst(s, 1) then 1 else if SpaceFirst(s, 2) then 2 else if SpaceFirst(s, 3) then 3 else 0
  }

  function Trailing(s: text): (n: nat)
    ensures n <= |s| && (n > 0 ==> SpaceLast(s, n))
  {
    if SpaceLast(s, 1) then 1 else if SpaceLast(s, 2) then 2 else if SpaceLast(s, 3) then 3 else 0
  }

  lemma SpaceIsShort(s: text, n: nat)
    ensures SpaceFirst(s, n) || SpaceLast(s, n) ==> 1 <= n <= 3
  {
  }

  lemma NoneLeads(s: text, n: nat)
    requires Leading(s) == 0
    ensures !SpaceFirst(s, n)
  {
    hide SpaceFirst, SpaceLast;
    SpaceIsShort(s, n);
  }

  lemma NoneTrails(s: text, n: nat)
    requires Trailing(s) == 0
    ensures !SpaceLast(s, n)
  {
    hide SpaceFirst, SpaceLast;
    SpaceIsShort(s, n);
  }

  function TrimLeft(s: text): text
    decreases |s|
  {
    if Leading(s) > 0 then TrimLeft(s[Leading(s)..]) else s
  }

  function TrimRight(s: text): text
    decreases |s|
  {
    if Trailing(s) > 0 then TrimRight(s[..|s| - Trailing(s)]) else s
  }

  // strings.TrimSpace
  function TrimSpace(s: text): text { TrimRight(TrimLeft(s)) }

  // No white space at either end.
  ghost predicate Bare(s: text) { forall n: nat :: !SpaceFirst(s, n) && !SpaceLast(s, n) }

  // Nothing but white space.
  ghost predicate Blank(s: text) {
    exists pieces: seq<text> :: (forall i :: 0 <= i < |pieces| ==> Space(pieces[i])) && Concat(pieces) == s
  }

  lemma NothingIsBlank()
    ensures Blank([])
  {
    var none: seq<text> := [];
    assert Concat(none) == [];
  }

  lemma BlankBefore(first: text, s: text)
    requires Space(first) && Blank(s)
    ensures Blank(first + s)
  {
    hide Space, Concat;
    var pieces: seq<text> :| (forall i :: 0 <= i < |pieces| ==> Space(pieces[i])) && Concat(pieces) == s;
    ConcatFront(first, pieces);
    assert Concat([first] + pieces) == first + s;
  }

  lemma BlankBehind(s: text, last: text)
    requires Blank(s) && Space(last)
    ensures Blank(s + last)
  {
    hide Space;
    var pieces: seq<text> :| (forall i :: 0 <= i < |pieces| ==> Space(pieces[i])) && Concat(pieces) == s;
    assert (pieces + [last])[..|pieces|] == pieces && Concat(pieces + [last]) == s + last;
  }

  lemma {:induction false} ConcatFront(first: text, pieces: seq<text>)
    ensures Concat([first] + pieces) == first + Concat(pieces)
  {
    var all := [first] + pieces;
    if pieces == [] {
      assert all == [first] && all[..0] == [];
    } else {
      ConcatFront(first, pieces[..|pieces| - 1]);
      assert all[..|all| - 1] == [first] + pieces[..|pieces| - 1];
    }
  }

  lemma {:induction false} TrimLeftExact(s: text) returns (k: nat)
    ensures k <= |s| && TrimLeft(s) == s[k..] && Leading(TrimLeft(s)) == 0 && Blank(s[..k])
    decreases |s|
  {
    hide Leading, Space, Blank;
    NothingIsBlank();
    k := Leading(s);
    if k > 0 {
      var more := TrimLeftExact(s[k..]);
      assert s[k..][more..] == s[k + more..] && s[..k + more] == s[..k] + s[k..][..more];
      BlankBefore(s[..k], s[k..][..more]);
      k := k + more;
    }
  }

  lemma {:induction false} TrimRightExact(s: text) returns (k: nat)
    ensures k <= |s| && TrimRight(s) == s[..k] && Trailing(TrimRight(s)) == 0 && Blank(s[k..])
    decreases |s|
  {
    hide Trailing, Space, Blank;
    NothingIsBlank();
    k := |s| - Trailing(s);
    if k < |s| {
      var less := TrimRightExact(s[..k]);
      assert s[..k][..less] == s[..less] && s[less..] == s[..k][less..] + s[k..];
      BlankBehind(s[..k][less..], s[k..]);
      k := less;
    }
  }

  lemma StillNoLeading(s: text, k: nat)
    requires k <= |s| && Leading(s) == 0
    ensures Leading(s[..k]) == 0
  {
    hide Leading, SpaceFirst;
    var n := Leading(s[..k]);
    NoneLeads(s, n);
    FirstStays(s, k, n);
  }

  lemma FirstStays(s: text, k: nat, n: nat)
    requires k <= |s|
    ensures SpaceFirst(s[..k], n) ==> SpaceFirst(s, n)
  {
    hide Space;
    if n <= k { assert s[..k][..n] == s[..n]; }
  }

  lemma BareExactly(s: text)
    ensures Bare(s) <==> Leading(s) == 0 && Trailing(s) == 0
  {
    hide Leading, Trailing, SpaceFirst, SpaceLast;
    if Bare(s) { assert !SpaceFirst(s, Leading(s)) && !SpaceLast(s, Trailing(s)); }
    if Leading(s) == 0 && Trailing(s) == 0 {
      forall n: nat ensures !SpaceFirst(s, n) && !SpaceLast(s, n) {
        NoneLeads(s, n);
        NoneTrails(s, n);
      }
    }
  }

  // Trimming cuts white space off both ends until none is left there, and leaves alone exactly
  // the strings that had none.
  lemma TrimSpaceExact(s: text)
    ensures exists i: nat, j: nat :: i <= j <= |s| && TrimSpace(s) == s[i..j] && Blank(s[..i]) && Blank(s[j..])
    ensures Bare(TrimSpace(s)) && (TrimSpace(s) == s <==> Bare(s))
  {
    hide Leading, Trailing, Space, Blank;
    var i := TrimLeftExact(s);
    var k := TrimRightExact(TrimLeft(s));
    StillNoLeading(TrimLeft(s), k);
    assert s[i..][..k] == s[i..i + k] && s[i..][k..] == s[i + k..];
    BareExactly(s);
    BareExactly(TrimSpace(s));
  }

  function Trimmed(parts: seq<text>): (r: seq<text>)
    ensures |r| == |parts| && forall i :: 0 <= i < |r| ==> r[i] == TrimSpace(parts[i])
  {
    seq(|parts|, i requires 0 <= i < |parts| => TrimSpace(parts[i]))
  }

  method ParseDatabaseList(value: text) returns (names: seq<text>)
    ensures names == Trimmed(Split(value, ','))
  {
    hide Split, TrimSpace;
    var parts := Split(value, ',');
    names := parts;
    for i := 0 to |parts|
      invariant |names| == |parts|
      invariant forall j :: 0 <= j < |parts| ==> names[j] == if j < i then TrimSpace(parts[j]) else parts[j]
    {
      names := names[i := TrimSpace(names[i])];
    }
  }

  // A list of names is read back from its comma-separated form exactly when no name has a
  // comma in it or white space at an end: a valid database name such as "a,b" cannot be listed.
  lemma ListRoundTrip(names: seq<text>)
    requires |names| > 0
    ensures Trimmed(Split(Join(names, ','), ',')) == names <==>
            forall i :: 0 <= i < |names| ==> Free(names[i], ',') && Bare(names[i])
  {
    hide Join, Split, TrimSpace, Bare;
    var s := Join(names, ',');
    if forall i :: 0 <= i < |names| ==> Free(names[i], ',') && Bare(names[i]) {
      JoinSplit(names, ',');
      forall i | 0 <= i < |names| ensures TrimSpace(names[i]) == names[i] { TrimSpaceExact(names[i]); }
    }
    if Trimmed(Split(s, ',')) == names {
      SplitJoin(s, ',');
      forall i | 0 <= i < |names| ensures Free(names[i], ',') && Bare(names[i]) { ListedName(Split(s, ',')[i]); }
    }
  }

  lemma ListedName(part: text)
    requires Free(part, ',')
    ensures Free(TrimSpace(part), ',') && Bare(TrimSpace(part))
  {
    hide TrimSpace, Bare;
    TrimSpaceExact(part);
  }

  // ---- Names --------------------------------------------------------------------------------

  predicate SystemDatabase(name: text) { name == "admin" || name == "local" || name == "config" }

  const FORBIDDEN: text := "/\\.\"$*<>:|? "

  // Control characters and the forbidden ones are single bytes of valid UTF-8.
  predicate ValidName(name: text) {
    && name != [] && |name| < 64 && ValidUtf8(name)
    && forall i :: 0 <= i < |name| ==> name[i] !in FORBIDDEN && 32 <= name[i] as nat != 127
  }

  // By the codes of the characters: none up to the space, not DEL, and none of " $ * . / : < > ? \\ |
  predicate UserName(name: text) {
    && 1 <= |name| <= 63 && ValidUtf8(name) && name !in {"admin", "local", "config"}
    && forall i :: 0 <= i < |name| ==>
      32 < name[i] as nat && name[i] as nat !in {34, 36, 42, 46, 47, 58, 60, 62, 63, 92, 124, 127}
  }

  lemma UserNameExactly(name: text)
    ensures UserName(name) <==> ValidName(name) && !SystemDatabase(name)
  {
  }

  predicate ValidNames(names: seq<text>) {
    names != [] && forall i :: 0 <= i < |names| ==> ValidName(names[i]) && !SystemDatabase(names[i])
  }

  lemma ValidNamesExactly(names: seq<text>)
    ensures ValidNames(names) <==> names != [] && forall i :: 0 <= i < |names| ==> UserName(names[i])
  {
    hide ValidName, SystemDatabase, UserName;
    forall i | 0 <= i < |names|
      ensures UserName(names[i]) <==> ValidName(names[i]) && !SystemDatabase(names[i])
    {
      UserNameExactly(names[i]);
    }
  }

  method ValidateDatabases(names: seq<text>) returns (ok: bool)
    ensures ok <==> ValidNames(names)
    ensures ok <==> names != [] && forall i :: 0 <= i < |names| ==> UserName(names[i])
  {
    hide ValidName, SystemDatabase, UserName;
    ValidNamesExactly(names);
    if |names| == 0 { return false; }
    for i := 0 to |names|
      invariant forall j :: 0 <= j < i ==> ValidName(names[j]) && !SystemDatabase(names[j])
    {
      if !ValidName(names[i]) { return false; }
      if SystemDatabase(names[i]) { return false; }
    }
    return true;
  }

  // ---- The choice -----------------------------------------------------------------------------

  // The selectors as they stand in the environment; an empty text is a selector not given.
  datatype Selectors = Selectors(database: text, databases: text, backupAll: bool, exclude: text)

  function Listed(value: text): seq<text> { Trimmed(Split(value, ',')) }

  function UserDatabases(all: seq<text>): seq<text> {
    if all == [] then []
    else
      var before, last := UserDatabases(all[..|all| - 1]), all[|all| - 1];
      if SystemDatabase(last) then before else before + [last]
  }

  predicate Internal(name: text) { name in {"admin", "local", "config"} }

  // The databases at these places, in order, are all that are not internal.
  ghost predicate PlacesOf(all: seq<text>, users: seq<text>, places: seq<nat>) {
    && |places| == |users|
    && (forall k :: 0 <= k < |places| ==> places[k] < |all| && users[k] == all[places[k]])
    && (forall j, k :: 0 <= j < k < |places| ==> places[j] < places[k])
    && (forall i :: 0 <= i < |all| && !Internal(all[i]) ==> i in places)
    && (forall k :: 0 <= k < |users| ==> !Internal(users[k]))
  }

  lemma OnePlaceMore(all: seq<text>, users: seq<text>, places: seq<nat>, name: text)
    requires PlacesOf(all, users, places)
    ensures Internal(name) ==> PlacesOf(all + [name], users, places)
    ensures !Internal(name) ==> PlacesOf(all + [name], users + [name], places + [|all|])
  {
    hide Internal;
    var longer := places + [|all|];
    forall i | 0 <= i < |all + [name]| && !Internal((all + [name])[i]) ensures i in longer {
      if i < |all| { assert i in places; } else { assert longer[|places|] == i; }
    }
  }

  lemma {:induction false} UserDatabasesExactly(all: seq<text>) returns (places: seq<nat>)
    ensures PlacesOf(all, UserDatabases(all), places)
  {
    hide PlacesOf, Internal, SystemDatabase;
    places := [];
    if all == [] {
      assert PlacesOf([], [], []) by { NoPlaces(); }
    } else {
      var before, name := all[..|all| - 1], all[|all| - 1];
      places := UserDatabasesExactly(before);
      OnePlaceMore(before, UserDatabases(before), places, name);
      InternalExactly(name);
      assert all == before + [name];
      if !Internal(name) { places := places + [|before|]; }
    }
  }

  lemma NoPlaces()
    ensures PlacesOf([], [], [])
  {
  }

  lemma InternalExactly(name: text)
    ensures Internal(name) <==> SystemDatabase(name)
  {
  }

  // What the selectors ask for, before exclusions.
  function Requested(s: Selectors, all: seq<text>): seq<text> {
    if s.backupAll then UserDatabases(all)
    else if s.databases != [] then Listed(s.databases) else [s.database]
  }

  predicate Excluded(s: Selectors, name: text) { s.exclude != [] && name in Listed(s.exclude) }

  predicate NoneMissing(names: seq<text>, all: seq<text>) { forall i :: 0 <= i < |names| ==> names[i] in all }

  // Where a name first occurs among the first n.
  function FirstAt(names: seq<text>, name: text): (i: nat)
    requires name in names
    ensures i < |names| && names[i] == name && forall j :: 0 <= j < i ==> names[j] != name
  {
    if names[0] == name then 0 else FirstAt(names[1..], name) + 1
  }

  ghost predicate InOrder(selected: seq<text>, names: seq<text>) {
    && (forall i :: 0 <= i < |selected| ==> selected[i] in names)
    && (forall i, j :: 0 <= i < j < |selected| ==> FirstAt(names, selected[i]) < FirstAt(names, selected[j]))
  }

  // The requested names less the exclusions: each once, in the order of first occurrence.
  ghost predicate Chosen(selected: seq<text>, names: seq<text>, s: Selectors) {
    && (forall name :: name in selected <==> name in names && !Excluded(s, name))
    && InOrder(selected, names)
  }

  method SelectUser(all: seq<text>) returns (names: seq<text>)
    ensures names == UserDatabases(all)
  {
    names := [];
    for i := 0 to |all|
      invariant names == UserDatabases(all[..i])
    {
      assert all[..i + 1][..i] == all[..i];
      if !SystemDatabase(all[i]) { names := names + [all[i]]; }
    }
    assert all[..|all|] == all;
  }

  method SetOf(names: seq<text>) returns (r: set<text>)
    ensures forall name :: name in r <==> name in names
  {
    r := {};
    for i := 0 to |names|
      invariant forall name :: name in r <==> name in names[..i]
    {
      r := r + {names[i]};
    }
  }

  // When there is a choice at all: every requested name is valid and exists, and one is left.
  ghost predicate Selectable(mode: Mode, s: Selectors, listed: Option<seq<text>>) {
    mode.PerDatabase? ==>
      && listed.Some?
      && var names := Requested(s, listed.value);
      ValidNames(names) && NoneMissing(names, listed.value) && exists name :: name in names && !Excluded(s, name)
  }

  // A name that is backed up: asked for by the strongest selector, and not on the other list.
  ghost predicate IsChosen(s: Selectors, all: seq<text>, name: text) {
    && (if s.backupAll then name in all && !Internal(name)
        else if s.databases == [] then name == s.database
        else name in Trimmed(Split(s.databases, ',')))
    && (s.exclude != [] ==> name !in Trimmed(Split(s.exclude, ',')))
  }

  ghost predicate AllChosen(s: Selectors, all: seq<text>, selected: seq<text>) {
    forall name :: name in selected <==> IsChosen(s, all, name)
  }

  lemma {:induction false} IsUserDatabase(all: seq<text>, name: text)
    ensures name in UserDatabases(all) <==> name in all && !Internal(name)
  {
    if all != [] {
      IsUserDatabase(all[..|all| - 1], name);
      assert all == all[..|all| - 1] + [all[|all| - 1]];
    }
  }

  lemma ChosenExactly(selected: seq<text>, s: Selectors, all: seq<text>)
    requires Chosen(selected, Requested(s, all), s)
    ensures AllChosen(s, all, selected)
  {
    hide Split, Trimmed, InOrder, Internal;
    forall name ensures name in selected <==> IsChosen(s, all, name) { IsUserDatabase(all, name); }
  }

  method AllExist(names: seq<text>, all: seq<text>) returns (found: bool)
    ensures found <==> NoneMissing(names, all)
  {
    var exists' := SetOf(all);
    for i := 0 to |names|
      invariant forall j :: 0 <= j < i ==> names[j] in all
    {
      if names[i] !in exists' { return false; }
    }
    return true;
  }

  // Every explicit name is checked for existence before anything is backed up.
  method Databases(mode: Mode, s: Selectors, listed: Option<seq<text>>) returns (r: Option<seq<text>>)
    ensures r.Some? <==> Selectable(mode, s, listed)
    ensures mode.Full? ==> r == Some([[]])
    ensures mode.PerDatabase? && r.Some? ==> r.value != [] && Chosen(r.value, Requested(s, listed.value), s)
    ensures mode.PerDatabase? && r.Some? ==> AllChosen(s, listed.value, r.value)
  {
    hide Split, Trimmed, ValidNames, UserName, UserDatabases, NoneMissing, Excluded, Chosen, AllChosen;
    if mode.Full? { return Some([[]]); }
    if listed.None? { return None; }
    var all := listed.value;
    var names: seq<text>;
    if s.backupAll {
      names := SelectUser(all);
    } else if s.databases != [] {
      names := ParseDatabaseList(s.databases);
    } else {
      names := [s.database];
    }
    var valid := ValidateDatabases(names);
    if !valid { return None; }
    var found := AllExist(names, all);
    if !found { return None; }
    var selected := Choose(names, s);
    SomeChosen(selected, names, s);
    ChosenExactly(selected, s, all);
    if |selected| == 0 { return None; }
    return Some(selected);
  }

  lemma SomeChosen(selected: seq<text>, names: seq<text>, s: Selectors)
    requires Chosen(selected, names, s)
    ensures |selected| > 0 <==> exists name :: name in names && !Excluded(s, name)
  {
    hide Excluded, InOrder;
    if |selected| > 0 { assert selected[0] in selected; }
  }

  method ExcludedNames(s: Selectors) returns (excluded: set<text>)
    ensures forall name :: name in excluded <==> Excluded(s, name)
  {
    hide Split, Trimmed;
    excluded := {};
    if s.exclude != [] {
      var list := ParseDatabaseList(s.exclude);
      excluded := SetOf(list);
    }
  }

  // The last two loops of databases: exclusions, then the first occurrence of each name.
  method Choose(names: seq<text>, s: Selectors) returns (selected: seq<text>)
    ensures Chosen(selected, names, s)
  {
    hide FirstAt, Excluded;
    var excluded := ExcludedNames(s);
    var seen: set<text> := {};
    selected := [];
    for i := 0 to |names|
      invariant forall name :: name in seen <==> name in selected
      invariant forall name :: name in selected <==> name in names[..i] && name !in excluded
      invariant InOrder(selected, names)
      invariant forall name :: name in names[..i] ==> FirstAt(names, name) < i
    {
      var name := names[i];
      FirstSeen(names, i);
      if name !in excluded && name !in seen {
        AppendInOrder(selected, names, i);
        selected := selected + [name];
        seen := seen + {name};
      }
    }
    assert names[..|names|] == names;
  }

  lemma FirstSeen(names: seq<text>, i: nat)
    requires i < |names|
    ensures FirstAt(names, names[i]) <= i
    ensures names[i] !in names[..i] ==> FirstAt(names, names[i]) == i
  {
    var k := FirstAt(names, names[i]);
    if k < i { assert names[..i][k] == names[i]; }
  }

  lemma AppendInOrder(selected: seq<text>, names: seq<text>, i: nat)
    requires i < |names| && InOrder(selected, names) && FirstAt(names, names[i]) == i
    requires forall name :: name in selected ==> name in names && FirstAt(names, name) < i
    ensures InOrder(selected + [names[i]], names)
  {
    hide FirstAt;
  }

  // In that order no name can occur twice.
  lemma ChosenOnce(selected: seq<text>, names: seq<text>, s: Selectors, i: nat, j: nat)
    requires Chosen(selected, names, s) && i < j < |selected|
    ensures selected[i] != selected[j]
  {
    assert FirstAt(names, selected[i]) < FirstAt(names, selected[j]);
  }

  lemma {:induction false} PlaceAtLeast(selected: seq<text>, names: seq<text>, k: nat)
    requires InOrder(selected, names) && k < |selected|
    ensures selected[k] in names && k <= FirstAt(names, selected[k]) < |names|
  {
    hide FirstAt;
    if k > 0 { PlaceAtLeast(selected, names, k - 1); }
  }

  // A valid name that no list can hold.
  lemma CommaName()
    ensures ValidNames(["a,b"]) && Listed("a,b") != ["a,b"]
  {
    hide Split, Trimmed, ValidName, SystemDatabase;
    var name: text := "a,b";
    CommaNameIsValid();
    assert name[1] == ',';
    ListRoundTrip([name]);
    assert [name][0] == name && Join([name], ',') == name;
  }

  lemma CommaNameIsValid()
    ensures ValidName("a,b") && !SystemDatabase("a,b")
  {
    AsciiIsUtf8("a,b");
  }
}
