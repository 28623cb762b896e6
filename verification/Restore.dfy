/** Restoring: which object is meant, what is checked before anything is imported, and in what order. */
module Restore {
  import opened Bundle
  import opened Calendar
  import opened Keys
  import opened Members
  import opened Text
  import opened Validation
  import BundleRoundTrip
  import Publish
  import Retention
  import Selection

  // ---- Which object -----------------------------------------------------------------------------

  predicate SelectorsFit(mode: Mode, s: Selection.Selectors) {
    && s.databases == [] && s.exclude == [] && !s.backupAll
    && if mode.Full? then s.database == [] else Selection.ValidNames([s.database])
  }

  // The timestamp and the version asked for; empty texts for neither.
  datatype Choice = Choice(timestamp: text, version: text)

  function ValidateRestore(c: Config, s: Selection.Selectors, args: seq<text>): Option<Choice> {
    if !SelectorsFit(c.mode, s) then None
    else if |args| == 0 then Some(Choice([], []))
    else if |args| == 1 && c.naming.Timestamped? && MatchesLayout(args[0]) && ParseLayout(args[0]).Some? then
      Some(Choice(args[0], []))
    else if |args| == 2 && c.naming.Fixed? && args[0] == "--version-id" && args[1] != "" then Some(Choice([], args[1]))
    else None
  }

  // A request, written out: which selectors are refused, and which arguments ask for what.
  lemma RequestExactly(c: Config, s: Selection.Selectors, args: seq<text>, choice: Choice)
    ensures ValidateRestore(c, s, args) == Some(choice) <==>
      && s.databases == [] && s.exclude == [] && !s.backupAll
      && (c.mode == Full ==> s.database == [])
      && (c.mode == PerDatabase ==> Selection.UserName(s.database))
      && (|| (args == [] && choice == Choice([], []))
          || (c.naming == Timestamped && args == [choice.timestamp] && choice.version == []
              && exists t: nat :: CivilOf(t).year < 10000 && choice.timestamp == Layout(CivilOf(t)))
          || (c.naming == Fixed && choice.version != [] && args == ["--version-id", choice.version]
              && choice.timestamp == []))
  {
    hide Selection.UserName, Selection.ValidName, Selection.SystemDatabase, MatchesLayout, ParseLayout, Layout, CivilOf;
    Selection.ValidNamesExactly([s.database]);
    assert [s.database][0] == s.database;
    if |args| == 1 { ParseExact(args[0]); assert args == [args[0]]; }
    if |args| == 2 { assert args == [args[0], args[1]]; }
  }

  function ExplicitKey(c: Config, database: text, timestamp: text): text {
    TimestampPrefix(c, database) + timestamp + FileType(c)
  }

  // In timestamp mode a single argument is accepted exactly when it is the printed form of a
  // second in the years 0000 to 9999, and then it leads to the key of the backup of that second.
  lemma TimestampExact(c: Config, s: Selection.Selectors, arg: text)
    requires c.naming.Timestamped? && SelectorsFit(c.mode, s)
    ensures ValidateRestore(c, s, [arg]).Some? <==>
      exists t: nat :: CivilOf(t).year < 10000 && arg == Layout(CivilOf(t))
    ensures forall t: nat :: CivilOf(t).year < 10000 && arg == Layout(CivilOf(t)) ==>
              ExplicitKey(c, s.database, arg) == BackupKey(c, s.database, t)
  {
    hide SelectorsFit;
    ParseExact(arg);
  }

  function KeysOf(backups: seq<Retention.Object>): (keys: seq<text>)
    ensures |keys| == |backups| && forall i :: 0 <= i < |keys| ==> keys[i] == backups[i].key
  {
    seq(|backups|, i requires 0 <= i < |backups| => backups[i].key)
  }

  // The candidates for the latest backup.
  predicate Candidate(c: Config, database: text, objects: Retention.Objects, key: text) {
    key in objects && IsTimestampBackup(c, database, key) && HasSuffix(key, FileType(c))
  }

  // What a key is resolved to: a candidate no other is greater than.
  ghost predicate Latest(c: Config, database: text, objects: Retention.Objects, key: text) {
    && Candidate(c, database, objects, key)
    && forall k :: Candidate(c, database, objects, k) ==> !Less(key, k)
  }

  // The key a request is resolved to.
  ghost predicate Resolved(c: Config, database: text, objects: Retention.Objects, choice: Choice, key: text) {
    match c.naming
    case Fixed => key == FixedKey(c, database)
    case Timestamped =>
      if choice.timestamp != [] then key == ExplicitKey(c, database, choice.timestamp)
      else Latest(c, database, objects, key)
  }

  // Only the search for the latest backup can come to nothing.
  ghost predicate NothingFound(c: Config, database: text, objects: Retention.Objects, choice: Choice, fails: bool) {
    c.naming.Timestamped? && choice.timestamp == [] && (fails || forall k :: !Candidate(c, database, objects, k))
  }

  method ResolveKey(store: Retention.Store, c: Config, database: text, choice: Choice, fails: bool)
    returns (r: Option<text>)
    ensures r.Some? ==> Resolved(c, database, store.objects, choice, r.value)
    ensures r.None? ==> NothingFound(c, database, store.objects, choice, fails)
  {
    hide IsTimestampBackup, HasSuffix, FileType, TimestampPrefix, FixedKey, Less;
    if c.naming.Fixed? { return Some(FixedKey(c, database)); }
    if choice.timestamp != [] { return Some(ExplicitKey(c, database, choice.timestamp)); }
    var backups := Retention.TimestampBackups(c, store, database, fails);
    if backups.None? { return None; }
    var key := SelectLatest(c, KeysOf(backups.value));
    SameCandidates(c, database, store.objects, backups.value);
    if key == [] { return None; }
    return Some(key);
  }

  lemma SameCandidates(c: Config, database: text, objects: Retention.Objects, backups: seq<Retention.Object>)
    requires Retention.Backups(c, database, objects, backups)
    ensures forall k :: k in KeysOf(backups) && HasSuffix(k, FileType(c)) <==> Candidate(c, database, objects, k)
  {
    hide IsTimestampBackup, HasSuffix, FileType, Retention.KeysDistinct;
    forall k | k in KeysOf(backups) ensures k in objects && IsTimestampBackup(c, database, k) {
      var i :| 0 <= i < |backups| && KeysOf(backups)[i] == k;
      assert backups[i] in backups;
    }
    forall k | k in objects && IsTimestampBackup(c, database, k) ensures k in KeysOf(backups) {
      assert Retention.Object(k, objects[k].modified) in backups;
      var i :| 0 <= i < |backups| && backups[i] == Retention.Object(k, objects[k].modified);
      assert KeysOf(backups)[i] == k;
    }
  }

  // When the candidates were made by backups, the one picked has the latest second of all.
  lemma LatestInTime(c: Config, database: text, objects: Retention.Objects, key: text)
    requires c.naming.Timestamped? && Latest(c, database, objects, key)
    requires forall k :: Candidate(c, database, objects, k) ==>
               exists t: nat :: CivilOf(t).year < 10000 && k == BackupKey(c, database, t)
    ensures exists t: nat :: CivilOf(t).year < 10000 && key == BackupKey(c, database, t) &&
              forall s: nat :: CivilOf(s).year < 10000 && BackupKey(c, database, s) in objects ==> s <= t
  {
    hide IsTimestampBackup, HasSuffix, FileType, BackupKey, CivilOf, Less;
    var t: nat :| CivilOf(t).year < 10000 && key == BackupKey(c, database, t);
    forall s: nat | CivilOf(s).year < 10000 && BackupKey(c, database, s) in objects ensures s <= t {
      BackupKeyRecognised(c, database, s);
      EndsInFileType(c, database, s);
      assert Candidate(c, database, objects, BackupKey(c, database, s));
      KeysInOrder(c, database, t, s);
    }
  }

  lemma EndsInFileType(c: Config, database: text, t: nat)
    ensures HasSuffix(BackupKey(c, database, t), FileType(c))
  {
    var k := BackupKey(c, database, t);
    assert k[|k| - |FileType(c)|..] == FileType(c);
  }

  // ---- The bundle behind the key ------------------------------------------------------------------

  // gpg --decrypt, and opening the ZIP container.
  datatype Tools = Tools(decrypt: text -> Option<text>, open: text -> Option<seq<Entry>>)

  function OpenBundle(c: Config, tools: Tools, stored: text): Option<seq<Entry>> {
    if c.passphrase == [] then tools.open(stored)
    else
      var plain := tools.decrypt(stored);
      if plain.Some? then tools.open(plain.value) else None
  }

  function TargetOf(c: Config, database: text): Target {
    Target(if c.mode.Full? then Bundle.FULL else Bundle.PER_DATABASE, database)
  }

  // What a command of this kind does to the world, in order. `input` is what the tool is fed.
  datatype Event =
    | Downloaded(key: text, version: text)
    | Accepted(manifest: Manifest)
    | Started(args: seq<text>, input: text, ok: bool)

  // What a restore meets: the lock, whether listing and download fail, the noncurrent versions of
  // objects, the tools, and for each import whether the member can be opened and the tool started, and whether it
  // succeeds.
  datatype World = World(
    connection: bool, locked: bool, listingFails: bool, downloadFails: bool, versions: (text, text) -> Option<text>,
    tools: Tools, codec: Codec, starts: nat -> bool, succeeds: nat -> bool)

  // A download that leads to no acceptable bundle.
  ghost predicate Useless(c: Config, database: text, objects: Retention.Objects, w: World, e: Event, version: text) {
    && e.Downloaded?
    && var entries := Fetched(c, objects, w, e.key, version);
    entries.Some? ==> forall m :: !Acceptable(w.codec, entries.value, TargetOf(c, database), m)
  }

  // The download and every check; nothing has been imported when it ends.
  method WithBundle(store: Retention.Store, c: Config, database: text, choice: Choice, w: World)
    returns (bundle: Option<(seq<Entry>, Manifest)>, log: seq<Event>)
    ensures forall i :: 0 <= i < |log| ==> !log[i].Started?
    ensures bundle.Some? ==>
      && |log| == 2 && log[0].Downloaded? && log[0].version == choice.version && log[1] == Accepted(bundle.value.1)
      && Acceptable(w.codec, bundle.value.0, TargetOf(c, database), bundle.value.1)
      && Fetched(c, store.objects, w, log[0].key, choice.version) == Some(bundle.value.0)
    ensures bundle.None? ==> |log| <= 1
    ensures log == [] ==> NothingFound(c, database, store.objects, choice, w.listingFails)
    ensures |log| == 1 ==> Useless(c, database, store.objects, w, log[0], choice.version)
    ensures |log| > 0 ==>
      log[0].Downloaded? && log[0].version == choice.version && Resolved(c, database, store.objects, choice, log[0].key)
  {
    hide Acceptable, Resolved, Candidate, NothingFound, OpenBundle;
    var key := ResolveKey(store, c, database, choice, w.listingFails);
    if key.None? { return None, []; }
    log := [Downloaded(key.value, choice.version)];
    var stored := Download(store.objects, w, key.value, choice.version);
    if stored.None? { return None, log; }
    var entries := OpenBundle(c, w.tools, stored.value);
    if entries.None? { return None, log; }
    var m := ValidateBundle(w.codec, entries.value, TargetOf(c, database));
    if m.None? { return None, log; }
    return Some((entries.value, m.value)), log + [Accepted(m.value)];
  }

  // The current object of a key, or one of its versions.
  function Download(objects: Retention.Objects, w: World, key: text, version: text): Option<text> {
    if w.downloadFails then None
    else if version != [] then w.versions(key, version)
    else if key in objects then Some(objects[key].content) else None
  }

  function Fetched(c: Config, objects: Retention.Objects, w: World, key: text, version: text): Option<seq<Entry>> {
    var stored := Download(objects, w, key, version);
    if stored.Some? then OpenBundle(c, w.tools, stored.value) else None
  }

  // ---- restore --------------------------------------------------------------------------------------

  datatype Settings = Settings(tlsCA: text, parallel: nat, drop: bool)

  const INCLUDE: text := "--nsInclude="

  function CommonArgs(r: Settings): seq<text> {
    (if r.tlsCA != [] then ["--sslCAFile=" + r.tlsCA] else [])
    + ["--archive", "--gzip", "--stopOnError", "--numParallelCollections=" + Retention.Decimal(r.parallel)]
    + if r.drop then ["--drop"] else []
  }

  const IDENTITIES: seq<text> := [
    INCLUDE + "admin.system.users", INCLUDE + "admin.system.roles", INCLUDE + "admin.system.version"
  ]

  function LastArgs(database: text, auth: bool, oplog: bool): seq<text> {
    [if auth then INCLUDE + "admin.*" else if oplog then "--oplogReplay" else INCLUDE + database + ".*"]
  }

  // The imports a restore is to make, in order: users and roles first where the import
  // replaces the identities it is authenticated with.
  function Passes(r: Settings, database: text, auth: bool, oplog: bool): seq<seq<text>> {
    (if r.drop && (auth || oplog) then [CommonArgs(r) + IDENTITIES] else [])
    + [CommonArgs(r) + LastArgs(database, auth, oplog)]
  }

  // These starts are the first passes of the plan, every one but the last successful, and
  // each fed the same bytes from their beginning.
  ghost predicate Follows(starts: seq<Event>, passes: seq<seq<text>>, input: text) {
    && |starts| <= |passes|
    && (forall i :: 0 <= i < |starts| ==> starts[i].Started? && starts[i].args == passes[i] && starts[i].input == input)
    && (forall i :: 0 <= i < |starts| - 1 ==> starts[i].ok)
  }

  ghost predicate AllDone(starts: seq<Event>, passes: seq<seq<text>>) {
    |starts| == |passes| && forall i :: 0 <= i < |starts| ==> starts[i].Started? && starts[i].ok
  }

  // What the tools answer is what counts, and nothing else ends the plan early.
  ghost predicate Faithful(w: World, starts: seq<Event>, passes: seq<seq<text>>) {
    && (forall i :: 0 <= i < |starts| ==> starts[i].Started? && w.starts(i) && starts[i].ok == w.succeeds(i))
    && (|starts| < |passes| ==> (|starts| > 0 && !starts[|starts| - 1].ok) || !w.starts(|starts|))
  }

  // The command line of the i-th import, written out: it is given all of this and nothing else.
  ghost predicate Commanded(r: Settings, database: text, auth: bool, oplog: bool, i: int, args: seq<text>) {
    var first := r.drop && (auth || oplog) && i == 0;
    forall a :: a in args <==>
      || a == "--archive" || a == "--gzip" || a == "--stopOnError"
      || a == "--numParallelCollections=" + Retention.Decimal(r.parallel)
      || (r.tlsCA != [] && a == "--sslCAFile=" + r.tlsCA)
      || (r.drop && a == "--drop")
      || (first && (|| a == "--nsInclude=admin.system.users" || a == "--nsInclude=admin.system.roles"
                    || a == "--nsInclude=admin.system.version"))
      || (!first && auth && a == "--nsInclude=admin.*")
      || (!first && !auth && oplog && a == "--oplogReplay")
      || (!first && !auth && !oplog && a == "--nsInclude=" + database + ".*")
  }

  lemma InEither(x: seq<text>, y: seq<text>, a: text)
    ensures a in x + y <==> a in x || a in y
  {
  }

  lemma CommonExactly(r: Settings, a: text)
    ensures a in CommonArgs(r) <==>
      || a == "--archive" || a == "--gzip" || a == "--stopOnError"
      || a == "--numParallelCollections=" + Retention.Decimal(r.parallel)
      || (r.tlsCA != [] && a == "--sslCAFile=" + r.tlsCA) || (r.drop && a == "--drop")
  {
    hide Retention.Decimal;
  }

  lemma IdentitiesExactly()
    ensures IDENTITIES == [
      "--nsInclude=admin.system.users", "--nsInclude=admin.system.roles", "--nsInclude=admin.system.version"]
  {
    UsersIncluded();
    RolesIncluded();
    VersionIncluded();
  }

  lemma UsersIncluded()
    ensures INCLUDE + "admin.system.users" == "--nsInclude=admin.system.users"
  {
  }

  lemma RolesIncluded()
    ensures INCLUDE + "admin.system.roles" == "--nsInclude=admin.system.roles"
  {
  }

  lemma VersionIncluded()
    ensures INCLUDE + "admin.system.version" == "--nsInclude=admin.system.version"
  {
  }

  lemma LastExactly(database: text, auth: bool, oplog: bool, a: text)
    ensures a in LastArgs(database, auth, oplog) <==>
      || (auth && a == "--nsInclude=admin.*") || (!auth && oplog && a == "--oplogReplay")
      || (!auth && !oplog && a == "--nsInclude=" + database + ".*")
  {
    assert INCLUDE + "admin.*" == "--nsInclude=admin.*";
  }

  lemma CommandExactly(r: Settings, database: text, auth: bool, oplog: bool, i: nat)
    requires i < |Passes(r, database, auth, oplog)|
    ensures Commanded(r, database, auth, oplog, i, Passes(r, database, auth, oplog)[i])
    ensures |Passes(r, database, auth, oplog)| == if r.drop && (auth || oplog) then 2 else 1
  {
    hide Retention.Decimal, CommonArgs, LastArgs;
    var first := r.drop && (auth || oplog) && i == 0;
    var own := if first then IDENTITIES else LastArgs(database, auth, oplog);
    assert Passes(r, database, auth, oplog)[i] == CommonArgs(r) + own;
    forall a ensures a in CommonArgs(r) + own <==> a in CommonArgs(r) || a in own { InEither(CommonArgs(r), own, a); }
    forall a { CommonExactly(r, a); }
    IdentitiesExactly();
    forall a { LastExactly(database, auth, oplog, a); }
  }

  // Every start of a plan was commanded as it should be.
  lemma FollowsCommand(
    starts: seq<Event>, r: Settings, database: text, auth: bool, oplog: bool, input: text)
    requires Follows(starts, Passes(r, database, auth, oplog), input)
    ensures |starts| <= if r.drop && (auth || oplog) then 2 else 1
    ensures forall i :: 0 <= i < |starts| ==>
      starts[i].Started? && Commanded(r, database, auth, oplog, i, starts[i].args)
  {
    hide Passes, Commanded;
    CommandExactly(r, database, auth, oplog, 0) by { SomePasses(r, database, auth, oplog); }
    forall i | 0 <= i < |starts| ensures Commanded(r, database, auth, oplog, i, starts[i].args) {
      CommandExactly(r, database, auth, oplog, i);
    }
  }

  lemma SomePasses(r: Settings, database: text, auth: bool, oplog: bool)
    ensures |Passes(r, database, auth, oplog)| > 0
  {
  }

  method RestoreArchive(w: World, n: nat, args: seq<text>, f: Entry) returns (starts: seq<Event>, ok: bool)
    ensures starts == if w.starts(n) && f.content.Some? then [Started(args, f.content.value, w.succeeds(n))] else []
    ensures ok <==> w.starts(n) && f.content.Some? && w.succeeds(n)
  {
    if !w.starts(n) || f.content.None? { return [], false; }
    ok := w.succeeds(n);
    starts := [Started(args, f.content.value, ok)];
  }

  // The import of one verified member. `cmd` grows between the two passes.
  method Import(w: World, r: Settings, database: text, auth: bool, m: Manifest, f: Entry)
    returns (starts: seq<Event>, ok: bool)
    requires f.content.Some?
    ensures Follows(starts, Passes(r, database, auth, m.oplog), f.content.value)
    ensures Faithful(w, starts, Passes(r, database, auth, m.oplog))
    ensures ok <==> AllDone(starts, Passes(r, database, auth, m.oplog))
  {
    hide CommonArgs;
    starts := [];
    var cmd := CommonArgs(r);
    var first := (auth || m.oplog) && r.drop;
    if first {
      var begun, done := RestoreArchive(w, 0, cmd + IDENTITIES, f);
      if !done { return begun, false; }
      starts := begun;
    }
    if auth {
      cmd := cmd + [INCLUDE + "admin.*"];
    } else if m.oplog {
      cmd := cmd + ["--oplogReplay"];
    } else {
      cmd := cmd + [INCLUDE + database + ".*"];
    }
    var begun, done := RestoreArchive(w, |starts|, cmd, f);
    if begun != [] { assert (starts + begun)[|starts|] == begun[0]; }
    return starts + begun, done;
  }

  // The one member an import reads.
  function Source(auth: bool): text { if auth then AUTH else DATA }

  // Imports behind the acceptance of the whole bundle that the request means: they follow the
  // plan, and read nothing but the verified member.
  ghost predicate Imported(
    objects: Retention.Objects, c: Config, database: text, choice: Choice, r: Settings, auth: bool, w: World,
    ok: bool, log: seq<Event>)
  {
    && |log| >= 2 && log[0].Downloaded? && log[1].Accepted?
    && Resolved(c, database, objects, choice, log[0].key)
    && var fetched := Fetched(c, objects, w, log[0].key, choice.version);
    && fetched.Some? && Acceptable(w.codec, fetched.value, TargetOf(c, database), log[1].manifest)
    && var member := Find(fetched.value, Source(auth));
    && member.Some? && member.value.content.Some?
    && var passes := Passes(r, database, auth, log[1].manifest.oplog);
    && Follows(log[2..], passes, member.value.content.value) && Faithful(w, log[2..], passes)
    && (ok <==> AllDone(log[2..], passes))
  }

  // A request that leads to no import, with the reason.
  ghost predicate GivenUp(
    objects: Retention.Objects, c: Config, database: text, choice: Choice, w: World, ok: bool, log: seq<Event>)
  {
    && !ok
    && (log == [] ==> NothingFound(c, database, objects, choice, w.listingFails))
    && (log != [] ==>
          && |log| == 1 && log[0].Downloaded? && Resolved(c, database, objects, choice, log[0].key)
          && Useless(c, database, objects, w, log[0], choice.version))
  }

  // Which object and which of its versions a request with an explicit answer leads to.
  ghost predicate Explicit(c: Config, database: text, args: seq<text>, e: Event) {
    && (c.naming == Fixed && args == [] ==> e == Downloaded(FixedKey(c, database), []))
    && (c.naming == Fixed && |args| == 2 ==> e == Downloaded(FixedKey(c, database), args[1]))
    && (c.naming == Timestamped && |args| == 1 ==>
          exists t: nat :: args[0] == Layout(CivilOf(t)) && e == Downloaded(BackupKey(c, database, t), []))
    && (c.naming == Timestamped && args == [] ==>
          exists stamp :: Stamp(stamp) && e == Downloaded(StampedKey(c, database, stamp), []))
  }

  function StampedKey(c: Config, database: text, stamp: text): text {
    TimestampPrefix(c, database) + (stamp + if c.passphrase == [] then ".zip" else ".zip.gpg")
  }

  // The candidates for the latest backup are those of the configured file type alone.
  lemma CandidateExactly(c: Config, database: text, objects: Retention.Objects, key: text)
    ensures Candidate(c, database, objects, key) <==>
      key in objects && exists stamp :: Stamp(stamp) && key == StampedKey(c, database, stamp)
  {
    hide IsTimestampBackup, TimestampPrefix, Stamp;
    var prefix := TimestampPrefix(c, database);
    RecognisedExactly(c, database, key);
    if IsTimestampBackup(c, database, key) {
      var stamp: text :| Stamp(stamp) && (key == prefix + (stamp + ".zip") || key == prefix + (stamp + ".zip.gpg"));
      OneEnding(prefix, stamp, c);
      assert HasSuffix(key, FileType(c)) ==> key == StampedKey(c, database, stamp);
    }
    if stamp :| Stamp(stamp) && key == StampedKey(c, database, stamp) { OneEnding(prefix, stamp, c); }
  }

  lemma OneEnding(prefix: text, stamp: text, c: Config)
    ensures HasSuffix(prefix + (stamp + ".zip"), FileType(c)) <==> c.passphrase == []
    ensures HasSuffix(prefix + (stamp + ".zip.gpg"), FileType(c)) <==> c.passphrase != []
  {
    var plain, encrypted := prefix + (stamp + ".zip"), prefix + (stamp + ".zip.gpg");
    assert plain[|plain| - 4..] == ".zip" && encrypted[|encrypted| - 8..] == ".zip.gpg";
    assert plain[|plain| - 1] == 'p' && encrypted[|encrypted| - 1] == 'g';
    assert |plain| >= 8 ==> plain[|plain| - 8..][7] == 'p';
    assert encrypted[|encrypted| - 4..][3] == 'g';
  }

  lemma ExplicitRequest(
    c: Config, s: Selection.Selectors, args: seq<text>, objects: Retention.Objects, key: text)
    requires ValidateRestore(c, s, args).Some?
    requires Resolved(c, s.database, objects, ValidateRestore(c, s, args).value, key)
    ensures Explicit(c, s.database, args, Downloaded(key, ValidateRestore(c, s, args).value.version))
  {
    hide SelectorsFit, Layout, CivilOf, MatchesLayout, ParseLayout, FixedKey, TimestampPrefix, FileType, Candidate,
      StampedKey, Stamp;
    var choice := ValidateRestore(c, s, args).value;
    RequestExactly(c, s, args, choice);
    if c.naming == Timestamped && |args| == 1 {
      var t: nat :| CivilOf(t).year < 10000 && choice.timestamp == Layout(CivilOf(t));
      LayoutIsLong(CivilOf(t));
    }
    if c.naming == Timestamped && args == [] { CandidateExactly(c, s.database, objects, key); }
  }

  lemma LayoutIsLong(c: Civil)
    ensures |Layout(c)| >= 4
  {
  }

  // Restore, and RestoreAuth with `auth`.
  method Restore(
    store: Retention.Store, c: Config, s: Selection.Selectors, r: Settings, args: seq<text>, auth: bool, w: World)
    returns (ok: bool, log: seq<Event>)
    ensures (auth && c.mode.Full?) || !w.connection || !w.locked || ValidateRestore(c, s, args).None? ==>
      !ok && log == []
    ensures !((auth && c.mode.Full?) || !w.connection || !w.locked || ValidateRestore(c, s, args).None?) ==>
      || Imported(store.objects, c, s.database, ValidateRestore(c, s, args).value, r, auth, w, ok, log)
      || GivenUp(store.objects, c, s.database, ValidateRestore(c, s, args).value, w, ok, log)
    ensures forall i :: 0 <= i < |log| && log[i].Started? ==> 2 <= i && log[1].Accepted?
    ensures log != [] ==> Explicit(c, s.database, args, log[0])
    ensures forall i :: 2 <= i < |log| ==>
      log[i].Started? && Commanded(r, s.database, auth, c.mode.Full?, i - 2, log[i].args)
    ensures |log| <= 2 + if r.drop && (auth || c.mode.Full?) then 2 else 1
  {
    hide Acceptable, Resolved, ValidateRestore, NothingFound, Useless, Find, Passes, Follows, Faithful, AllDone,
      OpenBundle, Commanded, Explicit;
    if auth && c.mode.Full? { return false, []; }
    if !w.connection { return false, []; }
    var choice := ValidateRestore(c, s, args);
    if choice.None? || !w.locked { return false, []; }
    var bundle;
    bundle, log := WithBundle(store, c, s.database, choice.value, w);
    if log != [] { ExplicitRequest(c, s, args, store.objects, log[0].key); }
    if bundle.None? { return false, log; }
    var (entries, m) := bundle.value;
    SourceIsThere(w.codec, entries, TargetOf(c, s.database), m, auth, c.mode);
    var f := Find(entries, Source(auth));
    if f.None? { return false, log; }
    var starts;
    starts, ok := Import(w, r, s.database, auth, m, f.value);
    SomePass(r, s.database, auth, m.oplog, starts);
    FollowsCommand(starts, r, s.database, auth, m.oplog, f.value.content.value);
    log := log + starts;
    assert log[2..] == starts;
  }

  lemma SomePass(r: Settings, database: text, auth: bool, oplog: bool, starts: seq<Event>)
    ensures AllDone(starts, Passes(r, database, auth, oplog)) ==> |starts| >= 1
    ensures forall input :: Follows(starts, Passes(r, database, auth, oplog), input) ==>
              forall i :: 0 <= i < |starts| ==> starts[i].Started?
  {
  }

  // An accepted bundle has the member, verified.
  lemma SourceIsThere(codec: Codec, entries: seq<Entry>, t: Target, m: Manifest, auth: bool, mode: Mode)
    requires Acceptable(codec, entries, t, m) && t.mode == (if mode.Full? then Bundle.FULL else Bundle.PER_DATABASE)
    requires auth ==> mode.PerDatabase?
    ensures Find(entries, Source(auth)).Some? && Find(entries, Source(auth)).value.content.Some?
    ensures m.oplog <==> mode.Full?
  {
    hide GoodNames, Complete, ReadManifest;
    var i := Named(entries, Source(auth));
    FindExact(entries, Source(auth));
    var j :| 0 <= j < |entries| && entries[j].name == Source(auth) && Find(entries, Source(auth)).value == entries[j];
    assert Source(auth) != MANIFEST;
    assert Verified(codec, entries[j], m.files[entries[j].name]);
  }

  // A second import starts if and only if existing data is dropped, identities are replaced,
  // the first could be started and succeeded, and the second can be started; it reads the same
  // bytes, and the first was that of the identities.
  lemma TwoPassesExactly(
    w: World, r: Settings, database: text, auth: bool, oplog: bool, starts: seq<Event>, input: text)
    requires Follows(starts, Passes(r, database, auth, oplog), input)
    requires Faithful(w, starts, Passes(r, database, auth, oplog))
    ensures |starts| == 2 <==> r.drop && (auth || oplog) && w.starts(0) && w.succeeds(0) && w.starts(1)
    ensures |starts| == 2 ==> starts[0].input == starts[1].input
    ensures |starts| >= 1 && r.drop && (auth || oplog) ==> starts[0].args == CommonArgs(r) + IDENTITIES
    ensures |starts| >= 1 <==> w.starts(0)
    ensures AllDone(starts, Passes(r, database, auth, oplog)) ==> (|starts| == 2 <==> r.drop && (auth || oplog))
  {
    hide CommonArgs, LastArgs;
    assert 0 < |Passes(r, database, auth, oplog)| <= 2;
  }

  lemma CommonSelectsNothing(r: Settings, a: text)
    requires a in CommonArgs(r)
    ensures !HasPrefix(a, INCLUDE)
  {
    assert |a| >= |INCLUDE| ==> a[..|INCLUDE|][2] == a[2] && a[..|INCLUDE|][3] == a[3];
  }

  // The namespaces an import is limited to: identities first, then the admin database, the
  // one database, or - in full mode - everything.
  lemma ScopeOfImports(r: Settings, database: text, auth: bool, oplog: bool, i: nat, a: text)
    requires i < |Passes(r, database, auth, oplog)|
    ensures a in Passes(r, database, auth, oplog)[i] && HasPrefix(a, INCLUDE) <==>
            if i + 1 < |Passes(r, database, auth, oplog)| then a in IDENTITIES
            else if auth then a == INCLUDE + "admin.*"
            else !oplog && a == INCLUDE + database + ".*"
  {
    hide CommonArgs;
    var pass := Passes(r, database, auth, oplog)[i];
    if a in CommonArgs(r) { CommonSelectsNothing(r, a); }
    assert !HasPrefix("--oplogReplay", INCLUDE) by { assert "--oplogReplay"[..12][2] == 'o'; }
    assert HasPrefix(INCLUDE + database + ".*", INCLUDE) by { Assoc(INCLUDE, database, ".*"); }
  }

  // ---- From the dump to the import --------------------------------------------------------------

  // Whatever a backup makes visible under its key opens, decrypted where need be, as the
  // archive that was written; it is accepted, and the members an import is fed are byte for
  // byte what the dumps produced. The conditions on metadata and clock are those of
  // WrittenIsAccepted.
  lemma BackupRestores(
    c: Config, setup: Publish.Setup, steps: seq<Publish.Step>, tools: Tools, codec: Codec, job: Job, ev: Events)
    requires Publish.Execute(setup, steps).Some? && Publish.Execute(setup, steps).value.upload.published.Some?
    requires setup.encrypted == (c.passphrase != [])
    requires Succeeds(codec, job, ev) && Coherent(job, ev) && JsonRoundTrips(codec) && ValidUtf8(job.database)
    requires TargetOf(c, job.database) == Target(job.mode, job.database)
    requires tools.open(setup.bundle) == Some(Archive(codec, job, ev))
    requires setup.encrypted ==> tools.decrypt(setup.cipher(setup.bundle)) == Some(setup.bundle)
    requires job.snapshot.serverVersion != "" && job.toolsVersion != "" && job.snapshot.fcv != ""
    requires job.started != 0 && ev.completed >= job.started
    ensures var archive := Archive(codec, job, ev);
      && OpenBundle(c, tools, Publish.Execute(setup, steps).value.upload.published.value) == Some(archive)
      && (exists m :: Acceptable(codec, archive, TargetOf(c, job.database), m))
      && Find(archive, Source(false)).Some?
        && Find(archive, Source(false)).value.content == Some(Produced(ev.data.chunks))
      && (c.mode.PerDatabase? ==>
            Find(archive, Source(true)).Some?
              && Find(archive, Source(true)).value.content == Some(Produced(ev.auth.chunks)))
  {
    hide Publish.Execute, Publish.AllStagesSucceeded, Acceptable, Succeeds, JsonRoundTrips, Archive, Find, Produced,
      ValidUtf8;
    Publish.PublishSafety(setup, steps);
    BundleRoundTrip.WrittenIsAccepted(codec, job, ev);
    DumpPlaces(job, ev);
    BundleRoundTrip.MembersReadBack(codec, job, ev, 1 + |ev.configs|);
    if c.mode.PerDatabase? { BundleRoundTrip.MembersReadBack(codec, job, ev, 2 + |ev.configs|); }
  }

  lemma DumpPlaces(job: Job, ev: Events)
    ensures var parts := Parts(job, ev);
      && |parts| > 1 + |ev.configs| && parts[1 + |ev.configs|] == Part(DATA, ev.data)
      && (job.mode == Bundle.PER_DATABASE ==>
        |parts| > 2 + |ev.configs| && parts[2 + |ev.configs|] == Part(AUTH, ev.auth))
  {
  }
}
