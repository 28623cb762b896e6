/** One backup run over its databases, and the store after any history of runs. */
module BackupRun {
  import opened Calendar
  import opened Keys
  import opened Retention
  import opened Text
  import Publish
  import Selection

  // ---- validateBackup -------------------------------------------------------------------------

  // The days to keep; None is a refusal. `connection` is whether there is a usable URI.
  method ValidateBackup(connection: bool, mode: Mode, s: Selection.Selectors, keepDays: text) returns (r: Option<nat>)
    ensures r == if connection && SelectorsFit(mode, s) then KeepDays(keepDays) else None
    ensures r.Some? ==> connection && Combined(mode, s)
  {
    hide Selection.ValidNames, Selection.Listed, Combined;
    NoName();
    CombinedExactly(mode, s);
    if !connection { return None; }
    match mode {
    case Full =>
      if s.database != "" || s.databases != "" || s.exclude != "" || s.backupAll { return None; }
    case PerDatabase =>
      if s.backupAll && (s.database != "" || s.databases != "") { return None; }
      if !s.backupAll && s.database == "" && s.databases == "" { return None; }
      if s.exclude != "" && !s.backupAll { return None; }
      if s.databases != "" {
        var ok := ListIsValid(s.databases);
        if !ok { return None; }
      } else if s.database != "" {
        var ok := Selection.ValidateDatabases([s.database]);
        if !ok { return None; }
      }
      if s.exclude != "" {
        var ok := ListIsValid(s.exclude);
        if !ok { return None; }
      }
    }
    return KeepDays(keepDays);
  }

  // The accepted combinations, written out.
  ghost predicate Combined(mode: Mode, s: Selection.Selectors) {
    match mode
    case Full => s.database == [] && s.databases == [] && s.exclude == [] && !s.backupAll
    case PerDatabase =>
      && (s.backupAll ==> s.database == [] && s.databases == [])
      && (!s.backupAll ==> s.exclude == [] && (s.database != [] || s.databases != []))
      && (s.databases == [] && s.database != [] ==> Selection.UserName(s.database))
      && (s.databases != [] ==> AllUserNames(s.databases)) && (s.exclude != [] ==> AllUserNames(s.exclude))
  }

  predicate AllUserNames(value: text) {
    forall i :: 0 <= i < |Selection.Listed(value)| ==> Selection.UserName(Selection.Listed(value)[i])
  }

  lemma CombinedExactly(mode: Mode, s: Selection.Selectors)
    ensures SelectorsFit(mode, s) <==> Combined(mode, s)
  {
    hide Selection.Listed, Selection.UserName, Selection.ValidNames;
    Selection.ValidNamesExactly([s.database]);
    Selection.ValidNamesExactly(Selection.Listed(s.databases));
    Selection.ValidNamesExactly(Selection.Listed(s.exclude));
    assert [s.database][0] == s.database;
    SomeListed(s.databases);
    SomeListed(s.exclude);
    NoUserName();
  }

  lemma SomeListed(value: text)
    ensures Selection.Listed(value) != []
  {
  }

  lemma NoUserName()
    ensures !Selection.UserName([])
  {
  }

  lemma NoName()
    ensures !Selection.ValidNames([[]])
  {
    var names: seq<text> := [[]];
    assert !Selection.ValidName(names[0]);
  }

  method ListIsValid(value: text) returns (ok: bool)
    ensures ok <==> Selection.ValidNames(Selection.Listed(value))
  {
    var names := Selection.ParseDatabaseList(value);
    ok := Selection.ValidateDatabases(names);
  }

  // In full mode no selector at all; otherwise either every database, with exclusions if
  // wanted, or explicit names, of which a list takes precedence over a single one.
  predicate SelectorsFit(mode: Mode, s: Selection.Selectors) {
    if mode.Full? then s == Selection.Selectors([], [], false, [])
    else if s.backupAll then
      s.database == [] && s.databases == [] && (s.exclude != [] ==> Selection.ValidNames(Selection.Listed(s.exclude)))
    else
      s.exclude == [] && Selection.ValidNames(if s.databases != [] then Selection.Listed(s.databases) else [s.database])
  }

  // ---- Backup ------------------------------------------------------------------------------------

  // The backup of one database as it happens: the second it is named after, a finished run of
  // the publish protocol, the store's time of the upload, and what retention meets.
  datatype Attempt = Attempt(
    cancelled: bool, inspected: bool, now: nat, setup: Publish.Setup, steps: seq<Publish.Step>, stamp: int,
    faults: Faults)

  predicate Settled(c: Config, a: Attempt) {
    && a.setup.encrypted == (c.passphrase != [])
    && Publish.Execute(a.setup, a.steps).Some? && Publish.Execute(a.setup, a.steps).value.main.Finished?
  }

  function Outcome(c: Config, a: Attempt): Publish.State
    requires Settled(c, a)
  {
    Publish.Execute(a.setup, a.steps).value
  }

  datatype Versioning = Enabled | NotEnabled | Unknown(cancelled: bool)

  // Everything a run is told from outside; `listed` are the databases the server names.
  datatype Environment = Environment(
    cancelled: bool, connection: bool, locked: bool, versioning: Versioning, source: bool,
    listed: Option<seq<text>>, start: int, tools: bool, attempts: nat -> Attempt)

  ghost predicate AllSettled(c: Config, env: Environment) { forall i: nat :: Settled(c, env.attempts(i)) }

  function PolicyOf(c: Config, days: nat, start: int): Policy {
    Policy(c, days, Cutoff(start - start % 1_000_000_000, days))
  }

  // The cutoff, written out: whole days of nanoseconds before the second of the start.
  lemma PolicyWrittenOut(c: Config, keepDays: text, days: nat, start: int)
    requires KeepDays(keepDays) == Some(days)
    ensures PolicyOf(c, days, start) == Policy(c, days, start - start % 1_000_000_000 - days * 86_400_000_000_000)
    ensures (keepDays == [] && days == 0) || (1 <= days <= 36500 && keepDays == Decimal(days))
  {
    KeepDaysExact(keepDays, days);
    CutoffExact(start - start % 1_000_000_000, days);
  }

  function UploadOf(c: Config, database: text, a: Attempt): Event {
    Stored(BackupKey(c, database, a.now), Publish.Object(a.setup), a.stamp)
  }

  // An upload of this attempt: the complete object, under the key of this database and second,
  // with every stage behind it successful.
  ghost predicate PublishedBy(c: Config, database: text, a: Attempt, e: Event) {
    && Settled(c, a) && a.inspected
    && e == UploadOf(c, database, a)
    && Outcome(c, a).upload.published == Some(Publish.Object(a.setup))
    && Publish.AllStagesSucceeded(a.setup, Outcome(c, a))
  }

  // The backup itself succeeds, whatever becomes of retention.
  predicate Works(c: Config, a: Attempt)
    requires Settled(c, a)
  {
    a.inspected && Outcome(c, a).main.ok
  }

  // Its object becomes visible, whatever the result.
  predicate Uploads(c: Config, a: Attempt)
    requires Settled(c, a)
  {
    a.inspected && Outcome(c, a).upload.published.Some?
  }

  predicate AllDated(objects: Objects) { forall key :: key in objects ==> objects[key].modified.Some? }

  // What one attempt at backupDatabase leaves in the log, before retention.
  function EventsOf(c: Config, database: text, a: Attempt): seq<Event>
    requires Settled(c, a)
  {
    (if Uploads(c, a) then [UploadOf(c, database, a)] else []) + if Works(c, a) then [Succeeded(database)] else []
  }

  method BackupDatabase(p: Policy, store: Store, database: text, a: Attempt) returns (ok: bool)
    requires store.Valid() && Safe(p, store.initial, store.log) && Settled(p.c, a)
    modifies store
    ensures store.Valid() && store.initial == old(store.initial) && Safe(p, store.initial, store.log)
    ensures store.log == old(store.log) + EventsOf(p.c, database, a)
    ensures store.objects ==
      if Uploads(p.c, a) then
        old(store.objects)[BackupKey(p.c, database, a.now) := Blob(Publish.Object(a.setup), Some(a.stamp))]
      else
        old(store.objects)
    ensures ok <==> Works(p.c, a)
  {
    hide IsTimestampBackup, Safe, Replay, BackupKey, Publish.Execute, Publish.Object;
    if !a.inspected { return false; }
    var s := Outcome(p.c, a);
    Publish.NilMeansPublished(a.setup, a.steps);
    Publish.PublishSafety(a.setup, a.steps);
    if s.upload.published.Some? {
      SafeMore(p, store.initial, store.log, UploadOf(p.c, database, a));
      store.Put(BackupKey(p.c, database, a.now), s.upload.published.value, a.stamp);
    }
    if !s.main.ok { return false; }
    SafeMore(p, store.initial, store.log, Succeeded(database));
    store.Note(database);
    return true;
  }

  lemma EventsArePublished(c: Config, database: text, a: Attempt)
    requires Settled(c, a)
    ensures forall e :: e in EventsOf(c, database, a) && e.Stored? ==> PublishedBy(c, database, a, e)
    ensures KeepsTo(c, [database], EventsOf(c, database, a))
    ensures Uploads(c, a) ==> UploadOf(c, database, a) in EventsOf(c, database, a)
    ensures Works(c, a) ==> Succeeded(database) in EventsOf(c, database, a)
  {
    hide Publish.Execute, Publish.AllStagesSucceeded, Publish.Object, BackupKey;
    Publish.PublishSafety(a.setup, a.steps);
  }

  method BackupOne(p: Policy, store: Store, database: text, a: Attempt) returns (ok: bool)
    requires store.Valid() && Safe(p, store.initial, store.log) && Settled(p.c, a)
    modifies store
    ensures store.Valid() && store.initial == old(store.initial) && Safe(p, store.initial, store.log)
    ensures old(store.log) + EventsOf(p.c, database, a) <= store.log
    ensures forall k :: |old(store.log) + EventsOf(p.c, database, a)| <= k < |store.log| ==> store.log[k].Deleted?
    ensures forall key :: key in store.objects ==>
      key == BackupKey(p.c, database, a.now)
        || (key in old(store.objects) && store.objects[key] == old(store.objects)[key])
    ensures ok ==> Works(p.c, a)
    ensures Works(p.c, a) && AllDated(old(store.objects)) && Faultless(a.faults) ==> ok
    ensures AllDated(old(store.objects)) ==> AllDated(store.objects)
    ensures ok && p.days > 0 ==> Cleaned(p, store.objects, database)
  {
    hide IsTimestampBackup, Safe, Replay, BackupKey, Settled, Works, Uploads, EventsOf, UploadOf, Faultless,
      Publish.Object;
    ok := BackupDatabase(p, store, database, a);
    EventsArePublished(p.c, database, a);
    if ok && p.days > 0 {
      ghost var before := store.objects;
      ghost var deleted;
      ok, deleted := RemoveOldBackups(p, store, database, a.faults);
      NoneExpired(p.c, database, p.cutoff, before, deleted);
    }
  }

  lemma NoneExpired(c: Config, database: text, cutoff: int, before: Objects, deleted: set<text>)
    ensures deleted == Expired(c, database, cutoff, before) ==> Expired(c, database, cutoff, before - deleted) == {}
    ensures AllDated(before) ==> AllDated(before - deleted) && !Undated(c, database, before)
    ensures !Undated(c, database, before) ==> !Undated(c, database, before - deleted)
  {
    hide IsTimestampBackup;
  }

  // The databases a run may back up: in full mode the whole replica set as one, otherwise the
  // choice of the selectors, of which every one exists and is a user database.
  ghost predicate Wanted(c: Config, s: Selection.Selectors, env: Environment, names: seq<text>) {
    match c.mode
    case Full => names == [[]]
    case PerDatabase =>
      && env.listed.Some? && names != []
      && var requested := Selection.Requested(s, env.listed.value);
      && Selection.ValidNames(requested) && Selection.NoneMissing(requested, env.listed.value)
      && Selection.Chosen(names, requested, s)
  }

  ghost predicate Published(c: Config, names: seq<text>, env: Environment, e: Event) {
    exists i: nat :: i < |names| && PublishedBy(c, names[i], env.attempts(i), e)
  }

  ghost predicate AllPublished(c: Config, names: seq<text>, env: Environment, log: seq<Event>) {
    forall k :: 0 <= k < |log| && log[k].Stored? ==> Published(c, names, env, log[k])
  }

  // No backup of the scope is expired, or of unknown age.
  ghost predicate Cleaned(p: Policy, objects: Objects, name: text) {
    Expired(p.c, name, p.cutoff, objects) == {} && !Undated(p.c, name, objects)
  }

  // A database of which a run may say that its backup is done.
  ghost predicate Done(p: Policy, objects: Objects, log: seq<Event>, name: text) {
    Succeeded(name) in log && (p.days > 0 ==> Cleaned(p, objects, name))
  }

  // A run that gets as far as its first database.
  ghost predicate Starts(c: Config, s: Selection.Selectors, keepDays: text, env: Environment) {
    && !env.cancelled && env.connection && SelectorsFit(c.mode, s) && KeepDays(keepDays).Some? && env.locked
    && (c.naming.Fixed? ==> env.versioning != NotEnabled && env.versioning != Unknown(true))
    && env.source && Selection.Selectable(c.mode, s, env.listed) && env.tools
  }

  // No attempt up to the i-th finds the context cancelled.
  ghost predicate Reached(env: Environment, i: nat) { forall j: nat :: j <= i ==> !env.attempts(j).cancelled }

  ghost predicate NothingGoesWrong(c: Config, env: Environment, n: nat)
    requires AllSettled(c, env)
  {
    forall i: nat :: i < n ==>
      !env.attempts(i).cancelled && Works(c, env.attempts(i)) && Faultless(env.attempts(i).faults)
  }

  // The database's complete object is in the store, and its run of the protocol ended in nil.
  ghost predicate BackedUp(c: Config, names: seq<text>, env: Environment, log: seq<Event>, database: text, n: nat)
    requires n <= |names|
  {
    exists i: nat :: i < n && BackedUpAt(c, names, env, log, database, i)
  }

  ghost predicate BackedUpAt(c: Config, names: seq<text>, env: Environment, log: seq<Event>, database: text, i: nat)
    requires i < |names|
  {
    var a := env.attempts(i);
    && names[i] == database && Publish.Execute(a.setup, a.steps).Some?
    && Publish.Execute(a.setup, a.steps).value.main == Publish.Finished(true)
    && Stored(BackupKey(c, database, a.now), Publish.Object(a.setup), a.stamp) in log
  }

  // What the log says once the first n databases had their turn.
  ghost predicate Recorded(c: Config, names: seq<text>, env: Environment, log: seq<Event>, n: nat)
    requires n <= |names| && AllSettled(c, env)
  {
    && AllPublished(c, names, env, log) && KeepsTo(c, names, log)
    && (forall i :: 0 <= i < n && Works(c, env.attempts(i)) ==> Succeeded(names[i]) in log)
    && (forall e :: e in log && e.Succeeded? ==> BackedUp(c, names, env, log, e.database, n))
    && (forall i :: 0 <= i < n && Uploads(c, env.attempts(i)) ==> UploadOf(c, names[i], env.attempts(i)) in log)
  }

  ghost predicate AllDone(p: Policy, objects: Objects, log: seq<Event>, names: seq<text>, n: nat)
    requires n <= |names|
  {
    forall i :: 0 <= i < n ==> Done(p, objects, log, names[i])
  }

  // No two of the names share a scope.
  predicate OnePerScope(c: Config, names: seq<text>) {
    forall j, i :: 0 <= j < i < |names| ==> c.mode.PerDatabase? && names[j] != names[i]
  }

  // The databases one after the other, whatever becomes of the earlier ones, until all had
  // their turn or the context is found cancelled. `n` is how many had.
  method BackupAll(p: Policy, store: Store, names: seq<text>, env: Environment) returns (ok: bool, ghost n: nat)
    requires store.Valid() && store.log == [] && Safe(p, store.initial, []) && AllSettled(p.c, env)
    requires OnePerScope(p.c, names)
    modifies store
    ensures store.Valid() && store.initial == old(store.initial) && Safe(p, store.initial, store.log)
    ensures n <= |names| && (n < |names| ==> env.attempts(n).cancelled && !ok)
    ensures Recorded(p.c, names, env, store.log, n)
    ensures ok ==> AllDone(p, store.objects, store.log, names, |names|)
    ensures NothingGoesWrong(p.c, env, |names|) && AllDated(old(store.objects)) ==> ok
  {
    hide IsTimestampBackup, Safe, Replay, BackupKey, Works, EventsOf, AllDated, Faultless, Recorded, AllDone;
    NothingRecorded(p, store.objects, names, env);
    var failed := false;
    for i := 0 to |names|
      invariant store.Valid() && store.initial == old(store.initial) && Safe(p, store.initial, store.log)
      invariant Recorded(p.c, names, env, store.log, i)
      invariant AllDated(old(store.objects)) ==> AllDated(store.objects)
      invariant AllDated(old(store.objects)) && NothingGoesWrong(p.c, env, i) ==> !failed
      invariant !failed ==> AllDone(p, store.objects, store.log, names, i)
    {
      var a := env.attempts(i);
      if a.cancelled { return false, i; }
      ghost var before, log := store.objects, store.log;
      var done := BackupOne(p, store, names[i], a);
      RecordedMore(p.c, names, env, log, store.log, i);
      if !done {
        failed := true;
      } else if !failed {
        AllDoneMore(p, names, env, before, store.objects, log, store.log, i);
      }
    }
    return !failed, |names|;
  }

  lemma NothingRecorded(p: Policy, objects: Objects, names: seq<text>, env: Environment)
    requires AllSettled(p.c, env)
    ensures Recorded(p.c, names, env, [], 0) && AllDone(p, objects, [], names, 0)
  {
  }

  lemma RecordedMore(c: Config, names: seq<text>, env: Environment, before: seq<Event>, log: seq<Event>, i: nat)
    requires i < |names| && AllSettled(c, env) && Recorded(c, names, env, before, i)
    requires before + EventsOf(c, names[i], env.attempts(i)) <= log
    requires forall k :: |before + EventsOf(c, names[i], env.attempts(i))| <= k < |log| ==> log[k].Deleted?
    ensures Recorded(c, names, env, log, i + 1) && (Works(c, env.attempts(i)) ==> Succeeded(names[i]) in log)
  {
    hide EventsOf, Works, Uploads, UploadOf, AllPublished, KeepsTo, BackedUpAt, BackedUp;
    LogGrows(c, names, env, before, log, i);
    forall e | e in log && e.Succeeded? ensures BackedUp(c, names, env, log, e.database, i + 1) {
      if e in before {
        StaysBackedUp(c, names, env, before, log, e.database, i);
      } else {
        JustBackedUp(c, names, env, before, log, e, i);
      }
    }
  }

  lemma StaysBackedUp(
    c: Config, names: seq<text>, env: Environment, before: seq<Event>, log: seq<Event>, database: text, n: nat)
    requires n < |names| && BackedUp(c, names, env, before, database, n) && forall e :: e in before ==> e in log
    ensures BackedUp(c, names, env, log, database, n + 1)
  {
    hide BackupKey, Publish.Object, Publish.Execute;
    var i: nat :| i < n && BackedUpAt(c, names, env, before, database, i);
    assert BackedUpAt(c, names, env, log, database, i);
  }

  lemma JustBackedUp(
    c: Config, names: seq<text>, env: Environment, before: seq<Event>, log: seq<Event>, e: Event, i: nat)
    requires i < |names| && Settled(c, env.attempts(i)) && before + EventsOf(c, names[i], env.attempts(i)) <= log
    requires forall k :: |before + EventsOf(c, names[i], env.attempts(i))| <= k < |log| ==> log[k].Deleted?
    requires e in log && e.Succeeded? && e !in before
    ensures BackedUp(c, names, env, log, e.database, i + 1)
  {
    hide BackupKey, Publish.Object, Publish.Execute;
    var a, events := env.attempts(i), EventsOf(c, names[i], env.attempts(i));
    var k :| 0 <= k < |log| && log[k] == e;
    assert log[..|before + events|] == before + events;
    assert k < |before + events| && (before + events)[k] == e;
    assert e == events[k - |before|];
    Publish.NilMeansPublished(a.setup, a.steps);
    assert events[0] == UploadOf(c, names[i], a) && (before + events)[|before|] == events[0];
    assert BackedUpAt(c, names, env, log, e.database, i);
  }

  lemma AllDoneMore(
    p: Policy, names: seq<text>, env: Environment, before: Objects, objects: Objects, log: seq<Event>,
    longer: seq<Event>, i: nat)
    requires i < |names| && log <= longer && AllDone(p, before, log, names, i)
    requires OnePerScope(p.c, names)
    requires forall key :: key in objects ==>
      key == BackupKey(p.c, names[i], env.attempts(i).now) || (key in before && objects[key] == before[key])
    requires Succeeded(names[i]) in longer && (p.days > 0 ==> Cleaned(p, objects, names[i]))
    ensures AllDone(p, objects, longer, names, i + 1)
  {
    hide BackupKey, Cleaned, Done;
    forall j | 0 <= j < i ensures Done(p, objects, longer, names[j]) {
      StillDone(p, before, objects, log, longer, names[j], names[i], env.attempts(i).now);
    }
    JustDone(p, objects, longer, names[i]);
  }

  lemma JustDone(p: Policy, objects: Objects, log: seq<Event>, name: text)
    requires Succeeded(name) in log && (p.days > 0 ==> Cleaned(p, objects, name))
    ensures Done(p, objects, log, name)
  {
  }

  // `names` is empty for a run that ends before its first database.
  method Backup(store: Store, c: Config, s: Selection.Selectors, keepDays: text, env: Environment)
    returns (ok: bool, ghost names: seq<text>, ghost p: Policy)
    requires store.Valid() && store.log == [] && AllSettled(c, env)
    modifies store
    ensures store.Valid() && store.initial == old(store.initial)
    ensures p == PolicyOf(c, p.days, env.start) && (names != [] ==> KeepDays(keepDays) == Some(p.days))
    ensures names != [] ==>
      && p == Policy(c, p.days, env.start - env.start % 1_000_000_000 - p.days * 86_400_000_000_000)
      && ((keepDays == [] && p.days == 0) || (1 <= p.days <= 36500 && keepDays == Decimal(p.days)))
    ensures forall e :: e in store.log && e.Deleted? ==>
      p.days > 0 && e.modified < env.start - p.days * 86_400_000_000_000
    ensures ok && p.days > 0 ==> forall key, i ::
      0 <= i < |names| && key in store.objects && IsTimestampBackup(c, names[i], key) ==>
        var modified := store.objects[key].modified;
        modified.Some? && modified.value >= env.start - env.start % 1_000_000_000 - p.days * 86_400_000_000_000
    ensures Safe(p, store.initial, store.log)
    ensures names != [] <==> Starts(c, s, keepDays, env)
    ensures names != [] ==> Wanted(c, s, env, names)
    ensures AllPublished(c, names, env, store.log) && KeepsTo(c, names, store.log)
    ensures names != [] ==>
      && !env.cancelled && env.connection && env.locked && env.source && env.tools && Combined(c.mode, s)
      && (c.naming == Fixed ==> env.versioning == Enabled || env.versioning == Unknown(false))
    ensures forall e :: e in store.log && (e.Succeeded? || e.Deleted?) ==>
      BackedUp(c, names, env, store.log, e.database, |names|)
    ensures forall i :: 0 <= i < |names| && Reached(env, i) && Works(c, env.attempts(i)) ==>
      Succeeded(names[i]) in store.log
    ensures forall i :: 0 <= i < |names| && Reached(env, i) && Uploads(c, env.attempts(i)) ==>
      UploadOf(c, names[i], env.attempts(i)) in store.log
    ensures names != [] && NothingGoesWrong(c, env, |names|) && AllDated(old(store.objects)) ==> ok
    ensures names == [] ==> !ok && store.log == []
    ensures ok ==> AllDone(p, store.objects, store.log, names, |names|)
  {
    hide Safe, Replay, Works, Uploads, UploadOf, KeepsTo, AllPublished, AllDated, KeepDays, SelectorsFit, Recorded,
      BackedUp, Combined, AllDone, NothingGoesWrong, Selection.Selectable, Wanted;
    names, p := [], PolicyOf(c, 0, env.start);
    Untouched(p, store.initial, []);
    NothingRecorded(p, store.objects, [], env);
    RecordedReached(c, [], env, [], 0);
    if env.cancelled { return false, names, p; }
    var days := ValidateBackup(env.connection, c.mode, s, keepDays);
    if days.None? || !env.locked { return false, names, p; }
    if c.naming.Fixed? {
      if env.versioning == Unknown(true) || env.versioning.NotEnabled? { return false, names, p; }
    }
    if !env.source { return false, names, p; }
    var chosen := Selection.Databases(c.mode, s, env.listed);
    if chosen.None? || !env.tools { return false, names, p; }
    var databases := chosen.value;
    names := databases;
    var policy := PolicyOf(c, days.value, env.start);
    p := policy;
    ChosenIsWanted(c, s, env, databases);
    Untouched(p, store.initial, databases);
    ghost var n;
    ok, n := BackupAll(policy, store, databases, env);
    RecordedReached(c, databases, env, store.log, n);
    PolicyWrittenOut(c, keepDays, days.value, env.start);
    DeletedExpired(p, store.initial, store.log);
    if ok && p.days > 0 { AllCleaned(p, store.objects, store.log, names); }
  }

  // What is deleted was dated before the cutoff.
  lemma {:induction false} DeletedExpired(p: Policy, objects: Objects, log: seq<Event>)
    requires Safe(p, objects, log)
    ensures forall e :: e in log && e.Deleted? ==> p.days > 0 && e.modified < p.cutoff && Succeeded(e.database) in log
  {
    hide IsTimestampBackup, Replay;
    if log != [] {
      var before, last := log[..|log| - 1], log[|log| - 1];
      DeletedExpired(p, objects, before);
      assert log == before + [last];
    }
  }

  lemma AllCleaned(p: Policy, objects: Objects, log: seq<Event>, names: seq<text>)
    requires AllDone(p, objects, log, names, |names|) && p.days > 0
    ensures forall key, i :: 0 <= i < |names| && key in objects && IsTimestampBackup(p.c, names[i], key) ==>
      objects[key].modified.Some? && objects[key].modified.value >= p.cutoff
  {
    hide IsTimestampBackup;
    forall key, i | 0 <= i < |names| && key in objects && IsTimestampBackup(p.c, names[i], key)
      ensures objects[key].modified.Some? && objects[key].modified.value >= p.cutoff
    {
      assert Done(p, objects, log, names[i]);
      assert key !in Expired(p.c, names[i], p.cutoff, objects);
    }
  }

  lemma ChosenIsWanted(c: Config, s: Selection.Selectors, env: Environment, names: seq<text>)
    requires Selection.Selectable(c.mode, s, env.listed) && (c.mode.Full? ==> names == [[]])
    requires c.mode.PerDatabase? ==> names != [] && Selection.Chosen(names, Selection.Requested(s, env.listed.value), s)
    ensures Wanted(c, s, env, names) && names != []
    ensures OnePerScope(c, names)
  {
    hide Selection.Requested, Selection.Chosen, Selection.ValidNames, Selection.NoneMissing, Selection.Excluded;
    forall j, i | 0 <= j < i < |names| ensures c.mode.PerDatabase? && names[j] != names[i] {
      OthersDistinct(c, s, env, names, j, i);
    }
  }

  lemma RecordedReached(c: Config, names: seq<text>, env: Environment, log: seq<Event>, n: nat)
    requires AllSettled(c, env) && n <= |names| && (n < |names| ==> env.attempts(n).cancelled)
    requires Recorded(c, names, env, log, n)
    ensures AllPublished(c, names, env, log) && KeepsTo(c, names, log)
    ensures forall e :: e in log && e.Succeeded? ==> BackedUp(c, names, env, log, e.database, |names|)
    ensures forall i :: 0 <= i < |names| && Reached(env, i) && Works(c, env.attempts(i)) ==> Succeeded(names[i]) in log
    ensures forall i :: 0 <= i < |names| && Reached(env, i) && Uploads(c, env.attempts(i)) ==>
      UploadOf(c, names[i], env.attempts(i)) in log
  {
    hide Works, Uploads, UploadOf, AllPublished, KeepsTo, BackedUpAt;
  }

  lemma Untouched(p: Policy, objects: Objects, names: seq<text>)
    ensures Safe(p, objects, []) && Replay(objects, []) == objects && KeepsTo(p.c, names, [])
  {
  }

  // One attempt more: what held of the log holds of the longer one.
  lemma LogGrows(c: Config, names: seq<text>, env: Environment, before: seq<Event>, log: seq<Event>, i: nat)
    requires i < |names| && Settled(c, env.attempts(i))
    requires before + EventsOf(c, names[i], env.attempts(i)) <= log
    requires forall k :: |before + EventsOf(c, names[i], env.attempts(i))| <= k < |log| ==> log[k].Deleted?
    ensures forall e :: e in before ==> e in log
    ensures KeepsTo(c, names, before) ==> KeepsTo(c, names, log)
    ensures AllPublished(c, names, env, before) ==> AllPublished(c, names, env, log)
    ensures Uploads(c, env.attempts(i)) ==> UploadOf(c, names[i], env.attempts(i)) in log
    ensures Works(c, env.attempts(i)) ==> Succeeded(names[i]) in log
  {
    hide BackupKey, PublishedBy, Settled, Works, Uploads, UploadOf, EventsOf;
    var a, events := env.attempts(i), EventsOf(c, names[i], env.attempts(i));
    EventsArePublished(c, names[i], a);
    forall k | 0 <= k < |log| && |before| <= k
      ensures MayDo(c, names, log[k]) && (log[k].Stored? ==> Published(c, names, env, log[k]))
    {
      if k < |before + events| { assert log[k] == events[k - |before|] && MayDo(c, [names[i]], log[k]); }
    }
    assert forall k :: 0 <= k < |before| ==> log[k] == before[k];
    assert forall k :: 0 <= k < |events| ==> log[|before| + k] == events[k];
  }

  lemma OthersDistinct(c: Config, s: Selection.Selectors, env: Environment, names: seq<text>, j: nat, i: nat)
    requires Wanted(c, s, env, names) && j < i < |names|
    ensures c.mode.PerDatabase? && names[j] != names[i]
  {
    hide Selection.Requested, Selection.Chosen;
    if c.mode.PerDatabase? { Selection.ChosenOnce(names, Selection.Requested(s, env.listed.value), s, j, i); }
  }

  // Backing up one database brings no expired backup to another.
  lemma StillDone(
    p: Policy, before: Objects, objects: Objects, log: seq<Event>, longer: seq<Event>, name: text, other: text,
    now: nat)
    requires p.c.mode.PerDatabase? && name != other && log <= longer && Done(p, before, log, name)
    requires forall key :: key in objects ==>
      key == BackupKey(p.c, other, now) || (key in before && objects[key] == before[key])
    ensures Done(p, objects, longer, name)
  {
    hide IsTimestampBackup, BackupKey;
    forall key | key in Expired(p.c, name, p.cutoff, objects) ensures key in Expired(p.c, name, p.cutoff, before) {
      if key == BackupKey(p.c, other, now) { KeyOfOneScope(p.c, other, now, p.c, name); }
    }
    forall key | key in objects && IsTimestampBackup(p.c, name, key)
      ensures key in before && objects[key] == before[key]
    {
      if key == BackupKey(p.c, other, now) { KeyOfOneScope(p.c, other, now, p.c, name); }
    }
  }
}
