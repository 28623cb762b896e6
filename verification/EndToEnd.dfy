/** A backup and the restore of it, over one store. */
module EndToEnd {
  import opened Bundle
  import opened Calendar
  import opened Keys
  import opened Members
  import opened Text
  import opened Validation
  import BackupRun
  import ConfigurationRoundTrip
  import History
  import Publish
  import Restore
  import Retention
  import Selection

  // What the producer of an attempt writes is the bundle of this job, and the tools undo what
  // the backup did: gpg its encryption, the ZIP reader the writing.
  ghost predicate Bundled(c: Config, setup: Publish.Setup, tools: Restore.Tools, codec: Codec, job: Job, ev: Events) {
    && Succeeds(codec, job, ev) && Coherent(job, ev) && JsonRoundTrips(codec) && ValidUtf8(job.database)
    && Restore.TargetOf(c, job.database) == Target(job.mode, job.database)
    && tools.open(setup.bundle) == Some(Archive(codec, job, ev))
    && (setup.encrypted ==> tools.decrypt(setup.cipher(setup.bundle)) == Some(setup.bundle))
    && job.snapshot.serverVersion != "" && job.toolsVersion != "" && job.snapshot.fcv != ""
    && job.started != 0 && ev.completed >= job.started
  }

  ghost predicate NoFault(w: Restore.World) {
    w.connection && w.locked && !w.listingFails && !w.downloadFails && forall n: nat :: w.starts(n) && w.succeeds(n)
  }

  // The backups there are were made at seconds up to this one.
  ghost predicate NoneLater(c: Config, database: text, objects: Retention.Objects, now: nat) {
    && CivilOf(now).year < 10000
    && forall key :: Restore.Candidate(c, database, objects, key) ==> MadeBy(c, database, now, key)
  }

  ghost predicate MadeBy(c: Config, database: text, now: nat, key: text) {
    exists t: nat :: t <= now && CivilOf(t).year < 10000 && key == BackupKey(c, database, t)
  }

  // ---- What a run leaves ------------------------------------------------------------------------

  // Keys of one configuration are equal only for one scope.
  lemma SameKeySameScope(c: Config, database: text, now: nat, database': text, now': nat)
    requires BackupKey(c, database, now) == BackupKey(c, database', now')
    ensures SameScope(c, database, c, database')
  {
    hide BackupKey, TimestampPrefix, KeyEnd;
    KeyParts(c, database, now);
    KeyParts(c, database', now');
    SameKey(c, database, KeyEnd(c, now), c, database', KeyEnd(c, now'));
  }

  // In a run there is one upload under a key, and one recognised by a scope of the run.
  lemma OneUpload(
    c: Config, names: seq<text>, env: BackupRun.Environment, log: seq<Retention.Event>, i: nat, e: Retention.Event)
    requires BackupRun.AllSettled(c, env) && BackupRun.OnePerScope(c, names) && i < |names|
    requires BackupRun.AllPublished(c, names, env, log) && e in log && e.Stored?
    requires e.key == BackupKey(c, names[i], env.attempts(i).now) || IsTimestampBackup(c, names[i], e.key)
    ensures e == BackupRun.UploadOf(c, names[i], env.attempts(i))
  {
    hide BackupKey, IsTimestampBackup, SameScope, Publish.Object, Publish.AllStagesSucceeded, BackupRun.Settled,
      BackupRun.Outcome;
    var k :| 0 <= k < |log| && log[k] == e;
    assert BackupRun.Published(c, names, env, log[k]);
    var j: nat :| j < |names| && BackupRun.PublishedBy(c, names[j], env.attempts(j), e);
    if IsTimestampBackup(c, names[i], e.key) {
      KeyOfOneScope(c, names[j], env.attempts(j).now, c, names[i]);
    } else {
      SameKeySameScope(c, names[j], env.attempts(j).now, names[i], env.attempts(i).now);
    }
    SamePlace(c, names, i, j);
  }

  lemma SamePlace(c: Config, names: seq<text>, i: nat, j: nat)
    requires BackupRun.OnePerScope(c, names) && i < |names| && j < |names| && SameScope(c, names[j], c, names[i])
    ensures i == j
  {
  }

  lemma {:induction false} LastOne(log: seq<Retention.Event>, upload: Retention.Event) returns (k: nat)
    requires upload.Stored? && upload in log
    requires forall e :: e in log && e.Stored? && e.key == upload.key ==> e == upload
    ensures History.LastUpload(log, k, upload.key, upload.content, upload.modified)
  {
    var last := |log| - 1;
    var before := log[..last];
    assert log == before + [log[last]];
    if log[last] == upload {
      k := last;
    } else {
      forall e | e in before && e.Stored? && e.key == upload.key ensures e == upload { assert e in log; }
      assert log[last] in log;
      k := LastOne(before, upload);
    }
  }

  // What no event of a log stores under a key was there before.
  lemma {:induction false} NothingNew(objects: Retention.Objects, log: seq<Retention.Event>, key: text)
    requires forall e :: e in log && e.Stored? ==> e.key != key
    requires key in Retention.Replay(objects, log)
    ensures key in objects && Retention.Replay(objects, log)[key] == objects[key]
  {
    if log != [] {
      var before, last := log[..|log| - 1], log[|log| - 1];
      assert last in log;
      forall e | e in before && e.Stored? ensures e.key != key { assert e in log; }
      NothingNew(objects, before, key);
    }
  }

  // Nothing in the run's own retention speaks against an object with this date.
  predicate Dated(p: Retention.Policy, stamp: int) { p.days > 0 ==> stamp >= p.cutoff }

  // After a run over any databases: what the i-th attempt made visible, if not dated before the
  // cutoff, lies under its key with its bytes, and of the backups its scope recognises it is the
  // only new one.
  lemma RunLeaves(
    p: Retention.Policy, names: seq<text>, env: BackupRun.Environment, objects: Retention.Objects,
    log: seq<Retention.Event>, i: nat)
    requires BackupRun.AllSettled(p.c, env) && BackupRun.OnePerScope(p.c, names) && i < |names|
    requires Retention.Safe(p, objects, log) && BackupRun.AllPublished(p.c, names, env, log)
    requires BackupRun.UploadOf(p.c, names[i], env.attempts(i)) in log && Dated(p, env.attempts(i).stamp)
    ensures Lies(p.c, names[i], Retention.Replay(objects, log), env.attempts(i))
    ensures forall other :: other in Retention.Replay(objects, log) && IsTimestampBackup(p.c, names[i], other) ==>
              other == BackupKey(p.c, names[i], env.attempts(i).now)
              || (other in objects && Retention.Replay(objects, log)[other] == objects[other])
  {
    hide BackupKey, IsTimestampBackup, Publish.Object, BackupRun.AllPublished, BackupRun.OnePerScope,
      Retention.Safe, Retention.Replay;
    var upload := BackupRun.UploadOf(p.c, names[i], env.attempts(i));
    forall e | e in log && e.Stored? && e.key == upload.key ensures e == upload {
      OneUpload(p.c, names, env, log, i, e);
    }
    var k := LastOne(log, upload);
    History.OwnUploadKept(p, objects, log, k, upload.key, upload.content, upload.modified);
    forall other | other in Retention.Replay(objects, log) && IsTimestampBackup(p.c, names[i], other)
      ensures other == upload.key || (other in objects && Retention.Replay(objects, log)[other] == objects[other])
    {
      if other != upload.key {
        forall e | e in log && e.Stored? ensures e.key != other {
          if e.key == other { OneUpload(p.c, names, env, log, i, e); }
        }
        NothingNew(objects, log, other);
      }
    }
  }

  // The object of an attempt, under its key.
  ghost predicate Lies(c: Config, database: text, objects: Retention.Objects, a: BackupRun.Attempt) {
    var key := BackupKey(c, database, a.now);
    key in objects && objects[key].content == Publish.Object(a.setup)
  }

  // It stays there through every history that retains it.
  lemma StillLies(
    c: Config, database: text, objects: Retention.Objects, history: seq<History.Episode>, a: BackupRun.Attempt)
    requires Lies(c, database, objects, a) && History.Lawful(objects, history)
    requires var key := BackupKey(c, database, a.now);
             forall i :: 0 <= i < |history| ==> History.Retains(history[i], key, objects[key])
    ensures Lies(c, database, History.After(objects, history), a)
  {
    hide BackupKey, Publish.Object, History.Lawful, History.After, History.Retains;
    History.UnexpiredSurvives(objects, history, BackupKey(c, database, a.now));
  }

  // ---- Which object a request means ---------------------------------------------------------------

  // No arguments, for a fixed name or the newest backup; some version of a fixed name; or the
  // printed second of the backup.
  ghost predicate Asks(c: Config, database: text, objects: Retention.Objects, args: seq<text>, now: nat) {
    match c.naming
    case Fixed => args == [] || (|args| == 2 && args[0] == "--version-id" && args[1] != [])
    case Timestamped =>
      && CivilOf(now).year < 10000
      && (args == [Layout(CivilOf(now))] || (args == [] && NoneLater(c, database, objects, now)))
  }

  // Whatever the request is resolved to is the key of this backup, and it is resolved.
  ghost predicate Means(
    c: Config, database: text, objects: Retention.Objects, choice: Restore.Choice, now: nat)
  {
    && !Restore.NothingFound(c, database, objects, choice, false)
    && forall key :: Restore.Resolved(c, database, objects, choice, key) ==> key == BackupKey(c, database, now)
  }

  lemma AskedIsMeant(
    c: Config, s: Selection.Selectors, objects: Retention.Objects, args: seq<text>, now: nat)
    requires Restore.SelectorsFit(c.mode, s) && Asks(c, s.database, objects, args, now)
    requires |args| < 2 ==> BackupKey(c, s.database, now) in objects
    ensures Restore.ValidateRestore(c, s, args).Some?
    ensures Restore.ValidateRestore(c, s, args).value.version == if |args| == 2 then args[1] else []
    ensures Means(c, s.database, objects, Restore.ValidateRestore(c, s, args).value, now)
  {
    hide Restore.SelectorsFit, BackupKey, CivilOf, Layout, NoneLater, Means;
    if c.naming.Timestamped? && args == [Layout(CivilOf(now))] {
      Restore.TimestampExact(c, s, args[0]);
      assert [args[0]] == args;
      MeansThatSecond(c, s, objects, args, now);
    } else {
      assert Restore.ValidateRestore(c, s, args) == Some(Restore.Choice([], if |args| == 2 then args[1] else []));
      if c.naming.Fixed? {
        MeansFixed(c, s.database, objects, Restore.ValidateRestore(c, s, args).value, now);
      } else {
        MeansNewest(c, s.database, objects, now);
      }
    }
  }

  lemma IsVersion(c: Config, database: text, objects: Retention.Objects, args: seq<text>, now: nat)
    requires Asks(c, database, objects, args, now)
    ensures |args| <= 2 && (|args| == 2 ==> args[1] != [])
  {
  }

  lemma MeansThatSecond(
    c: Config, s: Selection.Selectors, objects: Retention.Objects, args: seq<text>, now: nat)
    requires c.naming.Timestamped? && args == [Layout(CivilOf(now))] && CivilOf(now).year < 10000
    requires Restore.ValidateRestore(c, s, args).Some?
    ensures Restore.ValidateRestore(c, s, args).value.version == []
    ensures Means(c, s.database, objects, Restore.ValidateRestore(c, s, args).value, now)
  {
    hide Restore.SelectorsFit, BackupKey, CivilOf, Restore.ExplicitKey, Restore.Candidate;
    var choice := Restore.ValidateRestore(c, s, args).value;
    assert choice == Restore.Choice(Layout(CivilOf(now)), []);
    Restore.TimestampExact(c, s, Layout(CivilOf(now)));
    assert |Layout(CivilOf(now))| >= 4;
  }

  lemma MeansFixed(c: Config, database: text, objects: Retention.Objects, choice: Restore.Choice, now: nat)
    requires c.naming.Fixed?
    ensures Means(c, database, objects, choice, now)
  {
    hide TimestampPrefix, FileType;
  }

  lemma MeansNewest(c: Config, database: text, objects: Retention.Objects, now: nat)
    requires c.naming.Timestamped? && NoneLater(c, database, objects, now)
    requires BackupKey(c, database, now) in objects
    ensures Means(c, database, objects, Restore.Choice([], []), now)
  {
    hide BackupKey, IsTimestampBackup, HasSuffix, FileType, CivilOf, Less, Restore.Candidate;
    BackupKeyRecognised(c, database, now);
    Restore.EndsInFileType(c, database, now);
    ThereIsCandidate(c, database, objects, BackupKey(c, database, now));
    forall key | Restore.Resolved(c, database, objects, Restore.Choice([], []), key)
      ensures key == BackupKey(c, database, now)
    {
      assert MadeBy(c, database, now, key);
      var t: nat :| t <= now && CivilOf(t).year < 10000 && key == BackupKey(c, database, t);
      KeysInOrder(c, database, t, now);
    }
  }

  lemma ThereIsCandidate(c: Config, database: text, objects: Retention.Objects, key: text)
    requires key in objects && IsTimestampBackup(c, database, key) && HasSuffix(key, FileType(c))
    ensures Restore.Candidate(c, database, objects, key)
  {
  }

  // Adding the newest backup of a scope to a store leaves none later.
  lemma NoneLaterAfter(
    c: Config, database: text, before: Retention.Objects, objects: Retention.Objects, now: nat)
    requires NoneLater(c, database, before, now)
    requires forall other :: other in objects && IsTimestampBackup(c, database, other) ==>
               other == BackupKey(c, database, now) || other in before
    ensures NoneLater(c, database, objects, now)
  {
    hide BackupKey, IsTimestampBackup, HasSuffix, FileType, CivilOf;
    forall key | Restore.Candidate(c, database, objects, key) ensures MadeBy(c, database, now, key) {
      if key != BackupKey(c, database, now) { assert Restore.Candidate(c, database, before, key); }
    }
  }

  // ---- What is imported ------------------------------------------------------------------------------

  // What the dump behind an import produced.
  function Dump(ev: Events, auth: bool): text { Produced(if auth then ev.auth.chunks else ev.data.chunks) }

  // The published object opens as the archive, which is accepted and has the dumps.
  lemma Opens(c: Config, a: BackupRun.Attempt, w: Restore.World, job: Job, ev: Events, auth: bool)
    requires BackupRun.Settled(c, a) && BackupRun.Uploads(c, a) && Bundled(c, a.setup, w.tools, w.codec, job, ev)
    requires auth ==> c.mode.PerDatabase?
    ensures w.codec.marshal(ManifestOf(w.codec, job, ev)).Some?
    ensures var archive := Archive(w.codec, job, ev);
      && Restore.OpenBundle(c, w.tools, Publish.Object(a.setup)) == Some(archive)
      && (exists m :: Acceptable(w.codec, archive, Restore.TargetOf(c, job.database), m))
      && Find(archive, Restore.Source(auth)).Some?
      && Find(archive, Restore.Source(auth)).value.content == Some(Dump(ev, auth))
  {
    hide Publish.Execute, Publish.AllStagesSucceeded, Publish.Object, Acceptable, Coherent, JsonRoundTrips, Archive,
      Find, Produced, ValidUtf8;
    Publish.PublishSafety(a.setup, a.steps);
    Restore.BackupRestores(c, a.setup, a.steps, w.tools, w.codec, job, ev);
  }

  lemma PlanIsCarriedOut(
    w: Restore.World, starts: seq<Restore.Event>, passes: seq<seq<text>>, input: text, r: Restore.Settings,
    database: text, auth: bool, oplog: bool)
    requires NoFault(w) && passes == Restore.Passes(r, database, auth, oplog)
    requires Restore.Follows(starts, passes, input) && Restore.Faithful(w, starts, passes)
    ensures Restore.AllDone(starts, passes) && |starts| >= 1
    ensures forall i :: 0 <= i < |starts| ==> starts[i].Started? && starts[i].input == input
  {
    hide Restore.CommonArgs, Restore.LastArgs;
    assert forall i: nat :: i < |starts| ==> w.succeeds(i);
  }

  lemma Faultless(w: Restore.World)
    requires NoFault(w)
    ensures w.connection && w.locked && !w.listingFails && !w.downloadFails
  {
  }

  // An import was made, all of it, of this input and from under this key.
  ghost predicate Feeds(ok: bool, log: seq<Restore.Event>, key: text, input: text) {
    && ok && |log| > 2 && log[0].Downloaded? && log[0].key == key
    && forall i :: 2 <= i < |log| ==> log[i].Started? && log[i].input == input
  }

  lemma WhatIsFetched(
    c: Config, database: text, objects: Retention.Objects, version: text, a: BackupRun.Attempt, w: Restore.World,
    archive: seq<Entry>)
    requires !w.downloadFails && Restore.OpenBundle(c, w.tools, Publish.Object(a.setup)) == Some(archive)
    requires if version == [] then Lies(c, database, objects, a)
      else w.versions(BackupKey(c, database, a.now), version) == Some(Publish.Object(a.setup))
    ensures Restore.Fetched(c, objects, w, BackupKey(c, database, a.now), version) == Some(archive)
  {
    hide BackupKey, Restore.OpenBundle, Publish.Object;
  }

  // Without faults the object that a request means leads to the import of its dump.
  lemma DumpIsImported(
    c: Config, database: text, objects: Retention.Objects, choice: Restore.Choice, a: BackupRun.Attempt,
    r: Restore.Settings, auth: bool, w: Restore.World, job: Job, ev: Events, ok: bool, log: seq<Restore.Event>)
    requires BackupRun.Settled(c, a) && BackupRun.Uploads(c, a)
    requires if choice.version == [] then Lies(c, database, objects, a)
      else w.versions(BackupKey(c, database, a.now), choice.version) == Some(Publish.Object(a.setup))
    requires Bundled(c, a.setup, w.tools, w.codec, job, ev) && job.database == database && NoFault(w)
    requires Means(c, database, objects, choice, a.now) && (auth ==> c.mode.PerDatabase?)
    requires
      || Restore.Imported(objects, c, database, choice, r, auth, w, ok, log)
      || Restore.GivenUp(objects, c, database, choice, w, ok, log)
    ensures Feeds(ok, log, BackupKey(c, database, a.now), Dump(ev, auth))
  {
    hide BackupKey, Dump, Restore.Candidate, Restore.Follows, Restore.Faithful, Restore.AllDone, Restore.Passes,
      Restore.OpenBundle, Restore.Fetched, Restore.Resolved, Restore.NothingFound, Acceptable, Find, NoFault, Bundled,
      Publish.Object, BackupRun.Settled, BackupRun.Uploads, Archive, Lies;
    Opens(c, a, w, job, ev, auth);
    Faultless(w);
    WhatIsFetched(c, database, objects, choice.version, a, w, Archive(w.codec, job, ev));
    if |log| >= 2 {
      var passes := Restore.Passes(r, database, auth, log[1].manifest.oplog);
      PlanIsCarriedOut(w, log[2..], passes, Dump(ev, auth), r, database, auth, log[1].manifest.oplog);
      forall i | 2 <= i < |log| ensures log[i].Started? && log[i].input == Dump(ev, auth) {
        assert log[2..][i - 2] == log[i];
      }
    }
  }

  // What a restore of the object of this attempt is to be given: selectors for its database, a
  // request for it, the bundle behind it, and no faults.
  ghost predicate Requested(
    c: Config, rs: Selection.Selectors, args: seq<text>, auth: bool, w: Restore.World, objects: Retention.Objects,
    a: BackupRun.Attempt, job: Job, ev: Events)
  {
    && Restore.SelectorsFit(c.mode, rs) && (auth ==> c.mode.PerDatabase?) && NoFault(w)
    && BackupRun.Settled(c, a) && BackupRun.Uploads(c, a) && Bundled(c, a.setup, w.tools, w.codec, job, ev)
    && job.database == rs.database && Asks(c, rs.database, objects, args, a.now)
    && (|args| == 2 ==> w.versions(BackupKey(c, rs.database, a.now), args[1]) == Some(Publish.Object(a.setup)))
  }

  // Any backup that lies in the store, or is kept there as a version of its key, is restored,
  // byte for byte, by asking for it: whichever run published it, and whatever has happened to
  // the bucket since.
  method RestoreThat(
    store: Retention.Store, c: Config, rs: Selection.Selectors, r: Restore.Settings, args: seq<text>, auth: bool,
    w: Restore.World, ghost a: BackupRun.Attempt, ghost job: Job, ghost ev: Events)
    returns (ok: bool, log: seq<Restore.Event>)
    ensures Requested(c, rs, args, auth, w, store.objects, a, job, ev)
            && (|args| == 2 || Lies(c, rs.database, store.objects, a)) ==>
              Feeds(ok, log, BackupKey(c, rs.database, a.now), Dump(ev, auth))
  {
    hide Restore.SelectorsFit, Restore.ValidateRestore, Restore.Imported, Restore.GivenUp, NoFault, Bundled, Asks,
      BackupRun.Settled, BackupRun.Uploads, Means, Feeds, BackupKey, Dump, Publish.Object;
    ok, log := Restore.Restore(store, c, rs, r, args, auth, w);
    if Requested(c, rs, args, auth, w, store.objects, a, job, ev)
      && (|args| == 2 || Lies(c, rs.database, store.objects, a)) {
      IsVersion(c, rs.database, store.objects, args, a.now);
      AskedIsMeant(c, rs, store.objects, args, a.now);
      Faultless(w);
      DumpIsImported(
        c, rs.database, store.objects, Restore.ValidateRestore(c, rs, args).value, a, r, auth, w, job, ev, ok, log);
    }
  }

  // ---- A run, and the restore of one of its databases -------------------------------------------------

  // The i-th database of a run that reaches it: its object becomes visible, and its date does
  // not speak against it.
  ghost predicate PublishesAt(c: Config, env: BackupRun.Environment, names: seq<text>, i: nat, p: Retention.Policy) {
    && BackupRun.AllSettled(c, env) && i < |names| && BackupRun.Reached(env, i)
    && BackupRun.Uploads(c, env.attempts(i)) && Dated(p, env.attempts(i).stamp)
  }

  lemma NamesApart(c: Config, s: Selection.Selectors, env: BackupRun.Environment, names: seq<text>)
    requires names != [] ==> BackupRun.Wanted(c, s, env, names)
    ensures BackupRun.OnePerScope(c, names)
  {
    hide BackupRun.Wanted;
    forall j, i | 0 <= j < i < |names| ensures c.mode.PerDatabase? && names[j] != names[i] {
      BackupRun.OthersDistinct(c, s, env, names, j, i);
    }
  }

  lemma StartsEmpty(objects: Retention.Objects, log: seq<Retention.Event>)
    ensures log == [] ==> Retention.Replay(objects, log) == objects
  {
  }

  // What the attempt leaves also meets the request that was put to the store as it was before.
  lemma AskedAfter(
    p: Retention.Policy, names: seq<text>, env: BackupRun.Environment, objects: Retention.Objects,
    log: seq<Retention.Event>, i: nat, args: seq<text>)
    requires BackupRun.OnePerScope(p.c, names) && PublishesAt(p.c, env, names, i, p)
    requires Retention.Safe(p, objects, log) && BackupRun.AllPublished(p.c, names, env, log)
    requires BackupRun.UploadOf(p.c, names[i], env.attempts(i)) in log
    ensures Lies(p.c, names[i], Retention.Replay(objects, log), env.attempts(i))
    ensures Asks(p.c, names[i], objects, args, env.attempts(i).now) ==>
              Asks(p.c, names[i], Retention.Replay(objects, log), args, env.attempts(i).now)
  {
    hide BackupRun.OnePerScope, BackupRun.AllPublished, BackupRun.UploadOf, BackupRun.Uploads, BackupRun.AllSettled,
      Retention.Safe, Retention.Replay, Lies, NoneLater, BackupKey, IsTimestampBackup, CivilOf, Layout;
    var now := env.attempts(i).now;
    RunLeaves(p, names, env, objects, log, i);
    if NoneLater(p.c, names[i], objects, now) {
      NoneLaterAfter(p.c, names[i], objects, Retention.Replay(objects, log), now);
    }
  }

  // After a run over any databases, a restore of any one of them whose object the run published -
  // whether with a nil result or not - imports, byte for byte, what the dump of that database
  // produced; or, with `auth`, the dump of the users and roles.
  method BackupThenRestore(
    store: Retention.Store, c: Config, s: Selection.Selectors, keepDays: text, env: BackupRun.Environment,
    rs: Selection.Selectors, r: Restore.Settings, args: seq<text>, auth: bool, w: Restore.World, ghost i: nat,
    ghost job: Job, ghost ev: Events)
    returns (restored: bool, log: seq<Restore.Event>, ghost names: seq<text>, ghost p: Retention.Policy)
    requires store.Valid() && store.log == [] && BackupRun.AllSettled(c, env)
    modifies store
    ensures names != [] <==> BackupRun.Starts(c, s, keepDays, env)
    ensures names != [] ==> BackupRun.Wanted(c, s, env, names) && Retention.KeepDays(keepDays) == Some(p.days)
    ensures p == BackupRun.PolicyOf(c, p.days, env.start)
    ensures PublishesAt(c, env, names, i, p) && names[i] == rs.database
            && Requested(c, rs, args, auth, w, old(store.objects), env.attempts(i), job, ev) ==>
              Feeds(restored, log, BackupKey(c, rs.database, env.attempts(i).now), Dump(ev, auth))
  {
    hide Retention.Safe, Retention.Replay, Retention.KeepDays, Retention.KeepsTo, BackupRun.Wanted,
      BackupRun.Starts, BackupRun.AllPublished, BackupRun.UploadOf, BackupRun.Uploads, BackupRun.AllDone,
      BackupRun.NothingGoesWrong, BackupRun.OnePerScope, Restore.SelectorsFit, NoFault, Bundled, Asks, Lies, Feeds,
      BackupKey, Dump;
    ghost var before := store.objects;
    StartsEmpty(store.initial, store.log);
    var ok;
    ok, names, p := BackupRun.Backup(store, c, s, keepDays, env);
    NamesApart(c, s, env, names);
    if PublishesAt(c, env, names, i, p) { AskedAfter(p, names, env, before, store.log, i, args); }
    restored, log := RestoreThat(store, c, rs, r, args, auth, w, env.attempts(i), job, ev);
  }

  // ---- The conditions can be met together ------------------------------------------------------

  const APP := Config(PerDatabase, Timestamped, "backup", [])
  const ALL := Selection.Selectors([], [], true, [])
  const ONLY_APP := Selection.Selectors("app", [], false, [])
  const DATABASES: seq<text> := ["log", "app"]

  function EveryAttempt(setup: Publish.Setup, steps: seq<Publish.Step>): nat -> BackupRun.Attempt {
    n => BackupRun.Attempt(
      false, true, 0, setup, steps, 0, Retention.Faults(false, i => false, i => Retention.Confirmed))
  }

  function Scene(setup: Publish.Setup, steps: seq<Publish.Step>): BackupRun.Environment {
    BackupRun.Environment(
      false, true, true, BackupRun.Enabled, true, Some(DATABASES), 0, true, EveryAttempt(setup, steps))
  }

  lemma NameIsValid(name: text)
    requires name == "app" || name == "log"
    ensures Selection.ValidName(name) && !Selection.SystemDatabase(name)
  {
    AsciiIsUtf8(name);
  }

  lemma BothSelected()
    ensures Selection.UserDatabases(DATABASES) == DATABASES && Selection.ValidNames(DATABASES)
    ensures Selection.ValidNames(["app"])
  {
    hide Selection.ValidName;
    NameIsValid("log");
    NameIsValid("app");
    assert DATABASES[..1] == ["log"] && ["log"][..0] == [];
    assert Selection.UserDatabases(["log"]) == ["log"];
  }

  lemma BothWanted(env: BackupRun.Environment)
    requires env.listed == Some(DATABASES)
    ensures BackupRun.Wanted(APP, ALL, env, DATABASES) && Selection.Selectable(PerDatabase, ALL, env.listed)
    ensures BackupRun.SelectorsFit(PerDatabase, ALL) && Restore.SelectorsFit(PerDatabase, ONLY_APP)
  {
    hide Selection.ValidNames, Selection.UserDatabases, Selection.Listed;
    BothSelected();
    assert DATABASES[0] in DATABASES && "log" != "app";
    assert Selection.FirstAt(DATABASES, "log") == 0 && Selection.FirstAt(DATABASES, "app") == 1;
  }

  lemma SceneRuns() returns (env: BackupRun.Environment, p: Retention.Policy)
    ensures BackupRun.Starts(APP, ALL, [], env) && BackupRun.Wanted(APP, ALL, env, DATABASES)
    ensures p == BackupRun.PolicyOf(APP, 0, env.start) && PublishesAt(APP, env, DATABASES, 1, p)
    ensures env.attempts(1).now == 0 && !env.attempts(1).setup.encrypted
    ensures Restore.SelectorsFit(APP.mode, ONLY_APP)
  {
    hide Publish.Execute, Selection.Selectable, BackupRun.SelectorsFit, BackupRun.Wanted, Restore.SelectorsFit,
      Retention.KeepDays;
    NothingKept();
    var setup := Publish.Setup(false, "z", (x: text) => x, 1, 1, 1);
    var steps, _ := Publish.PublishedWithEitherResult(setup);
    env := Scene(setup, steps);
    p := BackupRun.PolicyOf(APP, 0, env.start);
    BothWanted(env);
  }

  lemma SceneBundles(setup: Publish.Setup) returns (w: Restore.World, job: Job, ev: Events)
    requires !setup.encrypted
    ensures Bundled(APP, setup, w.tools, w.codec, job, ev) && job.database == ONLY_APP.database && NoFault(w)
  {
    hide Succeeds, JsonRoundTrips, Coherent, Archive, ValidUtf8, ManifestOf;
    ConfigurationRoundTrip.ExampleSucceeds(2);
    AsciiIsUtf8("app");
    var codec := ConfigurationRoundTrip.ExampleCodec(2);
    job, ev := ConfigurationRoundTrip.EXAMPLE_JOB, ConfigurationRoundTrip.ExampleEvents(2);
    JsonIsThere(codec, job, ev);
    var archive := Archive(codec, job, ev);
    w := Restore.World(
      true, true, false, false, (k: text, v: text) => None,
      Restore.Tools((x: text) => None, (x: text) => Some(archive)), codec, n => true, n => true);
  }

  // A first backup of two databases, and a restore of the second, its data or its users.
  lemma ConditionsCanBeMet(auth: bool)
    returns (env: BackupRun.Environment, p: Retention.Policy, w: Restore.World, job: Job, ev: Events)
    ensures BackupRun.Starts(APP, ALL, [], env) && BackupRun.Wanted(APP, ALL, env, DATABASES)
    ensures p == BackupRun.PolicyOf(APP, 0, env.start) && PublishesAt(APP, env, DATABASES, 1, p)
    ensures DATABASES[1] == ONLY_APP.database
    ensures Requested(APP, ONLY_APP, [], auth, w, map[], env.attempts(1), job, ev)
  {
    hide BackupRun.Starts, BackupRun.Wanted, BackupRun.PolicyOf, BackupRun.Settled, BackupRun.Uploads, Bundled,
      NoFault, Restore.SelectorsFit, CivilOf, Layout;
    YearZero();
    env, p := SceneRuns();
    w, job, ev := SceneBundles(env.attempts(1).setup);
  }

  lemma JsonIsThere(codec: Codec, job: Job, ev: Events)
    requires Succeeds(codec, job, ev)
    ensures codec.marshal(ManifestOf(codec, job, ev)).Some?
  {
  }

  lemma YearZero()
    ensures CivilOf(0).year == 0
  {
    hide MonthAndDay, TimeOfDay;
    assert YearAndDay(0, 0) == (0, 0);
  }

  lemma NothingKept()
    ensures Retention.KeepDays([]) == Some(0)
  {
  }
}
