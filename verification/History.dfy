/** What the store keeps over any history of runs, of any configurations, and of other users. */
module History {
  import opened Calendar
  import opened Keys
  import opened Retention
  import opened Text

  // ---- Inside one run -----------------------------------------------------------------------

  lemma {:induction false} SafeUpTo(p: Policy, objects: Objects, log: seq<Event>, n: nat)
    requires Safe(p, objects, log) && n <= |log|
    ensures Safe(p, objects, log[..n])
    ensures n < |log| ==> Allowed(p, Replay(objects, log[..n]), log[..n], log[n])
    decreases |log|
  {
    hide Allowed, Replay;
    if n == |log| {
      assert log[..n] == log;
    } else if n < |log| - 1 {
      var before := log[..|log| - 1];
      SafeUpTo(p, objects, before, n);
      assert before[..n] == log[..n];
    }
  }

  // Every deletion is of an expired backup of a database whose backup succeeded before, in the
  // same run, and of nothing newer than the cutoff.
  lemma DeletionsJustified(p: Policy, objects: Objects, log: seq<Event>, n: nat)
    requires Safe(p, objects, log) && n < |log| && log[n].Deleted?
    ensures p.days > 0 && IsTimestampBackup(p.c, log[n].database, log[n].key)
    ensures exists k :: 0 <= k < n && log[k] == Succeeded(log[n].database)
    ensures var there := Replay(objects, log[..n]);
            log[n].key in there && there[log[n].key].modified == Some(log[n].modified) && log[n].modified < p.cutoff
  {
    hide IsTimestampBackup, Replay;
    SafeUpTo(p, objects, log, n);
    var k :| 0 <= k < n && log[..n][k] == Succeeded(log[n].database);
    assert log[k] == log[..n][k];
  }

  lemma ReplayStep(objects: Objects, log: seq<Event>, n: nat)
    requires n < |log|
    ensures Replay(objects, log[..n + 1]) == Apply(Replay(objects, log[..n]), log[n])
  {
    assert log[..n + 1][..n] == log[..n];
  }

  // No scope whose backup succeeds in this run owns the key.
  ghost predicate Spared(p: Policy, log: seq<Event>, key: text) {
    forall database :: Succeeded(database) in log ==> !IsTimestampBackup(p.c, database, key)
  }

  // No backup of these databases is written under the key.
  ghost predicate Unwritten(c: Config, names: seq<text>, key: text) {
    forall name, now: nat :: name in names ==> BackupKey(c, name, now) != key
  }

  lemma {:induction false} RunKeeps(p: Policy, names: seq<text>, objects: Objects, log: seq<Event>, key: text, n: nat)
    requires Safe(p, objects, log) && KeepsTo(p.c, names, log) && n <= |log| && key in objects && Spared(p, log, key)
    ensures var there := Replay(objects, log[..n]);
            key in there && (Unwritten(p.c, names, key) ==> there[key] == objects[key])
  {
    hide IsTimestampBackup, Replay, BackupKey, Safe;
    if n == 0 {
      Empty(objects, log);
    } else {
      RunKeeps(p, names, objects, log, key, n - 1);
      ReplayStep(objects, log, n - 1);
      assert MayDo(p.c, names, log[n - 1]);
      if log[n - 1].Deleted? {
        DeletionsJustified(p, objects, log, n - 1);
        assert Succeeded(log[n - 1].database) in log;
      }
    }
  }

  lemma Empty(objects: Objects, log: seq<Event>)
    ensures Replay(objects, log[..0]) == objects
  {
  }

  // The last upload of a key in the log.
  ghost predicate LastUpload(log: seq<Event>, k: nat, key: text, content: text, modified: int) {
    && k < |log| && log[k] == Stored(key, content, modified)
    && forall j :: k < j < |log| && log[j].Stored? ==> log[j].key != key
  }

  lemma {:induction false} UploadKept(
    p: Policy, objects: Objects, log: seq<Event>, k: nat, key: text, content: text, modified: int, n: nat)
    requires Safe(p, objects, log) && LastUpload(log, k, key, content, modified) && k < n <= |log|
    ensures var there := Replay(objects, log[..n]);
            (key in there ==> there[key] == Blob(content, Some(modified)))
            && (p.days == 0 || modified >= p.cutoff ==> key in there)
  {
    hide Replay, Safe, IsTimestampBackup;
    ReplayStep(objects, log, n - 1);
    if n - 1 > k {
      UploadKept(p, objects, log, k, key, content, modified, n - 1);
      if log[n - 1].Deleted? { DeletionsJustified(p, objects, log, n - 1); }
    }
  }

  // What a run uploads it deletes again only if it has a retention period and the store dates
  // the object before the cutoff.
  lemma OwnUploadKept(p: Policy, objects: Objects, log: seq<Event>, k: nat, key: text, content: text, modified: int)
    requires Safe(p, objects, log) && LastUpload(log, k, key, content, modified)
    requires p.days > 0 ==> modified >= p.cutoff
    ensures key in Replay(objects, log) && Replay(objects, log)[key] == Blob(content, Some(modified))
  {
    UploadKept(p, objects, log, k, key, content, modified, |log|);
    assert log[..|log|] == log;
  }

  // With a clock of the store that does not lag by the whole retention period, the run's own
  // backup is newer than the cutoff: up to 106751 days, and the setting allows 36500.
  lemma ConsistentClock(start: int, days: nat, modified: int)
    requires 0 <= days <= 36500 && modified >= start - days * 24 * HOUR
    ensures modified >= Cutoff(start - start % 1_000_000_000, days)
  {
    CutoffExact(start - start % 1_000_000_000, days);
  }

  // Once retention has succeeded the condition is exact: the new backup of a scope is still
  // there if and only if the store dates it at or after the cutoff.
  lemma OwnBackupKeptExactly(
    p: Policy, objects: Objects, log: seq<Event>, database: text, k: nat, key: text, content: text, modified: int)
    requires Safe(p, objects, log) && LastUpload(log, k, key, content, modified)
      && IsTimestampBackup(p.c, database, key)
    requires Expired(p.c, database, p.cutoff, Replay(objects, log)) == {}
    ensures key in Replay(objects, log) <==> modified >= p.cutoff
  {
    hide IsTimestampBackup, Replay;
    UploadKept(p, objects, log, k, key, content, modified, |log|);
    assert log[..|log|] == log;
    if key in Replay(objects, log) { assert key !in Expired(p.c, database, p.cutoff, Replay(objects, log)); }
  }

  // A run that deletes its own new backup, because the store dates it before the cutoff.
  lemma OwnBackupDeleted(c: Config, database: text, now: nat, content: text, days: nat, cutoff: int)
    returns (log: seq<Event>)
    requires c.naming.Timestamped? && CivilOf(now).year < 10000 && days > 0
    ensures var key, p := BackupKey(c, database, now), Policy(c, days, cutoff);
      && log == [Stored(key, content, cutoff - 1), Succeeded(database), Deleted(database, key, cutoff - 1)]
      && Safe(p, map[], log) && KeepsTo(c, [database], log)
      && LastUpload(log, 0, key, content, cutoff - 1)
      && Expired(c, database, cutoff, Replay(map[], log)) == {} && key !in Replay(map[], log)
  {
    hide BackupKey, IsTimestampBackup, CivilOf;
    var key, p := BackupKey(c, database, now), Policy(c, days, cutoff);
    BackupKeyRecognised(c, database, now);
    var upload: seq<Event>, success: seq<Event> := [Stored(key, content, cutoff - 1)], [Succeeded(database)];
    var none: seq<Event> := [];
    assert none + upload == upload;
    SafeMore(p, map[], none, upload[0]);
    SafeMore(p, map[], upload, success[0]);
    assert (upload + success)[..1] == upload && upload[..0] == [];
    var there: Objects := map[key := Blob(content, Some(cutoff - 1))];
    assert Replay(map[], upload + success) == there;
    assert (upload + success)[1] == Succeeded(database);
    SafeMore(p, map[], upload + success, Deleted(database, key, cutoff - 1));
    log := upload + success + [Deleted(database, key, cutoff - 1)];
    assert log[..2] == upload + success;
    assert Replay(map[], log) == there - {key};
  }

  // ---- Over a history ------------------------------------------------------------------------

  // Runs of any configuration over some databases, and whatever others make of the bucket
  // between them.
  datatype Episode = Run(policy: Policy, names: seq<text>, log: seq<Event>) | Others(objects: Objects)

  function After(objects: Objects, history: seq<Episode>): Objects {
    if history == [] then objects
    else
      match history[|history| - 1]
      case Run(_, _, log) => Replay(After(objects, history[..|history| - 1]), log)
      case Others(objects') => objects'
  }

  // Every run is as the contract of Backup says.
  ghost predicate Lawful(objects: Objects, history: seq<Episode>) {
    history == [] ||
    var before := history[..|history| - 1];
    && Lawful(objects, before)
    && match history[|history| - 1]
       case Run(p, names, log) => Safe(p, After(objects, before), log) && KeepsTo(p.c, names, log)
       case Others(_) => true
  }

  ghost predicate LeavesAlone(e: Episode, key: text) {
    match e
    case Run(p, _, log) => Spared(p, log, key)
    case Others(objects) => key in objects
  }

  // Nor changes it.
  ghost predicate LeavesAsIs(e: Episode, key: text, blob: Blob) {
    match e
    case Run(p, names, _) => Unwritten(p.c, names, key)
    case Others(objects) => key in objects && objects[key] == blob
  }

  // An object stays through every history that leaves its key alone, and is the same object
  // at the end when nothing was written under the key.
  lemma {:induction false} HistoryKeeps(objects: Objects, history: seq<Episode>, key: text)
    requires Lawful(objects, history) && key in objects
    requires forall i :: 0 <= i < |history| ==> LeavesAlone(history[i], key)
    ensures key in After(objects, history)
    ensures (forall i :: 0 <= i < |history| ==> LeavesAsIs(history[i], key, objects[key])) ==>
              After(objects, history)[key] == objects[key]
  {
    hide Safe, Replay, Spared, Unwritten, KeepsTo;
    if history != [] {
      var before, last := history[..|history| - 1], history[|history| - 1];
      HistoryKeeps(objects, before, key);
      assert LeavesAlone(last, key);
      if last.Run? {
        RunKeeps(last.policy, last.names, After(objects, before), last.log, key, |last.log|);
        assert last.log[..|last.log|] == last.log;
      }
    }
  }

  ghost predicate OthersKeep(history: seq<Episode>, key: text) {
    forall i :: 0 <= i < |history| && history[i].Others? ==> key in history[i].objects
  }

  ghost predicate OthersLeave(history: seq<Episode>, key: text, blob: Blob) {
    forall i :: 0 <= i < |history| && history[i].Others? ==>
      key in history[i].objects && history[i].objects[key] == blob
  }

  // No run of any configuration ever deletes an object with a fixed name; it changes only by
  // a run with fixed names whose scope meets its own and which agrees on encryption.
  lemma FixedNamesSurvive(objects: Objects, history: seq<Episode>, c: Config, database: text)
    requires Lawful(objects, history) && FixedKey(c, database) in objects && OthersKeep(history, FixedKey(c, database))
    ensures FixedKey(c, database) in After(objects, history)
    ensures OthersLeave(history, FixedKey(c, database), objects[FixedKey(c, database)]) &&
            (forall i, d :: 0 <= i < |history| && history[i].Run? && d in history[i].names ==>
               !WritesFixed(history[i].policy.c, d, c, database)) ==>
              After(objects, history)[FixedKey(c, database)] == objects[FixedKey(c, database)]
  {
    hide IsTimestampBackup, FixedKey, BackupKey, Lawful, After, WritesFixed;
    var key := FixedKey(c, database);
    forall i | 0 <= i < |history|
      ensures LeavesAlone(history[i], key)
      ensures history[i].Run?
              && (forall d :: d in history[i].names ==> !WritesFixed(history[i].policy.c, d, c, database)) ==>
                LeavesAsIs(history[i], key, objects[key])
    {
      if history[i].Run? {
        forall d ensures !IsTimestampBackup(history[i].policy.c, d, key)
        {
          FixedIsNoBackup(c, database, history[i].policy.c, d);
        }
        forall d, now: nat
          ensures BackupKey(history[i].policy.c, d, now) == key ==> WritesFixed(history[i].policy.c, d, c, database)
        {
          WritesFixedExactly(history[i].policy.c, d, now, c, database);
        }
      }
    }
    HistoryKeeps(objects, history, key);
  }

  // A configuration that writes the fixed key of another.
  predicate WritesFixed(c: Config, database: text, c': Config, database': text) {
    && c.naming.Fixed? && ScopesMeet(c, database, c', database')
    && (c.passphrase == [] <==> c'.passphrase == [])
  }

  lemma WritesFixedExactly(c: Config, database: text, now: nat, c': Config, database': text)
    ensures BackupKey(c, database, now) == FixedKey(c', database') <==> WritesFixed(c, database, c', database')
  {
    hide FixedKey, ScopesMeet;
    if c.naming.Timestamped? { TimestampedIsNotFixed(c, database, now, c', database'); }
    FixedKeysMeetExactly(c, database, c', database');
  }

  // A backup survives every history in which no run succeeds for a scope that meets its own,
  // and survives it unchanged when no run is over such a scope at all: other databases, the
  // other mode and other prefixes do not touch it, except where ScopesMeetExactly says that
  // the scopes cross.
  lemma OtherScopesSurvive(objects: Objects, history: seq<Episode>, c: Config, database: text, key: text)
    requires Lawful(objects, history) && key in objects && OthersKeep(history, key)
      && IsTimestampBackup(c, database, key)
    requires forall i, d :: 0 <= i < |history| && history[i].Run? && Succeeded(d) in history[i].log ==>
               !ScopesMeet(history[i].policy.c, d, c, database)
    ensures key in After(objects, history)
    ensures OthersLeave(history, key, objects[key]) &&
            (forall i, d :: 0 <= i < |history| && history[i].Run? && d in history[i].names ==>
               !ScopesMeet(history[i].policy.c, d, c, database)) ==>
              After(objects, history)[key] == objects[key]
  {
    hide IsTimestampBackup, ScopesMeet, BackupKey, Lawful, After;
    forall i | 0 <= i < |history|
      ensures LeavesAlone(history[i], key)
      ensures history[i].Run?
              && (forall d :: d in history[i].names ==> !ScopesMeet(history[i].policy.c, d, c, database)) ==>
                LeavesAsIs(history[i], key, objects[key])
    {
      if history[i].Run? {
        var c' := history[i].policy.c;
        forall d | Succeeded(d) in history[i].log ensures !IsTimestampBackup(c', d, key) {
          ScopesMeetExactly(c', d, c, database);
        }
        forall d, now: nat ensures BackupKey(c', d, now) == key ==> ScopesMeet(c', d, c, database) {
          if BackupKey(c', d, now) == key { KeyOfOneScope(c', d, now, c, database); }
        }
      }
    }
    HistoryKeeps(objects, history, key);
  }

  // A name that no scope recognises is safe from every run, and what is no key of a backup is
  // not written either.
  lemma UnrelatedNamesSurvive(objects: Objects, history: seq<Episode>, key: text)
    requires Lawful(objects, history) && key in objects && OthersKeep(history, key)
    requires forall c: Config, database: text :: !IsTimestampBackup(c, database, key)
    ensures key in After(objects, history)
    ensures OthersLeave(history, key, objects[key]) ==>
              (forall c: Config, d: text, now: nat :: BackupKey(c, d, now) != key) ==>
              After(objects, history)[key] == objects[key]
  {
    hide IsTimestampBackup, BackupKey, Lawful, After;
    forall i | 0 <= i < |history| ensures LeavesAlone(history[i], key) { }
    HistoryKeeps(objects, history, key);
  }

  // ---- Until it expires ------------------------------------------------------------------------

  // A run neither writes under the key nor may delete the object; others leave it as it is.
  ghost predicate Retains(e: Episode, key: text, blob: Blob) {
    match e
    case Run(p, names, log) =>
      Unwritten(p.c, names, key) && (Spared(p, log, key) || p.days == 0 || !OlderThan(blob.modified, p.cutoff))
    case Others(objects) => key in objects && objects[key] == blob
  }

  lemma {:induction false} RunRetains(p: Policy, names: seq<text>, objects: Objects, log: seq<Event>, key: text, n: nat)
    requires Safe(p, objects, log) && KeepsTo(p.c, names, log) && n <= |log| && key in objects
    requires Retains(Run(p, names, log), key, objects[key])
    ensures var there := Replay(objects, log[..n]); key in there && there[key] == objects[key]
  {
    hide IsTimestampBackup, Replay, BackupKey, Safe;
    if n == 0 {
      Empty(objects, log);
    } else {
      RunRetains(p, names, objects, log, key, n - 1);
      ReplayStep(objects, log, n - 1);
      assert MayDo(p.c, names, log[n - 1]);
      if log[n - 1].Deleted? {
        DeletionsJustified(p, objects, log, n - 1);
        assert Succeeded(log[n - 1].database) in log;
      }
    }
  }

  // An object stays as it is through every history in which no run writes under its key, or
  // succeeds for its scope with a cutoff behind its date.
  lemma {:induction false} UnexpiredSurvives(objects: Objects, history: seq<Episode>, key: text)
    requires Lawful(objects, history) && key in objects
    requires forall i :: 0 <= i < |history| ==> Retains(history[i], key, objects[key])
    ensures key in After(objects, history) && After(objects, history)[key] == objects[key]
  {
    hide Safe, Replay, Retains, KeepsTo;
    if history != [] {
      var before, last := history[..|history| - 1], history[|history| - 1];
      UnexpiredSurvives(objects, before, key);
      assert Retains(last, key, objects[key]);
      if last.Run? {
        RunRetains(last.policy, last.names, After(objects, before), last.log, key, |last.log|);
        assert last.log[..|last.log|] == last.log;
      } else {
        OthersRetain(last, key, objects[key]);
      }
    }
  }

  lemma OthersRetain(e: Episode, key: text, blob: Blob)
    requires e.Others? && Retains(e, key, blob)
    ensures key in e.objects && e.objects[key] == blob
  {
  }

  // A run over no scope that meets its own retains a backup, whatever its date.
  lemma OtherScopesRetain(
    p: Policy, names: seq<text>, log: seq<Event>, c: Config, database: text, key: text, blob: Blob)
    requires KeepsTo(p.c, names, log) && IsTimestampBackup(c, database, key)
    requires forall d :: d in names ==> !ScopesMeet(p.c, d, c, database)
    ensures Retains(Run(p, names, log), key, blob)
  {
    hide IsTimestampBackup, ScopesMeet, BackupKey, KeepsTo;
    forall d | Succeeded(d) in log ensures !IsTimestampBackup(p.c, d, key) {
      OnlyNamed(p.c, names, log, d);
      ScopesMeetExactly(p.c, d, c, database);
    }
    forall d, now: nat | d in names ensures BackupKey(p.c, d, now) != key {
      if BackupKey(p.c, d, now) == key { KeyOfOneScope(p.c, d, now, c, database); }
    }
  }

  lemma OnlyNamed(c: Config, names: seq<text>, log: seq<Event>, d: text)
    requires KeepsTo(c, names, log) && Succeeded(d) in log
    ensures d in names
  {
    hide BackupKey;
    var k :| 0 <= k < |log| && log[k] == Succeeded(d);
    assert MayDo(c, names, log[k]);
  }
}
