/** Deleting expired backups, and what a run of backups does to the store. */
module Retention {
  import opened Text
  import opened Calendar
  import opened Keys

  // ---- BACKUP_KEEP_DAYS -------------------------------------------------------------------

  // strconv.Atoi after the test for digits, and the bounds; 0 stands for "keep everything".
  function KeepDays(s: text): Option<nat> {
    if s == [] then Some(0)
    else if s[0] == '0' || !AllDigits(s) || Value(s) > 36500 then None
    else Some(Value(s))
  }

  function Decimal(n: nat): text { if n < 10 then [Digit(n)] else Decimal(n / 10) + [Digit(n % 10)] }

  lemma {:induction false} DecimalOfValue(s: text)
    requires s != [] && AllDigits(s) && s[0] != '0'
    ensures Value(s) > 0 && Decimal(Value(s)) == s
  {
    hide Decimal;
    var before, last := s[..|s| - 1], s[|s| - 1];
    assert s == before + [last] && IsDigit(last);
    if before != [] {
      DecimalOfValue(before);
      OneMoreDigit(Value(before), last);
    } else {
      OneDigit(last);
    }
  }

  lemma OneMoreDigit(n: nat, d: byte)
    requires n > 0 && IsDigit(d)
    ensures Decimal(10 * n + DigitValue(d)) == Decimal(n) + [d]
  {
    var m := 10 * n + DigitValue(d);
    assert m / 10 == n && m % 10 == DigitValue(d);
  }

  lemma OneDigit(d: byte)
    requires IsDigit(d)
    ensures Decimal(DigitValue(d)) == [d] && (d != '0' ==> DigitValue(d) > 0)
  {
  }

  lemma {:induction false} ValueOfDecimal(n: nat)
    requires n > 0
    ensures var s := Decimal(n); s != [] && AllDigits(s) && s[0] != '0' && Value(s) == n
  {
    if n >= 10 {
      ValueOfDecimal(n / 10);
      var s := Decimal(n);
      assert s[..|s| - 1] == Decimal(n / 10);
    }
  }

  // A setting is accepted exactly when it is empty or the decimal form of 1 to 36500.
  lemma KeepDaysExact(s: text, n: nat)
    ensures KeepDays(s) == Some(n) <==> (s == [] && n == 0) || (1 <= n <= 36500 && s == Decimal(n))
  {
    if s != [] && s[0] != '0' && AllDigits(s) { DecimalOfValue(s); }
    if n > 0 { ValueOfDecimal(n); }
  }

  // Go's multiplication of int64 values.
  function Wrap64(n: int): int { (n + 0x8000_0000_0000_0000) % 0x1_0000_0000_0000_0000 - 0x8000_0000_0000_0000 }

  const HOUR: int := 3_600_000_000_000

  // -time.Duration(days) * 24 * time.Hour
  function Cutoff(now: int, days: nat): int { now + Wrap64(Wrap64((0 - days) * 24) * HOUR) }

  // The retention period is exact up to 106751 days; the accepted settings stay far below.
  lemma CutoffExact(now: int, days: nat)
    ensures Cutoff(now, days) == now - days * 24 * HOUR <==> days <= 106751
  {
    var hours: int := (0 - days) * 24;
    if days <= 106751 { assert Wrap64(hours) == hours; }
  }

  // ---- The store ---------------------------------------------------------------------------

  // An object with the store's time of its last modification; None is the zero time.
  datatype Blob = Blob(content: text, modified: Option<int>)
  type Objects = map<text, Blob>

  // An object as a listing shows it.
  datatype Object = Object(key: text, modified: Option<int>)

  // What a run does to the store, in order.
  datatype Event =
    | Stored(key: text, content: text, modified: int)        // an upload became visible
    | Succeeded(database: text)                              // backupDatabase returned nil
    | Deleted(database: text, key: text, modified: int)      // with the time the listing gave

  function Apply(objects: Objects, e: Event): Objects {
    match e
    case Stored(key, content, modified) => objects[key := Blob(content, Some(modified))]
    case Succeeded(_) => objects
    case Deleted(_, key, _) => objects - {key}
  }

  function Replay(objects: Objects, log: seq<Event>): Objects {
    if log == [] then objects else Apply(Replay(objects, log[..|log| - 1]), log[|log| - 1])
  }

  // A listing of the objects below a prefix as they are now, each once, in any order.
  ghost predicate Lists(objects: Objects, prefix: text, listing: seq<Object>) {
    && (forall o :: o in listing <==>
      o.key in objects && objects[o.key].modified == o.modified && HasPrefix(o.key, prefix))
    && KeysDistinct(listing)
  }

  predicate KeysDistinct(listing: seq<Object>) {
    forall i, j :: 0 <= i < j < |listing| ==> listing[i].key != listing[j].key
  }

  class Store {
    var objects: Objects
    ghost var initial: Objects
    ghost var log: seq<Event>

    ghost predicate Valid()
      reads this
    {
      objects == Replay(initial, log)
    }

    constructor (objects: Objects)
      ensures Valid() && this.objects == objects == initial && log == []
    {
      this.objects, log, initial := objects, [], objects;
    }

    method Put(key: text, content: text, modified: int)
      requires Valid()
      modifies this
      ensures Valid() && initial == old(initial) && log == old(log) + [Stored(key, content, modified)]
      ensures objects == old(objects)[key := Blob(content, Some(modified))]
    {
      objects := objects[key := Blob(content, Some(modified))];
      log := log + [Stored(key, content, modified)];
      assert log[..|log| - 1] == old(log);
    }

    method Delete(key: text, ghost database: text, ghost modified: int)
      requires Valid()
      modifies this
      ensures Valid() && initial == old(initial) && log == old(log) + [Deleted(database, key, modified)]
      ensures objects == old(objects) - {key}
    {
      objects := objects - {key};
      log := log + [Deleted(database, key, modified)];
      assert log[..|log| - 1] == old(log);
    }

    ghost method Note(database: text)
      requires Valid()
      modifies this`log
      ensures Valid() && log == old(log) + [Succeeded(database)]
    {
      log := log + [Succeeded(database)];
      assert log[..|log| - 1] == old(log);
    }

    // The store's own order of listing is left open.
    method List(prefix: text, fails: bool) returns (r: Option<seq<Object>>)
      ensures r.Some? <==> !fails
      ensures r.Some? ==> Lists(objects, prefix, r.value)
    {
      if fails { return None; }
      var listing: seq<Object> := [];
      var todo := objects.Keys;
      while todo != {}
        invariant todo <= objects.Keys
        invariant forall o :: o in listing <==>
          o.key in objects && o.key !in todo && objects[o.key].modified == o.modified && HasPrefix(o.key, prefix)
        invariant KeysDistinct(listing)
        decreases |todo|
      {
        var key :| key in todo;
        todo := todo - {key};
        if HasPrefix(key, prefix) { listing := listing + [Object(key, objects[key].modified)]; }
      }
      return Some(listing);
    }
  }

  // ---- timestampBackups ---------------------------------------------------------------------

  function Recognised(c: Config, database: text, listing: seq<Object>): seq<Object> {
    if listing == [] then []
    else
      var before := Recognised(c, database, listing[..|listing| - 1]);
      var last := listing[|listing| - 1];
      if IsTimestampBackup(c, database, last.key) then before + [last] else before
  }

  // The backups of one scope, each once.
  ghost predicate Backups(c: Config, database: text, objects: Objects, backups: seq<Object>) {
    && (forall o :: o in backups <==>
          o.key in objects && objects[o.key].modified == o.modified && IsTimestampBackup(c, database, o.key))
    && KeysDistinct(backups)
  }

  method TimestampBackups(c: Config, store: Store, database: text, fails: bool) returns (r: Option<seq<Object>>)
    ensures r.Some? <==> !fails
    ensures r.Some? ==> Backups(c, database, store.objects, r.value)
  {
    hide IsTimestampBackup, TimestampPrefix, HasPrefix, KeysDistinct;
    var listed := store.List(TimestampPrefix(c, database), fails);
    if listed.None? { return None; }
    var listing := listed.value;
    var backups := [];
    for i := 0 to |listing|
      invariant backups == Recognised(c, database, listing[..i])
    {
      assert listing[..i + 1][..i] == listing[..i];
      if IsTimestampBackup(c, database, listing[i].key) { backups := backups + [listing[i]]; }
    }
    assert listing[..|listing|] == listing;
    RecognisedExact(c, database, listing);
    RecognisedOnce(c, database, listing);
    ListingSuffices(c, database, store.objects, listing);
    return Some(backups);
  }

  lemma {:induction false} RecognisedExact(c: Config, database: text, listing: seq<Object>)
    ensures forall o :: o in Recognised(c, database, listing) <==> o in listing && IsTimestampBackup(c, database, o.key)
  {
    hide IsTimestampBackup;
    if listing != [] {
      var rest, last := listing[..|listing| - 1], listing[|listing| - 1];
      RecognisedExact(c, database, rest);
      assert listing == rest + [last];
    }
  }

  lemma {:induction false} RecognisedOnce(c: Config, database: text, listing: seq<Object>)
    requires KeysDistinct(listing)
    ensures KeysDistinct(Recognised(c, database, listing))
  {
    hide IsTimestampBackup;
    if listing != [] {
      var rest, last := listing[..|listing| - 1], listing[|listing| - 1];
      RecognisedOnce(c, database, rest);
      RecognisedExact(c, database, rest);
      forall i | 0 <= i < |Recognised(c, database, rest)| ensures Recognised(c, database, rest)[i].key != last.key {
        assert Recognised(c, database, rest)[i] in rest;
        var j :| 0 <= j < |rest| && rest[j] == Recognised(c, database, rest)[i];
        assert listing[j] == rest[j];
      }
    }
  }

  // Listing below the prefix of the scope misses none of its backups.
  lemma ListingSuffices(c: Config, database: text, objects: Objects, listing: seq<Object>)
    requires Lists(objects, TimestampPrefix(c, database), listing)
    ensures forall o :: o in listing && IsTimestampBackup(c, database, o.key) <==>
              o.key in objects && objects[o.key].modified == o.modified && IsTimestampBackup(c, database, o.key)
  {
    hide TimestampPrefix, HasPrefix, MatchesSuffix;
  }

  // ---- removeOldBackups ---------------------------------------------------------------------

  // time.Time.Before, for a time that is known.
  predicate OlderThan(modified: Option<int>, cutoff: int) { modified.Some? && modified.value < cutoff }

  // The expired backups of one scope.
  function Expired(c: Config, database: text, cutoff: int, objects: Objects): set<text> {
    set key | key in objects && IsTimestampBackup(c, database, key) && OlderThan(objects[key].modified, cutoff)
  }

  // A backup of the scope whose age the store does not tell.
  ghost predicate Undated(c: Config, database: text, objects: Objects) {
    exists key :: key in objects && IsTimestampBackup(c, database, key) && objects[key].modified.None?
  }

  // What may go wrong: the listing, a cancelled context before some object, a deletion. One
  // that is answered by an error may have taken effect all the same.
  datatype Deletion = Confirmed | Refused | Unconfirmed
  datatype Faults = Faults(list: bool, cancelled: nat -> bool, delete: nat -> Deletion)

  ghost predicate Faultless(f: Faults) { !f.list && forall i: nat :: !f.cancelled(i) && f.delete(i).Confirmed? }

  // What the policy allows a run to do: it deletes an object only as an expired backup of a
  // database whose backup has succeeded earlier in this run.
  datatype Policy = Policy(c: Config, days: nat, cutoff: int)

  ghost predicate Allowed(p: Policy, objects: Objects, log: seq<Event>, e: Event) {
    e.Deleted? ==>
      p.days > 0 && Succeeded(e.database) in log && e.key in Expired(p.c, e.database, p.cutoff, objects)
      && objects[e.key].modified == Some(e.modified)
  }

  ghost predicate Safe(p: Policy, objects: Objects, log: seq<Event>) {
    log == [] ||
    var before := log[..|log| - 1];
    Safe(p, objects, before) && Allowed(p, Replay(objects, before), before, log[|log| - 1])
  }

  lemma SafeMore(p: Policy, objects: Objects, log: seq<Event>, e: Event)
    requires Safe(p, objects, log) && Allowed(p, Replay(objects, log), log, e)
    ensures Safe(p, objects, log + [e])
  {
    assert (log + [e])[..|log|] == log;
  }

  method AnyUndated(backups: seq<Object>) returns (found: bool)
    ensures found <==> exists o :: o in backups && o.modified.None?
  {
    for i := 0 to |backups|
      invariant forall j :: 0 <= j < i ==> backups[j].modified.Some?
    {
      if backups[i].modified.None? { return true; }
    }
    return false;
  }

  // What a run over these databases may do at all: upload under their keys, and succeed for them.
  ghost predicate MayDo(c: Config, names: seq<text>, e: Event) {
    match e
    case Stored(key, _, _) => exists name, now: nat :: name in names && key == BackupKey(c, name, now)
    case Succeeded(name) => name in names
    case Deleted(_, _, _) => true
  }

  ghost predicate KeepsTo(c: Config, names: seq<text>, log: seq<Event>) {
    forall k :: 0 <= k < |log| ==> MayDo(c, names, log[k])
  }

  // The keys among the first n backups that are older than the cutoff.
  function Older(backups: seq<Object>, n: nat, cutoff: int): set<text>
    requires n <= |backups|
  {
    if n == 0 then {}
    else
      var o := backups[n - 1];
      Older(backups, n - 1, cutoff) + if OlderThan(o.modified, cutoff) then {o.key} else {}
  }

  method RemoveOldBackups(p: Policy, store: Store, database: text, f: Faults)
    returns (ok: bool, ghost deleted: set<text>)
    requires store.Valid() && Safe(p, store.initial, store.log)
    requires p.days > 0 && Succeeded(database) in store.log
    modifies store
    ensures store.Valid() && store.initial == old(store.initial) && Safe(p, store.initial, store.log)
    ensures old(store.log) <= store.log
    ensures forall k :: |old(store.log)| <= k < |store.log| ==>
      store.log[k].Deleted? && store.log[k].database == database
    ensures store.objects == old(store.objects) - deleted
    ensures deleted <= Expired(p.c, database, p.cutoff, old(store.objects))
    ensures ok ==> deleted == Expired(p.c, database, p.cutoff, old(store.objects))
    ensures Undated(p.c, database, old(store.objects)) ==> !ok && deleted == {}
    ensures Faultless(f) && !Undated(p.c, database, old(store.objects)) ==> ok
  {
    hide IsTimestampBackup, Safe, Replay, KeysDistinct, Older, Expired, Backups, Undated, Faultless;
    deleted := {};
    ghost var objects := store.objects;
    var listed := TimestampBackups(p.c, store, database, f.list);
    FaultlessMeans(f);
    if listed.None? { NoneYet(p, database, objects); return false, deleted; }
    var backups := listed.value;
    var undated := AnyUndated(backups);
    SomeUndated(p.c, database, objects, backups);
    NoneOlder(backups, p.cutoff);
    OlderAll(p, database, objects, backups);
    OlderGrows(backups, 0, p.cutoff);
    if undated { return false, deleted; }
    for i := 0 to |backups|
      invariant store.Valid() && store.initial == old(store.initial) && Safe(p, store.initial, store.log)
      invariant old(store.log) <= store.log
      invariant forall k :: |old(store.log)| <= k < |store.log| ==>
        store.log[k].Deleted? && store.log[k].database == database
      invariant deleted == Older(backups, i, p.cutoff) && store.objects == objects - deleted
    {
      OlderGrows(backups, i, p.cutoff);
      OlderGrows(backups, i + 1, p.cutoff);
      NextDeletion(p, database, objects, backups, i);
      if f.cancelled(i) { return false, deleted; }
      var o := backups[i];
      if o.modified.value < p.cutoff {
        if f.delete(i).Refused? { return false, deleted; }
        SafeMore(p, store.initial, store.log, Deleted(database, o.key, o.modified.value));
        store.Delete(o.key, database, o.modified.value);
        deleted := deleted + {o.key};
        if f.delete(i).Unconfirmed? { return false, deleted; }
      }
    }
    return true, deleted;
  }

  lemma FaultlessMeans(f: Faults)
    ensures Faultless(f) ==> !f.list && forall i: nat :: !f.cancelled(i) && f.delete(i).Confirmed?
  {
  }

  lemma NoneYet(p: Policy, database: text, objects: Objects)
    ensures {} <= Expired(p.c, database, p.cutoff, objects) && objects - {} == objects
  {
  }

  lemma NoneOlder(backups: seq<Object>, cutoff: int)
    ensures Older(backups, 0, cutoff) == {}
  {
  }

  // The next object in turn: still there with the date it was listed with, and expired or kept.
  lemma NextDeletion(p: Policy, database: text, objects: Objects, backups: seq<Object>, i: nat)
    requires Backups(p.c, database, objects, backups) && i < |backups| && backups[i].modified.Some?
    ensures var o, now := backups[i], objects - Older(backups, i, p.cutoff);
      && Older(backups, i + 1, p.cutoff) ==
           Older(backups, i, p.cutoff) + (if o.modified.value < p.cutoff then {o.key} else {})
      && (o.modified.value < p.cutoff ==>
        o.key in Expired(p.c, database, p.cutoff, now) && now[o.key].modified == o.modified)
      && objects - Older(backups, i + 1, p.cutoff) == (if o.modified.value < p.cutoff then now - {o.key} else now)
  {
    hide IsTimestampBackup, KeysDistinct;
    NotYetDeleted(backups, i, p.cutoff);
    assert backups[i] in backups;
  }

  lemma SomeUndated(c: Config, database: text, objects: Objects, backups: seq<Object>)
    requires Backups(c, database, objects, backups)
    ensures Undated(c, database, objects) <==> exists o :: o in backups && o.modified.None?
  {
    hide IsTimestampBackup, KeysDistinct;
    if key :| key in objects && IsTimestampBackup(c, database, key) && objects[key].modified.None? {
      assert Object(key, None) in backups;
    }
  }

  lemma {:induction false} OlderExact(backups: seq<Object>, n: nat, cutoff: int, key: text)
    requires n <= |backups|
    ensures key in Older(backups, n, cutoff) <==>
      exists i :: 0 <= i < n && backups[i].key == key && OlderThan(backups[i].modified, cutoff)
  {
    if n > 0 { OlderExact(backups, n - 1, cutoff, key); }
  }

  lemma OlderAll(p: Policy, database: text, objects: Objects, backups: seq<Object>)
    requires Backups(p.c, database, objects, backups)
    ensures Older(backups, |backups|, p.cutoff) == Expired(p.c, database, p.cutoff, objects)
  {
    hide IsTimestampBackup, KeysDistinct;
    forall key ensures key in Older(backups, |backups|, p.cutoff) <==>
      key in Expired(p.c, database, p.cutoff, objects) {
      OlderExact(backups, |backups|, p.cutoff, key);
      if key in Expired(p.c, database, p.cutoff, objects) { assert Object(key, objects[key].modified) in backups; }
      if i :| 0 <= i < |backups| && backups[i].key == key && OlderThan(backups[i].modified, p.cutoff) {
        assert backups[i] in backups;
      }
    }
  }

  lemma {:induction false} OlderGrows(backups: seq<Object>, n: nat, cutoff: int)
    requires n <= |backups|
    ensures Older(backups, n, cutoff) <= Older(backups, |backups|, cutoff)
    decreases |backups| - n
  {
    if n < |backups| { OlderGrows(backups, n + 1, cutoff); }
  }

  lemma NotYetDeleted(backups: seq<Object>, n: nat, cutoff: int)
    requires n < |backups| && KeysDistinct(backups)
    ensures backups[n].key !in Older(backups, n, cutoff)
  {
    OlderExact(backups, n, cutoff, backups[n].key);
  }
}
