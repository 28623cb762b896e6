/** Acceptance of a bundle: every member is checked before any of them is used. */
module Validation {
  import opened Text
  import opened Members
  import opened Bundle

  // The configured mode and database a bundle must belong to.
  datatype Target = Target(mode: text, database: text)

  function Names(entries: seq<Entry>): set<text> {
    if entries == [] then {} else Names(entries[..|entries| - 1]) + {entries[|entries| - 1].name}
  }

  lemma {:induction false} NameOf(entries: seq<Entry>, i: nat)
    requires i < |entries|
    ensures entries[i].name in Names(entries)
  {
    if i < |entries| - 1 { NameOf(entries[..|entries| - 1], i); }
  }

  lemma {:induction false} Named(entries: seq<Entry>, name: text) returns (i: nat)
    requires name in Names(entries)
    ensures i < |entries| && entries[i].name == name
  {
    i := |entries| - 1;
    if entries[i].name != name { i := Named(entries[..|entries| - 1], name); }
  }

  predicate DistinctUpTo(entries: seq<Entry>, n: nat)
    requires n <= |entries|
  {
    forall i, j :: 0 <= i < j < n ==> entries[i].name != entries[j].name
  }

  predicate DistinctNames(entries: seq<Entry>) { DistinctUpTo(entries, |entries|) }

  predicate GoodName(e: Entry) { SafeMember(e.name) && AllowedMember(e.name) && !e.special }
  predicate GoodUpTo(entries: seq<Entry>, n: nat)
    requires n <= |entries|
  {
    forall i :: 0 <= i < n ==> GoodName(entries[i])
  }

  predicate GoodNames(entries: seq<Entry>) { GoodUpTo(entries, |entries|) }

  // The member of a name; the first one if there were several.
  function Find(entries: seq<Entry>, name: text): Option<Entry> {
    if entries == [] then None
    else if entries[0].name == name then Some(entries[0]) else Find(entries[1..], name)
  }

  function ReadManifest(codec: Codec, e: Option<Entry>): Option<Manifest> {
    if e.None? || e.value.size > MANIFEST_LIMIT || e.value.content.None? || |e.value.content.value| > MANIFEST_LIMIT
    then None
    else codec.unmarshal(e.value.content.value)
  }

  predicate HeaderFits(m: Manifest, t: Target) {
    m.formatVersion == 1 && m.mode == t.mode && m.oplog == (m.mode == FULL) && m.database == t.database
  }

  predicate Complete(m: Manifest) {
    m.serverVersion != "" && m.toolsVersion != "" && m.fcv != "" && m.startedAt != 0 && m.completedAt >= m.startedAt
  }

  predicate RequiredMembers(m: Manifest, names: set<text>) {
    && DATA in names && REPLICA_SET in names
    && (m.mode == PER_DATABASE ==> AUTH in names)
    && (m.mode == FULL ==> AUTH !in names)
  }

  // A member whose declared size, actual size and digest are those on record.
  predicate Verified(codec: Codec, e: Entry, record: FileRecord) {
    && record.size >= 0 && record.size == e.size && e.content.Some?
    && record == RecordOf(codec, e.content.value)
  }

  predicate MembersVerified(codec: Codec, m: Manifest, entries: seq<Entry>) {
    forall i :: 0 <= i < |entries| && entries[i].name != MANIFEST ==>
      entries[i].name in m.files && Verified(codec, entries[i], m.files[entries[i].name])
  }

  // What acceptance means, with no order in it: the manifest lists exactly the other members
  // and describes each of them.
  ghost predicate Acceptable(codec: Codec, entries: seq<Entry>, t: Target, m: Manifest) {
    && GoodNames(entries) && DistinctNames(entries)
    && ReadManifest(codec, Find(entries, MANIFEST)) == Some(m)
    && HeaderFits(m, t) && Complete(m) && RequiredMembers(m, Names(entries))
    && m.files.Keys == Names(entries) - {MANIFEST}
    && MembersVerified(codec, m, entries)
    && (m.configIncluded <==> exists name :: name in Names(entries) && HasPrefix(name, CONFIG))
  }

  // ---- validateBundle ------------------------------------------------------------------------

  // The index of the first n members, as the validator builds it.
  ghost predicate Indexes(files: map<text, Entry>, entries: seq<Entry>, n: nat)
    requires n <= |entries|
  {
    && files.Keys == Names(entries[..n])
    && (forall j :: 0 <= j < n ==> entries[j].name in files && files[entries[j].name] == entries[j])
  }

  method IndexMembers(entries: seq<Entry>) returns (files: map<text, Entry>, ok: bool)
    ensures ok <==> GoodNames(entries) && DistinctNames(entries)
    ensures ok ==> Indexes(files, entries, |entries|)
  {
    hide GoodName;
    files := map[];
    for i := 0 to |entries|
      invariant Indexes(files, entries, i)
      invariant GoodUpTo(entries, i)
      invariant DistinctUpTo(entries, i)
    {
      var e := entries[i];
      if !GoodName(e) { return files, false; }
      if e.name in files {
        var j := Named(entries[..i], e.name);
        assert entries[j].name == entries[i].name;
        return files, false;
      }
      IndexOneMore(files, entries, i);
      files := files[e.name := e];
    }
    return files, true;
  }

  lemma IndexOneMore(files: map<text, Entry>, entries: seq<Entry>, i: nat)
    requires i < |entries| && Indexes(files, entries, i) && entries[i].name !in files
    ensures Indexes(files[entries[i].name := entries[i]], entries, i + 1)
    ensures DistinctUpTo(entries, i) ==> DistinctUpTo(entries, i + 1)
  {
    assert entries[..i + 1][..i] == entries[..i];
    var longer := files[entries[i].name := entries[i]];
    assert forall j :: 0 <= j < i ==> entries[j].name in files && entries[j].name != entries[i].name;
    assert longer.Keys == files.Keys + {entries[i].name};
  }

  lemma {:induction false} FindExact(entries: seq<Entry>, name: text)
    ensures Find(entries, name).Some? ==>
              exists i :: 0 <= i < |entries| && entries[i].name == name && Find(entries, name).value == entries[i]
    ensures Find(entries, name).None? ==> forall i :: 0 <= i < |entries| ==> entries[i].name != name
  {
    if entries != [] && entries[0].name != name {
      FindExact(entries[1..], name);
      if Find(entries, name).Some? {
        var i :| 0 <= i < |entries[1..]| && entries[1..][i].name == name
          && Find(entries[1..], name).value == entries[1..][i];
        assert entries[i + 1].name == name;
      } else {
        forall i | 0 <= i < |entries| ensures entries[i].name != name {
          if i > 0 { assert entries[i] == entries[1..][i - 1]; }
        }
      }
    }
  }

  // Looking a name up in the index is finding it in the archive.
  lemma Lookup(files: map<text, Entry>, entries: seq<Entry>, name: text)
    requires Indexes(files, entries, |entries|)
    ensures Find(entries, name) == if name in files then Some(files[name]) else None
  {
    assert entries[..|entries|] == entries;
    FindExact(entries, name);
    if name in files { var i := Named(entries, name); }
    if Find(entries, name).Some? {
      var i :| 0 <= i < |entries| && entries[i].name == name && Find(entries, name).value == entries[i];
      NameOf(entries, i);
    }
  }

  function ConfigNames(names: set<text>): set<text> { set n | n in names && HasPrefix(n, CONFIG) }

  lemma OneMoreConfig(done: set<text>, name: text)
    requires name !in done
    ensures |ConfigNames(done + {name})| == |ConfigNames(done)| + (if HasPrefix(name, CONFIG) then 1 else 0)
  {
    if HasPrefix(name, CONFIG) {
      assert ConfigNames(done + {name}) == ConfigNames(done) + {name};
    } else {
      assert ConfigNames(done + {name}) == ConfigNames(done);
    }
  }

  lemma ManifestIsNoConfig()
    ensures !HasPrefix(MANIFEST, CONFIG)
  {
    assert MANIFEST[..7][0] == 'm';
  }

  predicate OnRecord(codec: Codec, m: Manifest, name: text, e: Entry) {
    name == MANIFEST || (name in m.files && Verified(codec, e, m.files[name]))
  }

  // The loop over the index, in whatever order the map yields it: whether every member is
  // on record, and how many of them are configuration files.
  method CheckMembers(codec: Codec, m: Manifest, files: map<text, Entry>) returns (configs: nat, ok: bool)
    ensures ok <==> forall name :: name in files ==> OnRecord(codec, m, name, files[name])
    ensures ok ==> configs == |ConfigNames(files.Keys)|
  {
    configs := 0;
    var todo := files.Keys;
    assert files.Keys - todo == {};
    while todo != {}
      invariant todo <= files.Keys
      invariant forall name :: name in files && name !in todo ==> OnRecord(codec, m, name, files[name])
      invariant configs == |ConfigNames(files.Keys - todo)|
      decreases |todo|
    {
      var name :| name in todo;
      OneMoreConfig(files.Keys - todo, name);
      ManifestIsNoConfig();
      assert files.Keys - (todo - {name}) == files.Keys - todo + {name};
      todo := todo - {name};
      if name == MANIFEST { continue; }
      var ok' := CheckMember(codec, m, name, files[name]);
      if !ok' { return configs, false; }
      if HasPrefix(name, CONFIG) { configs := configs + 1; }
    }
    assert files.Keys - todo == files.Keys;
    return configs, true;
  }

  // One turn of that loop: the record, the declared size, then every byte.
  method CheckMember(codec: Codec, m: Manifest, name: text, f: Entry) returns (ok: bool)
    requires name != MANIFEST
    ensures ok <==> OnRecord(codec, m, name, f)
  {
    if name !in m.files { return false; }
    var record := m.files[name];
    if record.size < 0 || record.size != f.size { return false; }
    if f.content.None? { return false; }
    ok := |f.content.value| == record.size && codec.sha256(f.content.value) == record.sha256;
  }

  // Given the index, the declarative inventory is the count and the one-directional loop.
  lemma InventoryExact(codec: Codec, entries: seq<Entry>, files: map<text, Entry>, m: Manifest)
    requires Indexes(files, entries, |entries|) && MANIFEST in files
    ensures |m.files| == |files| - 1 && (forall name :: name in files ==> OnRecord(codec, m, name, files[name])) <==>
            m.files.Keys == Names(entries) - {MANIFEST} && MembersVerified(codec, m, entries)
  {
    hide Verified;
    assert entries[..|entries|] == entries;
    var others := files.Keys - {MANIFEST};
    assert |others| == |files.Keys| - 1;
    if |m.files| == |files| - 1 && forall name :: name in files ==> OnRecord(codec, m, name, files[name]) {
      assert others <= m.files.Keys by {
        forall name | name in others ensures name in m.files { assert OnRecord(codec, m, name, files[name]); }
      }
      SameSize(others, m.files.Keys);
      forall i | 0 <= i < |entries| && entries[i].name != MANIFEST
        ensures entries[i].name in m.files && Verified(codec, entries[i], m.files[entries[i].name])
      {
        assert OnRecord(codec, m, entries[i].name, files[entries[i].name]);
      }
    }
    if m.files.Keys == Names(entries) - {MANIFEST} && MembersVerified(codec, m, entries) {
      forall name | name in files ensures OnRecord(codec, m, name, files[name]) {
        var i := Named(entries, name);
      }
    }
  }

  lemma SameSize(a: set<text>, b: set<text>)
    requires a <= b && |a| == |b|
    ensures a == b
  {
    assert |b - a| == |b| - |a|;
  }

  lemma ConfigCount(names: set<text>)
    ensures |ConfigNames(names)| > 0 <==> exists name :: name in names && HasPrefix(name, CONFIG)
  {
    if name :| name in names && HasPrefix(name, CONFIG) { assert name in ConfigNames(names); }
    if |ConfigNames(names)| > 0 { var name :| name in ConfigNames(names); }
  }

  // ---- What acceptance is worth ----------------------------------------------------------------

  predicate Listed(entries: seq<Entry>, name: text) { exists i :: 0 <= i < |entries| && entries[i].name == name }

  lemma ListedExactly(entries: seq<Entry>, name: text)
    ensures name in Names(entries) <==> Listed(entries, name)
  {
    if name in Names(entries) { var i := Named(entries, name); }
    if i :| 0 <= i < |entries| && entries[i].name == name { NameOf(entries, i); }
  }

  // What is known of an accepted bundle, written out: its header,
  lemma AcceptedHeader(codec: Codec, entries: seq<Entry>, t: Target, m: Manifest)
    requires Acceptable(codec, entries, t, m)
    ensures m.formatVersion == 1 && m.mode == t.mode && m.database == t.database && (m.oplog <==> t.mode == "full")
    ensures m.serverVersion != [] && m.toolsVersion != [] && m.fcv != [] && 0 != m.startedAt <= m.completedAt
  {
    hide GoodNames, DistinctNames, MembersVerified, RequiredMembers;
  }

  // its members,
  lemma AcceptedInventory(codec: Codec, entries: seq<Entry>, t: Target, m: Manifest)
    requires Acceptable(codec, entries, t, m)
    ensures Listed(entries, "manifest.json") && Listed(entries, "data.archive.gz")
      && Listed(entries, "replica-set.json")
    ensures t.mode == "per-database" ==> Listed(entries, "auth.archive.gz")
    ensures t.mode == "full" ==> !Listed(entries, "auth.archive.gz")
    ensures m.configIncluded <==> exists name :: Listed(entries, name) && HasPrefix(name, "config/")
    ensures forall name :: name in m.files <==> name != "manifest.json" && Listed(entries, name)
    ensures forall i, j :: 0 <= i < j < |entries| ==> entries[i].name != entries[j].name
  {
    hide HasPrefix, GoodNames, Complete, MembersVerified, ReadManifest, Listed, Find;
    forall name ensures name in Names(entries) <==> Listed(entries, name) { ListedExactly(entries, name); }
    ManifestListed(codec, entries, t, m);
  }

  lemma ManifestListed(codec: Codec, entries: seq<Entry>, t: Target, m: Manifest)
    requires Acceptable(codec, entries, t, m)
    ensures Listed(entries, "manifest.json") && Find(entries, MANIFEST).Some?
  {
    hide GoodNames, DistinctNames, Complete, HeaderFits, RequiredMembers, MembersVerified, Find;
    FindExact(entries, MANIFEST);
  }

  // and every one of them.
  lemma AcceptedMember(codec: Codec, entries: seq<Entry>, t: Target, m: Manifest, i: nat)
    requires Acceptable(codec, entries, t, m) && i < |entries|
    ensures var e := entries[i];
      && SafeMember(e.name) && !e.special && e.content.Some?
      && (|| e.name == "manifest.json" || e.name == "data.archive.gz" || e.name == "replica-set.json"
          || e.name == "auth.archive.gz" || HasPrefix(e.name, "config/"))
      && (e.name == "manifest.json" ==>
            |e.content.value| <= 4_194_304 && e.size <= 4_194_304 && codec.unmarshal(e.content.value) == Some(m))
      && (e.name != "manifest.json" ==>
            e.name in m.files && m.files[e.name].size == |e.content.value| == e.size
            && m.files[e.name].sha256 == codec.sha256(e.content.value))
  {
    hide SafeMember, HasPrefix, Complete, HeaderFits, RequiredMembers;
    assert GoodName(entries[i]);
    if entries[i].name == MANIFEST { FindExact(entries, MANIFEST); }
  }

  // A bundle belongs to one mode and database, and has one manifest.
  lemma OneTarget(codec: Codec, entries: seq<Entry>, t: Target, m: Manifest, t': Target, m': Manifest)
    requires Acceptable(codec, entries, t, m) && Acceptable(codec, entries, t', m')
    ensures t == t' && m == m'
  {
    hide GoodName, Complete, RequiredMembers, MembersVerified;
  }

  // No two of the texts that were hashed share a digest.
  ghost predicate Collides(codec: Codec, a: seq<Entry>, b: seq<Entry>) {
    exists i, j :: 0 <= i < |a| && 0 <= j < |b| && a[i].content.Some? && b[j].content.Some?
      && a[i].content != b[j].content && codec.sha256(a[i].content.value) == codec.sha256(b[j].content.value)
  }

  // Two archives that are accepted with the same manifest have the same members with the same
  // bytes, or there is a collision: nobody changes a byte of an accepted bundle unnoticed.
  lemma SameBytes(codec: Codec, a: seq<Entry>, b: seq<Entry>, t: Target, m: Manifest, i: nat)
    requires Acceptable(codec, a, t, m) && Acceptable(codec, b, t, m) && !Collides(codec, a, b)
    requires i < |a| && a[i].name != "manifest.json"
    ensures exists j :: 0 <= j < |b| && b[j].name == a[i].name && b[j].content == a[i].content && b[j].size == a[i].size
  {
    hide Acceptable;
    AcceptedMember(codec, a, t, m, i);
    AcceptedInventory(codec, b, t, m);
    var j :| 0 <= j < |b| && b[j].name == a[i].name;
    AcceptedMember(codec, b, t, m, j);
  }

  // Accepts exactly the archives that match their manifest and the configuration, whatever
  // the order in which the map yields its members.
  method ValidateBundle(codec: Codec, entries: seq<Entry>, t: Target) returns (r: Option<Manifest>)
    ensures forall m :: r == Some(m) <==> Acceptable(codec, entries, t, m)
  {
    hide Verified, GoodName, Complete, HeaderFits, RequiredMembers, MembersVerified;
    var files, ok := IndexMembers(entries);
    if !ok { return None; }
    assert entries[..|entries|] == entries;
    Lookup(files, entries, MANIFEST);
    var mf := if MANIFEST in files then Some(files[MANIFEST]) else None;
    var parsed := ReadManifest(codec, mf);
    if parsed.None? { return None; }
    var m := parsed.value;
    if !HeaderFits(m, t) || !Complete(m) || !RequiredMembers(m, files.Keys) { return None; }
    InventoryExact(codec, entries, files, m);
    ConfigCount(files.Keys);
    if |m.files| != |files| - 1 { return None; }
    var configs, checked := CheckMembers(codec, m, files);
    if !checked || m.configIncluded != (configs > 0) { return None; }
    return Some(m);
  }
}
