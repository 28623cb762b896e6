/** What writeBundle writes, validateBundle accepts, and each member reads back as it was produced. */
module BundleRoundTrip {
  import opened Splitting
  import opened Text
  import opened Members
  import opened Bundle
  import opened Validation

  // ---- Fixed names are safe ------------------------------------------------------------------

  lemma PlainNameIsSafe(name: text)
    requires Ascii(name) && Plain(name) && Free(name, '/') && Ordinary(name)
    ensures SafeMember(name)
  {
    AsciiIsUtf8(name);
    OnePart(name, '/');
    SafeMemberExact(name);
  }

  lemma ManifestNameIsGood(e: Entry)
    requires e.name == MANIFEST && !e.special
    ensures GoodName(e)
  {
    PlainNameIsSafe(MANIFEST);
  }

  // ---- The inventory of a written archive -------------------------------------------------------

  lemma {:induction false} NamesOfParts(codec: Codec, parts: seq<Part>)
    ensures Names(EntriesOf(parts)) == RecordsOf(codec, parts).Keys
  {
    if parts != [] {
      var rest, last := parts[..|parts| - 1], parts[|parts| - 1];
      NamesOfParts(codec, rest);
      assert EntriesOf(parts)[..|parts| - 1] == EntriesOf(rest);
    }
  }

  lemma {:induction false} RecordAt(codec: Codec, parts: seq<Part>, i: nat)
    requires i < |parts| && NamesDistinct(parts)
    ensures parts[i].name in RecordsOf(codec, parts)
    ensures RecordsOf(codec, parts)[parts[i].name] == RecordOf(codec, Produced(parts[i].stage.chunks))
  {
    if i < |parts| - 1 {
      var rest := parts[..|parts| - 1];
      RecordAt(codec, rest, i);
    }
  }

  // Parts followed by the manifest.
  ghost predicate Written(codec: Codec, parts: seq<Part>, entries: seq<Entry>) {
    && AllSucceed(parts) && |entries| == |parts| + 1
    && (forall i :: 0 <= i < |parts| ==> entries[i] == EntryOf(parts[i]))
    && entries[|parts|].name == MANIFEST && !entries[|parts|].special
  }

  lemma WrittenNames(codec: Codec, parts: seq<Part>, entries: seq<Entry>)
    requires Written(codec, parts, entries)
    ensures GoodNames(entries) && DistinctNames(entries)
    ensures Names(entries) - {MANIFEST} == RecordsOf(codec, parts).Keys && MANIFEST in Names(entries)
  {
    hide SafeMember, AllowedMember, StageSucceeds;
    forall i | 0 <= i < |entries| ensures GoodName(entries[i]) {
      if i < |parts| { assert PartSucceeds(parts[i]); } else { ManifestNameIsGood(entries[i]); }
    }
    forall i | 0 <= i < |parts| ensures parts[i].name != MANIFEST { assert PartSucceeds(parts[i]); }
    assert entries[..|parts|] == EntriesOf(parts);
    NamesOfParts(codec, parts);
    if MANIFEST in RecordsOf(codec, parts) { var i := RecordedPart(codec, parts, MANIFEST); }
  }

  lemma FoundPart(codec: Codec, parts: seq<Part>, entries: seq<Entry>, i: nat)
    requires Written(codec, parts, entries) && i < |entries|
    ensures Find(entries, entries[i].name) == Some(entries[i])
  {
    hide Written, Find, Names, GoodNames, DistinctNames;
    WrittenNames(codec, parts, entries);
    FoundOnce(entries, i);
  }

  lemma FoundOnce(entries: seq<Entry>, i: nat)
    requires DistinctNames(entries) && i < |entries|
    ensures Find(entries, entries[i].name) == Some(entries[i])
  {
    hide Find;
    FindExact(entries, entries[i].name);
  }

  lemma WrittenVerifies(codec: Codec, parts: seq<Part>, entries: seq<Entry>, m: Manifest)
    requires Written(codec, parts, entries) && m.files == RecordsOf(codec, parts)
    ensures MembersVerified(codec, m, entries)
  {
    hide PartSucceeds, Produced;
    forall i | 0 <= i < |entries| && entries[i].name != MANIFEST
      ensures entries[i].name in m.files && Verified(codec, entries[i], m.files[entries[i].name])
    {
      RecordAt(codec, parts, i);
    }
  }

  // ---- The members of a job ------------------------------------------------------------------------

  lemma FixedNames()
    ensures !HasPrefix(REPLICA_SET, CONFIG) && !HasPrefix(DATA, CONFIG) && !HasPrefix(AUTH, CONFIG)
    ensures !HasPrefix(MANIFEST, CONFIG)
    ensures REPLICA_SET != DATA && REPLICA_SET != AUTH && DATA != AUTH
  {
    assert REPLICA_SET[..7][0] == 'r' && DATA[..7][0] == 'd' && AUTH[..7][0] == 'a' && MANIFEST[..7][0] == 'm';
    assert REPLICA_SET[0] == 'r' && DATA[0] == 'd' && AUTH[0] == 'a';
  }

  lemma JobNames(codec: Codec, job: Job, ev: Events)
    requires Coherent(job, ev) && AllSucceed(Parts(job, ev)) && ev.captured
    ensures var names := RecordsOf(codec, Parts(job, ev)).Keys;
      && REPLICA_SET in names && DATA in names
      && (AUTH in names <==> job.mode == PER_DATABASE)
      && (job.configDir <==> exists name :: name in names && HasPrefix(name, CONFIG))
  {
    hide AllSucceed, RecordsOf, HasPrefix;
    var parts := Parts(job, ev);
    var n := |ev.configs|;
    FixedNames();
    assert forall i :: 1 <= i <= n ==> parts[i] == ev.configs[i - 1];
    RecordedName(codec, parts, 0);
    RecordedName(codec, parts, n + 1);
    if job.mode == PER_DATABASE { RecordedName(codec, parts, n + 2); }
    if AUTH in RecordsOf(codec, parts) {
      var i := RecordedPart(codec, parts, AUTH);
    }
    if ev.configs != [] {
      RecordedName(codec, parts, 1);
      assert parts[1] == ev.configs[0];
    }
    if name :| name in RecordsOf(codec, parts) && HasPrefix(name, CONFIG) {
      var i := RecordedPart(codec, parts, name);
      assert 1 <= i <= n;
    }
  }

  // A bundle for which writeBundle returned nil is accepted under its own mode and database
  // if and only if its version metadata is there and the clock neither stood at the zero
  // time nor stepped back; writeBundle checks none of this.
  lemma WrittenIsAccepted(codec: Codec, job: Job, ev: Events)
    requires JsonRoundTrips(codec) && Coherent(job, ev) && Succeeds(codec, job, ev)
    requires job.mode == FULL || job.mode == PER_DATABASE
    requires ValidUtf8(job.database)
    ensures (exists m :: Acceptable(codec, Archive(codec, job, ev), Target(job.mode, job.database), m)) <==>
            && job.snapshot.serverVersion != "" && job.toolsVersion != "" && job.snapshot.fcv != ""
            && job.started != 0 && ev.completed >= job.started
    ensures forall m :: Acceptable(codec, Archive(codec, job, ev), Target(job.mode, job.database), m) ==>
              SameManifest(ManifestOf(codec, job, ev), m)
  {
    hide SafeMember, AllowedMember, MembersVerified, GoodNames, DistinctNames, AllSucceed, JsonRoundTrips,
      RecordsOf, HasPrefix;
    var parts, entries, written := Parts(job, ev), Archive(codec, job, ev), ManifestOf(codec, job, ev);
    assert Written(codec, parts, entries);
    WrittenNames(codec, parts, entries);
    FoundPart(codec, parts, entries, |parts|);
    var m := Reread(codec, job, ev);
    WrittenVerifies(codec, parts, entries, m);
    JobNames(codec, job, ev);
    FixedNames();
    assert RequiredMembers(m, Names(entries));
    assert HeaderFits(m, Target(job.mode, job.database));
    assert ReadManifest(codec, Find(entries, MANIFEST)) == Some(m);
    if Complete(m) { assert Acceptable(codec, entries, Target(job.mode, job.database), m); }
  }

  // The manifest as it reads back.
  lemma Reread(codec: Codec, job: Job, ev: Events) returns (m: Manifest)
    requires JsonRoundTrips(codec) && Succeeds(codec, job, ev)
    requires job.mode == FULL || job.mode == PER_DATABASE
    requires ValidUtf8(job.database)
    ensures codec.unmarshal(codec.marshal(ManifestOf(codec, job, ev)).value) == Some(m)
    ensures SameManifest(ManifestOf(codec, job, ev), m)
  {
    hide StageSucceeds, RecordsOf, Parts, AllowedMember, Ascii, ValidUtf8;
    var parts, written := Parts(job, ev), ManifestOf(codec, job, ev);
    AsciiIsUtf8(FULL);
    AsciiIsUtf8(PER_DATABASE);
    forall k | k in written.files ensures ValidUtf8(k) {
      var i := RecordedPart(codec, parts, k);
      assert PartSucceeds(parts[i]);
    }
    m := codec.unmarshal(codec.marshal(written).value).value;
  }

  // What the manifest of an accepted bundle says is what the backup was: nothing is exchanged
  // or left out, and every member is described by its own bytes.
  lemma ManifestDescribes(codec: Codec, job: Job, ev: Events, m: Manifest)
    requires JsonRoundTrips(codec) && Coherent(job, ev) && Succeeds(codec, job, ev)
    requires (job.mode == FULL || job.mode == PER_DATABASE) && ValidUtf8(job.database)
    requires Acceptable(codec, Archive(codec, job, ev), Target(job.mode, job.database), m)
    ensures m.mode == job.mode && m.database == job.database
    ensures m.startedAt == job.started && m.completedAt == ev.completed && m.configIncluded == job.configDir
    ensures ValidUtf8(job.snapshot.serverVersion) ==> m.serverVersion == job.snapshot.serverVersion
    ensures ValidUtf8(job.snapshot.fcv) ==> m.fcv == job.snapshot.fcv
    ensures ValidUtf8(job.toolsVersion) ==> m.toolsVersion == job.toolsVersion
    ensures forall i :: 0 <= i < |Parts(job, ev)| ==>
      var content := Produced(Parts(job, ev)[i].stage.chunks);
      && Parts(job, ev)[i].name in m.files
      && m.files[Parts(job, ev)[i].name] == FileRecord(|content|, codec.sha256(content))
    ensures forall name :: name in m.files ==> exists i :: 0 <= i < |Parts(job, ev)| && Parts(job, ev)[i].name == name
  {
    hide SafeMember, AllowedMember, Acceptable, Archive, PartSucceeds, Parts, JsonRoundTrips, Coherent, Produced;
    WrittenIsAccepted(codec, job, ev);
    var parts := Parts(job, ev);
    forall i | 0 <= i < |parts|
      ensures var content := Produced(parts[i].stage.chunks);
        parts[i].name in m.files && m.files[parts[i].name] == FileRecord(|content|, codec.sha256(content))
    {
      RecordAt(codec, parts, i);
    }
    forall name | name in m.files ensures exists i :: 0 <= i < |parts| && parts[i].name == name {
      var i := RecordedPart(codec, parts, name);
    }
  }

  // Every member reads back as exactly the bytes its stage produced.
  lemma MembersReadBack(codec: Codec, job: Job, ev: Events, i: nat)
    requires Succeeds(codec, job, ev) && i < |Parts(job, ev)|
    ensures var p := Parts(job, ev)[i];
            Find(Archive(codec, job, ev), p.name) == Some(EntryOf(p)) &&
            EntryOf(p).content == Some(Produced(p.stage.chunks))
  {
    assert Written(codec, Parts(job, ev), Archive(codec, job, ev));
    FoundPart(codec, Parts(job, ev), Archive(codec, job, ev), i);
  }
}
