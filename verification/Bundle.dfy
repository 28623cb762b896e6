/**
 The backup bundle: a ZIP archive with a manifest, written as its parts stream through.
 SHA-256, JSON and the ZIP container are used through what they promise.
 */
module Bundle {
  import opened Text
  import opened Members

  datatype FileRecord = FileRecord(size: int, sha256: text)

  // Times are nanoseconds after the zero time of Go.
  datatype Manifest = Manifest(
    formatVersion: int, mode: text, database: text, oplog: bool, startedAt: int, completedAt: int,
    serverVersion: text, fcv: text, toolsVersion: text, configIncluded: bool, files: map<text, FileRecord>)

  const FULL: text := "full"
  const PER_DATABASE: text := "per-database"
  const MANIFEST_LIMIT: nat := 4 * 1024 * 1024

  // The hex digest of SHA-256, and the JSON form of a manifest.
  datatype Codec = Codec(sha256: text -> text, marshal: Manifest -> Option<text>, unmarshal: text -> Option<Manifest>)

  // What JSON keeps: everything but invalid UTF-8 in the free texts, which it replaces.
  predicate SameManifest(m: Manifest, m': Manifest) {
    && m'.(serverVersion := m.serverVersion, fcv := m.fcv, toolsVersion := m.toolsVersion) == m
    && (m'.serverVersion == "" <==> m.serverVersion == "")
    && (m'.fcv == "" <==> m.fcv == "")
    && (m'.toolsVersion == "" <==> m.toolsVersion == "")
    && (ValidUtf8(m.serverVersion) ==> m'.serverVersion == m.serverVersion)
    && (ValidUtf8(m.fcv) ==> m'.fcv == m.fcv)
    && (ValidUtf8(m.toolsVersion) ==> m'.toolsVersion == m.toolsVersion)
  }

  // The names in a manifest are valid UTF-8.
  predicate Encodable(m: Manifest) {
    ValidUtf8(m.mode) && ValidUtf8(m.database) && forall k :: k in m.files ==> ValidUtf8(k)
  }

  ghost predicate JsonRoundTrips(c: Codec) {
    forall m :: c.marshal(m).Some? && Encodable(m) ==>
      var back := c.unmarshal(c.marshal(m).value);
      back.Some? && SameManifest(m, back.value)
  }

  // A member as the ZIP reader shows it. `content` is None when reading it to the end fails:
  // a checksum of the container, the storage, or a cancelled context.
  datatype Entry = Entry(name: text, special: bool, size: nat, content: Option<text>)

  // The bytes behind an archive can be opened only once its directory has been written.
  datatype Zip = Zip(entries: seq<Entry>, closed: bool)

  function OpenReader(z: Zip): Option<seq<Entry>> { if z.closed then Some(z.entries) else None }

  // ---- countingHashWriter ----------------------------------------------------------------

  class CountingHashWriter {
    var dst: text       // what the ZIP member has taken
    var hashed: text    // what the hash has absorbed
    var n: int

    ghost predicate Valid()
      reads this
    {
      hashed == dst && n == |dst|
    }

    constructor ()
      ensures Valid() && dst == []
    {
      dst, hashed, n := [], [], 0;
    }

    // `taken` is how much the destination accepts; accepting less than all is an error.
    method Write(p: text, taken: nat) returns (count: nat, ok: bool)
      requires Valid() && taken <= |p|
      modifies this
      ensures Valid() && count == taken && dst == old(dst) + p[..count] && (ok <==> count == |p|)
    {
      dst := dst + p[..taken];
      count, ok := taken, taken == |p|;
      hashed := hashed + p[..count];
      n := n + count;
    }

    function Record(codec: Codec): FileRecord
      reads this
    {
      FileRecord(n, codec.sha256(hashed))
    }
  }

  // ---- writeBundle -------------------------------------------------------------------------

  // One member to be written: what its producer writes and how much of each write is taken,
  // whether the producer succeeds in the end, whether the context is found cancelled first,
  // and whether the ZIP header can be written.
  datatype Chunk = Chunk(data: text, taken: nat)
  datatype Stage = Stage(cancelled: bool, header: bool, chunks: seq<Chunk>, ok: bool)
  datatype Part = Part(name: text, stage: Stage)

  function Datas(chunks: seq<Chunk>): seq<text> {
    seq(|chunks|, i requires 0 <= i < |chunks| => chunks[i].data)
  }

  function Produced(chunks: seq<Chunk>): text { Concat(Datas(chunks)) }

  lemma ProducedMore(chunks: seq<Chunk>, chunk: Chunk)
    ensures Produced([]) == [] && Produced(chunks + [chunk]) == Produced(chunks) + chunk.data
  {
    assert Datas(chunks + [chunk]) == Datas(chunks) + [chunk.data];
    assert Datas(chunks + [chunk])[..|chunks|] == Datas(chunks);
  }

  predicate AllTaken(chunks: seq<Chunk>) { forall i :: 0 <= i < |chunks| ==> chunks[i].taken >= |chunks[i].data| }

  predicate StageSucceeds(s: Stage) { !s.cancelled && s.header && AllTaken(s.chunks) && s.ok }

  function RecordOf(codec: Codec, content: text): FileRecord { FileRecord(|content|, codec.sha256(content)) }

  function Min(a: nat, b: nat): nat { if a <= b then a else b }

  // What a part contributes once it has been written.
  function EntryOf(p: Part): Entry {
    var content := Produced(p.stage.chunks);
    Entry(p.name, false, |content|, Some(content))
  }

  function EntriesOf(parts: seq<Part>): seq<Entry> { seq(|parts|, i requires 0 <= i < |parts| => EntryOf(parts[i])) }

  function RecordsOf(codec: Codec, parts: seq<Part>): map<text, FileRecord> {
    if parts == [] then map[]
    else
      var p := parts[|parts| - 1];
      RecordsOf(codec, parts[..|parts| - 1])[p.name := RecordOf(codec, Produced(p.stage.chunks))]
  }

  predicate MemberName(name: text) { SafeMember(name) && AllowedMember(name) && name != MANIFEST }

  predicate PartSucceeds(p: Part) { MemberName(p.name) && StageSucceeds(p.stage) }

  predicate NamesDistinct(parts: seq<Part>) {
    forall i, j :: 0 <= i < j < |parts| ==> parts[i].name != parts[j].name
  }

  predicate AllSucceed(parts: seq<Part>) {
    && NamesDistinct(parts)
    && forall i :: 0 <= i < |parts| ==> PartSucceeds(parts[i])
  }

  class BundleWriter {
    const codec: Codec
    var zip: Zip
    var files: map<text, FileRecord>

    // The archive holds exactly these parts, and the manifest describes each of them.
    ghost predicate Holds(parts: seq<Part>)
      reads this
    {
      && AllSucceed(parts)
      && zip == Zip(EntriesOf(parts), false)
      && files == RecordsOf(codec, parts)
    }

    constructor (codec: Codec)
      ensures Holds([]) && this.codec == codec
    {
      this.codec, zip, files := codec, Zip([], false), map[];
    }

    method Add(ghost parts: seq<Part>, name: text, stage: Stage) returns (ok: bool)
      requires Holds(parts)
      modifies this
      ensures ok <==> AllSucceed(parts + [Part(name, stage)])
      ensures ok ==> Holds(parts + [Part(name, stage)])
      ensures !ok ==> files == old(files) && !zip.closed
    {
      OneMorePart(codec, parts, Part(name, stage));
      OneMoreEntry(codec, parts, Part(name, stage));
      if stage.cancelled { return false; }
      if !SafeMember(name) || !AllowedMember(name) || name == MANIFEST { return false; }
      if name in files { return false; }
      if !stage.header { return false; }
      var w := new CountingHashWriter();
      var done := Stream(w, stage.chunks);
      zip := Zip(zip.entries + [Entry(name, false, |w.dst|, Some(w.dst))], false);
      if !done || !stage.ok { return false; }
      files := files[name := w.Record(codec)];
      return true;
    }
  }

  // A producer writing into a member: io.Copy from a reader, or a process's output.
  method Stream(w: CountingHashWriter, chunks: seq<Chunk>) returns (ok: bool)
    requires w.Valid() && w.dst == []
    modifies w
    ensures w.Valid() && (ok <==> AllTaken(chunks))
    ensures ok ==> w.dst == Produced(chunks)
  {
    hide Produced;
    ProducedMore([], Chunk([], 0));
    for i := 0 to |chunks|
      invariant w.Valid() && w.dst == Produced(chunks[..i]) && AllTaken(chunks[..i])
    {
      var chunk := chunks[i];
      ProducedMore(chunks[..i], chunk);
      assert chunks[..i + 1] == chunks[..i] + [chunk];
      var _, done := w.Write(chunk.data, Min(chunk.taken, |chunk.data|));
      if !done { return false; }
      assert chunk.data[..|chunk.data|] == chunk.data;
    }
    assert chunks[..|chunks|] == chunks;
    return true;
  }

  lemma OneMoreName(codec: Codec, parts: seq<Part>, p: Part)
    requires NamesDistinct(parts)
    ensures NamesDistinct(parts + [p]) <==> p.name !in RecordsOf(codec, parts)
  {
    var all := parts + [p];
    if p.name in RecordsOf(codec, parts) {
      var i := RecordedPart(codec, parts, p.name);
      assert all[i].name == all[|parts|].name;
    } else {
      forall i | 0 <= i < |parts| ensures parts[i].name != p.name { RecordedName(codec, parts, i); }
    }
  }

  lemma OneMorePart(codec: Codec, parts: seq<Part>, p: Part)
    requires AllSucceed(parts)
    ensures AllSucceed(parts + [p]) <==> p.name !in RecordsOf(codec, parts) && PartSucceeds(p)
  {
    OneMoreName(codec, parts, p);
    var all := parts + [p];
    if p.name !in RecordsOf(codec, parts) && PartSucceeds(p) {
      forall i | 0 <= i < |all| ensures PartSucceeds(all[i]) {
        if i < |parts| { assert all[i] == parts[i]; } else { assert all[i] == p; }
      }
    }
    if AllSucceed(all) { assert PartSucceeds(all[|parts|]); }
  }

  lemma OneMoreEntry(codec: Codec, parts: seq<Part>, p: Part)
    ensures EntriesOf(parts + [p]) == EntriesOf(parts) + [EntryOf(p)]
    ensures RecordsOf(codec, parts + [p]) ==
            RecordsOf(codec, parts)[p.name := RecordOf(codec, Produced(p.stage.chunks))]
  {
    assert (parts + [p])[..|parts|] == parts;
  }

  lemma {:induction false} RecordedName(codec: Codec, parts: seq<Part>, i: nat)
    requires i < |parts|
    ensures parts[i].name in RecordsOf(codec, parts)
  {
    if i < |parts| - 1 { RecordedName(codec, parts[..|parts| - 1], i); }
  }

  lemma {:induction false} RecordedPart(codec: Codec, parts: seq<Part>, name: text) returns (i: nat)
    requires name in RecordsOf(codec, parts)
    ensures i < |parts| && parts[i].name == name
  {
    i := |parts| - 1;
    if parts[i].name != name { i := RecordedPart(codec, parts[..|parts| - 1], name); }
  }

  // ---- A whole bundle ------------------------------------------------------------------------

  datatype Snapshot = Snapshot(replicaSet: text, serverVersion: text, fcv: text)

  // What a bundle is made for and from.
  datatype Job = Job(mode: text, database: text, configDir: bool, snapshot: Snapshot, toolsVersion: text, started: int)

  // What happens meanwhile: each stage, whether the configuration was captured, the second
  // inspection, the clock at the end, and whether the last writes go through.
  datatype Events = Events(
    replica: Stage, configs: seq<Part>, captured: bool, data: Stage, auth: Stage,
    after: Option<Snapshot>, completed: int, manifestHeader: bool, manifestTaken: bool, cancelled: bool, footer: bool)

  // The replica set configuration is one write; capturing delivers members below config/,
  // at least one of them when it succeeds on a directory and none without one.
  predicate Coherent(job: Job, ev: Events) {
    && |ev.replica.chunks| == 1 && ev.replica.chunks[0].data == job.snapshot.replicaSet
    && (forall i :: 0 <= i < |ev.configs| ==> HasPrefix(ev.configs[i].name, CONFIG))
    && (!job.configDir ==> ev.configs == [])
    && (job.configDir && ev.captured ==> ev.configs != [])
  }

  function Parts(job: Job, ev: Events): seq<Part> {
    [Part(REPLICA_SET, ev.replica)] + ev.configs + [Part(DATA, ev.data)]
    + (if job.mode == PER_DATABASE then [Part(AUTH, ev.auth)] else [])
  }

  function ManifestOf(codec: Codec, job: Job, ev: Events): Manifest {
    Manifest(1, job.mode, job.database, job.mode == FULL, job.started, ev.completed,
             job.snapshot.serverVersion, job.snapshot.fcv, job.toolsVersion, job.configDir,
             RecordsOf(codec, Parts(job, ev)))
  }

  // Everything that must go right for writeBundle to return nil.
  predicate Succeeds(codec: Codec, job: Job, ev: Events) {
    var json := codec.marshal(ManifestOf(codec, job, ev));
    && AllSucceed(Parts(job, ev)) && ev.captured
    && ev.after == Some(job.snapshot)
    && json.Some? && |json.value| <= MANIFEST_LIMIT
    && ev.manifestHeader && ev.manifestTaken && !ev.cancelled && ev.footer
  }

  function Archive(codec: Codec, job: Job, ev: Events): seq<Entry>
    requires codec.marshal(ManifestOf(codec, job, ev)).Some?
  {
    var json := codec.marshal(ManifestOf(codec, job, ev)).value;
    EntriesOf(Parts(job, ev)) + [Entry(MANIFEST, false, |json|, Some(json))]
  }

  lemma PrefixSucceeds(parts: seq<Part>, more: seq<Part>)
    ensures AllSucceed(parts + more) ==> AllSucceed(parts)
  {
    var all := parts + more;
    if AllSucceed(all) {
      forall i | 0 <= i < |parts| ensures PartSucceeds(parts[i]) { assert all[i] == parts[i]; }
      forall i, j | 0 <= i < j < |parts| ensures parts[i].name != parts[j].name {
        assert all[i] == parts[i] && all[j] == parts[j];
      }
    }
  }

  lemma NextConfig(before: seq<Part>, configs: seq<Part>, i: nat)
    requires i < |configs|
    ensures before + configs[..i] + [configs[i]] == before + configs[..i + 1]
    ensures AllSucceed(before + configs) ==> AllSucceed(before + configs[..i + 1])
  {
    assert before + configs[..i + 1] + configs[i + 1..] == before + configs;
    PrefixSucceeds(before + configs[..i + 1], configs[i + 1..]);
  }

  // captureConfig handing its files to the bundle one by one.
  method AddConfigs(w: BundleWriter, ghost before: seq<Part>, configs: seq<Part>) returns (ok: bool)
    requires w.Holds(before)
    modifies w
    ensures ok <==> AllSucceed(before + configs)
    ensures if ok then w.Holds(before + configs) else !w.zip.closed
  {
    assert before + [] == before;
    for i := 0 to |configs|
      invariant w.Holds(before + configs[..i])
    {
      NextConfig(before, configs, i);
      ok := w.Add(before + configs[..i], configs[i].name, configs[i].stage);
      if !ok { return; }
    }
    assert configs[..|configs|] == configs;
    ok := true;
  }

  // The members, in their order: the first failure ends the bundle.
  method WriteMembers(w: BundleWriter, job: Job, ev: Events) returns (ok: bool)
    requires w.Holds([])
    modifies w
    ensures ok <==> AllSucceed(Parts(job, ev)) && ev.captured
    ensures if ok then w.Holds(Parts(job, ev)) else !w.zip.closed
  {
    ghost var first, second := [Part(REPLICA_SET, ev.replica)], [Part(REPLICA_SET, ev.replica)] + ev.configs;
    ghost var third := second + [Part(DATA, ev.data)];
    ghost var rest := if job.mode == PER_DATABASE then [Part(AUTH, ev.auth)] else [];
    assert Parts(job, ev) == third + rest;
    PrefixSucceeds(third, rest);
    PrefixSucceeds(second, [Part(DATA, ev.data)]);
    PrefixSucceeds(first, ev.configs);
    assert [] + first == first && third + [] == third;
    ok := w.Add([], REPLICA_SET, ev.replica);
    if !ok { return; }
    ok := AddConfigs(w, first, ev.configs);
    if !ok || !ev.captured { return false; }
    ok := w.Add(second, DATA, ev.data);
    if !ok { return; }
    if job.mode == PER_DATABASE { ok := w.Add(third, AUTH, ev.auth); }
  }

  // The producer of a member returned without an error, and everything it wrote was taken.
  predicate WentThrough(s: Stage) {
    && !s.cancelled && s.header && s.ok
    && forall i :: 0 <= i < |s.chunks| ==> |s.chunks[i].data| <= s.chunks[i].taken
  }

  lemma AllWentThrough(parts: seq<Part>)
    requires AllSucceed(parts)
    ensures forall i :: 0 <= i < |parts| ==> WentThrough(parts[i].stage)
  {
    forall i | 0 <= i < |parts| ensures WentThrough(parts[i].stage) { assert PartSucceeds(parts[i]); }
  }

  method WriteBundle(codec: Codec, job: Job, ev: Events) returns (z: Zip, ok: bool)
    requires Coherent(job, ev)
    ensures ok <==> Succeeds(codec, job, ev)
    ensures ok ==> z == Zip(Archive(codec, job, ev), true)
    ensures ok ==>
      && ev.captured && !ev.cancelled && ev.manifestHeader && ev.manifestTaken && ev.footer
      && ev.after == Some(Snapshot(job.snapshot.replicaSet, job.snapshot.serverVersion, job.snapshot.fcv))
    ensures ok ==> forall i :: 0 <= i < |Parts(job, ev)| ==> WentThrough(Parts(job, ev)[i].stage)
    ensures !ok ==> OpenReader(z).None?
  {
    hide WentThrough;
    if Succeeds(codec, job, ev) { AllWentThrough(Parts(job, ev)); }
    var w := new BundleWriter(codec);
    ok := WriteMembers(w, job, ev);
    if !ok { return w.zip, false; }
    if ev.after.None? { return w.zip, false; }
    var now := ev.after.value;
    if now.replicaSet != job.snapshot.replicaSet || now.fcv != job.snapshot.fcv
      || now.serverVersion != job.snapshot.serverVersion {
      return w.zip, false;
    }
    var m := Manifest(1, job.mode, job.database, job.mode == FULL, job.started, ev.completed,
                      job.snapshot.serverVersion, job.snapshot.fcv, job.toolsVersion, job.configDir, w.files);
    var json := codec.marshal(m);
    if json.None? || |json.value| > MANIFEST_LIMIT { return w.zip, false; }
    if !ev.manifestHeader || !ev.manifestTaken || ev.cancelled || !ev.footer { return w.zip, false; }
    return Zip(w.zip.entries + [Entry(MANIFEST, false, |json.value|, Some(json.value))], true), true;
  }
}
