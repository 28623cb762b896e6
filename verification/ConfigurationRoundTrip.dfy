/** From a configuration directory into a bundle and out again. */
module ConfigurationRoundTrip {
  import opened Splitting
  import opened Text
  import opened Members
  import opened Bundle
  import opened Validation
  import opened BundleRoundTrip
  import opened Extraction
  import Capture

  // The configuration members of a bundle are what the capture delivered.
  predicate Bundles(ev: Events, delivered: seq<Capture.Member>) {
    && |ev.configs| == |delivered|
    && forall i :: 0 <= i < |delivered| ==>
         ev.configs[i].name == delivered[i].name && Produced(ev.configs[i].stage.chunks) == delivered[i].content
  }

  // No file of a directory tree is a directory of it, too.
  ghost predicate TreeShaped(dir: Capture.Still) {
    forall a, b :: a in Capture.FileNames(dir) && b in Capture.FileNames(dir) ==> !Above(Components(a), Components(b))
  }

  const FOLDER: text := "config"

  lemma ConfigComponents(name: text)
    ensures Components(CONFIG + name) == [FOLDER] + Components(name)
  {
    OnePart(FOLDER, '/');
    assert CONFIG == FOLDER + ['/'];
    ComponentsJoin(FOLDER, name);
  }

  lemma FixedComponents()
    ensures Components(MANIFEST) == [MANIFEST] && Components(REPLICA_SET) == [REPLICA_SET]
    ensures MANIFEST != REPLICA_SET && MANIFEST != FOLDER && REPLICA_SET != FOLDER
    ensures MANIFEST != DATA && MANIFEST != AUTH
  {
    OnePart(MANIFEST, '/');
    OnePart(REPLICA_SET, '/');
    assert MANIFEST[0] == 'm' && REPLICA_SET[0] == 'r' && FOLDER[0] == 'c' && DATA[0] == 'd' && AUTH[0] == 'a';
  }

  lemma SplitInjective(a: text, b: text)
    requires Components(a) == Components(b)
    ensures a == b
  {
    SplitJoin(a, '/');
    SplitJoin(b, '/');
  }

  // The order of a written archive, as far as extract-config goes.
  ghost predicate LaidOut(entries: seq<Entry>, delivered: seq<Capture.Member>, replicaSet: text, manifest: text) {
    && |entries| >= |delivered| + 2
    && entries[0].name == REPLICA_SET && entries[0].content == Some(replicaSet)
    && entries[|entries| - 1].name == MANIFEST && entries[|entries| - 1].content == Some(manifest)
    && (forall i :: 0 <= i < |entries| ==> (Selected(entries[i]) <==> Chosen(entries, |delivered|, i)))
    && (forall i :: 0 <= i < |delivered| ==>
          entries[i + 1].name == delivered[i].name && entries[i + 1].content == Some(delivered[i].content))
    && (forall i :: 0 <= i < |entries| ==> SafeMember(entries[i].name))
  }

  // The JSON text of the manifest.
  function ManifestText(codec: Codec, job: Job, ev: Events): text
    requires codec.marshal(ManifestOf(codec, job, ev)).Some?
  {
    codec.marshal(ManifestOf(codec, job, ev)).value
  }

  predicate Chosen(entries: seq<Entry>, configs: nat, i: int) { 0 <= i <= configs || i == |entries| - 1 }

  lemma ArchiveKinds(codec: Codec, job: Job, ev: Events, i: nat)
    requires Succeeds(codec, job, ev) && Coherent(job, ev) && i < |Archive(codec, job, ev)|
    ensures var entries := Archive(codec, job, ev);
      && (Selected(entries[i]) <==> Chosen(entries, |ev.configs|, i))
      && entries[0] == EntryOf(Part(REPLICA_SET, ev.replica))
      && (1 <= i <= |ev.configs| ==> entries[i] == EntryOf(ev.configs[i - 1]))
      && entries[|entries| - 1].name == MANIFEST
        && entries[|entries| - 1].content == codec.marshal(ManifestOf(codec, job, ev))
  {
    hide AllSucceed, RecordsOf, HasPrefix;
    FixedNames();
    FixedComponents();
    var parts := Parts(job, ev);
    assert forall k :: 1 <= k <= |ev.configs| ==> parts[k] == ev.configs[k - 1];
  }

  lemma ReplicaBytes(job: Job, ev: Events)
    requires Coherent(job, ev)
    ensures Produced(ev.replica.chunks) == job.snapshot.replicaSet
  {
    ProducedMore([], ev.replica.chunks[0]);
    assert [] + [ev.replica.chunks[0]] == ev.replica.chunks && [] + job.snapshot.replicaSet == job.snapshot.replicaSet;
  }

  lemma ArchiveNames(codec: Codec, job: Job, ev: Events, i: nat)
    requires Succeeds(codec, job, ev) && i < |Archive(codec, job, ev)|
    ensures SafeMember(Archive(codec, job, ev)[i].name)
  {
    hide SafeMember, AllowedMember;
    assert Written(codec, Parts(job, ev), Archive(codec, job, ev));
    WrittenNames(codec, Parts(job, ev), Archive(codec, job, ev));
    assert GoodName(Archive(codec, job, ev)[i]);
  }

  lemma ArchiveConfig(codec: Codec, job: Job, ev: Events, delivered: seq<Capture.Member>, i: nat)
    requires Succeeds(codec, job, ev) && Coherent(job, ev) && Bundles(ev, delivered) && i < |delivered|
    ensures |Archive(codec, job, ev)| >= |delivered| + 2
    ensures var e := Archive(codec, job, ev)[i + 1];
            e.name == delivered[i].name && e.content == Some(delivered[i].content)
  {
    hide AllSucceed, RecordsOf, HasPrefix, SafeMember, AllowedMember, Selected, Produced, ManifestOf;
    ArchiveKinds(codec, job, ev, i + 1);
  }

  lemma ArchiveLaidOut(codec: Codec, job: Job, ev: Events, delivered: seq<Capture.Member>)
    requires Succeeds(codec, job, ev) && Coherent(job, ev) && Bundles(ev, delivered)
    ensures LaidOut(Archive(codec, job, ev), delivered, job.snapshot.replicaSet, ManifestText(codec, job, ev))
  {
    hide AllSucceed, RecordsOf, HasPrefix, SafeMember, Selected, Chosen, Produced, ManifestOf;
    var entries := Archive(codec, job, ev);
    ReplicaBytes(job, ev);
    ArchiveKinds(codec, job, ev, 0);
    forall i | 0 <= i < |entries| ensures Selected(entries[i]) <==> Chosen(entries, |delivered|, i) {
      ArchiveKinds(codec, job, ev, i);
    }
    forall i | 0 <= i < |entries| ensures SafeMember(entries[i].name) { ArchiveNames(codec, job, ev, i); }
    forall i | 0 <= i < |delivered|
      ensures entries[i + 1].name == delivered[i].name && entries[i + 1].content == Some(delivered[i].content)
    {
      ArchiveConfig(codec, job, ev, delivered, i);
    }
  }

  // ---- Nothing is in the way of anything else --------------------------------------------------

  lemma FirstDiffers(a: Path, b: Path)
    requires a != [] && b != [] && a[0] != b[0]
    ensures Apart(a, b)
  {
  }

  lemma AboveBelow(folder: text, a: Path, b: Path)
    ensures Above([folder] + a, [folder] + b) ==> Above(a, b)
  {
    var x, y := [folder] + a, [folder] + b;
    assert x[1..] == a && y[1..] == b;
    if |a| < |b| { assert y[..|x|][1..] == b[..|a|]; }
  }

  lemma ApartBelow(folder: text, a: Path, b: Path)
    requires Apart(a, b)
    ensures Apart([folder] + a, [folder] + b)
  {
    AboveBelow(folder, a, b);
    AboveBelow(folder, b, a);
    assert ([folder] + a)[1..] == a && ([folder] + b)[1..] == b;
  }

  // The file a configuration member was captured from.
  lemma Origin(dir: Capture.Still, delivered: seq<Capture.Member>, i: nat) returns (name: text)
    requires Capture.Exact(dir, delivered) && i < |delivered|
    ensures name in Capture.FileNames(dir) && delivered[i] == Capture.Member(CONFIG + name, dir[name].content)
    ensures Components(delivered[i].name) == [FOLDER] + Components(name)
  {
    assert Capture.Holds(dir, delivered[i]);
    name :| name in Capture.FileNames(dir) && delivered[i] == Capture.Member(CONFIG + name, dir[name].content);
    ConfigComponents(name);
  }

  lemma ConfigsApart(dir: Capture.Still, delivered: seq<Capture.Member>, i: nat, j: nat)
    requires Capture.Exact(dir, delivered) && TreeShaped(dir) && i < j < |delivered|
    ensures Apart(Components(delivered[i].name), Components(delivered[j].name))
  {
    var a := Origin(dir, delivered, i);
    var b := Origin(dir, delivered, j);
    assert delivered[i].name != delivered[j].name;
    if Components(a) == Components(b) { SplitInjective(a, b); }
    ApartBelow(FOLDER, Components(a), Components(b));
  }

  lemma MembersApart(
    entries: seq<Entry>, replicaSet: text, manifest: text, dir: Capture.Still, delivered: seq<Capture.Member>, i: nat,
    j: nat)
    requires LaidOut(entries, delivered, replicaSet, manifest) && Capture.Exact(dir, delivered) && TreeShaped(dir)
    requires i < j < |entries| && Selected(entries[i]) && Selected(entries[j])
    ensures Apart(Components(entries[i].name), Components(entries[j].name))
  {
    hide Capture.Exact, TreeShaped, Apart, Components, Selected, SafeMember;
    FixedComponents();
    var n := |delivered|;
    if 1 <= i <= n { var a := Origin(dir, delivered, i - 1); }
    if 1 <= j <= n { var b := Origin(dir, delivered, j - 1); }
    if 1 <= i <= n && 1 <= j <= n {
      ConfigsApart(dir, delivered, i - 1, j - 1);
    } else {
      FirstDiffers(Components(entries[i].name), Components(entries[j].name));
    }
  }

  lemma LaidOutExtractable(
    entries: seq<Entry>, replicaSet: text, manifest: text, dir: Capture.Still, delivered: seq<Capture.Member>)
    requires LaidOut(entries, delivered, replicaSet, manifest) && Capture.Exact(dir, delivered) && TreeShaped(dir)
    ensures Extractable(entries, |entries|)
  {
    hide Capture.Exact, TreeShaped, Apart, Components, SafeMember, Selected;
    forall i | 0 <= i < |entries| && Selected(entries[i]) ensures Readable(entries[i]) {
      if 1 <= i <= |delivered| { assert entries[i].content == Some(delivered[i - 1].content); }
    }
    forall i, j | 0 <= i < j < |entries| && Selected(entries[i]) && Selected(entries[j])
      ensures Apart(Components(entries[i].name), Components(entries[j].name))
    {
      MembersApart(entries, replicaSet, manifest, dir, delivered, i, j);
    }
  }

  // ---- What comes back -----------------------------------------------------------------------------

  // The replica set configuration, the manifest, and every file of the directory at its path
  // below config/ with its bytes; no other file.
  ghost predicate ComesBack(tree: Tree, dir: Capture.Still, replicaSet: text, manifest: text) {
    && (forall name :: name in Capture.FileNames(dir) ==> FileAt(tree, [FOLDER] + Components(name), dir[name].content))
    && FileAt(tree, [REPLICA_SET], replicaSet) && FileAt(tree, [MANIFEST], manifest)
    && (forall p :: p in tree && tree[p].File? ==> p == [REPLICA_SET] || p == [MANIFEST] || IsConfigPath(dir, p))
  }

  predicate FileAt(tree: Tree, p: Path, content: text) { p in tree && tree[p] == File(content) }

  ghost predicate IsConfigPath(dir: Capture.Still, p: Path) {
    exists name: text :: name in Capture.FileNames(dir) && p == [FOLDER] + Components(name)
  }

  lemma FileComesBack(
    entries: seq<Entry>, replicaSet: text, manifest: text, dir: Capture.Still, delivered: seq<Capture.Member>,
    tree: Tree, name: text)
    requires LaidOut(entries, delivered, replicaSet, manifest) && Capture.Exact(dir, delivered)
    requires Holds(entries, |entries|, tree) && name in Capture.FileNames(dir)
    ensures FileAt(tree, [FOLDER] + Components(name), dir[name].content)
  {
    hide Components, SafeMember, Selected;
    var i :| 0 <= i < |delivered| && delivered[i] == Capture.Member(CONFIG + name, dir[name].content);
    ConfigComponents(name);
    assert Chosen(entries, |delivered|, i + 1);
    assert TakenAt(entries, |entries|, i + 1, [FOLDER] + Components(name));
  }

  lemma NothingElse(
    entries: seq<Entry>, replicaSet: text, manifest: text, dir: Capture.Still, delivered: seq<Capture.Member>,
    tree: Tree, p: Path)
    requires LaidOut(entries, delivered, replicaSet, manifest) && Capture.Exact(dir, delivered)
    requires Holds(entries, |entries|, tree) && p in tree && tree[p].File?
    ensures p == [REPLICA_SET] || p == [MANIFEST] || IsConfigPath(dir, p)
  {
    hide Components, SafeMember, Selected, Capture.Exact;
    FixedComponents();
    var i :| TakenAt(entries, |entries|, i, p);
    if 1 <= i <= |delivered| { var name := Origin(dir, delivered, i - 1); }
  }

  lemma LaidOutComesBack(
    entries: seq<Entry>, replicaSet: text, manifest: text, dir: Capture.Still, delivered: seq<Capture.Member>)
    requires LaidOut(entries, delivered, replicaSet, manifest) && Capture.Exact(dir, delivered)
    requires TreeShaped(dir)
    ensures Staged(entries, |entries|).Some? && ComesBack(Staged(entries, |entries|).value, dir, replicaSet, manifest)
  {
    hide LaidOut, Capture.Exact, TreeShaped, Holds, Components, Extractable, FileAt, IsConfigPath;
    LaidOutExtractable(entries, replicaSet, manifest, dir, delivered);
    StagedExists(entries, |entries|);
    StagedExact(entries, |entries|);
    var tree := Staged(entries, |entries|).value;
    forall name | name in Capture.FileNames(dir) ensures FileAt(tree, [FOLDER] + Components(name), dir[name].content) {
      FileComesBack(entries, replicaSet, manifest, dir, delivered, tree, name);
    }
    FixedFilesComeBack(entries, delivered, replicaSet, manifest, tree);
    forall p | p in tree && tree[p].File? ensures p == [REPLICA_SET] || p == [MANIFEST] || IsConfigPath(dir, p) {
      NothingElse(entries, replicaSet, manifest, dir, delivered, tree, p);
    }
  }

  lemma FixedFilesComeBack(
    entries: seq<Entry>, delivered: seq<Capture.Member>, replicaSet: text, manifest: text, tree: Tree)
    requires LaidOut(entries, delivered, replicaSet, manifest) && Holds(entries, |entries|, tree)
    ensures FileAt(tree, [REPLICA_SET], replicaSet) && FileAt(tree, [MANIFEST], manifest)
  {
    hide Components, SafeMember, Selected;
    FixedComponents();
    assert Chosen(entries, |delivered|, 0);
    assert TakenAt(entries, |entries|, 0, [REPLICA_SET]);
    assert Chosen(entries, |delivered|, |entries| - 1);
    assert TakenAt(entries, |entries|, |entries| - 1, [MANIFEST]);
  }

  // Capturing a directory, bundling it and extracting it gives the directory back.
  lemma ConfigurationComesBack(codec: Codec, job: Job, ev: Events, dir: Capture.Still, delivered: seq<Capture.Member>)
    requires Succeeds(codec, job, ev) && Coherent(job, ev) && Bundles(ev, delivered)
    requires Capture.Exact(dir, delivered) && TreeShaped(dir)
    ensures var entries := Archive(codec, job, ev);
            Staged(entries, |entries|).Some?
              && ComesBack(Staged(entries, |entries|).value, dir, job.snapshot.replicaSet, ManifestText(codec, job, ev))
  {
    hide LaidOut, ComesBack, Staged;
    ArchiveLaidOut(codec, job, ev, delivered);
    LaidOutComesBack(Archive(codec, job, ev), job.snapshot.replicaSet, ManifestText(codec, job, ev), dir, delivered);
  }

  // ---- The whole way -----------------------------------------------------------------------------

  function Done(content: text): Stage { Stage(false, true, [Chunk(content, |content|)], true) }

  lemma DoneSucceeds(content: text)
    ensures StageSucceeds(Done(content)) && Produced(Done(content).chunks) == content
  {
    ProducedMore([], Chunk(content, |content|));
    assert [] + Done(content).chunks == Done(content).chunks && [] + content == content;
  }

  // What the bundle writer makes of the delivered members: each is taken whole.
  function ConfigParts(delivered: seq<Capture.Member>): (parts: seq<Part>)
    ensures |parts| == |delivered|
    ensures forall i :: 0 <= i < |parts| ==> parts[i] == Part(delivered[i].name, Done(delivered[i].content))
  {
    seq(|delivered|, i requires 0 <= i < |delivered| => Part(delivered[i].name, Done(delivered[i].content)))
  }

  lemma PartsBundle(job: Job, ev: Events, delivered: seq<Capture.Member>)
    requires ev.configs == ConfigParts(delivered)
    ensures Bundles(ev, delivered)
  {
    hide Produced;
    forall i | 0 <= i < |delivered| ensures Produced(ev.configs[i].stage.chunks) == delivered[i].content {
      DoneSucceeds(delivered[i].content);
    }
  }

  // What the capture is known to have succeeded on, if it did.
  ghost predicate Captured(
    sha256: text -> text, job: Job, root: Capture.Root, walk: seq<Capture.Sighting>, dir: Capture.Still,
    faults: set<text>)
  {
    && !root.cancelledBefore
    && (job.configDir ==>
          && Capture.RootSteady(root) && Capture.FirstPass(walk) && Capture.SecondPass(sha256, walk, dir, faults)
          && !root.cancelledAfter)
  }

  // The directory a job captures.
  function Source(job: Job, dir: Capture.Still): Capture.Still { if job.configDir then dir else map[] }

  // Nothing stands between the capture and the directory as it was in the second pass.
  ghost predicate Undisturbed(
    sha256: text -> text, job: Job, walk: seq<Capture.Sighting>, dir: Capture.Still, delivered: seq<Capture.Member>)
  {
    && TreeShaped(Source(job, dir))
    && (job.configDir ==> Capture.Unsuperseded(walk) && Capture.NoCollision(sha256, dir, delivered))
  }

  // Capture, bundle, validate, extract: `rest` is everything but the configuration members.
  // The extracted tree is the captured directory, the replica set configuration and the
  // manifest; when any of the four steps fails the file system is as it was.
  method CaptureAndExtract(
    codec: Codec, job: Job, root: Capture.Root, walk: seq<Capture.Sighting>, dir: Capture.Still, faults: set<text>,
    rest: Events, fs: FileSystem, dest: Path, f: Faults)
    returns (ok: bool, ghost delivered: seq<Capture.Member>, ghost ev: Events)
    requires fs.staging.None?
    requires |rest.replica.chunks| == 1 && rest.replica.chunks[0].data == job.snapshot.replicaSet
    modifies fs
    ensures fs.staging.None? && Coherent(job, ev)
    ensures ev.captured <==> Captured(codec.sha256, job, root, walk, dir, faults)
    ensures ev == rest.(configs := ConfigParts(delivered), captured := ev.captured)
    ensures ok <==>
      && Succeeds(codec, job, ev) && dest !in old(fs.nodes)
      && var entries := Archive(codec, job, ev);
      && (exists m :: Acceptable(codec, entries, Target(job.mode, job.database), m))
      && Staged(entries, |entries|).Some? && Faultless(f, entries)
    ensures !ok ==> fs.nodes == old(fs.nodes)
    ensures ok ==>
      fs.nodes == old(fs.nodes) + Graft(dest, Staged(Archive(codec, job, ev), |Archive(codec, job, ev)|).value)
    ensures ok && Undisturbed(codec.sha256, job, walk, dir, delivered) ==>
      ComesBack(Staged(Archive(codec, job, ev), |Archive(codec, job, ev)|).value,
                Source(job, dir), job.snapshot.replicaSet, ManifestText(codec, job, ev))
    ensures ok && Undisturbed(codec.sha256, job, walk, dir, delivered) ==>
      LiesBelow(old(fs.nodes), fs.nodes, dest, Source(job, dir), job.snapshot.replicaSet, ManifestText(codec, job, ev))
  {
    hide LiesBelow, Extracted, Succeeds, Staged, Acceptable, Graft, ComesBack, TreeShaped, Faultless, Archive,
      ManifestText, Capture.FirstPass, Capture.SecondPass, Capture.RootSteady, Capture.RootHeld,
      Capture.Unsuperseded, Capture.NoCollision, Capture.Exact, Capture.Faithful;
    var members, captured := Capture.CaptureConfig(codec.sha256, job.configDir, root, walk, dir, faults);
    delivered := members;
    var events := rest.(configs := ConfigParts(members), captured := captured);
    ev := events;
    PartsBundle(job, ev, delivered);
    var z, written := WriteBundle(codec, job, events);
    if !written { return false, delivered, ev; }
    CapturedForSure(codec, job, ev);
    ghost var manifest := ManifestText(codec, job, ev);
    if Undisturbed(codec.sha256, job, walk, dir, delivered) {
      ExactSource(job, dir, delivered);
      ConfigurationComesBack(codec, job, ev, Source(job, dir), delivered);
    }
    var entries := OpenReader(z).value;
    var m := ValidateBundle(codec, entries, Target(job.mode, job.database));
    if m.None? { return false, delivered, ev; }
    ghost var before := fs.nodes;
    ok := ExtractConfiguration(fs, entries, dest, f);
    if ok { BackBelow(before, fs.nodes, entries, dest, Source(job, dir), job.snapshot.replicaSet, manifest); }
  }

  // Below the destination, after an extraction: every file of the directory at its path below
  // "config" with its bytes, the two other files with theirs, and no other new file; and no
  // path elsewhere has changed.
  ghost predicate LiesBelow(
    before: Tree, after: Tree, dest: Path, dir: Capture.Still, replicaSet: text, manifest: text)
  {
    && (forall name :: name in Capture.FileNames(dir) ==>
          IsFileAt(after, dest + (["config"] + Components(name)), dir[name].content))
    && IsFileAt(after, dest + ["replica-set.json"], replicaSet) && IsFileAt(after, dest + ["manifest.json"], manifest)
    && (forall p :: p in after && p !in before && after[p].File? ==>
          || p == dest + ["replica-set.json"] || p == dest + ["manifest.json"]
          || exists name: text :: name in Capture.FileNames(dir) && p == dest + (["config"] + Components(name)))
    && (forall p :: !(dest <= p) ==> (p in after <==> p in before) && (p in before ==> after[p] == before[p]))
  }

  predicate IsFileAt(tree: Tree, p: Path, content: text) { p in tree && tree[p] == File(content) }

  lemma FileBelow(before: Tree, tree: Tree, dest: Path, rel: Path, content: text)
    requires FileAt(tree, rel, content)
    ensures IsFileAt(before + Graft(dest, tree), dest + rel, content)
  {
    hide Graft;
    GraftHas(dest, tree, rel);
  }

  lemma BackBelow(
    before: Tree, after: Tree, entries: seq<Entry>, dest: Path, dir: Capture.Still, replicaSet: text, manifest: text)
    requires Staged(entries, |entries|).Some? && after == before + Graft(dest, Staged(entries, |entries|).value)
    ensures ComesBack(Staged(entries, |entries|).value, dir, replicaSet, manifest) ==>
              LiesBelow(before, after, dest, dir, replicaSet, manifest)
  {
    hide Staged, Graft, ComesBack, LiesBelow;
    var tree := Staged(entries, |entries|).value;
    if ComesBack(tree, dir, replicaSet, manifest) { GraftedBack(before, tree, dest, dir, replicaSet, manifest); }
  }

  lemma GraftedBack(
    before: Tree, tree: Tree, dest: Path, dir: Capture.Still, replicaSet: text, manifest: text)
    requires ComesBack(tree, dir, replicaSet, manifest)
    ensures LiesBelow(before, before + Graft(dest, tree), dest, dir, replicaSet, manifest)
  {
    hide Graft, Components, FileAt, IsFileAt, IsConfigPath;
    var after := before + Graft(dest, tree);
    forall name | name in Capture.FileNames(dir)
      ensures IsFileAt(after, dest + ([FOLDER] + Components(name)), dir[name].content)
    {
      FileBelow(before, tree, dest, [FOLDER] + Components(name), dir[name].content);
    }
    FileBelow(before, tree, dest, [REPLICA_SET], replicaSet);
    FileBelow(before, tree, dest, [MANIFEST], manifest);
    forall p | p in Graft(dest, tree) ensures dest <= p { GraftBelow(dest, tree, p); }
    forall p | p in after && p !in before && after[p].File?
      ensures || p == dest + [REPLICA_SET] || p == dest + [MANIFEST]
              || exists name: text :: name in Capture.FileNames(dir) && p == dest + ([FOLDER] + Components(name))
    {
      GraftBelow(dest, tree, p);
      GraftHas(dest, tree, p[|dest|..]);
      if IsConfigPath(dir, p[|dest|..]) { ConfigPathOf(dir, p[|dest|..]); }
    }
  }

  lemma ConfigPathOf(dir: Capture.Still, p: Path)
    requires IsConfigPath(dir, p)
    ensures exists name: text :: name in Capture.FileNames(dir) && p == [FOLDER] + Components(name)
  {
  }

  lemma CapturedForSure(codec: Codec, job: Job, ev: Events)
    requires Succeeds(codec, job, ev)
    ensures ev.captured && codec.marshal(ManifestOf(codec, job, ev)).Some?
  {
  }

  lemma ExactSource(job: Job, dir: Capture.Still, delivered: seq<Capture.Member>)
    requires if job.configDir then Capture.Exact(dir, delivered) else delivered == []
    ensures Capture.Exact(Source(job, dir), delivered)
  {
  }

  // ---- The conditions can be met together ----------------------------------------------------------

  // A per-database backup with one configuration file, "x" under the name "a".
  const EXAMPLE_JOB := Job(PER_DATABASE, "app", true, Snapshot("rs", "8", "8"), "100", 1)
  function ExampleEvents(completed: int): Events {
    Events(
      Done("rs"), [Part(CONFIG + "a", Done("x"))], true, Done("d"), Done("u"),
      Some(Snapshot("rs", "8", "8")), completed, true, true, false, true)
  }

  const EXAMPLE_DIR: Capture.Still := map["a" := Capture.Node(Capture.Info(0, Capture.Regular, 0, 1, 0, false), "x")]

  lemma FixedNamesSafe()
    ensures SafeMember(REPLICA_SET) && SafeMember(DATA) && SafeMember(AUTH)
  {
    hide SafeMember;
    ReplicaNameSafe();
    DataNameSafe();
    AuthNameSafe();
  }

  lemma ReplicaNameSafe()
    ensures SafeMember(REPLICA_SET)
  {
    hide SafeMember;
    PlainNameIsSafe(REPLICA_SET);
  }

  lemma DataNameSafe()
    ensures SafeMember(DATA)
  {
    hide SafeMember;
    PlainNameIsSafe(DATA);
  }

  lemma AuthNameSafe()
    ensures SafeMember(AUTH)
  {
    hide SafeMember;
    PlainNameIsSafe(AUTH);
  }

  lemma ExampleNameSafe()
    ensures SafeMember(CONFIG + "a")
  {
    hide SafeMember, Components, ValidUtf8;
    ConfigComponents("a");
    assert Components("a") == ["a"] by { OnePart("a", '/'); SplitIs("a"); }
    AsciiIsUtf8(CONFIG + "a");
    SafeMemberExact(CONFIG + "a");
  }

  lemma SplitIs(s: text)
    ensures Components(s) == Split(s, '/')
  {
  }

  lemma ExampleSucceeds(completed: int)
    ensures Coherent(EXAMPLE_JOB, ExampleEvents(completed)) && AllSucceed(Parts(EXAMPLE_JOB, ExampleEvents(completed)))
  {
    hide SafeMember, StageSucceeds, Produced;
    FixedNamesSafe();
    ExampleNameSafe();
    FixedNames();
    DoneSucceeds("rs");
    DoneSucceeds("x");
    DoneSucceeds("d");
    DoneSucceeds("u");
    assert HasPrefix(CONFIG + "a", CONFIG);
    assert REPLICA_SET[0] == 'r' && DATA[0] == 'd' && AUTH[0] == 'a' && MANIFEST[0] == 'm' && (CONFIG + "a")[0] == 'c';
  }

  lemma {:induction false} SameRecords(codec: Codec, codec': Codec, parts: seq<Part>)
    requires codec.sha256 == codec'.sha256
    ensures RecordsOf(codec, parts) == RecordsOf(codec', parts)
  {
    if parts != [] { SameRecords(codec, codec', parts[..|parts| - 1]); }
  }

  // A codec that knows the one manifest.
  lemma ExampleCodec(completed: int) returns (codec: Codec)
    ensures JsonRoundTrips(codec) && Succeeds(codec, EXAMPLE_JOB, ExampleEvents(completed))
  {
    hide AllSucceed, RecordsOf, Parts;
    ExampleSucceeds(completed);
    var plain := Codec((s: text) => s, (m: Manifest) => None, (s: text) => None);
    var m := ManifestOf(plain, EXAMPLE_JOB, ExampleEvents(completed));
    codec := Codec(plain.sha256, (m': Manifest) => if m' == m then Some("{}") else None, (s: text) => Some(m));
    SameRecords(plain, codec, Parts(EXAMPLE_JOB, ExampleEvents(completed)));
  }

  // Everything the theorems on written bundles and on configurations ask for.
  lemma ConditionsCanBeMet() returns (codec: Codec, job: Job, ev: Events, dir: Capture.Still,
    delivered: seq<Capture.Member>)
    ensures JsonRoundTrips(codec) && Succeeds(codec, job, ev) && Coherent(job, ev)
    ensures job.mode == PER_DATABASE && ValidUtf8(job.database) && job.configDir
    ensures job.snapshot.serverVersion != "" && job.toolsVersion != "" && job.snapshot.fcv != ""
    ensures job.started != 0 && ev.completed >= job.started
    ensures Bundles(ev, delivered) && delivered != []
    ensures Capture.Exact(dir, delivered) && TreeShaped(dir)
  {
    hide Succeeds, JsonRoundTrips, Coherent;
    ExampleSucceeds(2);
    codec := ExampleCodec(2);
    job, ev, dir := EXAMPLE_JOB, ExampleEvents(2), EXAMPLE_DIR;
    delivered := [Capture.Member(CONFIG + "a", "x")];
    AsciiIsUtf8("app");
    DoneSucceeds("x");
    ExampleExact();
  }

  lemma ExampleExact()
    ensures Capture.Exact(EXAMPLE_DIR, [Capture.Member(CONFIG + "a", "x")]) && TreeShaped(EXAMPLE_DIR)
  {
    var dir, m := EXAMPLE_DIR, Capture.Member(CONFIG + "a", "x");
    assert Capture.FileNames(dir) == {"a"};
    assert Capture.Holds(dir, m);
    assert m in [m];
  }

  // The same backup under a clock that steps back: written without an error, and accepted never.
  lemma RejectedBundle() returns (codec: Codec, job: Job, ev: Events)
    ensures JsonRoundTrips(codec) && Succeeds(codec, job, ev) && Coherent(job, ev)
    ensures forall m :: !Acceptable(codec, Archive(codec, job, ev), Target(job.mode, job.database), m)
  {
    hide Succeeds, JsonRoundTrips, Coherent, Acceptable, Archive;
    ExampleSucceeds(0);
    codec := ExampleCodec(0);
    job, ev := EXAMPLE_JOB, ExampleEvents(0);
    AsciiIsUtf8("app");
    WrittenIsAccepted(codec, job, ev);
  }
}
