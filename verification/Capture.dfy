/**
 Capturing a configuration directory in two passes. During the first pass the file system
 may change between any two observations; what it shows is an input of the model.
 */
module Capture {
  import opened Text
  import opened Members

  // What Lstat and Stat report: the identity of a file, its mode, size and modification
  // time. `link` stands for a symlink or a reparse point.
  datatype Kind = Regular | Directory | Special
  datatype Info = Info(identity: int, kind: Kind, permissions: nat, size: int, modified: int, link: bool)

  predicate Unchanged(before: Info, after: Option<Info>) {
    && after.Some? && before.identity == after.value.identity
    && before.kind == after.value.kind && before.permissions == after.value.permissions
    && before.size == after.value.size && before.modified == after.value.modified
  }

  predicate IsLink(info: Option<Info>) { info.Some? && info.value.link }

  // ---- configReader ------------------------------------------------------------------------

  // What an open file yields: pieces, then the end or a read error.
  class ConfigReader {
    const pieces: seq<text>
    const fails: bool
    var next: nat
    var count: int
    var err: bool

    ghost predicate Valid()
      reads this
    {
      next <= |pieces| && count == |Concat(pieces[..next])| && (err ==> fails && next == |pieces|)
    }

    constructor (pieces: seq<text>, fails: bool)
      ensures Valid() && next == 0 && !err && this.pieces == pieces && this.fails == fails
    {
      this.pieces, this.fails, next, count, err := pieces, fails, 0, 0, false;
    }

    method Read() returns (p: text, end: bool)
      requires Valid()
      modifies this
      ensures Valid() && end == (old(next) == |pieces|)
      ensures !end ==> next == old(next) + 1 && p == pieces[old(next)] && err == old(err)
      ensures end ==> next == old(next) && err == (old(err) || fails)
    {
      if next == |pieces| {
        err := err || fails;
        return [], true;
      }
      p := pieces[next];
      assert pieces[..next + 1][..next] == pieces[..next];
      next := next + 1;
      count := count + |p|;
      end := false;
    }
  }

  // io.Copy out of the reader, into a bundle member or a hash.
  method Drain(r: ConfigReader) returns (all: text, ok: bool)
    requires r.Valid() && r.next == 0 && !r.err
    modifies r
    ensures r.Valid() && r.next == |r.pieces| && all == Concat(r.pieces)
    ensures ok <==> !r.fails
    ensures r.err == r.fails
  {
    all := [];
    var end := false;
    while !end
      invariant r.Valid() && all == Concat(r.pieces[..r.next]) && (end ==> r.next == |r.pieces| && r.err == r.fails)
      invariant !end ==> !r.err
      decreases |r.pieces| - r.next, !end
    {
      var p;
      assert r.next < |r.pieces| ==> r.pieces[..r.next + 1][..r.next] == r.pieces[..r.next];
      p, end := r.Read();
      if !end { all := all + p; }
    }
    assert r.pieces[..|r.pieces|] == r.pieces;
    ok := !r.err;
  }

  // ---- captureConfigFile ----------------------------------------------------------------------

  // What one visit to a file observes, in order: Lstat, Open, Stat, the bytes, whether the
  // consumer takes them, whether the context is found cancelled, Stat and Lstat again.
  datatype Visit = Visit(
    lstat: Option<Info>, opens: bool, stat: Option<Info>, pieces: seq<text>, readFails: bool,
    consumed: bool, cancelled: bool, statAfter: Option<Info>, lstatAfter: Option<Info>)

  // The file is the one expected at every look, and was read completely.
  predicate Steady(before: Info, v: Visit) {
    && Unchanged(before, v.lstat) && !IsLink(v.lstat) && v.opens && Unchanged(before, v.stat)
    && !v.readFails && v.consumed && !v.cancelled && |Concat(v.pieces)| == before.size
    && Unchanged(before, v.statAfter) && Unchanged(before, v.lstatAfter) && !IsLink(v.lstatAfter)
  }

  // The same in every respect but for what shows whether it is a link.
  predicate Seen(before: Info, look: Option<Info>) {
    look.Some? && look == Some(Info(before.identity, before.kind, before.permissions, before.size, before.modified,
      look.value.link))
  }

  lemma SteadyExactly(before: Info, v: Visit)
    ensures Steady(before, v) <==>
      && Seen(before, v.lstat) && Seen(before, v.stat) && Seen(before, v.statAfter) && Seen(before, v.lstatAfter)
      && !v.lstat.value.link && !v.lstatAfter.value.link
      && v.opens && !v.readFails && v.consumed && !v.cancelled && |Concat(v.pieces)| == before.size
  {
  }

  method CaptureFile(before: Info, v: Visit) returns (content: text, ok: bool)
    ensures ok <==> Steady(before, v)
    ensures ok ==>
      && Seen(before, v.lstat) && Seen(before, v.stat) && Seen(before, v.statAfter) && Seen(before, v.lstatAfter)
      && |content| == before.size
    ensures ok ==> content == Concat(v.pieces)
  {
    content := [];
    if !Unchanged(before, v.lstat) || IsLink(v.lstat) { return content, false; }
    if !v.opens { return content, false; }
    if !Unchanged(before, v.stat) { return content, false; }
    var reader := new ConfigReader(v.pieces, v.readFails);
    var copied;
    content, copied := Drain(reader);
    if !copied || !v.consumed { return content, false; }
    if v.cancelled { return content, false; }
    if reader.err { return content, false; }
    assert reader.pieces[..|reader.pieces|] == reader.pieces;
    if reader.count != before.size { return content, false; }
    if !Unchanged(before, v.statAfter) { return content, false; }
    if !Unchanged(before, v.lstatAfter) || IsLink(v.lstatAfter) { return content, false; }
    ok := true;
  }

  // ---- The first pass ---------------------------------------------------------------------------

  // One call of the function given to fs.WalkDir, and what comes of the path when it is a file
  // to be delivered later. A name may come again: for a directory that cannot be read, and from
  // one that changes while it is being read.
  datatype Sighting = Sighting(
    name: text, cancelled: bool, failed: bool, info: Option<Info>, cancelledLater: bool, visit: Visit)

  predicate Backslashed(name: text) { '\\' in name }

  predicate IsRegular(s: Sighting) { s.info.Some? && s.info.value.kind.Regular? }

  // The last of the first n sightings of its name.
  predicate LastOf(walk: seq<Sighting>, n: nat, i: nat)
    requires n <= |walk|
  {
    i < n && forall j :: i < j < n ==> walk[j].name != walk[i].name
  }

  // The inventory of a first pass, as far as it has come: every path with the metadata of its
  // last sighting, and the sightings of regular files in their order.
  ghost predicate Inventory(walk: seq<Sighting>, n: nat, entries: map<text, Info>, files: seq<nat>)
    requires n <= |walk|
  {
    (forall i :: 0 <= i < n ==> Listable(walk[i])) && Paths(walk, n, entries) && Files(walk, n, files)
  }

  ghost predicate Paths(walk: seq<Sighting>, n: nat, entries: map<text, Info>)
    requires n <= |walk|
  {
    && (forall i :: 0 <= i < n ==> walk[i].name in entries)
    && (forall i: nat :: LastOf(walk, n, i) && walk[i].info.Some? ==> entries[walk[i].name] == walk[i].info.value)
    && (forall name :: name in entries ==> exists i :: 0 <= i < n && walk[i].name == name)
  }

  ghost predicate Files(walk: seq<Sighting>, n: nat, files: seq<nat>)
    requires n <= |walk|
  {
    && (forall k :: 0 <= k < |files| ==> files[k] < n && IsRegular(walk[files[k]]))
    && (forall j, k :: 0 <= j < k < |files| ==> files[j] < files[k])
    && (forall i :: 0 <= i < n && IsRegular(walk[i]) ==> i in files)
  }

  predicate Listable(s: Sighting) {
    !s.cancelled && !s.failed && s.info.Some? && !s.info.value.link && !s.info.value.kind.Special?
      && !Backslashed(s.name)
  }

  method Scan(walk: seq<Sighting>) returns (entries: map<text, Info>, files: seq<nat>, ok: bool)
    ensures ok <==> forall i :: 0 <= i < |walk| ==> Listable(walk[i])
    ensures ok ==> Inventory(walk, |walk|, entries, files)
  {
    hide Backslashed, Inventory;
    entries, files := map[], [];
    NothingListed(walk);
    for i := 0 to |walk|
      invariant Inventory(walk, i, entries, files)
      invariant forall j :: 0 <= j < i ==> Listable(walk[j])
    {
      var s := walk[i];
      if s.cancelled || s.failed || s.info.None? { return entries, files, false; }
      var info := s.info.value;
      if info.link || Backslashed(s.name) { return entries, files, false; }
      if !info.kind.Special? { ListOneMore(walk, i, entries, files); }
      entries := entries[s.name := info];
      if info.kind.Directory? { continue; }
      if !info.kind.Regular? { return entries, files, false; }
      files := files + [i];
    }
    return entries, files, true;
  }

  lemma NothingListed(walk: seq<Sighting>)
    ensures Inventory(walk, 0, map[], [])
  {
  }

  lemma ListOneMore(walk: seq<Sighting>, i: nat, entries: map<text, Info>, files: seq<nat>)
    requires i < |walk| && Inventory(walk, i, entries, files) && Listable(walk[i])
    ensures var longer := if IsRegular(walk[i]) then files + [i] else files;
            Inventory(walk, i + 1, entries[walk[i].name := walk[i].info.value], longer)
  {
    OneMorePath(walk, i, entries);
    OneMoreFile(walk, i, files);
    hide Listable, Paths, Files;
  }

  lemma LastBefore(walk: seq<Sighting>, i: nat, j: nat)
    requires i < |walk| && LastOf(walk, i + 1, j)
    ensures j <= i && (j < i ==> LastOf(walk, i, j) && walk[j].name != walk[i].name)
  {
  }

  lemma OneMorePath(walk: seq<Sighting>, i: nat, entries: map<text, Info>)
    requires i < |walk| && Paths(walk, i, entries) && walk[i].info.Some?
    ensures Paths(walk, i + 1, entries[walk[i].name := walk[i].info.value])
  {
    hide LastOf;
    var longer := entries[walk[i].name := walk[i].info.value];
    forall j: nat | LastOf(walk, i + 1, j)
      ensures j <= i && (walk[j].info.Some? ==> longer[walk[j].name] == walk[j].info.value)
    {
      LastBefore(walk, i, j);
    }
    forall name | name in longer ensures exists j :: 0 <= j < i + 1 && walk[j].name == name {
      if name != walk[i].name { var j :| 0 <= j < i && walk[j].name == name; }
    }
  }

  lemma OneMoreFile(walk: seq<Sighting>, i: nat, files: seq<nat>)
    requires i < |walk| && Files(walk, i, files)
    ensures Files(walk, i + 1, if IsRegular(walk[i]) then files + [i] else files)
  {
    hide IsRegular;
    if IsRegular(walk[i]) {
      forall j | 0 <= j < i + 1 && IsRegular(walk[j]) ensures j in files + [i] {
        if j < i { assert j in files; } else { assert (files + [i])[|files|] == i; }
      }
    }
  }

  // ---- Delivering the files ----------------------------------------------------------------------

  datatype Member = Member(name: text, content: text)

  // The members delivered for the first n files of the inventory, and what they hash to.
  ghost predicate Delivers(
    sha256: text -> text, walk: seq<Sighting>, files: seq<nat>, n: nat, delivered: seq<Member>,
    hashes: map<text, text>)
    requires n <= |files| && forall k :: 0 <= k < |files| ==> files[k] < |walk|
  {
    && |delivered| == n
    && (forall k :: 0 <= k < n ==> delivered[k].name == CONFIG + walk[files[k]].name)
    && (forall k :: 0 <= k < n ==>
          walk[files[k]].name in hashes && hashes[walk[files[k]].name] == sha256(delivered[k].content))
    && (forall name :: name in hashes ==> exists k :: 0 <= k < n && walk[files[k]].name == name)
    && (forall k :: 0 <= k < n ==> delivered[k].content == Concat(walk[files[k]].visit.pieces))
  }

  predicate FilesDistinct(walk: seq<Sighting>, files: seq<nat>, n: nat)
    requires n <= |files| && forall k :: 0 <= k < |files| ==> files[k] < |walk|
  {
    forall j, k :: 0 <= j < k < n ==> walk[files[j]].name != walk[files[k]].name
  }

  predicate Deliverable(s: Sighting) { !s.cancelledLater && s.info.Some? && Steady(s.info.value, s.visit) }

  predicate BelowConfig(delivered: seq<Member>) {
    forall i :: 0 <= i < |delivered| ==> HasPrefix(delivered[i].name, CONFIG)
  }

  // The consumer refuses a member it has already been given.
  method Deliver(sha256: text -> text, walk: seq<Sighting>, files: seq<nat>)
    returns (delivered: seq<Member>, hashes: map<text, text>, ok: bool)
    requires forall k :: 0 <= k < |files| ==> files[k] < |walk| && walk[files[k]].info.Some?
    ensures ok <==>
      (forall k :: 0 <= k < |files| ==> Deliverable(walk[files[k]])) && FilesDistinct(walk, files, |files|)
    ensures ok ==> Delivers(sha256, walk, files, |files|, delivered, hashes)
    ensures BelowConfig(delivered)
  {
    hide Steady, Concat, Delivers, FilesDistinct, HasPrefix;
    delivered, hashes := [], map[];
    NothingDelivered(sha256, walk, files);
    for k := 0 to |files|
      invariant Delivers(sha256, walk, files, k, delivered, hashes)
      invariant forall j :: 0 <= j < k ==> Deliverable(walk[files[j]])
      invariant FilesDistinct(walk, files, k) && BelowConfig(delivered)
    {
      var s := walk[files[k]];
      DeliverOneMore(sha256, walk, files, k, delivered, hashes);
      if s.cancelledLater { return delivered, hashes, false; }
      var content, captured := CaptureFile(s.info.value, s.visit);
      if !captured || s.name in hashes { return delivered, hashes, false; }
      delivered := delivered + [Member(CONFIG + s.name, content)];
      hashes := hashes[s.name := sha256(content)];
    }
    ok := true;
  }

  lemma NothingDelivered(sha256: text -> text, walk: seq<Sighting>, files: seq<nat>)
    requires forall k :: 0 <= k < |files| ==> files[k] < |walk|
    ensures Delivers(sha256, walk, files, 0, [], map[]) && FilesDistinct(walk, files, 0)
  {
  }

  lemma DeliverOneMore(
    sha256: text -> text, walk: seq<Sighting>, files: seq<nat>, k: nat, delivered: seq<Member>,
    hashes: map<text, text>)
    requires k < |files| && forall j :: 0 <= j < |files| ==> files[j] < |walk|
    requires Delivers(sha256, walk, files, k, delivered, hashes) && FilesDistinct(walk, files, k)
    ensures var s := walk[files[k]];
            var content := Concat(s.visit.pieces);
      && HasPrefix(CONFIG + s.name, CONFIG)
      && (s.name in hashes ==> !FilesDistinct(walk, files, k + 1) && !FilesDistinct(walk, files, |files|))
      && (s.name !in hashes ==>
            && FilesDistinct(walk, files, k + 1)
            && Delivers(sha256, walk, files, k + 1, delivered + [Member(CONFIG + s.name, content)],
              hashes[s.name := sha256(content)]))
  {
    hide Concat;
    var s := walk[files[k]];
    if s.name in hashes {
      var j :| 0 <= j < k && walk[files[j]].name == s.name;
    }
    assert (CONFIG + s.name)[..|CONFIG|] == CONFIG;
  }

  // ---- The second pass -----------------------------------------------------------------------------

  // A directory that holds still: every path below it with its metadata and content.
  datatype Node = Node(info: Info, content: text)
  type Still = map<text, Node>

  function StillVisit(node: Node): Visit {
    Visit(Some(node.info), true, Some(node.info), [node.content], false, true, false, Some(node.info), Some(node.info))
  }

  // What the second pass finds of one path.
  predicate Agrees(sha256: text -> text, before: Info, hash: Option<text>, node: Node) {
    && Unchanged(before, Some(node.info)) && !node.info.link
    && (before.kind.Regular? ==> |node.content| == before.size && hash == Some(sha256(node.content)))
  }

  function Lookup(hashes: map<text, text>, name: text): Option<text> {
    if name in hashes then Some(hashes[name]) else None
  }

  // One turn of the second walk.
  method Revisit(sha256: text -> text, before: Info, hash: Option<text>, node: Node) returns (same: bool)
    ensures same <==> Agrees(sha256, before, hash, node)
  {
    if !Unchanged(before, Some(node.info)) || IsLink(Some(node.info)) { return false; }
    if before.kind.Regular? {
      var content;
      content, same := CaptureFile(before, StillVisit(node));
      OnePiece(node.content);
      if !same || hash != Some(sha256(content)) { return false; }
    }
    same := true;
  }

  ghost predicate Rechecked(
    sha256: text -> text, entries: map<text, Info>, hashes: map<text, text>, dir: Still, faults: set<text>,
    done: set<text>)
  {
    && done <= dir.Keys && done <= entries.Keys && done !! faults
    && forall name :: name in done ==> Agrees(sha256, entries[name], Lookup(hashes, name), dir[name])
  }

  lemma NothingRechecked(
    sha256: text -> text, entries: map<text, Info>, hashes: map<text, text>, dir: Still, faults: set<text>)
    ensures Rechecked(sha256, entries, hashes, dir, faults, {})
  {
  }

  lemma OneMoreRechecked(
    sha256: text -> text, entries: map<text, Info>, hashes: map<text, text>, dir: Still, faults: set<text>,
    done: set<text>, name: text)
    requires Rechecked(sha256, entries, hashes, dir, faults, done)
    requires name in dir && name in entries && name !in faults
    requires Agrees(sha256, entries[name], Lookup(hashes, name), dir[name])
    ensures Rechecked(sha256, entries, hashes, dir, faults, done + {name})
  {
    hide Agrees, Lookup;
  }

  lemma RecheckedAll(
    sha256: text -> text, entries: map<text, Info>, hashes: map<text, text>, dir: Still, faults: set<text>)
    ensures Rechecked(sha256, entries, hashes, dir, faults, dir.Keys) <==>
      && dir.Keys <= entries.Keys && dir.Keys !! faults
      && forall name :: name in dir && name in entries ==>
        Agrees(sha256, entries[name], Lookup(hashes, name), dir[name])
  {
    hide Agrees, Lookup;
  }

  method Recheck(
    sha256: text -> text, entries: map<text, Info>, hashes: map<text, text>, dir: Still, faults: set<text>)
    returns (ok: bool)
    ensures ok <==>
      && dir.Keys == entries.Keys && dir.Keys !! faults
      && forall name :: name in dir && name in entries ==>
        Agrees(sha256, entries[name], Lookup(hashes, name), dir[name])
  {
    hide Agrees, Lookup, Rechecked;
    NothingRechecked(sha256, entries, hashes, dir, faults);
    var seen := 0;
    var todo := dir.Keys;
    ghost var done: set<text> := {};
    while todo != {}
      invariant done + todo == dir.Keys && done !! todo && seen == |done|
      invariant Rechecked(sha256, entries, hashes, dir, faults, done)
      decreases |todo|
    {
      var name :| name in todo;
      if name in faults || name !in entries { return false; }
      var same := Revisit(sha256, entries[name], Lookup(hashes, name), dir[name]);
      if !same { return false; }
      OneMoreRechecked(sha256, entries, hashes, dir, faults, done, name);
      todo, done := todo - {name}, done + {name};
      seen := seen + 1;
    }
    RecheckedAll(sha256, entries, hashes, dir, faults);
    SameInventory(dir.Keys, entries.Keys);
    ok := seen == |entries|;
  }

  lemma OnePiece(content: text)
    ensures Concat([content]) == content
  {
    assert [content][..0] == [] && [] + content == content;
  }

  // Counting is enough once every path seen is on the list.
  lemma SameInventory(seen: set<text>, listed: set<text>)
    requires seen <= listed
    ensures |seen| == |listed| <==> seen == listed
  {
    if |seen| == |listed| { assert |listed - seen| == |listed| - |seen|; }
  }

  // ---- captureConfig ---------------------------------------------------------------------------------

  // The configured path and the opened root, as they show at the beginning and at the end,
  // and the polls of the context.
  datatype Root = Root(
    lstat: Option<Info>, opens: bool, stat: Option<Info>, lstatAfter: Option<Info>,
    cancelledBefore: bool, cancelledAfter: bool)

  predicate RootSteady(r: Root) {
    && r.lstat.Some? && r.lstat.value.kind.Directory? && !r.lstat.value.link
    && r.opens && r.stat.Some? && r.lstat.value.identity == r.stat.value.identity
    && r.lstatAfter.Some? && r.stat.value.identity == r.lstatAfter.value.identity && !r.lstatAfter.value.link
  }

  // The members a directory that holds still stands for.
  function FileNames(dir: Still): set<text> { set name | name in dir && dir[name].info.kind.Regular? }

  ghost predicate FromFile(sha256: text -> text, dir: Still, m: Member) {
    exists name: text :: IsFile(sha256, dir, name, m)
  }

  ghost predicate IsDelivered(sha256: text -> text, dir: Still, name: text, delivered: seq<Member>) {
    exists i :: 0 <= i < |delivered| && IsFile(sha256, dir, name, delivered[i])
  }

  ghost predicate Faithful(sha256: text -> text, dir: Still, delivered: seq<Member>) {
    && EachOnce(delivered)
    && (forall i :: 0 <= i < |delivered| ==> FromFile(sha256, dir, delivered[i]))
    && (forall name :: name in FileNames(dir) ==> IsDelivered(sha256, dir, name, delivered))
  }

  predicate EachOnce(delivered: seq<Member>) {
    forall i, j :: 0 <= i < j < |delivered| ==> delivered[i].name != delivered[j].name
  }

  // A member delivered for a file: its name below config/ and, as far as the digest tells,
  // its present content.
  predicate IsFile(sha256: text -> text, dir: Still, name: text, m: Member) {
    name in FileNames(dir) && m.name == CONFIG + name && sha256(m.content) == sha256(dir[name].content)
  }

  // No digest is shared by what was delivered and what lies there now, unless the bytes are.
  ghost predicate NoCollision(sha256: text -> text, dir: Still, delivered: seq<Member>) {
    forall i, name :: 0 <= i < |delivered| && name in dir ==>
      (sha256(delivered[i].content) == sha256(dir[name].content) ==> delivered[i].content == dir[name].content)
  }

  // The regular files of the directory, each once, byte for byte.
  ghost predicate Exact(dir: Still, delivered: seq<Member>) {
    && EachOnce(delivered)
    && (forall i :: 0 <= i < |delivered| ==> Holds(dir, delivered[i]))
    && (forall name :: name in FileNames(dir) ==> Member(CONFIG + name, dir[name].content) in delivered)
  }

  ghost predicate Holds(dir: Still, m: Member) {
    exists name: text :: name in FileNames(dir) && m == Member(CONFIG + name, dir[name].content)
  }

  lemma FaithfulIsExact(sha256: text -> text, dir: Still, delivered: seq<Member>)
    requires Faithful(sha256, dir, delivered) && NoCollision(sha256, dir, delivered)
    ensures Exact(dir, delivered)
  {
    forall i | 0 <= i < |delivered| ensures Holds(dir, delivered[i]) {
      var name: text :| IsFile(sha256, dir, name, delivered[i]);
      assert delivered[i] == Member(CONFIG + name, dir[name].content);
    }
    forall name | name in FileNames(dir) ensures Member(CONFIG + name, dir[name].content) in delivered {
      assert IsDelivered(sha256, dir, name, delivered);
      var i :| 0 <= i < |delivered| && IsFile(sha256, dir, name, delivered[i]);
      assert delivered[i] == Member(CONFIG + name, dir[name].content);
    }
  }

  // What a capture succeeds on: a steady root; a first pass that could list everything and read
  // every regular file, of which there is at least one and no name twice; and a second pass that
  // finds the very same paths, as they were last seen, with the bytes that were read.
  ghost predicate Walked(walk: seq<Sighting>, name: text) { exists i :: 0 <= i < |walk| && walk[i].name == name }

  ghost predicate FirstPass(walk: seq<Sighting>) {
    && (forall i :: 0 <= i < |walk| ==> Listable(walk[i]))
    && (exists i :: 0 <= i < |walk| && IsRegular(walk[i]))
    && (forall i :: 0 <= i < |walk| && IsRegular(walk[i]) ==> Deliverable(walk[i]))
    && RegularDistinct(walk)
  }

  predicate RegularDistinct(walk: seq<Sighting>) {
    forall i, j :: 0 <= i < j < |walk| && IsRegular(walk[i]) && IsRegular(walk[j]) ==> walk[i].name != walk[j].name
  }

  function HashRead(sha256: text -> text, s: Sighting): Option<text> {
    if IsRegular(s) then Some(sha256(Concat(s.visit.pieces))) else None
  }

  ghost predicate Matches(sha256: text -> text, s: Sighting, dir: Still) {
    s.name in dir && s.info.Some? && Agrees(sha256, s.info.value, HashRead(sha256, s), dir[s.name])
  }

  ghost predicate SecondPass(sha256: text -> text, walk: seq<Sighting>, dir: Still, faults: set<text>) {
    && dir.Keys !! faults && (forall name :: name in dir ==> Walked(walk, name))
    && forall i: nat :: LastOf(walk, |walk|, i) ==> Matches(sha256, walk[i], dir)
  }

  // No path was seen as a regular file and later as something else.
  predicate Unsuperseded(walk: seq<Sighting>) {
    forall i :: 0 <= i < |walk| && IsRegular(walk[i]) ==> LastOf(walk, |walk|, i)
  }

  // A sighting that can be kept: of a file or directory that is no link, under a name that has
  // no backslash in it.
  predicate Keepable(s: Sighting) {
    && s.info.Some? && !s.info.value.link && (s.info.value.kind == Regular || s.info.value.kind == Directory)
    && forall k :: 0 <= k < |s.name| ==> s.name[k] as nat != 0x5C
  }

  // The path is still there, in every respect as it was seen.
  predicate SeenAgain(s: Sighting, dir: Still) { s.name in dir && s.info == Some(dir[s.name].info) }

  lemma PassesMean(sha256: text -> text, walk: seq<Sighting>, dir: Still, faults: set<text>)
    requires FirstPass(walk) && SecondPass(sha256, walk, dir, faults)
    ensures forall i: nat :: i < |walk| ==> Keepable(walk[i])
    ensures forall i: nat :: LastOf(walk, |walk|, i) ==> SeenAgain(walk[i], dir)
  {
    forall i: nat | i < |walk| ensures Keepable(walk[i]) { assert Listable(walk[i]); }
    forall i: nat | LastOf(walk, |walk|, i) ensures SeenAgain(walk[i], dir) { assert Listable(walk[i]); }
  }

  // The configured path is a directory, and the very same one at every look.
  ghost predicate RootHeld(r: Root) {
    && r.lstat.Some? && r.stat.Some? && r.lstatAfter.Some?
    && r.lstat.value.kind == Directory && !r.lstat.value.link && !r.lstatAfter.value.link
    && r.lstat.value.identity == r.stat.value.identity == r.lstatAfter.value.identity
  }

  // Whatever the first pass saw: when the capture succeeds on a directory that held still
  // during the second pass, the delivered members are its regular files - if and only if the
  // first pass saw no file turn into a directory behind its back.
  method CaptureConfig(
    sha256: text -> text, configured: bool, root: Root, walk: seq<Sighting>, dir: Still, faults: set<text>)
    returns (delivered: seq<Member>, ok: bool)
    ensures configured ==> (ok <==>
      && !root.cancelledBefore && RootSteady(root) && FirstPass(walk) && SecondPass(sha256, walk, dir, faults)
      && !root.cancelledAfter)
    ensures ok && configured ==> delivered != [] && (Faithful(sha256, dir, delivered) <==> Unsuperseded(walk))
    ensures ok && configured && Unsuperseded(walk) && NoCollision(sha256, dir, delivered) ==> Exact(dir, delivered)
    ensures ok && configured ==> RootHeld(root)
    ensures ok && configured ==> forall i: nat :: i < |walk| ==> Keepable(walk[i])
    ensures ok && configured ==> forall i: nat :: LastOf(walk, |walk|, i) ==> SeenAgain(walk[i], dir)
    ensures BelowConfig(delivered)
    ensures !configured ==> delivered == [] && ok == !root.cancelledBefore
  {
    hide Agrees, Listable, Deliverable, Inventory, Delivers, Faithful, Exact, NoCollision, SecondPass,
      RegularDistinct;
    delivered := [];
    if root.cancelledBefore { return delivered, false; }
    if !configured { return delivered, true; }
    if root.lstat.None? || !root.lstat.value.kind.Directory? || root.lstat.value.link { return delivered, false; }
    if !root.opens || root.stat.None? || root.lstat.value.identity != root.stat.value.identity {
      return delivered, false;
    }
    var entries, files, scanned := Scan(walk);
    if !scanned { return delivered, false; }
    FilesExact(walk, entries, files);
    if files == [] { return delivered, false; }
    var hashes;
    delivered, hashes, ok := Deliver(sha256, walk, files);
    if !ok { return; }
    SecondPassMeans(sha256, walk, entries, files, hashes, dir, delivered, faults);
    ok := Recheck(sha256, entries, hashes, dir, faults);
    if !ok { return; }
    if root.lstatAfter.None? || root.stat.value.identity != root.lstatAfter.value.identity
      || root.lstatAfter.value.link {
      return delivered, false;
    }
    CaptureAgrees(sha256, walk, entries, files, hashes, dir, delivered);
    PassesMean(sha256, walk, dir, faults);
    ok := !root.cancelledAfter;
  }

  lemma FilesExact(walk: seq<Sighting>, entries: map<text, Info>, files: seq<nat>)
    requires Inventory(walk, |walk|, entries, files)
    ensures forall i: nat :: i in files <==> i < |walk| && IsRegular(walk[i])
    ensures files == [] <==> forall i :: 0 <= i < |walk| ==> !IsRegular(walk[i])
    ensures forall k :: 0 <= k < |files| ==> files[k] < |walk| && walk[files[k]].info.Some?
    ensures (forall k :: 0 <= k < |files| ==> Deliverable(walk[files[k]])) <==>
            forall i :: 0 <= i < |walk| && IsRegular(walk[i]) ==> Deliverable(walk[i])
    ensures FilesDistinct(walk, files, |files|) <==> RegularDistinct(walk)
  {
    hide Deliverable, Listable;
    forall i | 0 <= i < |walk| && IsRegular(walk[i]) ensures i in files { }
    if files != [] { assert IsRegular(walk[files[0]]); }
    if FilesDistinct(walk, files, |files|) {
      forall i, j | 0 <= i < j < |walk| && IsRegular(walk[i]) && IsRegular(walk[j])
        ensures walk[i].name != walk[j].name {
        PlacesInOrder(files, i, j);
      }
    }
  }

  lemma PlacesInOrder(files: seq<nat>, i: nat, j: nat)
    requires i in files && j in files && i < j && forall a, b :: 0 <= a < b < |files| ==> files[a] < files[b]
    ensures exists a, b :: 0 <= a < b < |files| && files[a] == i && files[b] == j
  {
    var a :| 0 <= a < |files| && files[a] == i;
    var b :| 0 <= b < |files| && files[b] == j;
  }

  // What was recorded of the last sighting of a path is what the second pass compares with.
  lemma Recorded(
    sha256: text -> text, walk: seq<Sighting>, entries: map<text, Info>, files: seq<nat>, hashes: map<text, text>,
    delivered: seq<Member>, i: nat)
    requires LastOf(walk, |walk|, i)
    requires Inventory(walk, |walk|, entries, files) && Delivers(sha256, walk, files, |files|, delivered, hashes)
    ensures walk[i].info.Some? && walk[i].name in entries && entries[walk[i].name] == walk[i].info.value
    ensures IsRegular(walk[i]) ==> Lookup(hashes, walk[i].name) == HashRead(sha256, walk[i])
  {
    hide Concat;
    if IsRegular(walk[i]) {
      assert i in files;
      var k :| 0 <= k < |files| && files[k] == i;
    }
  }

  lemma {:induction false} LastSighting(walk: seq<Sighting>, name: text, n: nat) returns (i: nat)
    requires n <= |walk| && exists j :: 0 <= j < n && walk[j].name == name
    ensures LastOf(walk, n, i) && walk[i].name == name
  {
    i := n - 1;
    if walk[n - 1].name != name { i := LastSighting(walk, name, n - 1); }
  }

  lemma SecondPassMeans(
    sha256: text -> text, walk: seq<Sighting>, entries: map<text, Info>, files: seq<nat>, hashes: map<text, text>,
    dir: Still, delivered: seq<Member>, faults: set<text>)
    requires Inventory(walk, |walk|, entries, files) && Delivers(sha256, walk, files, |files|, delivered, hashes)
    ensures SecondPass(sha256, walk, dir, faults) <==>
      && dir.Keys == entries.Keys && dir.Keys !! faults
      && forall name :: name in dir && name in entries ==>
        Agrees(sha256, entries[name], Lookup(hashes, name), dir[name])
  {
    hide Delivers, HashRead, Lookup, Inventory, LastOf, Agrees;
    NamesWalked(walk, entries, files);
    forall i: nat | LastOf(walk, |walk|, i)
      ensures i < |walk| && walk[i].info.Some? && walk[i].name in entries
      ensures walk[i].name in dir ==>
        (Matches(sha256, walk[i], dir) <==>
          Agrees(sha256, entries[walk[i].name], Lookup(hashes, walk[i].name), dir[walk[i].name]))
    {
      LastIsSeen(walk, i);
      Recorded(sha256, walk, entries, files, hashes, delivered, i);
      if walk[i].name in dir { SameVerdict(sha256, walk[i], Lookup(hashes, walk[i].name), dir[walk[i].name]); }
    }
    forall name | name in entries
      ensures exists i: nat :: LastOf(walk, |walk|, i) && i < |walk| && walk[i].name == name
    {
      var i := LastSighting(walk, name, |walk|);
      LastIsSeen(walk, i);
    }
  }

  lemma LastIsSeen(walk: seq<Sighting>, i: nat)
    requires LastOf(walk, |walk|, i)
    ensures i < |walk|
  {
  }

  // Only for regular files does the digest matter.
  lemma SameVerdict(sha256: text -> text, s: Sighting, hash: Option<text>, node: Node)
    requires s.info.Some? && (IsRegular(s) ==> hash == HashRead(sha256, s))
    ensures Agrees(sha256, s.info.value, HashRead(sha256, s), node) <==> Agrees(sha256, s.info.value, hash, node)
  {
    hide Unchanged;
  }

  lemma NamesWalked(walk: seq<Sighting>, entries: map<text, Info>, files: seq<nat>)
    requires Inventory(walk, |walk|, entries, files)
    ensures forall name :: name in entries <==> Walked(walk, name)
  {
  }

  lemma CaptureAgrees(
    sha256: text -> text, walk: seq<Sighting>, entries: map<text, Info>, files: seq<nat>, hashes: map<text, text>,
    dir: Still, delivered: seq<Member>)
    requires Inventory(walk, |walk|, entries, files) && FilesDistinct(walk, files, |files|)
    requires Delivers(sha256, walk, files, |files|, delivered, hashes)
    requires dir.Keys == entries.Keys
    requires forall name :: name in dir ==> Agrees(sha256, entries[name], Lookup(hashes, name), dir[name])
    ensures Faithful(sha256, dir, delivered) <==> Unsuperseded(walk)
    ensures Unsuperseded(walk) && NoCollision(sha256, dir, delivered) ==> Exact(dir, delivered)
    ensures |delivered| == |files|
  {
    hide Inventory, Delivers, Agrees, IsFile, EachOnce, LastOf, NoCollision, Exact, Unsuperseded;
    FilesExact(walk, entries, files);
    DeliveredOnce(sha256, walk, files, delivered, hashes);
    forall k | 0 <= k < |delivered|
      ensures |delivered| == |files| && files[k] < |walk|
      ensures FromFile(sha256, dir, delivered[k]) <==> LastOf(walk, |walk|, files[k])
    {
      DeliveredIsFile(sha256, walk, entries, files, hashes, dir, delivered, k);
    }
    forall name | name in FileNames(dir) ensures IsDelivered(sha256, dir, name, delivered) {
      var i := FileIsDelivered(sha256, walk, entries, files, hashes, dir, delivered, name);
    }
    AllLast(walk, files);
    if Unsuperseded(walk) && NoCollision(sha256, dir, delivered) { FaithfulIsExact(sha256, dir, delivered); }
  }

  lemma AllLast(walk: seq<Sighting>, files: seq<nat>)
    requires forall i: nat :: i in files <==> i < |walk| && IsRegular(walk[i])
    ensures Unsuperseded(walk) <==> forall k :: 0 <= k < |files| ==> LastOf(walk, |walk|, files[k])
  {
    hide LastOf;
    if forall k :: 0 <= k < |files| ==> LastOf(walk, |walk|, files[k]) {
      forall i: nat | i < |walk| && IsRegular(walk[i]) ensures LastOf(walk, |walk|, i) {
        var k :| 0 <= k < |files| && files[k] == i;
      }
    }
    forall k | 0 <= k < |files| ensures files[k] < |walk| && IsRegular(walk[files[k]]) { assert files[k] in files; }
  }

  lemma DeliveredIsFile(
    sha256: text -> text, walk: seq<Sighting>, entries: map<text, Info>, files: seq<nat>, hashes: map<text, text>,
    dir: Still, delivered: seq<Member>, k: nat)
    requires Inventory(walk, |walk|, entries, files) && Delivers(sha256, walk, files, |files|, delivered, hashes)
    requires FilesDistinct(walk, files, |files|) && dir.Keys == entries.Keys && k < |delivered|
    requires forall name :: name in dir ==> Agrees(sha256, entries[name], Lookup(hashes, name), dir[name])
    ensures |delivered| == |files| && files[k] < |walk|
    ensures FromFile(sha256, dir, delivered[k]) <==> LastOf(walk, |walk|, files[k])
  {
    hide Listable, Inventory;
    FilesExact(walk, entries, files);
    var i := files[k];
    var name := walk[i].name;
    var last := KindAtLast(walk, entries, files, i);
    assert Agrees(sha256, entries[name], Lookup(hashes, name), dir[name]);
    if last == i {
      assert IsFile(sha256, dir, name, delivered[k]);
    } else {
      forall other: text ensures !IsFile(sha256, dir, other, delivered[k]) { SamePrefix(CONFIG, name, other); }
    }
  }

  // A regular sighting is the last of its path, or the path was last seen as a directory.
  lemma KindAtLast(walk: seq<Sighting>, entries: map<text, Info>, files: seq<nat>, i: nat) returns (last: nat)
    requires Inventory(walk, |walk|, entries, files) && FilesDistinct(walk, files, |files|)
    requires i < |walk| && IsRegular(walk[i])
    ensures walk[i].name in entries && (last == i <==> LastOf(walk, |walk|, i))
    ensures entries[walk[i].name].kind == (if last == i then Regular else Directory)
  {
    FilesExact(walk, entries, files);
    last := LastSighting(walk, walk[i].name, |walk|);
    assert Listable(walk[last]);
  }

  lemma FileIsDelivered(
    sha256: text -> text, walk: seq<Sighting>, entries: map<text, Info>, files: seq<nat>, hashes: map<text, text>,
    dir: Still, delivered: seq<Member>, name: text) returns (k: nat)
    requires Inventory(walk, |walk|, entries, files) && Delivers(sha256, walk, files, |files|, delivered, hashes)
    requires dir.Keys == entries.Keys && name in FileNames(dir)
    requires forall name :: name in dir ==> Agrees(sha256, entries[name], Lookup(hashes, name), dir[name])
    ensures k < |delivered| && IsFile(sha256, dir, name, delivered[k])
  {
    hide Concat;
    assert Agrees(sha256, entries[name], Lookup(hashes, name), dir[name]);
    var i := LastSighting(walk, name, |walk|);
    assert Listable(walk[i]);
    assert i in files;
    k :| 0 <= k < |files| && files[k] == i;
  }

  lemma DeliveredOnce(
    sha256: text -> text, walk: seq<Sighting>, files: seq<nat>, delivered: seq<Member>, hashes: map<text, text>)
    requires forall k :: 0 <= k < |files| ==> files[k] < |walk|
    requires FilesDistinct(walk, files, |files|) && Delivers(sha256, walk, files, |files|, delivered, hashes)
    ensures EachOnce(delivered) && |delivered| == |files|
  {
    hide Concat;
    forall i, j | 0 <= i < j < |delivered| ensures delivered[i].name != delivered[j].name {
      SamePrefix(CONFIG, walk[files[i]].name, walk[files[j]].name);
    }
  }

  lemma SamePrefix(p: text, a: text, b: text)
    ensures p + a == p + b ==> a == b
  {
    assert a == (p + a)[|p|..] && b == (p + b)[|p|..];
  }

  // ---- A file that turns into a directory ------------------------------------------------------

  const THE_ROOT := Info(0, Directory, 0, 0, 0, false)
  const A_FILE := Info(1, Regular, 0, 0, 0, false)
  const A_DIRECTORY := Info(2, Directory, 0, 0, 0, false)
  const A_VISIT := Visit(Some(A_FILE), true, Some(A_FILE), [], false, true, false, Some(A_FILE), Some(A_FILE))

  // The walk begins at the root, whose listing shows "a" twice.
  const CHANGELING: seq<Sighting> := [
    Sighting(".", false, false, Some(THE_ROOT), false, A_VISIT),
    Sighting("a", false, false, Some(A_FILE), false, A_VISIT),
    Sighting("a", false, false, Some(A_DIRECTORY), false, A_VISIT)
  ]
  const CHANGED: Still := map["." := Node(THE_ROOT, []), "a" := Node(A_DIRECTORY, [])]

  lemma ChangelingListed()
    ensures FirstPass(CHANGELING) && !Unsuperseded(CHANGELING)
  {
    var walk := CHANGELING;
    assert IsRegular(walk[1]) && walk[2].name == "a";
    assert Concat([]) == [];
    assert !LastOf(walk, |walk|, 1);
  }

  lemma ChangelingAgrees(sha256: text -> text, i: nat)
    requires i == 0 || i == 2
    ensures Matches(sha256, CHANGELING[i], CHANGED)
  {
    assert "." != "a";
  }

  // Both passes can succeed although the path seen first as a file is a directory in the end:
  // the second sighting replaces the first in the inventory, not in the list of files.
  lemma SupersededFile(sha256: text -> text)
    ensures FirstPass(CHANGELING) && !Unsuperseded(CHANGELING)
    ensures SecondPass(sha256, CHANGELING, CHANGED, {})
  {
    hide FirstPass, Unsuperseded, Matches;
    var walk := CHANGELING;
    ChangelingListed();
    ChangelingAgrees(sha256, 0);
    ChangelingAgrees(sha256, 2);
    assert walk[2].name == "a" && walk[0].name == ".";
    assert Walked(walk, "a") && Walked(walk, ".");
    assert !LastOf(walk, |walk|, 1);
  }
}
