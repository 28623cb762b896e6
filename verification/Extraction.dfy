/** extract-config: the chosen members staged in a new directory, then put in place at once. */
module Extraction {
  import opened Text
  import opened Members
  import opened Bundle

  // A path as the names from some directory down, and what is below a directory.
  type Path = seq<text>
  datatype Node = Directory | File(content: text)
  type Tree = map<Path, Node>

  // The tree hung at a path.
  function Graft(root: Path, tree: Tree): Tree { map p | p in GraftKeys(root, tree) :: tree[p[|root|..]] }

  function GraftKeys(root: Path, tree: Tree): (keys: set<Path>)
    ensures forall p :: p in keys <==> root <= p && p[|root|..] in tree
  {
    var keys := set rel | rel in tree :: root + rel;
    assert forall rel :: rel in tree ==> (root + rel)[|root|..] == rel;
    assert forall p: Path :: root <= p ==> root + p[|root|..] == p;
    keys
  }

  // The members extract-config takes.
  predicate Selected(e: Entry) { e.name == MANIFEST || e.name == REPLICA_SET || HasPrefix(e.name, CONFIG) }

  // p is a directory on the way to rel.
  predicate Above(p: Path, rel: Path) { |p| < |rel| && rel[..|p|] == p }

  // os.MkdirAll of the directories above a path. It fails on a file in their way, and
  // os.OpenFile with O_EXCL fails on anything at the path itself.
  function MkdirAll(tree: Tree, rel: Path): Tree
    decreases |rel|
  {
    if rel == [] then tree
    else
      var parent := rel[..|rel| - 1];
      var above := MkdirAll(tree, parent);
      if parent in above then above else above[parent := Directory]
  }

  predicate Blocked(tree: Tree, rel: Path) {
    rel in tree || exists p :: p in tree && tree[p].File? && Above(p, rel)
  }

  function Place(tree: Tree, rel: Path, content: text): Tree { MkdirAll(tree, rel)[rel := File(content)] }

  // The staging directory after the first n members; None when one of them cannot be taken.
  function Staged(entries: seq<Entry>, n: nat): Option<Tree>
    requires n <= |entries|
  {
    if n == 0 then Some(map[[] := Directory])
    else
      var e := entries[n - 1];
      match Staged(entries, n - 1)
      case None => None
      case Some(tree) =>
        if !Selected(e) then Some(tree)
        else if !SafeMember(e.name) || Blocked(tree, Components(e.name)) || e.content.None? then None
        else Some(Place(tree, Components(e.name), e.content.value))
  }

  // What the machine may do meanwhile: refuse the staging directory, fail on a member, turn
  // out cancelled, or fail the final rename.
  datatype Faults = Faults(mkdirTemp: bool, member: nat -> bool, cancelled: bool, rename: bool)

  predicate MembersFaultless(f: Faults, entries: seq<Entry>) {
    forall i :: 0 <= i < |entries| && Selected(entries[i]) ==> !f.member(i)
  }

  predicate Faultless(f: Faults, entries: seq<Entry>) {
    !f.mkdirTemp && !f.cancelled && !f.rename && MembersFaultless(f, entries)
  }

  // The file system, and the subtree of a temporary directory with a name of its own.
  class FileSystem {
    var nodes: Tree
    var staging: Option<Tree>

    constructor (nodes: Tree)
      ensures this.nodes == nodes && staging.None?
    {
      this.nodes, staging := nodes, None;
    }

    method RemoveStaging()
      modifies this`staging
      ensures staging.None?
    {
      staging := None;
    }

    method Rename(dest: Path)
      requires staging.Some?
      modifies this
      ensures nodes == old(nodes) + Graft(dest, old(staging).value) && staging.None?
    {
      nodes := nodes + Graft(dest, staging.value);
      staging := None;
    }

    // The members one after the other into the staging directory. A member that fails half
    // way may leave a part of itself there.
    method CopyMembers(entries: seq<Entry>, f: Faults) returns (ok: bool)
      requires staging == Staged(entries, 0)
      modifies this`staging
      ensures ok <==> Staged(entries, |entries|).Some? && MembersFaultless(f, entries)
      ensures ok ==> staging == Staged(entries, |entries|)
      ensures staging.Some?
    {
      hide SafeMember, Selected, Blocked, Place;
      for i := 0 to |entries|
        invariant staging.Some? && staging == Staged(entries, i)
        invariant forall j :: 0 <= j < i && Selected(entries[j]) ==> !f.member(j)
      {
        var e := entries[i];
        if !Selected(e) { continue; }
        if !SafeMember(e.name) { StagedFails(entries, i + 1); return false; }
        var rel := Components(e.name);
        var tree := staging.value;
        if Blocked(tree, rel) { StagedFails(entries, i + 1); return false; }
        if e.content.None? || f.member(i) {
          if e.content.None? { StagedFails(entries, i + 1); }
          staging := Some(Place(tree, rel, []));
          return false;
        }
        staging := Some(Place(tree, rel, e.content.value));
      }
      return true;
    }
  }

  lemma {:induction false} StagedFails(entries: seq<Entry>, n: nat)
    requires n <= |entries| && Staged(entries, n).None?
    ensures Staged(entries, |entries|).None?
    decreases |entries| - n
  {
    hide SafeMember, Selected, Blocked, Place;
    if n < |entries| { StagedFails(entries, n + 1); }
  }

  // Either the destination holds exactly the staged tree and nothing else has changed, or
  // nothing has changed at all; the temporary directory is gone in both cases.
  method ExtractConfiguration(fs: FileSystem, entries: seq<Entry>, dest: Path, f: Faults) returns (ok: bool)
    requires fs.staging.None?
    modifies fs
    ensures ok <==> dest !in old(fs.nodes) && Faultless(f, entries) && Staged(entries, |entries|).Some?
    ensures fs.nodes == if ok then old(fs.nodes) + Graft(dest, Staged(entries, |entries|).value) else old(fs.nodes)
    ensures fs.staging.None?
    ensures ok ==> Extracted(old(fs.nodes), fs.nodes, entries, dest)
  {
    if dest in fs.nodes { return false; }
    if f.mkdirTemp { return false; }
    fs.staging := Some(map[[] := Directory]);
    ok := fs.CopyMembers(entries, f);
    if !ok || f.cancelled || f.rename {
      fs.RemoveStaging();
      return false;
    }
    ghost var before := fs.nodes;
    fs.Rename(dest);
    StagedIsExtracted(before, entries, dest);
  }

  // ---- What the staged tree is -----------------------------------------------------------------

  lemma {:induction false} MkdirAllExact(tree: Tree, rel: Path)
    ensures var made := MkdirAll(tree, rel);
      && (forall p :: p in made <==> p in tree || Above(p, rel))
      && (forall p :: p in made ==> made[p] == if p in tree then tree[p] else Directory)
    decreases |rel|
  {
    if rel != [] {
      var parent := rel[..|rel| - 1];
      MkdirAllExact(tree, parent);
      forall p ensures Above(p, rel) <==> Above(p, parent) || p == parent {
        if |p| < |rel| { assert rel[..|p|] == parent[..|p|]; }
      }
    }
  }

  ghost predicate TakenAt(entries: seq<Entry>, n: nat, i: int, rel: Path)
    requires n <= |entries|
  {
    0 <= i < n && Selected(entries[i]) && Components(entries[i].name) == rel
  }

  ghost predicate Holds(entries: seq<Entry>, n: nat, tree: Tree)
    requires n <= |entries|
  {
    && (forall i, rel :: TakenAt(entries, n, i, rel) ==>
          rel in tree && entries[i].content.Some? && tree[rel] == File(entries[i].content.value))
    && (forall p :: p in tree && tree[p].File? ==> exists i :: TakenAt(entries, n, i, p))
    && (forall p :: p in tree && tree[p].Directory? && p != [] ==>
      exists i, rel :: TakenAt(entries, n, i, rel) && Above(p, rel))
    && (forall p, q :: p in tree && Above(q, p) ==> q in tree)
  }

  lemma PlaceHolds(entries: seq<Entry>, n: nat, tree: Tree)
    requires 0 < n <= |entries| && Holds(entries, n - 1, tree)
    requires Selected(entries[n - 1]) && entries[n - 1].content.Some?
    requires !Blocked(tree, Components(entries[n - 1].name))
    ensures Holds(entries, n, Place(tree, Components(entries[n - 1].name), entries[n - 1].content.value))
  {
    hide Selected, Components;
    var rel := Components(entries[n - 1].name);
    var placed := Place(tree, rel, entries[n - 1].content.value);
    MkdirAllExact(tree, rel);
    assert TakenAt(entries, n, n - 1, rel);
    forall p | p in placed && placed[p].File? ensures exists i :: TakenAt(entries, n, i, p) {
      if p != rel {
        var i :| TakenAt(entries, n - 1, i, p);
        assert TakenAt(entries, n, i, p);
      }
    }
    forall p | p in placed && placed[p].Directory? && p != []
      ensures exists i, r :: TakenAt(entries, n, i, r) && Above(p, r)
    {
      if p in tree {
        var i, r :| TakenAt(entries, n - 1, i, r) && Above(p, r);
        assert TakenAt(entries, n, i, r);
      }
    }
    forall i, r | TakenAt(entries, n, i, r)
      ensures r in placed && entries[i].content.Some? && placed[r] == File(entries[i].content.value)
    {
      if i < n - 1 { assert TakenAt(entries, n - 1, i, r); }
    }
  }

  lemma SkipHolds(entries: seq<Entry>, n: nat, tree: Tree)
    requires 0 < n <= |entries| && Holds(entries, n - 1, tree) && !Selected(entries[n - 1])
    ensures Holds(entries, n, tree)
  {
    hide Selected, Components;
    forall p | p in tree && tree[p].File? ensures exists i :: TakenAt(entries, n, i, p) {
      var i :| TakenAt(entries, n - 1, i, p);
      assert TakenAt(entries, n, i, p);
    }
    forall p | p in tree && tree[p].Directory? && p != []
      ensures exists i, rel :: TakenAt(entries, n, i, rel) && Above(p, rel)
    {
      var i, rel :| TakenAt(entries, n - 1, i, rel) && Above(p, rel);
      assert TakenAt(entries, n, i, rel);
    }
    forall i, rel | TakenAt(entries, n, i, rel)
      ensures rel in tree && entries[i].content.Some? && tree[rel] == File(entries[i].content.value)
    {
      assert TakenAt(entries, n - 1, i, rel);
    }
  }

  // The files of the staged tree are the selected members, each at the components of its
  // name with its own bytes; everything else in it is a directory above one of them.
  lemma {:induction false} StagedExact(entries: seq<Entry>, n: nat)
    requires n <= |entries| && Staged(entries, n).Some?
    ensures Holds(entries, n, Staged(entries, n).value)
  {
    hide SafeMember, Selected, Components, Blocked, Place, Holds;
    if n == 0 {
      EmptyHolds(entries);
    } else {
      StagedExact(entries, n - 1);
      var before := Staged(entries, n - 1).value;
      if Selected(entries[n - 1]) { PlaceHolds(entries, n, before); } else { SkipHolds(entries, n, before); }
    }
  }

  lemma EmptyHolds(entries: seq<Entry>)
    ensures Holds(entries, 0, map[[] := Directory])
  {
  }

  // ---- What the file system is afterwards -------------------------------------------------------

  // A member that extract-config takes, and where it belongs.
  ghost predicate MemberAt(entries: seq<Entry>, i: int, dest: Path, p: Path) {
    && 0 <= i < |entries|
    && (entries[i].name == "manifest.json" || entries[i].name == "replica-set.json"
        || HasPrefix(entries[i].name, "config/"))
    && p == dest + Components(entries[i].name)
  }

  // Each of these members lies at its place below the destination with its bytes; whatever else
  // is new there is a directory above one of them; and no other path has changed.
  ghost predicate Extracted(before: Tree, after: Tree, entries: seq<Entry>, dest: Path) {
    && dest in after && after[dest] == Directory
    && (forall i, p :: MemberAt(entries, i, dest, p) ==>
          entries[i].content.Some? && p in after && after[p] == File(entries[i].content.value))
    && (forall p :: p in after && p !in before && p != dest ==>
          || (exists i :: MemberAt(entries, i, dest, p))
          || (after[p] == Directory && exists i, q :: MemberAt(entries, i, dest, q) && dest <= p && Above(p, q)))
    && (forall p :: p in before && !(dest <= p) ==> p in after && after[p] == before[p])
    && (forall p :: p in after && !(dest <= p) ==> p in before)
  }

  lemma GraftHas(dest: Path, tree: Tree, rel: Path)
    ensures dest + rel in Graft(dest, tree) <==> rel in tree
    ensures rel in tree ==> Graft(dest, tree)[dest + rel] == tree[rel]
  {
    assert (dest + rel)[|dest|..] == rel;
  }

  lemma GraftBelow(dest: Path, tree: Tree, p: Path)
    requires p in Graft(dest, tree)
    ensures dest <= p && p == dest + p[|dest|..] && p[|dest|..] in tree
  {
  }

  lemma MemberTaken(entries: seq<Entry>, i: int, dest: Path, rel: Path)
    ensures MemberAt(entries, i, dest, dest + rel) <==> TakenAt(entries, |entries|, i, rel)
  {
    hide Components;
    if 0 <= i < |entries| {
      var c := Components(entries[i].name);
      assert (dest + rel)[|dest|..] == rel && (dest + c)[|dest|..] == c;
    }
  }

  lemma AboveGrafted(dest: Path, p: Path, rel: Path)
    requires Above(p, rel)
    ensures Above(dest + p, dest + rel) && dest <= dest + p
  {
    assert (dest + rel)[..|dest + p|] == dest + rel[..|p|];
  }

  lemma MembersExtracted(before: Tree, entries: seq<Entry>, dest: Path, i: int, p: Path)
    requires Staged(entries, |entries|).Some? && MemberAt(entries, i, dest, p)
    ensures var after := before + Graft(dest, Staged(entries, |entries|).value);
            0 <= i < |entries| && entries[i].content.Some? && p in after && after[p] == File(entries[i].content.value)
  {
    hide Staged, Graft, Components, TakenAt;
    var rel, tree := Components(entries[i].name), Staged(entries, |entries|).value;
    StagedExact(entries, |entries|);
    MemberTaken(entries, i, dest, rel);
    GraftHas(dest, tree, rel);
  }

  lemma NewIsExtracted(entries: seq<Entry>, dest: Path, p: Path)
    requires Staged(entries, |entries|).Some? && p in Graft(dest, Staged(entries, |entries|).value) && p != dest
    ensures var node := Graft(dest, Staged(entries, |entries|).value)[p];
      || (exists i :: MemberAt(entries, i, dest, p))
      || (node == Directory && exists i, q :: MemberAt(entries, i, dest, q) && dest <= p && Above(p, q))
  {
    hide Staged, Graft, Components, TakenAt, MemberAt;
    var tree := Staged(entries, |entries|).value;
    StagedExact(entries, |entries|);
    GraftBelow(dest, tree, p);
    var rel := p[|dest|..];
    GraftHas(dest, tree, rel);
    if tree[rel].File? {
      var i :| TakenAt(entries, |entries|, i, rel);
      MemberTaken(entries, i, dest, rel);
    } else {
      assert rel != [];
      var i, r :| TakenAt(entries, |entries|, i, r) && Above(rel, r);
      MemberTaken(entries, i, dest, r);
      AboveGrafted(dest, rel, r);
    }
  }

  lemma StagedIsExtracted(before: Tree, entries: seq<Entry>, dest: Path)
    requires Staged(entries, |entries|).Some? && dest !in before
    ensures Extracted(before, before + Graft(dest, Staged(entries, |entries|).value), entries, dest)
  {
    hide Staged, Graft, MemberAt;
    var tree := Staged(entries, |entries|).value;
    var after := before + Graft(dest, tree);
    forall i, p | MemberAt(entries, i, dest, p)
      ensures 0 <= i < |entries| && entries[i].content.Some?
        && p in after && after[p] == File(entries[i].content.value)
    {
      MembersExtracted(before, entries, dest, i, p);
    }
    forall p | p in Graft(dest, tree) ensures dest <= p { GraftBelow(dest, tree, p); }
    forall p | p in after && p !in before && p != dest
      ensures (exists i :: MemberAt(entries, i, dest, p))
        || (after[p] == Directory && exists i, q :: MemberAt(entries, i, dest, q) && dest <= p && Above(p, q))
    {
      NewIsExtracted(entries, dest, p);
    }
    RootStaged(entries, |entries|);
    GraftHas(dest, tree, []);
    assert dest + [] == dest;
  }

  lemma {:induction false} RootStaged(entries: seq<Entry>, n: nat)
    requires n <= |entries| && Staged(entries, n).Some?
    ensures [] in Staged(entries, n).value && Staged(entries, n).value[[]] == Directory
  {
    hide SafeMember, Selected, Blocked, MkdirAll;
    if n > 0 {
      RootStaged(entries, n - 1);
      var tree, rel := Staged(entries, n - 1).value, Components(entries[n - 1].name);
      MkdirAllExact(tree, rel);
      NonemptyComponents(entries[n - 1].name);
    }
  }

  // ---- When it can be staged --------------------------------------------------------------------

  // Neither path is the other, nor a directory on the way to it.
  predicate Apart(a: Path, b: Path) { a != b && !Above(a, b) && !Above(b, a) }

  predicate Readable(e: Entry) { SafeMember(e.name) && e.content.Some? }

  ghost predicate Extractable(entries: seq<Entry>, n: nat)
    requires n <= |entries|
  {
    && (forall i :: 0 <= i < n && Selected(entries[i]) ==> Readable(entries[i]))
    && (forall i, j :: 0 <= i < j < n && Selected(entries[i]) && Selected(entries[j]) ==>
          Apart(Components(entries[i].name), Components(entries[j].name)))
  }

  // In a staged tree something is in the way of a path exactly when a member before it is.
  lemma BlockedExact(entries: seq<Entry>, n: nat, tree: Tree, rel: Path)
    requires n <= |entries| && Holds(entries, n, tree) && rel != []
    ensures Blocked(tree, rel) <==>
      exists i :: 0 <= i < n && Selected(entries[i]) && !Apart(Components(entries[i].name), rel)
  {
    hide Selected, Components;
    if Blocked(tree, rel) {
      if rel in tree && tree[rel].Directory? {
        var i, r :| TakenAt(entries, n, i, r) && Above(rel, r);
        assert !Apart(Components(entries[i].name), rel);
      } else {
        var p :| p in tree && tree[p].File? && (p == rel || Above(p, rel));
        var i :| TakenAt(entries, n, i, p);
        assert !Apart(Components(entries[i].name), rel);
      }
    }
    if i :| 0 <= i < n && Selected(entries[i]) && !Apart(Components(entries[i].name), rel) {
      var r := Components(entries[i].name);
      assert TakenAt(entries, n, i, r);
    }
  }

  // The selected members can be staged if and only if their names are safe, they read to
  // the end, and none of them is at another's place or in its way.
  lemma {:induction false} StagedExists(entries: seq<Entry>, n: nat)
    requires n <= |entries|
    ensures Staged(entries, n).Some? <==> Extractable(entries, n)
  {
    hide SafeMember, Selected, Components, Blocked, Place, Holds, Apart;
    if n > 0 {
      StagedExists(entries, n - 1);
      if Staged(entries, n - 1).Some? && Selected(entries[n - 1]) {
        StagedExact(entries, n - 1);
        NonemptyComponents(entries[n - 1].name);
        BlockedExact(entries, n - 1, Staged(entries, n - 1).value, Components(entries[n - 1].name));
      }
    }
  }

  lemma NonemptyComponents(name: text)
    ensures Components(name) != []
  {
  }
}
