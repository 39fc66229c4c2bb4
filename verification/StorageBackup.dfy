/** Backup, validation and restore of a storage directory (core/storage_backup.go). A
    directory tree is a map from paths below its root. */
module StorageBackup {
  import opened Prelude
  import opened Sorting
  import opened Paths

  /** Directories and regular files, with permissions and a file's modification time;
      anything else, such as a symbolic link, is special. */
  datatype Node = Dir(mode: nat) | File(mode: nat, content: seq<byte>, modTime: int) | Special

  type Tree = map<Path, Node>

  datatype Entry = Entry(path: string, kind: string, size: nat, sha: string, mode: nat, modTime: int)

  datatype Manifest = Manifest(entries: seq<Entry>, fileCount: int, directoryCount: int, byteCount: int)

  /** What lies outside: trimming white space, SHA-256, and whether a directory with these
      permissions lets the process create something in it. */
  datatype Env = Env(trim: string -> string, sha: seq<byte> -> string, creates: nat -> bool)

  /** Trimming only takes characters away. */
  ghost predicate LawfulTrim(trim: string -> string) {
    forall s :: |trim(s)| <= |s| && (|trim(s)| == |s| ==> trim(s) == s)
  }

  /** Every path consists of proper names and every parent is a directory. */
  ghost predicate IsTree(t: Tree) {
    forall p | p in t :: Proper(p) && forall k | 0 < k < |p| :: p[..k] in t && t[p[..k]].Dir?
  }

  /** No path has white space at its ends. */
  ghost predicate Trimmed(env: Env, t: Tree) {
    forall p | p in t :: env.trim(Join(p, "/")) == Join(p, "/")
  }

  function EntryPath(e: Entry): string {
    e.path
  }

  function IsFile(e: Entry): int {
    if e.kind == "file" then 1 else 0
  }

  function IsDir(e: Entry): int {
    if e.kind == "dir" then 1 else 0
  }

  function FileBytes(e: Entry): int {
    if e.kind == "file" then e.size else 0
  }

  /** The manifest entry of a node. */
  function EntryOf(env: Env, p: Path, n: Node): Entry
    requires !n.Special?
  {
    if n.Dir? then Entry(Join(p, "/"), "dir", 0, "", n.mode, 0)
    else Entry(Join(p, "/"), "file", |n.content|, env.sha(n.content), n.mode, n.modTime)
  }

  ghost predicate Plain(t: Tree) {
    forall p | p in t :: !t[p].Special?
  }

  // ----- Making directories -----

  function Above(p: Path): Path
    requires p != []
  {
    p[..|p| - 1]
  }

  /** A new entry may be created here: below the root, or in a directory that allows it. */
  predicate Open(env: Env, t: Tree, p: Path)
    requires p != []
  {
    |p| == 1 || (Above(p) in t && t[Above(p)].Dir? && env.creates(t[Above(p)].mode))
  }

  /** Every directory that has something in it allows it to be created. */
  ghost predicate Creatable(env: Env, t: Tree) {
    forall p | p in t && p != [] :: Open(env, t, p)
  }

  /** os.MkdirAll: create what is missing on the way, unless a file is in the way. */
  function MkdirAll(env: Env, t: Tree, p: Path, mode: nat): Option<Tree>
    decreases |p|
  {
    if p == [] then Some(t)
    else
      var above := MkdirAll(env, t, Above(p), mode);
      if above.None? then None
      else if p in above.value then if above.value[p].Dir? then above else None
      else if Open(env, above.value, p) then Some(above.value[p := Dir(mode)])
      else None
  }

  ghost predicate AboveExists(t: Tree, p: Path) {
    forall k | 0 < k < |p| :: p[..k] in t && t[p[..k]].Dir?
  }

  lemma AboveAbove(t: Tree, p: Path)
    requires p != [] && AboveExists(t, p)
    ensures AboveExists(t, Above(p)) && (Above(p) != [] ==> Above(p) in t && t[Above(p)].Dir?)
  {
    forall k | 0 < k < |Above(p)| ensures Above(p)[..k] in t && t[Above(p)[..k]].Dir? {
      assert Above(p)[..k] == p[..k];
    }
  }

  /** Where the parents exist, at most the directory itself is created. */
  lemma {:induction false} MkdirOne(env: Env, t: Tree, p: Path, mode: nat)
    requires p != [] && AboveExists(t, p) && (p in t ==> t[p].Dir?)
    ensures MkdirAll(env, t, p, mode) ==
            if p in t then Some(t) else if Open(env, t, p) then Some(t[p := Dir(mode)]) else None
    decreases |p|
  {
    hide AboveExists, Open;
    AboveAbove(t, p);
    if Above(p) != [] {
      MkdirOne(env, t, Above(p), mode);
    }
  }

  lemma MkdirParent(env: Env, t: Tree, p: Path, mode: nat)
    requires p != [] && AboveExists(t, p)
    ensures MkdirAll(env, t, Above(p), mode) == Some(t)
  {
    hide AboveExists, Open;
    AboveAbove(t, p);
    if Above(p) != [] {
      MkdirOne(env, t, Above(p), mode);
    }
  }

  /** The permissions of a parent directory that has to be made: 0755. */
  const PARENT_MODE: nat := 493

  /** Put a directory or a file in its place, making parents as needed. A file that is
      there already is overwritten and keeps its permissions. */
  function Place(env: Env, t: Tree, p: Path, n: Node): Option<Tree>
    requires p != [] && !n.Special?
  {
    if n.Dir? then MkdirAll(env, t, p, n.mode)
    else
      var above := MkdirAll(env, t, Above(p), PARENT_MODE);
      if above.None? then None
      else if p in above.value then
        if above.value[p].File? then Some(above.value[p := n.(mode := above.value[p].mode)]) else None
      else if Open(env, above.value, p) then Some(above.value[p := n])
      else None
  }

  lemma PlaceFresh(env: Env, t: Tree, p: Path, n: Node)
    requires p != [] && !n.Special? && AboveExists(t, p) && p !in t
    ensures Place(env, t, p, n) == if Open(env, t, p) then Some(t[p := n]) else None
  {
    hide MkdirAll, Open, AboveExists;
    if n.Dir? {
      MkdirOne(env, t, p, n.mode);
    } else {
      MkdirParent(env, t, p, PARENT_MODE);
    }
  }

  /** The directory above is the same in both trees. */
  lemma SameOpen(env: Env, t: Tree, t': Tree, p: Path)
    requires p != [] && AboveExists(t, p) && forall q | q in t :: q in t' && t'[q] == t[q]
    ensures Open(env, t, p) <==> Open(env, t', p)
  {
    if |p| > 1 {
      assert p[..|p| - 1] in t;
    }
  }

  // ----- Backup -----

  /** The order of filepath.WalkDir: every path once, parents first. */
  ghost predicate WalkOrder(t: Tree, order: seq<Path>) {
    && (forall p :: p in order <==> p in t)
    && (forall i, j | 0 <= i < j < |order| :: order[i] != order[j])
    && (forall i, k | 0 <= i < |order| && 0 < k < |order[i]| :: order[i][..k] in order[..i])
  }

  /** The manifest describes the tree: one entry a node, in the order of the paths, and
      the totals. */
  ghost predicate Describes(env: Env, t: Tree, m: Manifest) {
    && Plain(t) && SortedBy(EntryPath, m.entries)
    && (forall i | 0 <= i < |m.entries| :: Located(env, t, m.entries[i]))
    && (forall p | p in t :: EntryOf(env, p, t[p]) in m.entries)
    && m.fileCount == Total(IsFile, m.entries) && m.directoryCount == Total(IsDir, m.entries)
    && m.byteCount == Total(FileBytes, m.entries)
  }

  ghost predicate Located(env: Env, t: Tree, e: Entry) {
    Split(e.path) in t && !t[Split(e.path)].Special? && e == EntryOf(env, Split(e.path), t[Split(e.path)])
  }

  /** The entries list the tree, in any order. */
  ghost predicate Listed(env: Env, t: Tree, entries: seq<Entry>) {
    && Plain(t) && DistinctBy(EntryPath, entries)
    && (forall i | 0 <= i < |entries| :: Located(env, t, entries[i]))
    && (forall p | p in t :: EntryOf(env, p, t[p]) in entries)
  }

  lemma ListOneMore(env: Env, t: Tree, entries: seq<Entry>, p: Path, n: Node)
    requires Listed(env, t, entries) && p !in t && Proper(p) && !n.Special?
    ensures Listed(env, t[p := n], entries + [EntryOf(env, p, n)])
  {
    hide Split, Join;
    SplitJoin(p);
    var t', entries' := t[p := n], entries + [EntryOf(env, p, n)];
    forall i | 0 <= i < |entries'| ensures Located(env, t', entries'[i]) {
      if i < |entries| {
        assert Located(env, t, entries[i]);
      }
    }
    forall i, j | 0 <= i < j < |entries'| ensures EntryPath(entries'[i]) != EntryPath(entries'[j]) {
      if j == |entries| {
        assert Located(env, t, entries[i]);
      }
    }
    forall q | q in t' ensures EntryOf(env, q, t'[q]) in entries' {
      if q != p {
        assert EntryOf(env, q, t[q]) in entries;
      } else {
        assert entries'[|entries|] == EntryOf(env, p, n);
      }
    }
  }

  lemma SortedDescribes(env: Env, t: Tree, entries: seq<Entry>)
    requires Listed(env, t, entries)
    ensures Describes(env, t,
                      Manifest(Sort(EntryPath, entries), Total(IsFile, entries), Total(IsDir, entries),
                               Total(FileBytes, entries)))
  {
    hide Located, Sort, Split, Join;
    var sorted := Sort(EntryPath, entries);
    SortSorted(EntryPath, entries);
    SortTotal(EntryPath, IsFile, entries);
    SortTotal(EntryPath, IsDir, entries);
    SortTotal(EntryPath, FileBytes, entries);
    forall i | 0 <= i < |sorted| ensures Located(env, t, sorted[i]) {
      SortHas(EntryPath, entries, sorted[i]);
    }
    forall p | p in t ensures EntryOf(env, p, t[p]) in sorted {
      SortHas(EntryPath, entries, EntryOf(env, p, t[p]));
    }
  }

  /** The nodes that the walk has come by, without the lease file. */
  ghost function Walked(t: Tree, lease: Path, seen: seq<Path>): Tree {
    map p | p in t && p != lease && p in seen :: t[p]
  }

  lemma WalkedAbove(t: Tree, lease: Path, order: seq<Path>, i: nat)
    requires IsTree(t) && WalkOrder(t, order) && i < |order| && (lease in t ==> t[lease].File?)
    ensures Proper(order[i]) && order[i] in t && order[i] !in order[..i] && order[i] !in Walked(t, lease, order[..i])
    ensures forall q | q in Walked(t, lease, order[..i]) ::
            q in t - {lease} && (t - {lease})[q] == Walked(t, lease, order[..i])[q]
    ensures AboveExists(Walked(t, lease, order[..i]), order[i])
    ensures order[i] != lease ==>
            Walked(t, lease, order[..i + 1]) == Walked(t, lease, order[..i])[order[i] := t[order[i]]]
    ensures order[i] == lease ==> Walked(t, lease, order[..i + 1]) == Walked(t, lease, order[..i])
  {
    hide Proper;
    var p := order[i];
    assert p in order;
    assert order[..i + 1] == order[..i] + [p];
    assert p !in order[..i];
    forall k | 0 < k < |p| ensures p[..k] in Walked(t, lease, order[..i]) && Walked(t, lease, order[..i])[p[..k]].Dir? {
      assert order[i][..k] in order[..i];
    }
  }

  /** CreateLocalStorageBackup. When trimming leaves every path alone, it fails exactly on
      something other than directories and regular files and on a directory whose
      permissions, given to the copy first, keep its contents out; otherwise the snapshot
      is the tree without the lease file and the manifest describes it. When trimming
      changes a path, the manifest never describes the tree. */
  method CreateBackup(env: Env, source: Tree, lease: Path, order: seq<Path>) returns (r: Result<(Tree, Manifest)>)
    requires IsTree(source) && WalkOrder(source, order) && (lease in source ==> source[lease].File?)
    ensures Trimmed(env, source - {lease}) ==> (r.Ok? <==> Plain(source - {lease}) && Creatable(env, source - {lease}))
    ensures Trimmed(env, source - {lease}) && r.Ok? ==>
            r.value.0 == source - {lease} && Describes(env, r.value.0, r.value.1)
    ensures LawfulTrim(env.trim) && r.Ok? && Describes(env, source - {lease}, r.value.1) ==>
            Trimmed(env, source - {lease})
  {
    hide Located, Split, Join, Clean, Place, Describes, EntryOf, IsTree, WalkOrder, Listed, Total, AboveExists,
         Open, LawfulTrim, Trimmed, Walked, AllPlaced, Kept, Renamed, Creatable, Plain, CleanedTo;
    ghost var t := source - {lease};
    ghost var trimmed, kept := Trimmed(env, t), [];
    var snapshot: Tree, entries: seq<Entry> := map[], [];
    var files, dirs, bytes := 0, 0, 0;
    NothingListed(env, source, lease);
    NothingKept(env, t, lease);
    for i := 0 to |order|
      invariant trimmed ==> snapshot == Walked(source, lease, order[..i]) && Listed(env, snapshot, entries)
      invariant trimmed ==> AllPlaced(env, t, order[..i])
      invariant Kept(order[..i], lease, kept) && Renamed(env, kept, entries)
      invariant files == Total(IsFile, entries) && dirs == Total(IsDir, entries) && bytes == Total(FileBytes, entries)
    {
      var path := order[i];
      WalkedAbove(source, lease, order, i);
      KeptNext(order, lease, kept, i);
      AllPlacedNext(env, t, order, i);
      if path == lease {
        continue;
      }
      var node := source[path];
      var rel := Clean(env.trim, Join(path, "/"));
      if trimmed {
        TrimmedClean(env, t, path);
      }
      if rel.Err? {
        return Err(rel.error);
      }
      if node.Special? {
        NotPlain(env, t, path);
        return Err("backup source contains unsupported file type");
      }
      CleanProper(env.trim, Join(path, "/"));
      var target := rel.value;
      var entry := EntryOf(env, target, node);
      EntryTotals(env, target, node, entries);
      RenamedNext(env, kept, entries, path, target, node);
      if trimmed {
        PlaceFresh(env, snapshot, path, node);
        ListOneMore(env, snapshot, entries, path, node);
        SameOpen(env, snapshot, t, path);
        NotPlain(env, t, path);
      }
      var placed := Place(env, snapshot, target, node);
      if placed.None? {
        return Err("create backup parent");
      }
      snapshot := placed.value;
      if node.Dir? {
        dirs := dirs + 1;
      } else {
        files, bytes := files + 1, bytes + |node.content|;
      }
      entries, kept := entries + [entry], kept + [path];
    }
    WalkedAll(source, lease, order);
    TreeWithout(source, lease);
    var m := Manifest(Sort(EntryPath, entries), files, dirs, bytes);
    if trimmed {
      AllPlacedEnd(env, source, t, order);
      SortedDescribes(env, snapshot, entries);
    } else if LawfulTrim(env.trim) && Describes(env, t, m) {
      KeptAll(source, order, lease, kept);
      DescribedIsTrimmed(env, t, kept, entries, m);
    }
    return Ok((snapshot, m));
  }

  /** Every path walked so far, but for the lease file, could be copied. */
  ghost predicate AllPlaced(env: Env, t: Tree, seen: seq<Path>) {
    forall p | p in seen && p in t && p != [] :: !t[p].Special? && Open(env, t, p)
  }

  lemma NothingKept(env: Env, t: Tree, lease: Path)
    ensures AllPlaced(env, t, []) && Kept([], lease, []) && Renamed(env, [], [])
  {
  }

  lemma AllPlacedNext(env: Env, t: Tree, order: seq<Path>, i: nat)
    requires i < |order| && order[i] != []
    ensures AllPlaced(env, t, order[..i]) && (order[i] in t ==> !t[order[i]].Special? && Open(env, t, order[i])) ==>
              AllPlaced(env, t, order[..i + 1])
  {
    hide Open;
    assert order[..i + 1] == order[..i] + [order[i]];
  }

  lemma NotPlain(env: Env, t: Tree, p: Path)
    requires p in t && p != []
    ensures Plain(t) && Creatable(env, t) ==> !t[p].Special? && Open(env, t, p)
  {
  }

  lemma AllPlacedEnd(env: Env, source: Tree, t: Tree, order: seq<Path>)
    requires WalkOrder(source, order) && IsTree(t) && t.Keys <= source.Keys && AllPlaced(env, t, order[..|order|])
    ensures Plain(t) && Creatable(env, t)
  {
    hide Open;
    assert order[..|order|] == order;
    forall p | p in t ensures p != [] && !t[p].Special? {
      ProperPath(t, p);
      assert p in order;
    }
  }

  lemma TreeWithout(source: Tree, lease: Path)
    requires IsTree(source) && (lease in source ==> source[lease].File?)
    ensures IsTree(source - {lease})
  {
    var t := source - {lease};
    forall p | p in t ensures Proper(p) && forall k | 0 < k < |p| :: p[..k] in t && t[p[..k]].Dir? {
      assert p in source;
    }
  }

  /** `kept` is what was walked without the lease file. */
  ghost predicate Kept(seen: seq<Path>, lease: Path, kept: seq<Path>) {
    && (forall p :: p in kept <==> p in seen && p != lease)
    && (forall i, j | 0 <= i < j < |kept| :: kept[i] != kept[j])
  }

  lemma KeptNext(order: seq<Path>, lease: Path, kept: seq<Path>, i: nat)
    requires i < |order| && Kept(order[..i], lease, kept) && order[i] !in order[..i]
    ensures Kept(order[..i + 1], lease, if order[i] == lease then kept else kept + [order[i]])
  {
    assert order[..i + 1] == order[..i] + [order[i]];
    assert order[i] !in kept;
  }

  lemma KeptAll(t: Tree, order: seq<Path>, lease: Path, kept: seq<Path>)
    requires WalkOrder(t, order) && Kept(order[..|order|], lease, kept)
    ensures forall p :: p in kept <==> p in t - {lease}
    ensures forall i, j | 0 <= i < j < |kept| :: kept[i] != kept[j]
  {
    assert order[..|order|] == order;
  }

  lemma TrimmedClean(env: Env, t: Tree, p: Path)
    requires Trimmed(env, t) && p in t && Proper(p)
    ensures Clean(env.trim, Join(p, "/")) == Ok(p)
  {
    CleanJoin(env.trim, p);
  }

  /** The entries carry the cleaned names of the paths. */
  ghost predicate Renamed(env: Env, kept: seq<Path>, entries: seq<Entry>) {
    |entries| == |kept| && forall i | 0 <= i < |kept| :: CleanedTo(env, kept[i], entries[i])
  }

  ghost predicate CleanedTo(env: Env, p: Path, e: Entry) {
    Clean(env.trim, Join(p, "/")).Ok? && e.path == Join(Clean(env.trim, Join(p, "/")).value, "/")
  }

  lemma RenamedNext(env: Env, kept: seq<Path>, entries: seq<Entry>, p: Path, target: Path, n: Node)
    requires Renamed(env, kept, entries) && Clean(env.trim, Join(p, "/")) == Ok(target) && !n.Special?
    ensures Renamed(env, kept + [p], entries + [EntryOf(env, target, n)])
  {
    hide Clean, Join;
    assert CleanedTo(env, p, EntryOf(env, target, n));
  }

  function PathLength(e: Entry): int {
    |e.path|
  }

  /** The entry of a path is never longer than the path, and shorter if trimming changes
      the path. */
  lemma CleanedLength(env: Env, p: Path, e: Entry)
    requires LawfulTrim(env.trim) && CleanedTo(env, p, e)
    ensures PathLength(e) <= |Join(p, "/")|
    ensures env.trim(Join(p, "/")) != Join(p, "/") ==> PathLength(e) < |Join(p, "/")|
  {
    hide Clean, Join;
    CleanShorter(env.trim, Join(p, "/"));
  }

  /** The entries that would describe the tree. */
  ghost function Honest(env: Env, t: Tree, kept: seq<Path>): seq<Entry>
    requires Plain(t) && forall p | p in kept :: p in t
  {
    seq(|kept|, i requires 0 <= i < |kept| => EntryOf(env, kept[i], t[kept[i]]))
  }

  lemma HonestAt(env: Env, t: Tree, kept: seq<Path>, i: nat)
    requires Plain(t) && (forall p | p in kept :: p in t) && i < |kept|
    ensures Honest(env, t, kept)[i] == EntryOf(env, kept[i], t[kept[i]])
            && PathLength(Honest(env, t, kept)[i]) == |Join(kept[i], "/")|
  {
  }

  /** A manifest that describes the tree has exactly these entries. */
  lemma DescribedIsHonest(env: Env, t: Tree, kept: seq<Path>, m: Manifest)
    requires IsTree(t) && Describes(env, t, m) && (forall p :: p in kept <==> p in t)
    requires forall i, j | 0 <= i < j < |kept| :: kept[i] != kept[j]
    ensures m.entries == Sort(EntryPath, Honest(env, t, kept))
  {
    hide Sort, Join, Split, Less, Total, SortedBy, EntryOf, IsTree;
    var honest := Honest(env, t, kept);
    forall i, j | 0 <= i < j < |honest| ensures EntryPath(honest[i]) != EntryPath(honest[j]) {
      PathsDiffer(env, t, kept[i], kept[j]);
    }
    SortSorted(EntryPath, honest);
    forall e ensures e in Sort(EntryPath, honest) <==> e in m.entries {
      SortHas(EntryPath, honest, e);
      if e in honest {
        var i :| 0 <= i < |honest| && honest[i] == e;
        assert kept[i] in kept;
      }
      if e in m.entries {
        var i :| 0 <= i < |m.entries| && m.entries[i] == e;
        assert Located(env, t, m.entries[i]);
        assert Split(e.path) in kept;
        var k :| 0 <= k < |kept| && kept[k] == Split(e.path);
        assert honest[k] == e;
      }
    }
    SortedUnique(EntryPath, m.entries, Sort(EntryPath, honest));
  }

  lemma PathsDiffer(env: Env, t: Tree, p: Path, q: Path)
    requires IsTree(t) && Plain(t) && p in t && q in t && p != q
    ensures EntryPath(EntryOf(env, p, t[p])) != EntryPath(EntryOf(env, q, t[q]))
  {
    SamePath(t, p, q);
  }

  /** Pointwise at most as long, and somewhere shorter: the sum is smaller. */
  lemma {:induction false} ShorterInAll(entries: seq<Entry>, honest: seq<Entry>, i: nat)
    requires |entries| == |honest| && forall k | 0 <= k < |entries| :: PathLength(entries[k]) <= PathLength(honest[k])
    ensures Total(PathLength, entries) <= Total(PathLength, honest)
    ensures i < |entries| && PathLength(entries[i]) < PathLength(honest[i]) ==>
              Total(PathLength, entries) < Total(PathLength, honest)
  {
    if entries != [] {
      ShorterInAll(entries[1..], honest[1..], if i > 0 then i - 1 else |entries|);
    }
  }

  /** If the manifest describes the tree although entries carry cleaned names, no path was
      changed: otherwise the names would be shorter in all. */
  lemma DescribedIsTrimmed(env: Env, t: Tree, kept: seq<Path>, entries: seq<Entry>, m: Manifest)
    requires IsTree(t) && LawfulTrim(env.trim) && Describes(env, t, m)
    requires (forall p :: p in kept <==> p in t) && forall i, j | 0 <= i < j < |kept| :: kept[i] != kept[j]
    requires Renamed(env, kept, entries) && m.entries == Sort(EntryPath, entries)
    ensures Trimmed(env, t)
  {
    hide Sort, Join, Clean, Describes, IsTree, LawfulTrim, Total, CleanedTo, EntryOf, Honest, PathLength;
    assert Plain(t) by { DescribedPlain(env, t, m); }
    var honest := Honest(env, t, kept);
    DescribedIsHonest(env, t, kept, m);
    SortTotal(EntryPath, PathLength, entries);
    SortTotal(EntryPath, PathLength, honest);
    assert |honest| == |kept| by { HonestLength(env, t, kept); }
    forall k | 0 <= k < |kept| ensures PathLength(entries[k]) <= PathLength(honest[k]) {
      CleanedLength(env, kept[k], entries[k]);
      HonestAt(env, t, kept, k);
    }
    forall p | p in t ensures env.trim(Join(p, "/")) == Join(p, "/") {
      var i :| 0 <= i < |kept| && kept[i] == p;
      CleanedLength(env, kept[i], entries[i]);
      HonestAt(env, t, kept, i);
      ShorterInAll(entries, honest, i);
    }
  }

  lemma DescribedPlain(env: Env, t: Tree, m: Manifest)
    requires Describes(env, t, m)
    ensures Plain(t)
  {
  }

  lemma HonestLength(env: Env, t: Tree, kept: seq<Path>)
    requires Plain(t) && forall p | p in kept :: p in t
    ensures |Honest(env, t, kept)| == |kept|
  {
  }

  lemma NothingListed(env: Env, t: Tree, lease: Path)
    ensures Listed(env, map[], []) && Walked(t, lease, []) == map[]
    ensures Total(IsFile, []) == Total(IsDir, []) == Total(FileBytes, []) == 0
  {
  }

  lemma EntryTotals(env: Env, p: Path, n: Node, entries: seq<Entry>)
    requires !n.Special?
    ensures var entries' := entries + [EntryOf(env, p, n)];
            && Total(IsDir, entries') == Total(IsDir, entries) + (if n.Dir? then 1 else 0)
            && Total(IsFile, entries') == Total(IsFile, entries) + (if n.Dir? then 0 else 1)
            && Total(FileBytes, entries') == Total(FileBytes, entries) + (if n.Dir? then 0 else |n.content|)
  {
    var e := EntryOf(env, p, n);
    TotalAppend(IsFile, entries, e);
    TotalAppend(IsDir, entries, e);
    TotalAppend(FileBytes, entries, e);
  }

  lemma WalkedAll(t: Tree, lease: Path, order: seq<Path>)
    requires WalkOrder(t, order)
    ensures Walked(t, lease, order[..|order|]) == t - {lease}
    ensures forall p | p in t :: p in order[..|order|]
  {
    assert order[..|order|] == order;
  }

  // ----- Validation -----

  function CleanPath(env: Env, e: Entry): Result<Path> {
    Clean(env.trim, e.path)
  }

  /** Some entry stands for this path. */
  ghost predicate HasEntry(env: Env, entries: seq<Entry>, p: Path) {
    exists i | 0 <= i < |entries| :: CleanPath(env, entries[i]) == Ok(p)
  }

  /** The entry's type, size and checksum are those of the node. */
  ghost predicate NodeMatches(env: Env, t: Tree, p: Path, e: Entry) {
    && p in t && (e.kind == "dir" ==> t[p].Dir?)
    && (e.kind == "file" ==> t[p].File? && |t[p].content| == e.size && env.sha(t[p].content) == e.sha)
  }

  ghost predicate PathsDistinct(env: Env, entries: seq<Entry>) {
    && (forall i | 0 <= i < |entries| :: CleanPath(env, entries[i]).Ok?)
    && (forall i, j | 0 <= i < j < |entries| :: CleanPath(env, entries[i]) != CleanPath(env, entries[j]))
  }

  ghost predicate TotalsRight(m: Manifest) {
    m.fileCount == Total(IsFile, m.entries) && m.directoryCount == Total(IsDir, m.entries)
    && m.byteCount == Total(FileBytes, m.entries)
  }

  /** What the validator accepts. */
  ghost predicate Accepted(env: Env, t: Tree, m: Manifest) {
    && PathsDistinct(env, m.entries)
    && (forall p | p in t ::
        Clean(env.trim, Join(p, "/")).Ok? && HasEntry(env, m.entries, Clean(env.trim, Join(p, "/")).value))
    && (forall i | 0 <= i < |m.entries| ::
          CleanPath(env, m.entries[i]).Ok? && NodeMatches(env, t, CleanPath(env, m.entries[i]).value, m.entries[i]))
    && TotalsRight(m)
  }

  /** The first loop of the validator: the clean paths of all entries, without repeats. */
  method CollectPaths(env: Env, entries: seq<Entry>) returns (r: Option<set<Path>>)
    ensures r.Some? <==> PathsDistinct(env, entries)
    ensures r.Some? ==> forall p :: p in r.value <==> HasEntry(env, entries, p)
  {
    hide CleanPath;
    var known: set<Path> := {};
    for i := 0 to |entries|
      invariant forall k | 0 <= k < i :: CleanPath(env, entries[k]).Ok?
      invariant forall j, k | 0 <= j < k < i :: CleanPath(env, entries[j]) != CleanPath(env, entries[k])
      invariant forall p :: p in known <==> exists k | 0 <= k < i :: CleanPath(env, entries[k]) == Ok(p)
    {
      var clean := CleanPath(env, entries[i]);
      if clean.Err? {
        return None;
      }
      if clean.value in known {
        var k :| 0 <= k < i && CleanPath(env, entries[k]) == clean;
        return None;
      }
      known := known + {clean.value};
    }
    return Some(known);
  }

  /** The walk of the validator: nothing in the tree is missing from the manifest. */
  method NothingUnlisted(env: Env, t: Tree, known: set<Path>) returns (ok: bool)
    ensures ok <==> forall p | p in t ::
            Clean(env.trim, Join(p, "/")).Ok? && Clean(env.trim, Join(p, "/")).value in known
  {
    hide Clean, Join;
    var left := t.Keys;
    while left != {}
      invariant left <= t.Keys
      invariant forall p | p in t.Keys - left ::
                Clean(env.trim, Join(p, "/")).Ok? && Clean(env.trim, Join(p, "/")).value in known
      decreases left
    {
      var p :| p in left;
      var rel := Clean(env.trim, Join(p, "/"));
      if rel.Err? || rel.value !in known {
        return false;
      }
      left := left - {p};
    }
    return true;
  }

  /** One entry against its node: that it is there, its type, and a file's size and checksum. */
  method CheckNode(env: Env, t: Tree, p: Path, entry: Entry) returns (ok: bool)
    ensures ok <==> NodeMatches(env, t, p, entry)
  {
    if p !in t {
      return false;
    }
    if entry.kind == "dir" {
      return t[p].Dir?;
    }
    if entry.kind == "file" {
      if !t[p].File? {
        return false;
      }
      if |t[p].content| != entry.size {
        return false;
      }
      var checksum := env.sha(t[p].content);
      return checksum == entry.sha;
    }
    return true;
  }

  /** The last loop of the validator: every entry against its node, and the totals. */
  method CheckEntries(env: Env, t: Tree, m: Manifest) returns (ok: bool)
    requires PathsDistinct(env, m.entries)
    ensures ok <==> TotalsRight(m) &&
                    forall i | 0 <= i < |m.entries| ::
                      NodeMatches(env, t, CleanPath(env, m.entries[i]).value, m.entries[i])
  {
    hide CleanPath, NodeMatches, Total;
    var files, dirs, bytes := 0, 0, 0;
    NoTotals();
    assert m.entries[..0] == [];
    for i := 0 to |m.entries|
      invariant forall k | 0 <= k < i :: NodeMatches(env, t, CleanPath(env, m.entries[k]).value, m.entries[k])
      invariant files == Total(IsFile, m.entries[..i]) && dirs == Total(IsDir, m.entries[..i])
                && bytes == Total(FileBytes, m.entries[..i])
    {
      var entry := m.entries[i];
      var matches := CheckNode(env, t, CleanPath(env, entry).value, entry);
      if !matches {
        return false;
      }
      assert m.entries[..i + 1] == m.entries[..i] + [entry];
      TotalAppend(IsFile, m.entries[..i], entry);
      TotalAppend(IsDir, m.entries[..i], entry);
      TotalAppend(FileBytes, m.entries[..i], entry);
      if entry.kind == "dir" {
        dirs := dirs + 1;
      } else if entry.kind == "file" {
        files, bytes := files + 1, bytes + entry.size;
      }
    }
    assert m.entries[..|m.entries|] == m.entries;
    return files == m.fileCount && dirs == m.directoryCount && bytes == m.byteCount;
  }

  lemma NoTotals()
    ensures Total(IsFile, []) == Total(IsDir, []) == Total(FileBytes, []) == 0
  {
  }

  /** The entries of a well-shaped manifest have accepted paths and one of the two types. */
  ghost predicate Shaped(env: Env, m: Manifest) {
    forall i | 0 <= i < |m.entries| ::
      CleanPath(env, m.entries[i]).Ok? && (m.entries[i].kind == "dir" || m.entries[i].kind == "file")
  }

  /** validateLocalStorageBackupManifestShape, for the entries. */
  method CheckShape(env: Env, m: Manifest) returns (ok: bool)
    ensures ok <==> Shaped(env, m)
  {
    hide CleanPath;
    for i := 0 to |m.entries|
      invariant forall k | 0 <= k < i ::
                CleanPath(env, m.entries[k]).Ok? && (m.entries[k].kind == "dir" || m.entries[k].kind == "file")
    {
      if CleanPath(env, m.entries[i]).Err? || (m.entries[i].kind != "dir" && m.entries[i].kind != "file") {
        return false;
      }
    }
    return true;
  }

  /** validateLocalStorageEntryTree. */
  method ValidateTree(env: Env, t: Tree, m: Manifest) returns (ok: bool)
    ensures ok <==> Accepted(env, t, m)
  {
    hide CleanPath, NodeMatches, Clean, Join, TotalsRight, HasEntry;
    var known := CollectPaths(env, m.entries);
    if known.None? {
      return false;
    }
    ok := NothingUnlisted(env, t, known.value);
    if ok {
      ok := CheckEntries(env, t, m);
    }
  }

  /** On a tree whose paths trimming leaves alone, the validator accepts exactly the
      manifests that match it one to one: every path of the tree has one entry, every
      entry has a node, and types, sizes, checksums and totals agree. With the shape check
      the tree then holds directories and regular files only. */
  lemma AcceptedIff(env: Env, t: Tree, m: Manifest)
    requires IsTree(t) && Trimmed(env, t)
    ensures Accepted(env, t, m) <==>
            && PathsDistinct(env, m.entries)
            && (forall p :: p in t <==> HasEntry(env, m.entries, p))
            && (forall i | 0 <= i < |m.entries| ::
                  CleanPath(env, m.entries[i]).Ok?
                    && NodeMatches(env, t, CleanPath(env, m.entries[i]).value, m.entries[i]))
            && TotalsRight(m)
    ensures Shaped(env, m) && Accepted(env, t, m) ==> Plain(t)
  {
    hide Clean, Join, TotalsRight;
    forall p | p in t ensures Clean(env.trim, Join(p, "/")) == Ok(p) {
      CleanJoin(env.trim, p);
    }
  }

  /** What acceptance means entry by entry: a directory entry names a directory; a file entry
      names a file of the listed size and checksum. */
  lemma AcceptedMeans(env: Env, t: Tree, m: Manifest, i: nat)
    requires Accepted(env, t, m) && i < |m.entries|
    ensures CleanPath(env, m.entries[i]).Ok? && CleanPath(env, m.entries[i]).value in t
    ensures var e, n := m.entries[i], t[CleanPath(env, m.entries[i]).value];
            && (e.kind == "dir" ==> n.Dir?)
            && (e.kind == "file" ==> n.File? && |n.content| == e.size && env.sha(n.content) == e.sha)
  {
    hide Clean, HasEntry, TotalsRight, PathsDistinct;
  }

  /** A backup is valid. */
  lemma BackupIsValid(env: Env, t: Tree, m: Manifest)
    requires IsTree(t) && Trimmed(env, t) && Describes(env, t, m)
    ensures Accepted(env, t, m)
  {
    hide Clean, Join, Split, Total, Less, CleanPath, NodeMatches, HasEntry, Located, PathsDistinct, IsTree, Trimmed;
    DescribedDistinct(env, t, m);
    forall p | p in t ensures Clean(env.trim, Join(p, "/")) == Ok(p) && HasEntry(env, m.entries, p) {
      DescribedEntry(env, t, m, p);
    }
    forall i | 0 <= i < |m.entries|
      ensures CleanPath(env, m.entries[i]).Ok? && NodeMatches(env, t, CleanPath(env, m.entries[i]).value, m.entries[i])
    {
      LocatedPath(env, t, m.entries[i]);
      LocatedMatches(env, t, m.entries[i]);
    }
  }

  lemma DescribedDistinct(env: Env, t: Tree, m: Manifest)
    requires IsTree(t) && Trimmed(env, t) && Describes(env, t, m)
    ensures PathsDistinct(env, m.entries)
  {
    hide Split, Total, Less, CleanPath, Located, IsTree, Trimmed, Join;
    forall i | 0 <= i < |m.entries| ensures CleanPath(env, m.entries[i]).Ok? {
      LocatedPath(env, t, m.entries[i]);
    }
    forall i, j | 0 <= i < j < |m.entries| ensures CleanPath(env, m.entries[i]) != CleanPath(env, m.entries[j]) {
      LocatedPath(env, t, m.entries[i]);
      LocatedPath(env, t, m.entries[j]);
      LessTotal(EntryPath(m.entries[i]), EntryPath(m.entries[i]));
    }
  }

  lemma DescribedEntry(env: Env, t: Tree, m: Manifest, p: Path)
    requires IsTree(t) && Trimmed(env, t) && Describes(env, t, m) && p in t
    ensures Clean(env.trim, Join(p, "/")) == Ok(p) && HasEntry(env, m.entries, p)
  {
    hide Split, Total, Less, Located, Clean, Join;
    CleanJoin(env.trim, p);
    assert EntryOf(env, p, t[p]) in m.entries;
    var i :| 0 <= i < |m.entries| && m.entries[i] == EntryOf(env, p, t[p]);
    assert CleanPath(env, m.entries[i]) == Ok(p);
  }

  lemma LocatedMatches(env: Env, t: Tree, e: Entry)
    requires Located(env, t, e)
    ensures NodeMatches(env, t, Split(e.path), e)
  {
    hide Split, Join;
  }

  lemma LocatedPath(env: Env, t: Tree, e: Entry)
    requires IsTree(t) && Trimmed(env, t) && Located(env, t, e)
    ensures CleanPath(env, e) == Ok(Split(e.path)) && Join(Split(e.path), "/") == e.path
  {
    hide Clean, Join, Split;
    CleanJoin(env.trim, Split(e.path));
  }

  // ----- Restore -----

  /** What a restore has put in place: directories of the entries in `dirs`, files of
      those in `files`. */
  ghost function Restored(env: Env, t: Tree, dirs: seq<Entry>, files: seq<Entry>): Tree {
    map p | p in t && !t[p].Special? && EntryOf(env, p, t[p]) in (if t[p].Dir? then dirs else files) :: t[p]
  }

  ghost predicate Backed(env: Env, t: Tree, m: Manifest) {
    IsTree(t) && Trimmed(env, t) && Describes(env, t, m)
  }

  /** In a described tree, a directory's entry comes before those of what is in it. */
  lemma ParentEarlier(env: Env, t: Tree, m: Manifest, i: nat, k: nat)
    requires Backed(env, t, m) && i < |m.entries| && 0 < k < |Split(m.entries[i].path)|
    ensures var q := Split(m.entries[i].path)[..k];
            q in t && t[q].Dir? && EntryOf(env, q, t[q]) in m.entries[..i]
  {
    hide Split, Join, Less, Clean, Trimmed, Total, SortedBy;
    var p := Split(m.entries[i].path);
    assert Located(env, t, m.entries[i]);
    LocatedPath(env, t, m.entries[i]);
    var q := p[..k];
    assert EntryOf(env, q, t[q]) in m.entries;
    var j :| 0 <= j < |m.entries| && m.entries[j] == EntryOf(env, q, t[q]);
    assert p == q + p[k..];
    ParentSortsFirst(q, p[k..]);
    SmallerIsEarlier(m.entries, j, i);
    assert m.entries[..i][j] == m.entries[j];
  }

  lemma SmallerIsEarlier(entries: seq<Entry>, j: nat, i: nat)
    requires i < |entries| && j < |entries| && SortedBy(EntryPath, entries) && Less(entries[j].path, entries[i].path)
    ensures j < i
  {
    hide Less;
    LessTotal(EntryPath(entries[j]), EntryPath(entries[i]));
  }

  lemma EntryOnce(env: Env, t: Tree, m: Manifest, i: nat)
    requires Backed(env, t, m) && i < |m.entries|
    ensures m.entries[i] !in m.entries[..i]
  {
    hide Less, Located;
    LessTotal(EntryPath(m.entries[i]), EntryPath(m.entries[i]));
  }

  /** One entry of a restore. */
  lemma RestoreOne(env: Env, t: Tree, m: Manifest, i: nat, dirs: seq<Entry>, files: seq<Entry>)
    requires Backed(env, t, m) && i < |m.entries|
    requires if m.entries[i].kind == "dir" then dirs == m.entries[..i] && files == []
             else dirs == m.entries && files == m.entries[..i]
    ensures var p := Split(m.entries[i].path);
            && CleanPath(env, m.entries[i]) == Ok(p) && p in t && !t[p].Special? && Proper(p)
            && (t[p].Dir? <==> m.entries[i].kind == "dir") && (t[p].File? <==> m.entries[i].kind == "file")
            && m.entries[i] == EntryOf(env, p, t[p])
            && Place(env, Restored(env, t, dirs, files), p, t[p]) ==
               if Open(env, t, p) then Some(Restored(env, t, dirs, files)[p := t[p]]) else None
  {
    hide Join, Split, Less, Clean, Place, Proper, CleanPath;
    var e := m.entries[i];
    assert Located(env, t, e);
    LocatedPath(env, t, e);
    var p := Split(e.path);
    var now := Restored(env, t, dirs, files);
    EntryOnce(env, t, m, i);
    forall k | 0 < k < |p| ensures p[..k] in now && now[p[..k]].Dir? {
      ParentEarlier(env, t, m, i, k);
      assert EntryOf(env, p[..k], t[p[..k]]) in m.entries;
    }
    ProperPath(t, p);
    PlaceFresh(env, now, p, t[p]);
    SameOpen(env, now, t, p);
  }

  lemma ProperPath(t: Tree, p: Path)
    requires IsTree(t) && p in t
    ensures Proper(p) && p != []
  {
  }

  /** The next entry is in place, or was none of this loop's business. */
  lemma RestoredNext(env: Env, t: Tree, m: Manifest, i: nat)
    requires Backed(env, t, m) && i < |m.entries|
    ensures var p := Split(m.entries[i].path);
            && p in t && !t[p].Special?
            && Restored(env, t, m.entries[..i + 1], []) ==
               (if t[p].Dir? then Restored(env, t, m.entries[..i], [])[p := t[p]]
                else Restored(env, t, m.entries[..i], []))
            && Restored(env, t, m.entries, m.entries[..i + 1]) ==
               (if t[p].Dir? then Restored(env, t, m.entries, m.entries[..i])
                else Restored(env, t, m.entries, m.entries[..i])[p := t[p]])
  {
    hide Join, Split, Less, Restored, EntryOf, IsTree, Proper;
    var e := m.entries[i];
    assert Located(env, t, e);
    var p := Split(e.path);
    assert m.entries[..i + 1] == m.entries[..i] + [e];
    forall q | q in t && !t[q].Special? ensures EntryOf(env, q, t[q]) == e <==> q == p {
      SameEntry(env, t, p, q);
    }
    RestoredMore(env, t, p, m.entries[..i], e, m.entries);
  }

  lemma RestoredMore(env: Env, t: Tree, p: Path, seen: seq<Entry>, e: Entry, all: seq<Entry>)
    requires p in t && !t[p].Special?
    requires forall q | q in t && !t[q].Special? :: EntryOf(env, q, t[q]) == e <==> q == p
    ensures Restored(env, t, seen + [e], []) ==
            if t[p].Dir? then Restored(env, t, seen, [])[p := t[p]] else Restored(env, t, seen, [])
    ensures Restored(env, t, all, seen + [e]) ==
            if t[p].Dir? then Restored(env, t, all, seen) else Restored(env, t, all, seen)[p := t[p]]
  {
    hide EntryOf;
    var now := Restored(env, t, all, seen + [e]);
    assert forall q | q in t && !t[q].Special? ::
           EntryOf(env, q, t[q]) in seen + [e] <==> EntryOf(env, q, t[q]) in seen || q == p;
  }

  lemma SameEntry(env: Env, t: Tree, p: Path, q: Path)
    requires IsTree(t) && p in t && q in t && !t[p].Special? && !t[q].Special?
    ensures EntryOf(env, p, t[p]) == EntryOf(env, q, t[q]) <==> p == q
  {
    hide Join;
    SamePath(t, p, q);
  }

  lemma SamePath(t: Tree, p: Path, q: Path)
    requires IsTree(t) && p in t && q in t
    ensures Join(p, "/") == Join(q, "/") <==> p == q
  {
    JoinInjective(p, q);
  }

  lemma RestoredAll(env: Env, t: Tree, m: Manifest)
    requires Describes(env, t, m)
    ensures Restored(env, t, m.entries, m.entries) == t
    ensures Restored(env, t, [], []) == map[]
  {
    hide Located;
  }

  /** What is in `target` is in `t` too, with the same type and contents. */
  ghost predicate Alike(t: Tree, target: Tree) {
    forall p | p in target :: p in t && SameNode(t[p], target[p])
  }

  predicate SameNode(n: Node, n': Node) {
    (n.Dir? && n'.Dir?) || (n.File? && n'.File? && n.content == n'.content)
  }

  lemma {:induction false} MkdirAlike(env: Env, t: Tree, target: Tree, p: Path, mode: nat)
    requires IsTree(t) && Alike(t, target) && (p != [] ==> p in t && t[p].Dir?)
    ensures var made := MkdirAll(env, target, p, mode);
            made.Some? ==> Alike(t, made.value) && target.Keys <= made.value.Keys && (p != [] ==> p in made.value)
    decreases |p|
  {
    hide Open;
    if p != [] {
      assert Above(p) != [] ==> Above(p) in t && t[Above(p)].Dir?;
      MkdirAlike(env, t, target, Above(p), mode);
    }
  }

  lemma PlaceAlike(env: Env, t: Tree, target: Tree, p: Path, n: Node)
    requires p != [] && p in t && SameNode(t[p], n)
    ensures var placed := Place(env, target, p, n);
            IsTree(t) && Alike(t, target) && placed.Some? ==>
              Alike(t, placed.value) && target.Keys <= placed.value.Keys && p in placed.value
  {
    hide Open, MkdirAll;
    if IsTree(t) && Alike(t, target) {
      if n.Dir? {
        MkdirAlike(env, t, target, p, n.mode);
      } else {
        assert Above(p) != [] ==> Above(p) in t && t[Above(p)].Dir?;
        MkdirAlike(env, t, target, Above(p), PARENT_MODE);
      }
    }
  }

  /** The entries of this type are in place. */
  ghost predicate InPlace(env: Env, target: Tree, entries: seq<Entry>, kind: string) {
    forall e | e in entries && e.kind == kind :: CleanPath(env, e).Ok? && CleanPath(env, e).value in target
  }

  lemma NothingInPlace(env: Env, t: Tree, m: Manifest)
    ensures Alike(t, map[])
    ensures InPlace(env, map[], m.entries[..0], "dir")
    ensures forall target :: InPlace(env, target, m.entries[..0], "file")
  {
    assert m.entries[..0] == [];
  }

  lemma InPlaceKept(env: Env, target: Tree, target': Tree, entries: seq<Entry>, kind: string)
    ensures InPlace(env, target, entries, kind) && target.Keys <= target'.Keys ==> InPlace(env, target', entries, kind)
  {
    hide CleanPath;
  }

  lemma InPlaceNext(env: Env, target: Tree, m: Manifest, i: nat, kind: string)
    requires i < |m.entries|
    ensures var e := m.entries[i];
            InPlace(env, target, m.entries[..i], kind)
            && (e.kind == kind ==> CleanPath(env, e).Ok? && CleanPath(env, e).value in target) ==>
              InPlace(env, target, m.entries[..i + 1], kind)
  {
    hide CleanPath;
    assert m.entries[..i + 1] == m.entries[..i] + [m.entries[i]];
  }

  /** A tree that has all the entries, and nothing but nodes like those of an accepted one,
      is accepted. */
  lemma RestoredAccepted(env: Env, t: Tree, target: Tree, m: Manifest)
    requires Shaped(env, m) && Accepted(env, t, m) && Alike(t, target)
    requires InPlace(env, target, m.entries, "dir") && InPlace(env, target, m.entries, "file")
    ensures Accepted(env, target, m)
  {
    hide CleanPath, Clean, Join, TotalsRight, HasEntry, PathsDistinct;
    forall i | 0 <= i < |m.entries|
      ensures CleanPath(env, m.entries[i]).Ok?
              && NodeMatches(env, target, CleanPath(env, m.entries[i]).value, m.entries[i])
    {
      assert m.entries[i] in m.entries;
      assert NodeMatches(env, t, CleanPath(env, m.entries[i]).value, m.entries[i]);
    }
  }

  /** The directories, or the files, among the first entries could be created. */
  ghost predicate Opened(env: Env, t: Tree, entries: seq<Entry>, kind: string) {
    forall e | e in entries && e.kind == kind && Split(e.path) != [] :: Open(env, t, Split(e.path))
  }

  /** RestoreLocalStorageBackup into an empty directory: a backup that the checks refuse is
      refused; what a backup described comes back node by node, with contents, permissions
      and modification times, unless a directory's permissions keep its contents out. What
      is restored from any accepted backup, whoever wrote its manifest and in whatever
      order, passes the same validator. */
  method Restore(env: Env, snapshot: Tree, m: Manifest) returns (r: Result<Tree>)
    ensures r.Ok? ==> Shaped(env, m) && Accepted(env, snapshot, m)
    ensures Backed(env, snapshot, m) ==> (r.Ok? <==> Creatable(env, snapshot)) && (r.Ok? ==> r.value == snapshot)
    ensures r.Ok? && IsTree(snapshot) ==> Accepted(env, r.value, m)
  {
    hide Accepted, Backed, CleanPath, Restored, Place, Describes, EntryOf, Split, Clean, IsTree, Trimmed, Shaped, Open,
         Creatable, Opened, Alike, InPlace;
    ghost var backed := Backed(env, snapshot, m);
    if backed {
      BackedIsValid(env, snapshot, m);
    }
    var shaped := CheckShape(env, m);
    if !shaped {
      return Err("backup manifest is malformed");
    }
    var valid := ValidateTree(env, snapshot, m);
    if !valid {
      return Err("backup is not valid");
    }
    var target: Tree := map[];
    NoneOpened(env, snapshot, m);
    NothingInPlace(env, snapshot, m);
    for i := 0 to |m.entries|
      invariant backed ==> target == Restored(env, snapshot, m.entries[..i], [])
                           && Opened(env, snapshot, m.entries[..i], "dir")
      invariant IsTree(snapshot) ==> Alike(snapshot, target) && InPlace(env, target, m.entries[..i], "dir")
    {
      var entry := m.entries[i];
      if backed {
        RestoredNext(env, snapshot, m, i);
        RestoreKind(env, snapshot, m, i);
        OpenedNext(env, snapshot, m, i, "dir");
        if entry.kind == "dir" {
          RestoreOne(env, snapshot, m, i, m.entries[..i], []);
        }
      }
      if entry.kind == "dir" {
        AcceptedEntry(env, snapshot, m, i);
        PlaceAlike(env, snapshot, target, CleanPath(env, entry).value, Dir(entry.mode));
        var placed := Place(env, target, CleanPath(env, entry).value, Dir(entry.mode));
        if placed.None? {
          return Err("restore directory");
        }
        InPlaceKept(env, target, placed.value, m.entries[..i], "dir");
        target := placed.value;
      }
      InPlaceNext(env, target, m, i, "dir");
    }
    assert m.entries[..|m.entries|] == m.entries;
    for i := 0 to |m.entries|
      invariant backed ==> target == Restored(env, snapshot, m.entries, m.entries[..i])
                           && Opened(env, snapshot, m.entries[..i], "file")
      invariant IsTree(snapshot) ==> Alike(snapshot, target) && InPlace(env, target, m.entries, "dir")
                                     && InPlace(env, target, m.entries[..i], "file")
    {
      var entry := m.entries[i];
      if backed {
        RestoredNext(env, snapshot, m, i);
        RestoreKind(env, snapshot, m, i);
        OpenedNext(env, snapshot, m, i, "file");
        if entry.kind == "file" {
          RestoreOne(env, snapshot, m, i, m.entries, m.entries[..i]);
        }
      }
      if entry.kind == "file" {
        AcceptedEntry(env, snapshot, m, i);
        var p := CleanPath(env, entry).value;
        PlaceAlike(env, snapshot, target, p, File(entry.mode, snapshot[p].content, entry.modTime));
        var placed := Place(env, target, p, File(entry.mode, snapshot[p].content, entry.modTime));
        if placed.None? {
          return Err("restore file");
        }
        InPlaceKept(env, target, placed.value, m.entries, "dir");
        InPlaceKept(env, target, placed.value, m.entries[..i], "file");
        target := placed.value;
      }
      InPlaceNext(env, target, m, i, "file");
    }
    if backed {
      BackedAll(env, snapshot, m);
      AllOpened(env, snapshot, m);
    }
    if IsTree(snapshot) {
      RestoredAccepted(env, snapshot, target, m);
    }
    return Ok(target);
  }

  lemma NoneOpened(env: Env, t: Tree, m: Manifest)
    ensures Opened(env, t, m.entries[..0], "dir") && Opened(env, t, m.entries[..0], "file")
  {
    assert m.entries[..0] == [];
  }

  lemma EntryPlace(env: Env, t: Tree, m: Manifest, i: nat)
    requires Backed(env, t, m) && i < |m.entries|
    ensures Split(m.entries[i].path) in t && Split(m.entries[i].path) != []
  {
    hide Split, Total, SortedBy, Trimmed, EntryOf;
    assert Located(env, t, m.entries[i]);
    ProperPath(t, Split(m.entries[i].path));
  }

  lemma OpenedNext(env: Env, t: Tree, m: Manifest, i: nat, kind: string)
    requires Backed(env, t, m) && i < |m.entries| && Opened(env, t, m.entries[..i], kind)
    ensures var p := Split(m.entries[i].path);
            && p in t && p != []
            && (m.entries[i].kind == kind ==> (!Open(env, t, p) ==> !Creatable(env, t)))
            && (m.entries[i].kind != kind || Open(env, t, p) ==> Opened(env, t, m.entries[..i + 1], kind))
  {
    hide Split, Open, Backed;
    EntryPlace(env, t, m, i);
    assert m.entries[..i + 1] == m.entries[..i] + [m.entries[i]];
  }

  lemma AllOpened(env: Env, t: Tree, m: Manifest)
    requires Backed(env, t, m) && Opened(env, t, m.entries, "dir") && Opened(env, t, m.entries, "file")
    ensures Creatable(env, t)
  {
    hide Split, Open, Join;
    forall p | p in t && p != [] ensures Open(env, t, p) {
      ProperPath(t, p);
      SplitJoin(p);
      assert EntryOf(env, p, t[p]) in m.entries;
    }
  }

  /** Both are directories, or both are files of one size and one checksum. */
  predicate SameLook(env: Env, n: Node, n': Node) {
    (n.Dir? && n'.Dir?)
    || (n.File? && n'.File? && |n'.content| == |n.content| && env.sha(n'.content) == env.sha(n.content))
  }

  /** Against a backup's manifest the validator accepts a tree exactly if it has the same
      paths, the same types, and files of the same sizes and checksums. So a file that was
      lost, added, or changed in a way its size or checksum shows makes it refuse. */
  lemma TamperedAcceptedIff(env: Env, t: Tree, m: Manifest, t': Tree)
    requires Backed(env, t, m) && IsTree(t') && Trimmed(env, t')
    ensures Accepted(env, t', m) <==> t'.Keys == t.Keys && forall p | p in t :: SameLook(env, t[p], t'[p])
  {
    hide Clean, Join, TotalsRight, IsTree, Trimmed, Describes, HasEntry, PathsDistinct, CleanPath, Accepted;
    BackupIsValid(env, t, m);
    AcceptedIff(env, t, m);
    AcceptedIff(env, t', m);
    if Accepted(env, t', m) {
      assert t'.Keys == t.Keys;
      forall p | p in t ensures SameLook(env, t[p], t'[p]) {
        var i := DescribingEntry(env, t, m, p);
        LookOf(env, t, t', p, m.entries[i]);
      }
    }
    if t'.Keys == t.Keys && forall p | p in t :: SameLook(env, t[p], t'[p]) {
      forall i | 0 <= i < |m.entries|
        ensures CleanPath(env, m.entries[i]).Ok?
                && NodeMatches(env, t', CleanPath(env, m.entries[i]).value, m.entries[i])
      {
        assert NodeMatches(env, t, CleanPath(env, m.entries[i]).value, m.entries[i]);
      }
    }
  }

  /** The entry at `i` is that of the path. */
  ghost predicate Describing(env: Env, t: Tree, m: Manifest, p: Path, i: nat) {
    && p in t && !t[p].Special? && i < |m.entries|
    && m.entries[i] == EntryOf(env, p, t[p]) && CleanPath(env, m.entries[i]) == Ok(p)
  }

  lemma DescribingEntry(env: Env, t: Tree, m: Manifest, p: Path) returns (i: nat)
    requires Backed(env, t, m) && p in t
    ensures Describing(env, t, m, p, i)
  {
    hide Clean, Join, Split, Total, SortedBy, Located;
    CleanJoin(env.trim, p);
    assert EntryOf(env, p, t[p]) in m.entries;
    i :| 0 <= i < |m.entries| && m.entries[i] == EntryOf(env, p, t[p]);
  }

  lemma LookOf(env: Env, t: Tree, t': Tree, p: Path, e: Entry)
    requires p in t && !t[p].Special? && e == EntryOf(env, p, t[p]) && NodeMatches(env, t', p, e)
    ensures SameLook(env, t[p], t'[p])
  {
  }

  lemma BackedIsValid(env: Env, t: Tree, m: Manifest)
    requires Backed(env, t, m)
    ensures Accepted(env, t, m) && Shaped(env, m) && Restored(env, t, m.entries[..0], []) == map[]
  {
    hide Clean, Split, Join, Total;
    BackupIsValid(env, t, m);
    forall i | 0 <= i < |m.entries| ensures m.entries[i].kind == "dir" || m.entries[i].kind == "file" {
      assert Located(env, t, m.entries[i]);
    }
    RestoredAll(env, t, m);
    assert m.entries[..0] == [];
  }

  lemma BackedAll(env: Env, t: Tree, m: Manifest)
    requires Backed(env, t, m)
    ensures Restored(env, t, m.entries, m.entries[..|m.entries|]) == t
  {
    RestoredAll(env, t, m);
    assert m.entries[..|m.entries|] == m.entries;
  }

  /** The kind of an entry is the kind of its node, whose other attributes it carries. */
  lemma RestoreKind(env: Env, t: Tree, m: Manifest, i: nat)
    requires Backed(env, t, m) && i < |m.entries|
    ensures var p := Split(m.entries[i].path);
            && p in t && (m.entries[i].kind == "dir" <==> t[p].Dir?) && (m.entries[i].kind == "file" <==> t[p].File?)
            && (t[p].Dir? ==> t[p] == Dir(m.entries[i].mode))
            && (t[p].File? ==> t[p] == File(m.entries[i].mode, t[p].content, m.entries[i].modTime))
  {
    hide Split, Join;
    assert Located(env, t, m.entries[i]);
  }

  lemma AcceptedEntry(env: Env, t: Tree, m: Manifest, i: nat)
    requires Accepted(env, t, m) && i < |m.entries|
    ensures CleanPath(env, m.entries[i]).Ok? && CleanPath(env, m.entries[i]).value != []
    ensures CleanPath(env, m.entries[i]).value in t
    ensures m.entries[i].kind == "dir" ==> t[CleanPath(env, m.entries[i]).value].Dir?
    ensures m.entries[i].kind == "file" ==> t[CleanPath(env, m.entries[i]).value].File?
  {
    hide Clean;
    CleanProper(env.trim, m.entries[i].path);
  }

  /** What CreateBackup described is what Restore brings back: the tree without the lease
      file is a tree too. */
  lemma WithoutLease(env: Env, source: Tree, lease: Path, m: Manifest)
    requires IsTree(source) && Trimmed(env, source - {lease}) && (lease in source ==> source[lease].File?)
    requires Describes(env, source - {lease}, m)
    ensures Backed(env, source - {lease}, m) && Accepted(env, source - {lease}, m)
  {
    TreeWithout(source, lease);
    BackupIsValid(env, source - {lease}, m);
  }
}
