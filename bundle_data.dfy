/**
 * The hierarchical size data for the bundle visualisation: every module that renders
 * code is filed under its path segments in a directory tree whose directory values
 * accumulate the sizes below them; the tree is then sorted by descending size.
 */
module BundleData {
  import opened Wrappers
  import opened Strings
  import opened Paths
  import Treeshaking

  /** A tree node: a file leaf, or a directory with its children (the source's optional `children`). */
  datatype BundleNode =
    | Leaf(name: string, value: int)
    | Directory(name: string, value: int, children: seq<BundleNode>)

  /** The children of a node, none for a leaf. */
  function Kids(n: BundleNode): seq<BundleNode> {
    if n.Directory? then n.children else []
  }

  /** The directory lookup's test: a node with children and the given name. */
  predicate IsDirNamed(n: BundleNode, seg: string) {
    n.Directory? && n.name == seg
  }

  /** `children.find(c => c.name === seg && c.children != null)`, as an index. */
  function FindDir(kids: seq<BundleNode>, seg: string): (r: Option<nat>)
    ensures r.Some? ==> r.value < |kids| && IsDirNamed(kids[r.value], seg)
                        && forall k :: 0 <= k < r.value ==> !IsDirNamed(kids[k], seg)
    ensures r.None? ==> forall k :: 0 <= k < |kids| ==> !IsDirNamed(kids[k], seg)
  {
    if kids == [] then None
    else if IsDirNamed(kids[0], seg) then Some(0)
    else match FindDir(kids[1..], seg)
      case None => None
      case Some(i) => Some(i + 1)
  }

  /** `children.find(c => c.name === fileName)`, as an index: files and directories alike. */
  function FindNamed(kids: seq<BundleNode>, name: string): (r: Option<nat>)
    ensures r.Some? ==> r.value < |kids| && kids[r.value].name == name
                        && forall k :: 0 <= k < r.value ==> kids[k].name != name
    ensures r.None? ==> forall k :: 0 <= k < |kids| ==> kids[k].name != name
  {
    if kids == [] then None
    else if kids[0].name == name then Some(0)
    else match FindNamed(kids[1..], name)
      case None => None
      case Some(i) => Some(i + 1)
  }

  function SumValues(kids: seq<BundleNode>): int
  {
    if kids == [] then 0 else kids[0].value + SumValues(kids[1..])
  }

  lemma {:induction false} SumValuesUpdate(kids: seq<BundleNode>, i: nat, x: BundleNode)
    requires i < |kids|
    ensures SumValues(kids[i := x]) == SumValues(kids) - kids[i].value + x.value
    decreases |kids|
  {
    if i > 0 {
      assert kids[i := x][1..] == kids[1..][i - 1 := x];
      SumValuesUpdate(kids[1..], i - 1, x);
    }
  }

  lemma {:induction false} SumValuesAppend(kids: seq<BundleNode>, x: BundleNode)
    ensures SumValues(kids + [x]) == SumValues(kids) + x.value
    decreases |kids|
  {
    if kids == [] {
      assert kids + [x] == [x];
    } else {
      assert (kids + [x])[1..] == kids[1..] + [x];
      SumValuesAppend(kids[1..], x);
    }
  }

  // ---------------------------------------------------------------------------
  // insertModule
  // ---------------------------------------------------------------------------

  /**
   * The index of the child that filing under `segments` updates: the first entry named
   * `segments[0]` when it is the file, the first such directory otherwise; `|kids|` when
   * there is none and a new child is appended.
   */
  function Target(kids: seq<BundleNode>, segments: seq<string>): (t: nat)
    requires |segments| >= 1
    ensures t <= |kids|
    ensures t < |kids| ==> kids[t].name == segments[0] && (|segments| > 1 ==> kids[t].Directory?)
    ensures forall k :: 0 <= k < t ==> kids[k].name != segments[0] || (|segments| > 1 && kids[k].Leaf?)
  {
    var found := if |segments| == 1 then FindNamed(kids, segments[0]) else FindDir(kids, segments[0]);
    if found.Some? then found.value else |kids|
  }

  /**
   * The children list after filing a module of `size` bytes under `segments`: every segment
   * but the last names a directory (the first child with that name and children, created
   * as an empty directory when missing) whose value grows by `size`; the last names the
   * file, whose first same-named entry grows by `size`, or which is appended as a new leaf.
   */
  function InsertInto(kids: seq<BundleNode>, segments: seq<string>, size: int): (r: seq<BundleNode>)
    requires |segments| >= 1
    ensures |r| == if Target(kids, segments) == |kids| then |kids| + 1 else |kids|
    ensures forall k :: 0 <= k < |kids| ==> r[k].name == kids[k].name && r[k].Directory? == kids[k].Directory?
    ensures forall k :: 0 <= k < |kids| && k != Target(kids, segments) ==> r[k] == kids[k]
    ensures |r| == |kids| + 1 ==> r[|kids|].name == segments[0] && (r[|kids|].Directory? <==> |segments| > 1)
    ensures SumValues(r) == SumValues(kids) + size
    decreases |segments|
  {
    if |segments| == 1 then
      match FindNamed(kids, segments[0])
      case Some(i) =>
        var existing := kids[i].(value := kids[i].value + size);
        SumValuesUpdate(kids, i, existing);
        kids[i := existing]
      case None =>
        var leaf := Leaf(segments[0], size);
        SumValuesAppend(kids, leaf);
        kids + [leaf]
    else
      match FindDir(kids, segments[0])
      case Some(i) =>
        var child := Directory(kids[i].name, kids[i].value + size, InsertInto(kids[i].children, segments[1..], size));
        SumValuesUpdate(kids, i, child);
        kids[i := child]
      case None =>
        var child := Directory(segments[0], size, InsertInto([], segments[1..], size));
        SumValuesAppend(kids, child);
        kids + [child]
  }

  /**
   * `insertModule(current, segments, size)`: the node keeps its name and its own value and
   * always ends up with children; its children total grows by exactly `size`.
   */
  function InsertModule(current: BundleNode, segments: seq<string>, size: int): (r: BundleNode)
    requires |segments| >= 1
    ensures r.Directory? && r.name == current.name && r.value == current.value
    ensures |Kids(current)| <= |r.children| <= |Kids(current)| + 1
    ensures SumValues(r.children) == SumValues(Kids(current)) + size
    ensures forall k :: 0 <= k < |Kids(current)| && k != Target(Kids(current), segments) ==> r.children[k] == Kids(current)[k]
  {
    Directory(current.name, current.value, InsertInto(Kids(current), segments, size))
  }

  // ---------------------------------------------------------------------------
  // Lookups along a path, as insertModule performs them
  // ---------------------------------------------------------------------------

  /** The directory reached from `n` by the directory lookups for `dirs`. */
  function DirEntry(n: BundleNode, dirs: seq<string>): Option<BundleNode>
    decreases |dirs|
  {
    if dirs == [] then Some(n)
    else match FindDir(Kids(n), dirs[0])
      case None => None
      case Some(i) => DirEntry(Kids(n)[i], dirs[1..])
  }

  /** The entry reached by the directory lookups for all but the last segment and the file lookup for the last. */
  function LeafEntry(n: BundleNode, segments: seq<string>): Option<BundleNode>
    requires |segments| >= 1
    decreases |segments|
  {
    if |segments| == 1 then
      match FindNamed(Kids(n), segments[0])
      case None => None
      case Some(i) => Some(Kids(n)[i])
    else
      match FindDir(Kids(n), segments[0])
      case None => None
      case Some(i) => LeafEntry(Kids(n)[i], segments[1..])
  }

  /** The value of a looked-up entry, 0 when it is missing. */
  function ValueOf(o: Option<BundleNode>): int {
    if o.Some? then o.value.value else 0
  }

  lemma FindDirAfterUpdate(kids: seq<BundleNode>, seg: string, i: nat, x: BundleNode)
    requires FindDir(kids, seg) == Some(i) && IsDirNamed(x, seg)
    ensures FindDir(kids[i := x], seg) == Some(i)
  {
    assert kids[i := x][i] == x;
    assert forall k :: 0 <= k < |kids| && k != i ==> kids[i := x][k] == kids[k];
  }

  lemma FindDirAfterAppend(kids: seq<BundleNode>, seg: string, x: BundleNode)
    requires FindDir(kids, seg).None? && IsDirNamed(x, seg)
    ensures FindDir(kids + [x], seg) == Some(|kids|)
  {
    assert (kids + [x])[|kids|] == x;
    assert forall k :: 0 <= k < |kids| ==> (kids + [x])[k] == kids[k];
  }

  lemma FindNamedAfterUpdate(kids: seq<BundleNode>, name: string, i: nat, x: BundleNode)
    requires FindNamed(kids, name) == Some(i) && x.name == name
    ensures FindNamed(kids[i := x], name) == Some(i)
  {
    assert kids[i := x][i] == x;
    assert forall k :: 0 <= k < |kids| && k != i ==> kids[i := x][k] == kids[k];
  }

  lemma FindNamedAfterAppend(kids: seq<BundleNode>, name: string, x: BundleNode)
    requires FindNamed(kids, name).None? && x.name == name
    ensures FindNamed(kids + [x], name) == Some(|kids|)
  {
    assert (kids + [x])[|kids|] == x;
    assert forall k :: 0 <= k < |kids| ==> (kids + [x])[k] == kids[k];
  }

  /** What inserting promises along the path: every directory and the file entry gain `size`, and the entry exists. */
  ghost predicate AddsAlongPath(n: BundleNode, segments: seq<string>, size: int)
    requires |segments| >= 1
  {
    && (forall j :: 1 <= j < |segments| ==>
          ValueOf(DirEntry(InsertModule(n, segments, size), segments[..j])) == ValueOf(DirEntry(n, segments[..j])) + size)
    && LeafEntry(InsertModule(n, segments, size), segments).Some?
    && ValueOf(LeafEntry(InsertModule(n, segments, size), segments)) == ValueOf(LeafEntry(n, segments)) + size
  }

  /**
   * Inserting adds `size` to every directory on the path and to the file entry, whether
   * they existed before or not, and the file entry exists afterwards.
   */
  lemma {:induction false} InsertAddsAlongPath(n: BundleNode, segments: seq<string>, size: int)
    requires |segments| >= 1
    ensures forall j :: 1 <= j < |segments| ==>
              ValueOf(DirEntry(InsertModule(n, segments, size), segments[..j])) == ValueOf(DirEntry(n, segments[..j])) + size
    ensures LeafEntry(InsertModule(n, segments, size), segments).Some?
    ensures ValueOf(LeafEntry(InsertModule(n, segments, size), segments)) == ValueOf(LeafEntry(n, segments)) + size
    decreases |segments|, 1
  {
    var kids := Kids(n);
    var seg := segments[0];
    if |segments| == 1 {
      match FindNamed(kids, seg)
      case Some(i) =>
        FindNamedAfterUpdate(kids, seg, i, kids[i].(value := kids[i].value + size));
      case None =>
        FindNamedAfterAppend(kids, seg, Leaf(seg, size));
    } else {
      match FindDir(kids, seg)
      case Some(i) =>
        InsertAlongExistingDir(n, segments, size, i);
      case None =>
        InsertAlongNewDir(n, segments, size);
    }
  }

  /** The path continues through an existing directory, which gains `size`. */
  lemma {:induction false} InsertAlongExistingDir(n: BundleNode, segments: seq<string>, size: int, i: nat)
    requires |segments| > 1 && FindDir(Kids(n), segments[0]) == Some(i)
    ensures AddsAlongPath(n, segments, size)
    decreases |segments|, 0
  {
    var kids, r := Kids(n), InsertModule(n, segments, size);
    var seg, rest := segments[0], segments[1..];
    var oldChild := kids[i];
    var inserted := InsertModule(oldChild, rest, size);
    var child := inserted.(value := oldChild.value + size);
    InsertIntoThroughDir(kids, segments, size, i);
    assert r.children == kids[i := child];
    FindDirAfterUpdate(kids, seg, i, child);
    InsertAddsAlongPath(oldChild, rest, size);
    forall j | 1 <= j < |segments|
      ensures ValueOf(DirEntry(r, segments[..j])) == ValueOf(DirEntry(n, segments[..j])) + size
    {
      StepIntoDir(r, segments[..j], i);
      StepIntoDir(n, segments[..j], i);
      if j > 1 {
        assert segments[..j][1..] == rest[..j - 1];
        EntryByKids(child, inserted, rest[..j - 1], rest);
      }
    }
    LeafStepIntoDir(r, segments, i);
    LeafStepIntoDir(n, segments, i);
    EntryByKids(child, inserted, [seg], rest);
  }

  /** One directory step of a lookup. */
  lemma StepIntoDir(n: BundleNode, dirs: seq<string>, i: nat)
    requires |dirs| >= 1 && FindDir(Kids(n), dirs[0]) == Some(i)
    ensures DirEntry(n, dirs) == DirEntry(Kids(n)[i], dirs[1..])
  {
  }

  lemma LeafStepIntoDir(n: BundleNode, segments: seq<string>, i: nat)
    requires |segments| > 1 && FindDir(Kids(n), segments[0]) == Some(i)
    ensures LeafEntry(n, segments) == LeafEntry(Kids(n)[i], segments[1..])
  {
  }

  /** Lookups below a node see only its children. */
  lemma EntryByKids(a: BundleNode, b: BundleNode, dirs: seq<string>, segments: seq<string>)
    requires Kids(a) == Kids(b) && |segments| >= 1
    ensures |dirs| >= 1 ==> DirEntry(a, dirs) == DirEntry(b, dirs)
    ensures LeafEntry(a, segments) == LeafEntry(b, segments)
  {
  }

  lemma InsertIntoThroughDir(kids: seq<BundleNode>, segments: seq<string>, size: int, i: nat)
    requires |segments| > 1 && FindDir(kids, segments[0]) == Some(i)
    ensures InsertInto(kids, segments, size)
            == kids[i := Directory(kids[i].name, kids[i].value + size, InsertInto(kids[i].children, segments[1..], size))]
  {
  }

  /** The path continues through a directory that does not exist yet; it is created with `size`. */
  lemma {:induction false} InsertAlongNewDir(n: BundleNode, segments: seq<string>, size: int)
    requires |segments| > 1 && FindDir(Kids(n), segments[0]).None?
    ensures AddsAlongPath(n, segments, size)
    decreases |segments|, 0
  {
    var kids, r := Kids(n), InsertModule(n, segments, size);
    var seg, rest := segments[0], segments[1..];
    var inner := Directory(seg, 0, []);
    var child := Directory(seg, size, InsertInto([], rest, size));
    assert r.children == kids + [child];
    FindDirAfterAppend(kids, seg, child);
    InsertAddsAlongPath(inner, rest, size);
    assert InsertModule(inner, rest, size).children == child.children;
    forall j | 1 <= j < |segments|
      ensures ValueOf(DirEntry(r, segments[..j])) == ValueOf(DirEntry(n, segments[..j])) + size
    {
      if j > 1 {
        assert segments[..j][1..] == rest[..j - 1];
        assert DirEntry(inner, rest[..j - 1]) == None;
      }
    }
    assert LeafEntry(r, segments) == LeafEntry(child, rest);
    assert LeafEntry(inner, rest) == None;
  }

  /** `children.find` for a directory sees only which entries are directories of that name. */
  lemma {:induction false} FindDirSameFlags(a: seq<BundleNode>, b: seq<BundleNode>, seg: string)
    requires |a| <= |b|
    requires forall k :: 0 <= k < |a| ==> IsDirNamed(a[k], seg) == IsDirNamed(b[k], seg)
    requires forall k :: |a| <= k < |b| ==> !IsDirNamed(b[k], seg)
    ensures FindDir(b, seg) == FindDir(a, seg)
    decreases |a|
  {
    if a != [] {
      FindDirSameFlags(a[1..], b[1..], seg);
    }
  }

  /** `children.find` for a name sees only which entries carry that name. */
  lemma {:induction false} FindNamedSameFlags(a: seq<BundleNode>, b: seq<BundleNode>, name: string)
    requires |a| <= |b|
    requires forall k :: 0 <= k < |a| ==> (a[k].name == name) == (b[k].name == name)
    requires forall k :: |a| <= k < |b| ==> b[k].name != name
    ensures FindNamed(b, name) == FindNamed(a, name)
    decreases |a|
  {
    if a != [] {
      FindNamedSameFlags(a[1..], b[1..], name);
    }
  }

  /**
   * Filing under `segments` leaves every lookup along any other path as it was: a path
   * that is not a prefix of `segments` reaches the same directory and the same entry,
   * whether it leaves the filed path at once, further down, or runs on below its end.
   */
  lemma {:induction false} InsertLeavesOthers(n: BundleNode, segments: seq<string>, size: int, q: seq<string>)
    requires |segments| >= 1 && !(q <= segments)
    ensures DirEntry(InsertModule(n, segments, size), q) == DirEntry(n, q)
    ensures |q| >= 1 ==> LeafEntry(InsertModule(n, segments, size), q) == LeafEntry(n, q)
    decreases |segments|, 1
  {
    assert |q| >= 1;
    if q[0] != segments[0] {
      OtherNameUnchanged(n, segments, size, q);
    } else if |segments| == 1 {
      LeafInsertKeepsBelow(n, segments, size, q);
    } else if FindDir(Kids(n), segments[0]).Some? {
      ExistingDirKeepsOthers(n, segments, size, q);
    } else {
      NewDirKeepsOthers(n, segments, size, q);
    }
  }

  /** A lookup whose first name differs from the filed path's meets the same children. */
  lemma OtherNameUnchanged(n: BundleNode, segments: seq<string>, size: int, q: seq<string>)
    requires |segments| >= 1 && |q| >= 1 && q[0] != segments[0]
    ensures DirEntry(InsertModule(n, segments, size), q) == DirEntry(n, q)
    ensures LeafEntry(InsertModule(n, segments, size), q) == LeafEntry(n, q)
  {
    var kids, r := Kids(n), InsertModule(n, segments, size);
    var kids' := r.children;
    FindDirSameFlags(kids, kids', q[0]);
    FindNamedSameFlags(kids, kids', q[0]);
    match FindDir(kids, q[0]) {
      case Some(i) => assert kids'[i] == kids[i];
      case None =>
    }
    match FindNamed(kids, q[0]) {
      case Some(i) => assert kids'[i] == kids[i];
      case None =>
    }
  }

  /** Filing a file changes one entry's value, never a directory's children, and appends no directory. */
  lemma LeafInsertKeepsBelow(n: BundleNode, segments: seq<string>, size: int, q: seq<string>)
    requires |segments| == 1 && |q| >= 2 && q[0] == segments[0]
    ensures DirEntry(InsertModule(n, segments, size), q) == DirEntry(n, q)
    ensures LeafEntry(InsertModule(n, segments, size), q) == LeafEntry(n, q)
  {
    var kids, r := Kids(n), InsertModule(n, segments, size);
    var kids' := r.children;
    FindDirSameFlags(kids, kids', q[0]);
    match FindDir(kids, q[0]) {
      case Some(i) =>
        assert Kids(kids'[i]) == Kids(kids[i]) by {
          if i == Target(kids, segments) {
            assert kids' == kids[i := kids[i].(value := kids[i].value + size)];
          }
        }
        StepIntoDir(r, q, i);
        StepIntoDir(n, q, i);
        LeafStepIntoDir(r, q, i);
        LeafStepIntoDir(n, q, i);
        EntryByKids(kids'[i], kids[i], q[1..], q[1..]);
      case None =>
    }
  }

  /** Two paths with the same first name: one is a prefix of the other exactly when their tails are. */
  lemma PrefixAfterHead(q: seq<string>, segments: seq<string>)
    requires |q| >= 1 && |segments| >= 1 && q[0] == segments[0] && !(q <= segments)
    ensures |q| >= 2 && !(q[1..] <= segments[1..])
  {
    assert q == [q[0]] + q[1..];
    assert segments == [segments[0]] + segments[1..];
  }

  /** The filed path runs through an existing directory: below it, the other paths are left alone. */
  lemma {:induction false} ExistingDirKeepsOthers(n: BundleNode, segments: seq<string>, size: int, q: seq<string>)
    requires |segments| > 1 && FindDir(Kids(n), segments[0]).Some?
    requires |q| >= 1 && q[0] == segments[0] && !(q <= segments)
    ensures DirEntry(InsertModule(n, segments, size), q) == DirEntry(n, q)
    ensures LeafEntry(InsertModule(n, segments, size), q) == LeafEntry(n, q)
    decreases |segments|, 0
  {
    var kids, r := Kids(n), InsertModule(n, segments, size);
    var i := FindDir(kids, segments[0]).value;
    var rest := segments[1..];
    var inserted := InsertModule(kids[i], rest, size);
    var child := inserted.(value := kids[i].value + size);
    InsertIntoThroughDir(kids, segments, size, i);
    assert r.children == kids[i := child];
    FindDirAfterUpdate(kids, segments[0], i, child);
    PrefixAfterHead(q, segments);
    InsertLeavesOthers(kids[i], rest, size, q[1..]);
    EntryByKids(child, inserted, q[1..], q[1..]);
    StepIntoDir(r, q, i);
    StepIntoDir(n, q, i);
    LeafStepIntoDir(r, q, i);
    LeafStepIntoDir(n, q, i);
  }

  /** The filed path creates a new directory: the other paths still find nothing below it. */
  lemma {:induction false} NewDirKeepsOthers(n: BundleNode, segments: seq<string>, size: int, q: seq<string>)
    requires |segments| > 1 && FindDir(Kids(n), segments[0]).None?
    requires |q| >= 1 && q[0] == segments[0] && !(q <= segments)
    ensures DirEntry(InsertModule(n, segments, size), q) == DirEntry(n, q)
    ensures LeafEntry(InsertModule(n, segments, size), q) == LeafEntry(n, q)
    decreases |segments|, 0
  {
    var kids, r := Kids(n), InsertModule(n, segments, size);
    var seg, rest := segments[0], segments[1..];
    var inner := Directory(seg, 0, []);
    var child := Directory(seg, size, InsertInto([], rest, size));
    assert r.children == kids + [child];
    FindDirAfterAppend(kids, seg, child);
    PrefixAfterHead(q, segments);
    InsertLeavesOthers(inner, rest, size, q[1..]);
    assert InsertModule(inner, rest, size).children == child.children;
    EntryByKids(child, InsertModule(inner, rest, size), q[1..], q[1..]);
    assert DirEntry(inner, q[1..]) == None;
    assert LeafEntry(inner, q[1..]) == None;
    StepIntoDir(r, q, |kids|);
    LeafStepIntoDir(r, q, |kids|);
  }

  // ---------------------------------------------------------------------------
  // Node counts: inserting an existing path creates nothing
  // ---------------------------------------------------------------------------

  function NodeCount(n: BundleNode): nat
    decreases n
  {
    if n.Leaf? then 1 else 1 + ForestCount(n.children)
  }

  function ForestCount(kids: seq<BundleNode>): nat
    decreases kids
  {
    if kids == [] then 0 else NodeCount(kids[0]) + ForestCount(kids[1..])
  }

  lemma {:induction false} ForestCountUpdate(kids: seq<BundleNode>, i: nat, x: BundleNode)
    requires i < |kids|
    ensures ForestCount(kids[i := x]) == ForestCount(kids) - NodeCount(kids[i]) + NodeCount(x)
    decreases |kids|
  {
    if i > 0 {
      assert kids[i := x][1..] == kids[1..][i - 1 := x];
      ForestCountUpdate(kids[1..], i - 1, x);
    }
  }

  /** Filing a module whose entry already exists adds no node to the tree. */
  lemma {:induction false} InsertExistingAddsNoNode(n: BundleNode, segments: seq<string>, size: int)
    requires |segments| >= 1
    requires LeafEntry(n, segments).Some?
    ensures NodeCount(InsertModule(n, segments, size)) == NodeCount(n)
    decreases |segments|
  {
    var kids := Kids(n);
    assert n.Directory?;
    if |segments| == 1 {
      var i := FindNamed(kids, segments[0]).value;
      var x := kids[i].(value := kids[i].value + size);
      assert NodeCount(x) == NodeCount(kids[i]);
      ForestCountUpdate(kids, i, x);
    } else {
      var i := FindDir(kids, segments[0]).value;
      var c := kids[i];
      var child := Directory(c.name, c.value + size, InsertInto(c.children, segments[1..], size));
      InsertExistingAddsNoNode(c, segments[1..], size);
      assert InsertModule(c, segments[1..], size).children == child.children;
      ForestCountUpdate(kids, i, child);
    }
  }

  /**
   * Filing the same path twice: the second insertion creates no node (no duplicate
   * sibling), and the file entry carries both sizes.
   */
  lemma InsertTwice(n: BundleNode, segments: seq<string>, a: int, b: int)
    requires |segments| >= 1
    ensures var once := InsertModule(n, segments, a);
            var twice := InsertModule(once, segments, b);
            && NodeCount(twice) == NodeCount(once)
            && ValueOf(LeafEntry(twice, segments)) == ValueOf(LeafEntry(n, segments)) + a + b
  {
    var once := InsertModule(n, segments, a);
    InsertAddsAlongPath(n, segments, a);
    InsertAddsAlongPath(once, segments, b);
    InsertExistingAddsNoNode(once, segments, b);
  }

  // ---------------------------------------------------------------------------
  // The branch-total invariant
  // ---------------------------------------------------------------------------

  /** Every directory's value is the sum of its children's values, all the way down. */
  predicate BranchTotals(n: BundleNode)
    decreases n
  {
    n.Directory? ==> n.value == SumValues(n.children) && AllBranchTotals(n.children)
  }

  predicate AllBranchTotals(kids: seq<BundleNode>)
    decreases kids
  {
    forall k :: 0 <= k < |kids| ==> BranchTotals(kids[k])
  }

  /** Every directory below `n`, which sits at `path`, has its path in `dirs`. */
  ghost predicate DirsListed(n: BundleNode, path: seq<string>, dirs: set<seq<string>>)
    decreases n
  {
    n.Directory? ==> ChildrenListed(n.children, path, dirs)
  }

  ghost predicate ChildrenListed(kids: seq<BundleNode>, path: seq<string>, dirs: set<seq<string>>)
    decreases kids
  {
    forall k :: 0 <= k < |kids| ==>
      && (kids[k].Directory? ==> path + [kids[k].name] in dirs)
      && DirsListed(kids[k], path + [kids[k].name], dirs)
  }

  lemma {:induction false} DirsListedMono(n: BundleNode, path: seq<string>, d1: set<seq<string>>, d2: set<seq<string>>)
    requires DirsListed(n, path, d1) && d1 <= d2
    ensures DirsListed(n, path, d2)
    decreases n
  {
    if n.Directory? {
      forall k | 0 <= k < |n.children|
        ensures DirsListed(n.children[k], path + [n.children[k].name], d2)
      {
        DirsListedMono(n.children[k], path + [n.children[k].name], d1, d2);
      }
    }
  }

  /** The directory paths a module filed under `segments` below `path` passes through. */
  ghost function DirPrefixes(path: seq<string>, segments: seq<string>): set<seq<string>>
  {
    set j | 1 <= j < |segments| :: path + segments[..j]
  }

  lemma DirPrefixesStep(path: seq<string>, segments: seq<string>)
    requires |segments| >= 2
    ensures path + [segments[0]] in DirPrefixes(path, segments)
    ensures DirPrefixes(path + [segments[0]], segments[1..]) <= DirPrefixes(path, segments)
  {
    assert path + segments[..1] == path + [segments[0]];
    forall q | q in DirPrefixes(path + [segments[0]], segments[1..])
      ensures q in DirPrefixes(path, segments)
    {
      var j :| 1 <= j < |segments[1..]| && q == path + [segments[0]] + segments[1..][..j];
      assert q == path + segments[..j + 1];
    }
  }

  /**
   * Filing a module keeps every directory total exact, provided its file path is not the
   * path of an existing directory; the directories it creates are the ones on its path.
   */
  lemma {:induction false} InsertIntoKeepsTotals(kids: seq<BundleNode>, path: seq<string>, segments: seq<string>,
                                                 size: int, dirs: set<seq<string>>)
    requires |segments| >= 1
    requires AllBranchTotals(kids) && ChildrenListed(kids, path, dirs)
    requires path + segments !in dirs
    ensures AllBranchTotals(InsertInto(kids, segments, size))
    ensures ChildrenListed(InsertInto(kids, segments, size), path, dirs + DirPrefixes(path, segments))
    decreases |segments|
  {
    var r := InsertInto(kids, segments, size);
    var dirs' := dirs + DirPrefixes(path, segments);
    var seg := segments[0];
    forall k | 0 <= k < |kids|
      ensures DirsListed(kids[k], path + [kids[k].name], dirs')
    {
      DirsListedMono(kids[k], path + [kids[k].name], dirs, dirs');
    }
    if |segments| == 1 {
      assert path + [seg] == path + segments;
      match FindNamed(kids, seg)
      case Some(i) =>
        assert !kids[i].Directory?;
        assert r == kids[i := Leaf(seg, kids[i].value + size)];
      case None =>
        assert r == kids + [Leaf(seg, size)];
    } else {
      var rest := segments[1..];
      var path' := path + [seg];
      assert path' + rest == path + segments;
      DirPrefixesStep(path, segments);
      match FindDir(kids, seg)
      case Some(i) =>
        var c := kids[i];
        InsertIntoKeepsTotals(c.children, path', rest, size, dirs);
        var child := Directory(c.name, c.value + size, InsertInto(c.children, rest, size));
        DirsListedMono(child, path', dirs + DirPrefixes(path', rest), dirs');
        assert r == kids[i := child];
      case None =>
        InsertIntoKeepsTotals([], path', rest, size, dirs);
        var child := Directory(seg, size, InsertInto([], rest, size));
        DirsListedMono(child, path', dirs + DirPrefixes(path', rest), dirs');
        assert r == kids + [child];
    }
  }

  // ---------------------------------------------------------------------------
  // sortTree and countLeaves
  // ---------------------------------------------------------------------------

  predicate SortedDesc(xs: seq<BundleNode>) {
    forall i, j :: 0 <= i < j < |xs| ==> xs[i].value >= xs[j].value
  }

  /** The name and value of each node, in order. */
  function Labels(xs: seq<BundleNode>): seq<(string, int)> {
    seq(|xs|, i requires 0 <= i < |xs| => (xs[i].name, xs[i].value))
  }

  /** The leaves `countLeaves` reports: a node without children counts as one leaf. */
  function CountLeaves(n: BundleNode): (c: nat)
    ensures c >= 1
    decreases n
  {
    if n.Leaf? || n.children == [] then 1 else LeafTotal(n.children)
  }

  function LeafTotal(kids: seq<BundleNode>): (c: nat)
    ensures c >= |kids|
    decreases kids
  {
    if kids == [] then 0 else CountLeaves(kids[0]) + LeafTotal(kids[1..])
  }

  /**
   * Places `x` before the first element whose value is not larger than its own, so that
   * `x`, which came first, stays ahead of the elements with an equal value.
   */
  function InsertDesc(x: BundleNode, ys: seq<BundleNode>): (r: seq<BundleNode>)
    ensures multiset(r) == multiset(ys) + multiset{x}
  {
    if ys == [] || ys[0].value <= x.value then
      [x] + ys
    else
      assert ys == [ys[0]] + ys[1..];
      [ys[0]] + InsertDesc(x, ys[1..])
  }

  /** Inserting into a descending list keeps it descending. */
  lemma {:induction false} InsertDescSorted(x: BundleNode, ys: seq<BundleNode>)
    requires SortedDesc(ys)
    ensures SortedDesc(InsertDesc(x, ys))
    decreases |ys|
  {
    if ys != [] && ys[0].value > x.value {
      var rest := InsertDesc(x, ys[1..]);
      InsertDescSorted(x, ys[1..]);
      HeadDominates(ys[0], x, rest, ys[1..]);
      assert InsertDesc(x, ys) == [ys[0]] + rest;
    }
  }

  lemma HeadDominates(h: BundleNode, x: BundleNode, rest: seq<BundleNode>, tail: seq<BundleNode>)
    requires multiset(rest) == multiset(tail) + multiset{x} && h.value > x.value
    ensures (forall j :: 0 <= j < |tail| ==> h.value >= tail[j].value) ==>
            forall j :: 0 <= j < |rest| ==> h.value >= rest[j].value
  {
    forall j | 0 <= j < |rest| && rest[j] != x ensures rest[j] in tail {
      assert rest[j] in multiset(rest);
    }
  }

  /** Inserting keeps the names and values, the value total and the leaf total. */
  lemma InsertDescKeepsTotals(x: BundleNode, ys: seq<BundleNode>)
    ensures multiset(Labels(InsertDesc(x, ys))) == multiset(Labels(ys)) + multiset{(x.name, x.value)}
    ensures SumValues(InsertDesc(x, ys)) == SumValues(ys) + x.value
    ensures LeafTotal(InsertDesc(x, ys)) == LeafTotal(ys) + CountLeaves(x)
  {
    InsertDescKeepsLabels(x, ys);
    InsertDescKeepsSums(x, ys);
  }

  lemma {:induction false} InsertDescKeepsLabels(x: BundleNode, ys: seq<BundleNode>)
    ensures multiset(Labels(InsertDesc(x, ys))) == multiset(Labels(ys)) + multiset{(x.name, x.value)}
    decreases |ys|
  {
    var r := InsertDesc(x, ys);
    LabelsCons(r);
    if ys == [] || ys[0].value <= x.value {
      assert r[0] == x && r[1..] == ys;
    } else {
      InsertDescKeepsLabels(x, ys[1..]);
      LabelsCons(ys);
      assert r[0] == ys[0] && r[1..] == InsertDesc(x, ys[1..]);
    }
  }

  lemma {:induction false} InsertDescKeepsSums(x: BundleNode, ys: seq<BundleNode>)
    ensures SumValues(InsertDesc(x, ys)) == SumValues(ys) + x.value
    ensures LeafTotal(InsertDesc(x, ys)) == LeafTotal(ys) + CountLeaves(x)
    decreases |ys|
  {
    var r := InsertDesc(x, ys);
    if ys == [] || ys[0].value <= x.value {
      assert r[0] == x && r[1..] == ys;
    } else {
      InsertDescKeepsSums(x, ys[1..]);
      assert r[0] == ys[0] && r[1..] == InsertDesc(x, ys[1..]);
    }
  }

  /** The stable sort by descending value that `children.sort((a, b) => b.value - a.value)` performs. */
  function SortDesc(xs: seq<BundleNode>): (r: seq<BundleNode>)
    ensures multiset(r) == multiset(xs)
    ensures SortedDesc(r)
  {
    if xs == [] then []
    else
      assert xs == [xs[0]] + xs[1..];
      InsertDescSorted(xs[0], SortDesc(xs[1..]));
      InsertDesc(xs[0], SortDesc(xs[1..]))
  }

  /** Sorting a children list reorders its (name, value) pairs and keeps its totals. */
  lemma {:induction false} SortDescKeepsTotals(xs: seq<BundleNode>)
    ensures multiset(Labels(SortDesc(xs))) == multiset(Labels(xs))
    ensures SumValues(SortDesc(xs)) == SumValues(xs)
    ensures LeafTotal(SortDesc(xs)) == LeafTotal(xs)
    decreases |xs|
  {
    if xs != [] {
      var t := SortDesc(xs[1..]);
      assert SortDesc(xs) == InsertDesc(xs[0], t);
      SortDescKeepsTotals(xs[1..]);
      InsertDescKeepsTotals(xs[0], t);
      LabelsCons(xs);
    }
  }

  lemma LabelsCons(xs: seq<BundleNode>)
    requires xs != []
    ensures multiset(Labels(xs)) == multiset{(xs[0].name, xs[0].value)} + multiset(Labels(xs[1..]))
  {
    assert Labels(xs) == [(xs[0].name, xs[0].value)] + Labels(xs[1..]);
  }

  /** `sortTree(node)`: each children list is sorted, then each child is sorted in turn. */
  function SortTree(n: BundleNode): (r: BundleNode)
    ensures r.name == n.name && r.value == n.value && r.Directory? == n.Directory?
    ensures r.Directory? ==> |r.children| == |n.children|
    decreases n
  {
    match n
    case Leaf(_, _) => n
    case Directory(name, value, children) =>
      var sorted := SortDesc(children);
      Directory(name, value, seq(|sorted|, i requires 0 <= i < |sorted| =>
        assert sorted[i] in multiset(children);
        SortTree(sorted[i])))
  }

  /** Every directory's children, at every depth, are in descending value order. */
  predicate SortedEverywhere(n: BundleNode)
    decreases n
  {
    n.Directory? ==> SortedDesc(n.children) && forall k :: 0 <= k < |n.children| ==> SortedEverywhere(n.children[k])
  }

  lemma {:induction false} SumValuesSameLabels(a: seq<BundleNode>, b: seq<BundleNode>)
    requires Labels(a) == Labels(b)
    ensures SumValues(a) == SumValues(b)
    decreases |a|
  {
    if a != [] {
      assert |a| == |Labels(a)| == |b|;
      assert a[0].value == Labels(a)[0].1 == b[0].value;
      assert Labels(a[1..]) == Labels(b[1..]) by {
        forall i | 0 <= i < |a| - 1 ensures Labels(a[1..])[i] == Labels(b[1..])[i] {
          assert Labels(a)[i + 1] == Labels(b)[i + 1];
        }
      }
      SumValuesSameLabels(a[1..], b[1..]);
    }
  }

  lemma {:induction false} LeafTotalPointwise(a: seq<BundleNode>, b: seq<BundleNode>)
    requires |a| == |b| && forall i :: 0 <= i < |a| ==> CountLeaves(a[i]) == CountLeaves(b[i])
    ensures LeafTotal(a) == LeafTotal(b)
    decreases |a|
  {
    if a != [] {
      LeafTotalPointwise(a[1..], b[1..]);
    }
  }

  /** After sorting, every children list at every depth is in descending value order. */
  lemma {:induction false} SortTreeSorts(n: BundleNode)
    ensures SortedEverywhere(SortTree(n))
    decreases n
  {
    if n.Directory? {
      var sorted := SortDesc(n.children);
      var r := SortTree(n);
      forall i | 0 <= i < |sorted| ensures SortedEverywhere(r.children[i]) {
        assert sorted[i] in multiset(n.children);
        SortTreeSorts(sorted[i]);
      }
    }
  }

  /** Sorting only reorders: each directory's children keep their (name, value) pairs. */
  lemma SortTreeKeepsLabels(n: BundleNode)
    requires n.Directory?
    ensures multiset(Labels(SortTree(n).children)) == multiset(Labels(n.children))
  {
    var sorted := SortDesc(n.children);
    SortDescKeepsTotals(n.children);
    assert Labels(SortTree(n).children) == Labels(sorted);
  }

  /** Each node of a list sorted in place, the order of the list kept. */
  function SortEach(xs: seq<BundleNode>): seq<BundleNode> {
    seq(|xs|, i requires 0 <= i < |xs| => SortTree(xs[i]))
  }

  lemma SortEachCons(xs: seq<BundleNode>)
    requires xs != []
    ensures multiset(SortEach(xs)) == multiset{SortTree(xs[0])} + multiset(SortEach(xs[1..]))
  {
    assert SortEach(xs) == [SortTree(xs[0])] + SortEach(xs[1..]);
  }

  lemma SortEachSameHead(r: seq<BundleNode>, ys: seq<BundleNode>, x: BundleNode)
    requires r != [] && ys != [] && r[0] == ys[0]
    requires multiset(SortEach(r[1..])) == multiset(SortEach(ys[1..])) + multiset{SortTree(x)}
    ensures multiset(SortEach(r)) == multiset(SortEach(ys)) + multiset{SortTree(x)}
  {
    SortEachCons(r);
    SortEachCons(ys);
  }

  /** Inserting a node, then sorting each, gives the sorted nodes plus the sorted new one. */
  lemma {:induction false} SortEachInsertDesc(x: BundleNode, ys: seq<BundleNode>)
    ensures multiset(SortEach(InsertDesc(x, ys))) == multiset(SortEach(ys)) + multiset{SortTree(x)}
    decreases |ys|
  {
    var r := InsertDesc(x, ys);
    if ys == [] || ys[0].value <= x.value {
      assert r[0] == x && r[1..] == ys;
      SortEachCons(r);
    } else {
      assert r[0] == ys[0] && r[1..] == InsertDesc(x, ys[1..]);
      SortEachInsertDesc(x, ys[1..]);
      SortEachSameHead(r, ys, x);
    }
  }

  /** Sorting each node of a reordered list gives a reordering of the sorted nodes. */
  lemma {:induction false} SortEachSortDesc(xs: seq<BundleNode>)
    ensures multiset(SortEach(SortDesc(xs))) == multiset(SortEach(xs))
    decreases |xs|
  {
    if xs != [] {
      var t := SortDesc(xs[1..]);
      assert SortDesc(xs) == InsertDesc(xs[0], t);
      SortEachSortDesc(xs[1..]);
      SortEachInsertDesc(xs[0], t);
      SortEachCons(xs);
    }
  }

  /**
   * Sorting a directory reorders its children, each of them sorted in turn: its children
   * afterwards are exactly its old children after sorting, as a multiset. Applied at every
   * level, sorting loses and adds no node anywhere in the tree.
   */
  lemma SortTreePermutesChildren(n: BundleNode)
    requires n.Directory?
    ensures multiset(SortTree(n).children) == multiset(SortEach(n.children))
  {
    var sorted := SortDesc(n.children);
    assert SortTree(n).children == SortEach(sorted);
    SortEachSortDesc(n.children);
  }

  /** Sorting keeps every directory total exact. */
  lemma {:induction false} SortTreeKeepsBranchTotals(n: BundleNode)
    ensures BranchTotals(n) ==> BranchTotals(SortTree(n))
    decreases n
  {
    if n.Directory? && BranchTotals(n) {
      var sorted := SortDesc(n.children);
      var r := SortTree(n);
      forall i | 0 <= i < |sorted| ensures BranchTotals(r.children[i]) {
        SortedChildKeepsTotals(n, sorted, i);
        SortTreeKeepsBranchTotals(sorted[i]);
      }
      assert AllBranchTotals(r.children);
      SortedChildrenSum(n);
    }
  }

  lemma SortedChildKeepsTotals(n: BundleNode, sorted: seq<BundleNode>, i: nat)
    requires n.Directory? && AllBranchTotals(n.children)
    requires sorted == SortDesc(n.children) && i < |sorted|
    ensures BranchTotals(sorted[i]) && sorted[i] < n
  {
    assert sorted[i] in multiset(n.children);
    assert sorted[i] in n.children;
  }

  lemma SortedChildrenSum(n: BundleNode)
    requires n.Directory?
    ensures SumValues(SortTree(n).children) == SumValues(n.children)
  {
    var sorted := SortDesc(n.children);
    SortDescKeepsTotals(n.children);
    assert Labels(SortTree(n).children) == Labels(sorted);
    SumValuesSameLabels(SortTree(n).children, sorted);
  }

  /** Sorting keeps the number of leaves that `countLeaves` reports. */
  lemma {:induction false} SortTreeKeepsLeafCount(n: BundleNode)
    ensures CountLeaves(SortTree(n)) == CountLeaves(n)
    decreases n
  {
    if n.Directory? {
      var sorted := SortDesc(n.children);
      var r := SortTree(n);
      SortDescKeepsTotals(n.children);
      forall i | 0 <= i < |sorted| ensures CountLeaves(r.children[i]) == CountLeaves(sorted[i]) {
        assert sorted[i] in multiset(n.children);
        SortTreeKeepsLeafCount(sorted[i]);
      }
      LeafTotalPointwise(r.children, sorted);
    }
  }

  // ---------------------------------------------------------------------------
  // The accumulation loop of the script
  // ---------------------------------------------------------------------------

  /** The segments a module id is filed under: relative to the package root, without a leading "es6/", split at '/'. */
  function Segments(id: string, packageRoot: string): (r: seq<string>)
    ensures |r| >= 1
    ensures forall k :: 0 <= k < |r| ==> !Contains(r[k], "/")
  {
    var relPath := RelativePath(id, packageRoot);
    var stripped := if StartsWith(relPath, "es6/") then relPath[4..] else relPath;
    Split(stripped, "/")
  }

  /** For a module of the ES6 build, the build directory followed by the joined segments is the id again. */
  lemma SegmentsRoundTrip(id: string, packageRoot: string)
    requires StartsWith(id, packageRoot + "/es6/")
    ensures packageRoot + "/es6/" + Join(Segments(id, packageRoot), "/") == id
  {
    var n := |packageRoot|;
    assert id[..n + 5] == packageRoot + "/es6/";
    assert id[..n + 1] == packageRoot + "/";
    RelativePathRoundTrip(id, packageRoot);
    var relPath := RelativePath(id, packageRoot);
    assert relPath == id[n + 1..];
    assert (packageRoot + "/es6/")[n + 1..n + 5] == "es6/";
    assert id[n + 1..n + 5] == id[..n + 5][n + 1..n + 5];
    assert relPath[..4] == id[n + 1..n + 5];
    assert StartsWith(relPath, "es6/");
    var stripped := relPath[4..];
    assert stripped == id[n + 5..];
    assert Join(Segments(id, packageRoot), "/") == stripped;
    assert packageRoot + "/es6/" + stripped == id[..n + 5] + id[n + 5..];
  }

  /** The root the script starts from. */
  const EmptyRoot: BundleNode := Directory("recharts", 0, [])

  /** One pass of the loop: a module rendering nothing is skipped, any other grows the root and is filed. */
  function AddModule(root: BundleNode, m: Treeshaking.RenderedModule, packageRoot: string): BundleNode
  {
    if m.renderedLength <= 0 then root
    else InsertModule(root.(value := root.value + m.renderedLength), Segments(m.id, packageRoot), m.renderedLength)
  }

  /** The loop over a list of module entries, in order. */
  function AddModules(root: BundleNode, entries: seq<Treeshaking.RenderedModule>, packageRoot: string): BundleNode
  {
    if entries == [] then root
    else AddModule(AddModules(root, entries[..|entries| - 1], packageRoot), entries[|entries| - 1], packageRoot)
  }

  lemma AddModulesSnoc(root: BundleNode, entries: seq<Treeshaking.RenderedModule>, m: Treeshaking.RenderedModule, packageRoot: string)
    ensures AddModules(root, entries + [m], packageRoot) == AddModule(AddModules(root, entries, packageRoot), m, packageRoot)
  {
    assert (entries + [m])[..|entries|] == entries;
  }

  /** The rendered bytes of a list of module entries. */
  function TotalRendered(entries: seq<Treeshaking.RenderedModule>): nat
  {
    if entries == [] then 0 else TotalRendered(entries[..|entries| - 1]) + entries[|entries| - 1].renderedLength
  }

  /** The root's value grows by the rendered length of every entry; skipped ones render nothing. */
  lemma {:induction false} AddModulesRootValue(root: BundleNode, entries: seq<Treeshaking.RenderedModule>, packageRoot: string)
    ensures AddModules(root, entries, packageRoot).value == root.value + TotalRendered(entries)
    ensures root.Directory? ==> AddModules(root, entries, packageRoot).Directory?
    ensures AddModules(root, entries, packageRoot).name == root.name
    decreases |entries|
  {
    if entries != [] {
      AddModulesRootValue(root, entries[..|entries| - 1], packageRoot);
    }
  }

  /** The directory paths of the modules that are filed. */
  ghost function DirPaths(entries: seq<Treeshaking.RenderedModule>, packageRoot: string): set<seq<string>>
  {
    if entries == [] then {}
    else
      var m := entries[|entries| - 1];
      DirPaths(entries[..|entries| - 1], packageRoot)
        + (if m.renderedLength > 0 then DirPrefixes([], Segments(m.id, packageRoot)) else {})
  }

  /**
   * No filed module's path is also the directory path of a filed module. This is an
   * assumption about the input, not something the script checks: ids are file paths, but
   * after a leading "es6/" is dropped, `<root>/util` and `<root>/es6/util/x.js` clash.
   */
  ghost predicate NoFileDirClash(entries: seq<Treeshaking.RenderedModule>, packageRoot: string)
  {
    forall k :: 0 <= k < |entries| && entries[k].renderedLength > 0 ==>
      Segments(entries[k].id, packageRoot) !in DirPaths(entries, packageRoot)
  }

  /**
   * Why the clash has to be excluded: once a directory `a` exists, a module filed as the
   * file `a` is added to that directory's value, which then exceeds its children's total.
   */
  lemma FileDirClashBreaksTotals()
    ensures var t1 := InsertModule(EmptyRoot.(value := 5), ["a", "x.js"], 5);
            var t2 := InsertModule(t1.(value := 8), ["a"], 3);
            BranchTotals(t1) && !BranchTotals(t2)
  {
    assert FindNamed([], "x.js") == None;
    assert InsertInto([], ["x.js"], 5) == [Leaf("x.js", 5)];
    assert FindDir([], "a") == None;
    assert ["a", "x.js"][1..] == ["x.js"];
    var t1 := InsertModule(EmptyRoot.(value := 5), ["a", "x.js"], 5);
    assert t1 == Directory("recharts", 5, [Directory("a", 5, [Leaf("x.js", 5)])]);
    assert FindNamed(t1.children, "a") == Some(0);
    var t2 := InsertModule(t1.(value := 8), ["a"], 3);
    assert t2 == Directory("recharts", 8, [Directory("a", 8, [Leaf("x.js", 5)])]);
    assert !BranchTotals(t2.children[0]);
  }

  /** One pass of the loop keeps the directory totals exact unless the module's file path is a known directory path. */
  lemma AddModuleKeepsTotals(t: BundleNode, m: Treeshaking.RenderedModule, packageRoot: string, dirs: set<seq<string>>)
    requires t.Directory? && BranchTotals(t) && DirsListed(t, [], dirs)
    requires m.renderedLength > 0 ==> Segments(m.id, packageRoot) !in dirs
    ensures AddModule(t, m, packageRoot).Directory?
    ensures BranchTotals(AddModule(t, m, packageRoot))
    ensures DirsListed(AddModule(t, m, packageRoot), [],
                       dirs + (if m.renderedLength > 0 then DirPrefixes([], Segments(m.id, packageRoot)) else {}))
  {
    if m.renderedLength > 0 {
      var segs := Segments(m.id, packageRoot);
      InsertModuleKeepsTotals(t, segs, m.renderedLength, dirs);
      assert AddModule(t, m, packageRoot) == InsertModule(t.(value := t.value + m.renderedLength), segs, m.renderedLength);
    } else {
      assert dirs + {} == dirs;
    }
  }

  lemma InsertModuleKeepsTotals(t: BundleNode, segs: seq<string>, size: int, dirs: set<seq<string>>)
    requires |segs| >= 1 && t.Directory? && BranchTotals(t) && DirsListed(t, [], dirs) && segs !in dirs
    ensures BranchTotals(InsertModule(t.(value := t.value + size), segs, size))
    ensures DirsListed(InsertModule(t.(value := t.value + size), segs, size), [], dirs + DirPrefixes([], segs))
  {
    assert [] + segs == segs;
    InsertIntoKeepsTotals(t.children, [], segs, size, dirs);
    var kids' := InsertInto(t.children, segs, size);
    var r := InsertModule(t.(value := t.value + size), segs, size);
    assert r == Directory(t.name, t.value + size, kids');
    assert t.value == SumValues(t.children);
    assert SumValues(kids') == SumValues(t.children) + size;
    assert AllBranchTotals(kids');
    assert BranchTotals(r);
  }

  lemma DirPathsGrow(entries: seq<Treeshaking.RenderedModule>, packageRoot: string)
    requires entries != []
    ensures DirPaths(entries[..|entries| - 1], packageRoot) <= DirPaths(entries, packageRoot)
  {
  }

  /** Without a file/directory clash, every directory of the built tree holds exactly the sum of its children. */
  lemma {:induction false} AddModulesKeepsTotals(entries: seq<Treeshaking.RenderedModule>, packageRoot: string)
    requires NoFileDirClash(entries, packageRoot)
    ensures AddModules(EmptyRoot, entries, packageRoot).Directory?
    ensures BranchTotals(AddModules(EmptyRoot, entries, packageRoot))
    ensures DirsListed(AddModules(EmptyRoot, entries, packageRoot), [], DirPaths(entries, packageRoot))
    decreases |entries|
  {
    if entries != [] {
      var init := entries[..|entries| - 1];
      var m := entries[|entries| - 1];
      DirPathsGrow(entries, packageRoot);
      assert NoFileDirClash(init, packageRoot) by {
        forall k | 0 <= k < |init| && init[k].renderedLength > 0
          ensures Segments(init[k].id, packageRoot) !in DirPaths(init, packageRoot)
        {
          assert init[k] == entries[k];
        }
      }
      AddModulesKeepsTotals(init, packageRoot);
      AddModuleKeepsTotals(AddModules(EmptyRoot, init, packageRoot), m, packageRoot, DirPaths(init, packageRoot));
    }
  }

  /** `cliArgs.length > 0 ? cliArgs : [...ALL_TRACKED_COMPONENT_NAMES]`. */
  function RequestedComponents(cliArgs: seq<string>): (r: seq<string>)
    ensures r != []
    ensures cliArgs != [] ==> r == cliArgs
    ensures cliArgs == [] ==> r == Treeshaking.AllTrackedComponentNames
  {
    if |cliArgs| > 0 then cliArgs else Treeshaking.AllTrackedComponentNames
  }

  lemma {:induction false} AddModulesConcat(root: BundleNode, a: seq<Treeshaking.RenderedModule>,
                                            b: seq<Treeshaking.RenderedModule>, packageRoot: string)
    ensures AddModules(root, a + b, packageRoot) == AddModules(AddModules(root, a, packageRoot), b, packageRoot)
    decreases |b|
  {
    if b == [] {
      assert a + b == a;
    } else {
      assert (a + b)[..|a + b| - 1] == a + b[..|b| - 1];
      AddModulesConcat(root, a, b[..|b| - 1], packageRoot);
    }
  }

  lemma AddModulesPrefix(root: BundleNode, modules: seq<Treeshaking.RenderedModule>, j: nat, packageRoot: string)
    requires j < |modules|
    ensures AddModules(root, modules[..j + 1], packageRoot) == AddModule(AddModules(root, modules[..j], packageRoot), modules[j], packageRoot)
  {
    assert modules[..j + 1][..j] == modules[..j];
  }

  /** The inner loop: one chunk's modules filed in order. */
  method FileChunkModules(root: BundleNode, modules: seq<Treeshaking.RenderedModule>, packageRoot: string)
    returns (result: BundleNode)
    ensures result == AddModules(root, modules, packageRoot)
  {
    result := root;
    for j := 0 to |modules|
      invariant result == AddModules(root, modules[..j], packageRoot)
    {
      var m := modules[j];
      AddModulesPrefix(root, modules, j, packageRoot);
      if m.renderedLength <= 0 {
        continue;
      }
      result := FileModule(result, m, packageRoot);
    }
    assert modules[..|modules|] == modules;
  }

  /** The body of the inner loop for a module that renders something: the root grows, then the module is filed. */
  method FileModule(root: BundleNode, m: Treeshaking.RenderedModule, packageRoot: string) returns (result: BundleNode)
    requires m.renderedLength > 0
    ensures result == AddModule(root, m, packageRoot)
  {
    var size := m.renderedLength;
    result := root.(value := root.value + size);
    var relPath := RelativePath(m.id, packageRoot);
    if StartsWith(relPath, "es6/") {
      relPath := relPath[4..];
    }
    var segments := Split(relPath, "/");
    assert segments == Segments(m.id, packageRoot);
    result := InsertModule(result, segments, size);
  }

  /** The outer loop over the chunks of the output; assets are skipped. */
  method BuildTree(output: seq<Treeshaking.Artifact>, packageRoot: string) returns (root: BundleNode)
    ensures root == AddModules(EmptyRoot, Treeshaking.ModuleEntries(output), packageRoot)
  {
    root := Directory("recharts", 0, []);
    for i := 0 to |output|
      invariant root == AddModules(EmptyRoot, Treeshaking.ModuleEntries(output[..i]), packageRoot)
    {
      Treeshaking.ModuleEntriesSnoc(output, i);
      var before := Treeshaking.ModuleEntries(output[..i]);
      if output[i].Chunk? {
        AddModulesConcat(EmptyRoot, before, output[i].modules, packageRoot);
        root := FileChunkModules(root, output[i].modules, packageRoot);
      } else {
        assert Treeshaking.ChunkModules(output[i]) == [];
        assert before + [] == before;
      }
    }
    assert output[..|output|] == output;
  }

  /** What the script writes out: the components, the total size and the sorted tree. */
  /** The contents of bundle-data.json; `generatedAt` is the ISO time stamp the caller supplies. */
  datatype BundleDataFile = BundleDataFile(components: seq<string>, generatedAt: string, totalSize: int, tree: BundleNode)

  /**
   * The script's main flow once the bundle is built (`output` is the tree-shaken bundle of
   * the requested components): the modules are filed, the tree is sorted, and the total
   * is the root's value. The clock reading `new Date().toISOString()` is the parameter `now`.
   */
  method GenerateBundleData(cliArgs: seq<string>, output: seq<Treeshaking.Artifact>, packageRoot: string, now: string)
    returns (data: BundleDataFile)
    ensures data.generatedAt == now
    ensures data.components == RequestedComponents(cliArgs)
    ensures data.tree == SortTree(AddModules(EmptyRoot, Treeshaking.ModuleEntries(output), packageRoot))
    ensures data.tree.Directory? && data.tree.name == "recharts"
    ensures data.totalSize == data.tree.value == TotalRendered(Treeshaking.ModuleEntries(output))
    ensures SortedEverywhere(data.tree)
    ensures NoFileDirClash(Treeshaking.ModuleEntries(output), packageRoot) ==> BranchTotals(data.tree)
  {
    var components := RequestedComponents(cliArgs);
    var root := BuildTree(output, packageRoot);
    ghost var entries := Treeshaking.ModuleEntries(output);
    AddModulesRootValue(EmptyRoot, entries, packageRoot);
    SortTreeSorts(root);
    SortTreeKeepsBranchTotals(root);
    if NoFileDirClash(entries, packageRoot) {
      AddModulesKeepsTotals(entries, packageRoot);
    }
    root := SortTree(root);
    data := BundleDataFile(components, now, root.value, root);
  }
}
