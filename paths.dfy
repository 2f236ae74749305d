/**
 * Positions in a skill tree. A path lists child indices from the root downwards; the
 * empty path is the root. (The engine's callers write a leading 0 for the root, which
 * `Engine.Unlocks.SetUnlockedByPath` checks and strips before a path reaches this module.)
 */
module Paths {
  import opened Skills

  type Path = seq<int>

  /** The node at position `p`, or None when some index has no child or `p` runs past a leaf. */
  function NodeAt(n: Node, p: Path): Option<Node>
    decreases p
  {
    if p == [] then Some(n)
    else match n
      case Leaf(_) => None
      case Branch(_, next) =>
        if 0 <= p[0] < |next| then NodeAt(next[p[0]], p[1..]) else None
  }

  /** The skill record at position `p`. */
  function DataAt(n: Node, p: Path): Option<SkillData>
  {
    match NodeAt(n, p)
    case Some(m) => Some(Data(m))
    case None => None
  }

  /** The position `p` exists in the tree. */
  predicate Reachable(n: Node, p: Path)
  {
    NodeAt(n, p).Some?
  }

  /** The tree with the unlock flag of the node at `p` set to `v`; unchanged when `p` does not exist. */
  function UpdateAt(n: Node, p: Path, v: bool): (r: Node)
    ensures r.Branch? == n.Branch?
    decreases p
  {
    if p == [] then WithFlag(n, v)
    else match n
      case Leaf(_) => n
      case Branch(s, next) =>
        if 0 <= p[0] < |next| then Branch(s, next[p[0] := UpdateAt(next[p[0]], p[1..], v)]) else n
  }

  /** The tree with every skill record erased: which nodes are branches, and how many children each has, in order. */
  datatype Shape = BranchShape(kids: seq<Shape>) | LeafShape

  function ShapeOf(n: Node): Shape
    decreases n
  {
    match n
    case Leaf(_) => LeafShape
    case Branch(_, next) => BranchShape(seq(|next|, i requires 0 <= i < |next| => ShapeOf(next[i])))
  }

  /** Step `k` of path `p` indexes a branch that has no child at `p[k]`. */
  predicate MissingStep(n: Node, p: Path, k: int)
    requires 0 <= k < |p|
  {
    var m := NodeAt(n, p[..k]);
    m.Some? && m.value.Branch? && !(0 <= p[k] < |m.value.next|)
  }

  /** Step `k` of path `p` tries to descend below a leaf. */
  predicate LeafStep(n: Node, p: Path, k: int)
    requires 0 <= k < |p|
  {
    var m := NodeAt(n, p[..k]);
    m.Some? && m.value.Leaf?
  }

  ghost predicate IndexMissing(n: Node, p: Path)
  {
    exists k :: 0 <= k < |p| && MissingStep(n, p, k)
  }

  ghost predicate PastLeaf(n: Node, p: Path)
  {
    exists k :: 0 <= k < |p| && LeafStep(n, p, k)
  }

  /** Every node strictly above position `p` exists and is unlocked. */
  ghost predicate AncestorsUnlocked(n: Node, p: Path)
  {
    forall k :: 0 <= k < |p| ==> Unlocked(n, p[..k])
  }

  predicate Unlocked(n: Node, p: Path)
  {
    DataAt(n, p).Some? && DataAt(n, p).value.isUnlocked
  }

  /** Pre-order on positions: a node comes before its descendants, and siblings come in index order. */
  predicate LexLess(a: Path, b: Path)
    decreases |a|
  {
    if a == [] then b != []
    else b != [] && (a[0] < b[0] || (a[0] == b[0] && LexLess(a[1..], b[1..])))
  }

  ghost predicate Sorted(s: seq<Path>)
  {
    forall i, j :: 0 <= i < j < |s| ==> LexLess(s[i], s[j])
  }

  /** Positions relative to child `i`, made relative to its parent. */
  function Prepend(i: int, ps: seq<Path>): (r: seq<Path>)
    ensures |r| == |ps|
    ensures forall k :: 0 <= k < |ps| ==> r[k] == [i] + ps[k]
  {
    seq(|ps|, k requires 0 <= k < |ps| => [i] + ps[k])
  }

  /** Positions relative to the node at `q`, made relative to the root. */
  function Under(q: Path, ps: seq<Path>): (r: seq<Path>)
    ensures |r| == |ps|
    ensures forall k :: 0 <= k < |ps| ==> r[k] == q + ps[k]
  {
    seq(|ps|, k requires 0 <= k < |ps| => q + ps[k])
  }

  function Max(a: nat, b: nat): nat
  {
    if a < b then b else a
  }

  /** A bound on the depth of the tree. */
  function Height(n: Node): nat
    decreases n, 1, 0
  {
    match n
    case Leaf(_) => 0
    case Branch(_, next) => 1 + MaxHeight(n, |next|)
  }

  /** The largest height among the first `i` children of branch `n`. */
  function MaxHeight(n: Node, i: nat): (h: nat)
    requires n.Branch? && i <= |n.next|
    ensures forall j :: 0 <= j < i ==> Height(n.next[j]) <= h
    decreases n, 0, i
  {
    if i == 0 then 0 else Max(MaxHeight(n, i - 1), Height(n.next[i - 1]))
  }

  // ---------------------------------------------------------------------------
  // Descending one step

  /** Position `[i] + q` in a branch is position `q` in its child `i`, and so is every prefix of it. */
  lemma PrefixStep(n: Node, p: Path, k: nat)
    requires n.Branch? && |p| > 0 && 0 <= p[0] < |n.next|
    requires k < |p|
    ensures NodeAt(n, p[..k + 1]) == NodeAt(n.next[p[0]], p[1..][..k])
  {
    assert p[..k + 1] == [p[0]] + p[1..][..k];
    assert (p[..k + 1])[1..] == p[1..][..k];
  }

  lemma {:induction false} DescendStep(n: Node, p: Path)
    requires n.Branch? && |p| > 0 && 0 <= p[0] < |n.next|
    ensures NodeAt(n, p) == NodeAt(n.next[p[0]], p[1..])
    ensures IndexMissing(n, p) <==> IndexMissing(n.next[p[0]], p[1..])
    ensures PastLeaf(n, p) <==> PastLeaf(n.next[p[0]], p[1..])
    ensures AncestorsUnlocked(n, p) <==> Data(n).isUnlocked && AncestorsUnlocked(n.next[p[0]], p[1..])
  {
    var c, q := n.next[p[0]], p[1..];
    assert p[..0] == [];
    if IndexMissing(n, p) {
      var k :| 0 <= k < |p| && MissingStep(n, p, k);
      PrefixStep(n, p, k - 1);
      assert MissingStep(c, q, k - 1);
    }
    if IndexMissing(c, q) {
      var k :| 0 <= k < |q| && MissingStep(c, q, k);
      PrefixStep(n, p, k);
      assert MissingStep(n, p, k + 1);
    }
    if PastLeaf(n, p) {
      var k :| 0 <= k < |p| && LeafStep(n, p, k);
      PrefixStep(n, p, k - 1);
      assert LeafStep(c, q, k - 1);
    }
    if PastLeaf(c, q) {
      var k :| 0 <= k < |q| && LeafStep(c, q, k);
      PrefixStep(n, p, k);
      assert LeafStep(n, p, k + 1);
    }
    if AncestorsUnlocked(n, p) {
      forall k | 0 <= k < |q| ensures Unlocked(c, q[..k]) {
        PrefixStep(n, p, k);
        assert Unlocked(n, p[..k + 1]);
      }
    }
    if Data(n).isUnlocked && AncestorsUnlocked(c, q) {
      forall k | 0 <= k < |p| ensures Unlocked(n, p[..k]) {
        if k > 0 {
          PrefixStep(n, p, k - 1);
          assert Unlocked(c, q[..k - 1]);
        }
      }
    }
  }

  /** At a branch, a first index with no child makes the path fail with a missing index, and nothing else. */
  lemma MissingFirstIndex(n: Node, p: Path)
    requires n.Branch? && |p| > 0 && !(0 <= p[0] < |n.next|)
    ensures !Reachable(n, p) && IndexMissing(n, p) && !PastLeaf(n, p)
  {
    assert p[..0] == [];
    assert MissingStep(n, p, 0);
    forall k | 0 <= k < |p| ensures !LeafStep(n, p, k) {
      if k > 0 {
        assert p[..k][0] == p[0];
      }
    }
  }

  /** Nothing lies below a leaf: a non-empty path from a leaf runs past it. */
  lemma BelowLeaf(n: Node, p: Path)
    requires n.Leaf? && |p| > 0
    ensures !Reachable(n, p) && !IndexMissing(n, p) && PastLeaf(n, p)
  {
    assert p[..0] == [];
    assert LeafStep(n, p, 0);
    forall k | 0 <= k < |p| ensures !MissingStep(n, p, k) {
      if k > 0 {
        assert p[..k] != [];
      }
    }
  }

  // ---------------------------------------------------------------------------
  // Writing one flag

  /**
   * Writing the flag at an existing position: that node afterwards reads `v`, its other
   * fields are kept, and the record at every other position is unchanged.
   */
  lemma {:induction false} UpdateAtData(n: Node, p: Path, v: bool, q: Path)
    requires Reachable(n, p)
    ensures q == p ==> DataAt(UpdateAt(n, p, v), q) == Some(DataAt(n, p).value.(isUnlocked := v))
    ensures q != p ==> DataAt(UpdateAt(n, p, v), q) == DataAt(n, q)
    decreases p
  {
    if p == [] {
      if q != [] {
        match n
        case Leaf(_) =>
        case Branch(s, next) =>
      }
    } else if q != [] {
      var i := p[0];
      var Branch(s, next) := n;
      if q[0] == i {
        UpdateAtData(next[i], p[1..], v, q[1..]);
        assert q == p <==> q[1..] == p[1..] by {
          if q[1..] == p[1..] { assert q == [q[0]] + q[1..] && p == [p[0]] + p[1..]; }
        }
      }
    }
  }

  /** Writing a flag keeps every branch, leaf and child list where it was. */
  lemma {:induction false} UpdateAtShape(n: Node, p: Path, v: bool)
    ensures ShapeOf(UpdateAt(n, p, v)) == ShapeOf(n)
    decreases p
  {
    if p != [] && n.Branch? && 0 <= p[0] < |n.next| {
      UpdateAtShape(n.next[p[0]], p[1..], v);
      var m := UpdateAt(n, p, v);
      assert forall j :: 0 <= j < |n.next| ==> ShapeOf(m.next[j]) == ShapeOf(n.next[j]);
    }
  }

  /** A second write to the same position replaces the first. */
  lemma {:induction false} UpdateAtTwice(n: Node, p: Path, a: bool, b: bool)
    ensures UpdateAt(UpdateAt(n, p, a), p, b) == UpdateAt(n, p, b)
    decreases p
  {
    if p != [] && n.Branch? && 0 <= p[0] < |n.next| {
      UpdateAtTwice(n.next[p[0]], p[1..], a, b);
      var i := p[0];
      assert n.next[i := UpdateAt(n.next[i], p[1..], a)][i := UpdateAt(UpdateAt(n.next[i], p[1..], a), p[1..], b)]
          == n.next[i := UpdateAt(n.next[i], p[1..], b)];
    }
  }

  /** Writing the value a flag already has leaves the tree as it was. */
  lemma {:induction false} UpdateAtSame(n: Node, p: Path, v: bool)
    requires DataAt(n, p).Some? && DataAt(n, p).value.isUnlocked == v
    ensures UpdateAt(n, p, v) == n
    decreases p
  {
    if p != [] {
      var i := p[0];
      UpdateAtSame(n.next[i], p[1..], v);
      assert n.next[i := n.next[i]] == n.next;
    }
  }

  // ---------------------------------------------------------------------------
  // Depth

  /** Every existing position is at most `Height(n)` steps deep: the tree is finite. */
  lemma {:induction false} DepthBound(n: Node, p: Path)
    requires Reachable(n, p)
    ensures |p| <= Height(n)
    decreases p
  {
    if p != [] {
      DepthBound(n.next[p[0]], p[1..]);
    }
  }
}
