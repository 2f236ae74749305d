/**
 * The order in which key search visits a skill tree: breadth first from the root, branches
 * only (a leaf is never put in the queue), children in list order, and, when locked branches
 * are skipped, nothing below a locked branch.
 */
module BreadthFirst {
  import opened Skills
  import opened Paths

  /** Key search puts the children of `n` in the queue. */
  predicate Descends(n: Node, skip: bool)
  {
    n.Branch? && (!skip || n.skill.isUnlocked)
  }

  /** The branch positions at depth `d` below `n` that key search reaches, left to right. */
  ghost function Level(n: Node, d: nat, skip: bool): seq<Path>
    decreases n, 1, 0
  {
    if d == 0 then (if n.Branch? then [[]] else [])
    else if Descends(n, skip) then LevelKids(n, |n.next|, d - 1, skip)
    else []
  }

  /** Depth `d` of the first `i` children of `n`, one child after the other. */
  ghost function LevelKids(n: Node, i: nat, d: nat, skip: bool): seq<Path>
    requires n.Branch? && i <= |n.next|
    decreases n, 0, i
  {
    if i == 0 then [] else LevelKids(n, i - 1, d, skip) + Prepend(i - 1, Level(n.next[i - 1], d, skip))
  }

  /** Depth `d` and every deeper level after it, up to the first empty one. */
  ghost function LevelsFrom(n: Node, d: nat, skip: bool): seq<Path>
    decreases Height(n) + 1 - d
  {
    if Level(n, d, skip) == [] then []
    else
      LevelBeyond(n, d, skip);
      Level(n, d, skip) + LevelsFrom(n, d + 1, skip)
  }

  /** Breadth-first order: shallower positions first, left to right within one depth. */
  ghost function BfsOrder(n: Node, skip: bool): seq<Path>
  {
    LevelsFrom(n, 0, skip)
  }

  /** The positions key search appends to its queue after visiting position `q`. */
  ghost function Children(n: Node, q: Path, skip: bool): seq<Path>
  {
    match NodeAt(n, q)
    case Some(m) => Under(q, Level(m, 1, skip))
    case None => []
  }

  /** The positions appended to the queue while visiting `ps`, in visiting order. */
  ghost function Expand(n: Node, ps: seq<Path>, skip: bool): seq<Path>
    decreases |ps|
  {
    if ps == [] then [] else Children(n, ps[0], skip) + Expand(n, ps[1..], skip)
  }

  /** The record at position `p` has field `key` equal to `value`. */
  predicate MatchesAt(n: Node, p: Path, key: string, value: Value)
  {
    DataAt(n, p).Some? && Matches(DataAt(n, p).value, key, value)
  }

  /** The index in `ps` of the first position whose record matches. */
  function FirstMatch(n: Node, ps: seq<Path>, key: string, value: Value): (r: Option<nat>)
    ensures r.Some? ==> r.value < |ps| && MatchesAt(n, ps[r.value], key, value)
    ensures r.Some? ==> forall j :: 0 <= j < r.value ==> !MatchesAt(n, ps[j], key, value)
    ensures r.None? ==> forall j :: 0 <= j < |ps| ==> !MatchesAt(n, ps[j], key, value)
    decreases |ps|
  {
    if ps == [] then None
    else if MatchesAt(n, ps[0], key, value) then Some(0)
    else match FirstMatch(n, ps[1..], key, value)
      case None => None
      case Some(k) => Some(k + 1)
  }

  // ---------------------------------------------------------------------------
  // Levels

  /** No branch lies deeper than the height of the tree. */
  lemma {:induction false} LevelBeyond(n: Node, d: nat, skip: bool)
    ensures d > Height(n) ==> Level(n, d, skip) == []
    decreases n, 1
  {
    if d > Height(n) && Descends(n, skip) {
      LevelKidsBeyond(n, |n.next|, d - 1, skip);
    }
  }

  lemma {:induction false} LevelKidsBeyond(n: Node, i: nat, d: nat, skip: bool)
    requires n.Branch? && i <= |n.next| && d > MaxHeight(n, |n.next|)
    ensures LevelKids(n, i, d, skip) == []
    decreases n, 0, i
  {
    if i > 0 {
      LevelKidsBeyond(n, i - 1, d, skip);
      LevelBeyond(n.next[i - 1], d, skip);
    }
  }

  /** Level `d` lists exactly the branches `d` steps deep that search reaches (below unlocked ancestors only, when skipping). */
  lemma {:induction false} LevelExactly(n: Node, d: nat, skip: bool, p: Path)
    ensures p in Level(n, d, skip) <==>
      |p| == d && Reachable(n, p) && NodeAt(n, p).value.Branch? && (skip ==> AncestorsUnlocked(n, p))
    decreases n, 1
  {
    if d == 0 {
      assert p == [] ==> AncestorsUnlocked(n, p);
    } else if p == [] {
      if Descends(n, skip) {
        LevelKidsMembers(n, |n.next|, d - 1, skip, p);
      }
    } else if !Descends(n, skip) {
      if n.Branch? && 0 <= p[0] < |n.next| {
        DescendStep(n, p);
      }
    } else {
      LevelKidsMembers(n, |n.next|, d - 1, skip, p);
      if 0 <= p[0] < |n.next| {
        DescendStep(n, p);
      }
    }
  }

  lemma {:induction false} LevelKidsMembers(n: Node, i: nat, d: nat, skip: bool, p: Path)
    requires n.Branch? && i <= |n.next|
    ensures p in LevelKids(n, i, d, skip) <==>
      |p| > 0 && 0 <= p[0] < i && |p| == d + 1 && Reachable(n.next[p[0]], p[1..]) &&
      NodeAt(n.next[p[0]], p[1..]).value.Branch? && (skip ==> AncestorsUnlocked(n.next[p[0]], p[1..]))
    decreases n, 0, i
  {
    if i > 0 {
      LevelKidsMembers(n, i - 1, d, skip, p);
      var e := Level(n.next[i - 1], d, skip);
      if p in Prepend(i - 1, e) {
        var k :| 0 <= k < |e| && Prepend(i - 1, e)[k] == p;
        assert p[1..] == e[k];
        LevelExactly(n.next[i - 1], d, skip, p[1..]);
      }
      if |p| > 0 && p[0] == i - 1 {
        LevelExactly(n.next[i - 1], d, skip, p[1..]);
        if p[1..] in e {
          var k :| 0 <= k < |e| && e[k] == p[1..];
          assert Prepend(i - 1, e)[k] == p;
        }
      }
    }
  }

  /** Every position of level `d` is `d` steps deep. */
  lemma LevelDepth(n: Node, d: nat, skip: bool)
    ensures forall p :: p in Level(n, d, skip) ==> |p| == d
  {
    forall p | p in Level(n, d, skip) ensures |p| == d {
      LevelExactly(n, d, skip, p);
    }
  }

  lemma {:induction false} LevelKidsSorted(n: Node, i: nat, d: nat, skip: bool)
    requires n.Branch? && i <= |n.next|
    ensures Sorted(LevelKids(n, i, d, skip))
    decreases n, 0, i
  {
    if i > 0 {
      LevelKidsSorted(n, i - 1, d, skip);
      LevelSorted(n.next[i - 1], d, skip);
      var a, e := LevelKids(n, i - 1, d, skip), Level(n.next[i - 1], d, skip);
      var b := Prepend(i - 1, e);
      forall x, y | 0 <= x < |b| && 0 <= y < |b| && x < y ensures LexLess(b[x], b[y]) {
        assert b[x][1..] == e[x] && b[y][1..] == e[y];
      }
      forall x, y | 0 <= x < |a| && 0 <= y < |b| ensures LexLess(a[x], b[y]) {
        LevelKidsMembers(n, i - 1, d, skip, a[x]);
      }
      assert LevelKids(n, i, d, skip) == a + b;
    }
  }

  /** Within one level, positions come left to right. */
  lemma {:induction false} LevelSorted(n: Node, d: nat, skip: bool)
    ensures Sorted(Level(n, d, skip))
    decreases n, 1
  {
    if d > 0 && Descends(n, skip) {
      LevelKidsSorted(n, |n.next|, d - 1, skip);
    }
  }

  // ---------------------------------------------------------------------------
  // The queue discipline: each level is what visiting the level above appends

  lemma {:induction false} ExpandAppend(n: Node, a: seq<Path>, b: seq<Path>, skip: bool)
    ensures Expand(n, a + b, skip) == Expand(n, a, skip) + Expand(n, b, skip)
    decreases |a|
  {
    if a == [] {
      assert a + b == b;
    } else {
      assert (a + b)[0] == a[0];
      assert (a + b)[1..] == a[1..] + b;
      ExpandAppend(n, a[1..], b, skip);
    }
  }

  lemma {:induction false} ExpandPrepend(n: Node, i: nat, ps: seq<Path>, skip: bool)
    requires n.Branch? && i < |n.next|
    ensures Expand(n, Prepend(i, ps), skip) == Prepend(i, Expand(n.next[i], ps, skip))
    decreases |ps|
  {
    if ps != [] {
      ChildrenPrepend(n, i, ps[0], skip);
      assert Prepend(i, ps)[1..] == Prepend(i, ps[1..]);
      ExpandPrepend(n, i, ps[1..], skip);
      PrependAppend(i, Children(n.next[i], ps[0], skip), Expand(n.next[i], ps[1..], skip));
    }
  }

  /** The positions appended after visiting `[i] + q` are those of `q` in child `i`, shifted. */
  lemma ChildrenPrepend(n: Node, i: nat, q: Path, skip: bool)
    requires n.Branch? && i < |n.next|
    ensures Children(n, [i] + q, skip) == Prepend(i, Children(n.next[i], q, skip))
  {
    assert ([i] + q)[1..] == q;
    assert NodeAt(n, [i] + q) == NodeAt(n.next[i], q);
    match NodeAt(n.next[i], q) {
      case Some(m) => PrependUnder(i, q, Level(m, 1, skip));
      case None =>
    }
  }

  lemma PrependAppend(i: int, a: seq<Path>, b: seq<Path>)
    ensures Prepend(i, a + b) == Prepend(i, a) + Prepend(i, b)
  {
  }

  lemma PrependUnder(i: int, q: Path, ps: seq<Path>)
    ensures Prepend(i, Under(q, ps)) == Under([i] + q, ps)
  {
    assert forall k :: 0 <= k < |ps| ==> [i] + (q + ps[k]) == ([i] + q) + ps[k];
  }

  /** Visiting level `d` in order appends exactly level `d + 1` to the queue. */
  lemma {:induction false} ExpandLevel(n: Node, d: nat, skip: bool)
    ensures Expand(n, Level(n, d, skip), skip) == Level(n, d + 1, skip)
    decreases n, 1
  {
    if d == 0 {
      if n.Branch? {
        assert Level(n, d, skip)[1..] == [];
        var l1 := Level(n, 1, skip);
        assert forall k :: 0 <= k < |l1| ==> [] + l1[k] == l1[k];
        assert Under([], l1) == l1;
      }
    } else if Descends(n, skip) {
      ExpandLevelKids(n, |n.next|, d - 1, skip);
    }
  }

  lemma {:induction false} ExpandLevelKids(n: Node, i: nat, d: nat, skip: bool)
    requires n.Branch? && i <= |n.next|
    ensures Expand(n, LevelKids(n, i, d, skip), skip) == LevelKids(n, i, d + 1, skip)
    decreases n, 0, i
  {
    if i > 0 {
      var a, c := LevelKids(n, i - 1, d, skip), n.next[i - 1];
      var e := Level(c, d, skip);
      assert Expand(n, a, skip) == LevelKids(n, i - 1, d + 1, skip) by {
        ExpandLevelKids(n, i - 1, d, skip);
      }
      assert Expand(n, Prepend(i - 1, e), skip) == Prepend(i - 1, Level(c, d + 1, skip)) by {
        ExpandPrepend(n, i - 1, e, skip);
        ExpandLevel(c, d, skip);
      }
      assert LevelKids(n, i, d, skip) == a + Prepend(i - 1, e);
      assert LevelKids(n, i, d + 1, skip) == LevelKids(n, i - 1, d + 1, skip) + Prepend(i - 1, Level(c, d + 1, skip));
      ExpandAppend(n, a, Prepend(i - 1, e), skip);
    }
  }

  /** Once a level is empty, so is every deeper one. */
  lemma {:induction false} LevelsEmptyAfter(n: Node, d: nat, e: nat, skip: bool)
    requires Level(n, d, skip) == [] && d <= e
    ensures Level(n, e, skip) == []
    decreases e - d
  {
    if d < e {
      ExpandLevel(n, d, skip);
      LevelsEmptyAfter(n, d + 1, e, skip);
    }
  }

  lemma {:induction false} ExpandLevelsFrom(n: Node, d: nat, skip: bool)
    ensures Expand(n, LevelsFrom(n, d, skip), skip) == LevelsFrom(n, d + 1, skip)
    decreases Height(n) + 1 - d
  {
    ExpandLevel(n, d, skip);
    if Level(n, d, skip) != [] {
      LevelBeyond(n, d, skip);
      ExpandAppend(n, Level(n, d, skip), LevelsFrom(n, d + 1, skip), skip);
      ExpandLevelsFrom(n, d + 1, skip);
      if Level(n, d + 1, skip) == [] {
        ExpandLevel(n, d + 1, skip);
      }
    }
  }

  /** Breadth-first order is the root followed by everything that visiting it in order appends. */
  lemma OrderFixpoint(n: Node, skip: bool)
    requires n.Branch?
    ensures BfsOrder(n, skip) == [[]] + Expand(n, BfsOrder(n, skip), skip)
  {
    ExpandLevelsFrom(n, 0, skip);
  }

  // ---------------------------------------------------------------------------
  // The order holds every reachable branch once, shallow before deep

  lemma {:induction false} LevelsFromMembers(n: Node, d: nat, skip: bool, p: Path)
    ensures p in LevelsFrom(n, d, skip) <==> d <= |p| && p in Level(n, |p|, skip)
    decreases Height(n) + 1 - d
  {
    LevelDepth(n, d, skip);
    if Level(n, d, skip) == [] {
      if d <= |p| {
        LevelsEmptyAfter(n, d, |p|, skip);
      }
    } else {
      LevelBeyond(n, d, skip);
      LevelsFromMembers(n, d + 1, skip, p);
    }
  }

  /**
   * Key search reaches exactly the branches of the tree, and, when locked branches are
   * skipped, only those whose every ancestor is unlocked. Leaves are never visited.
   */
  lemma BfsMembers(n: Node, skip: bool, p: Path)
    ensures p in BfsOrder(n, skip) <==>
      Reachable(n, p) && NodeAt(n, p).value.Branch? && (skip ==> AncestorsUnlocked(n, p))
  {
    LevelsFromMembers(n, 0, skip, p);
    LevelExactly(n, |p|, skip, p);
  }

  /** `a` is visited before `b` in breadth-first order. */
  predicate Shallower(a: Path, b: Path)
  {
    |a| < |b| || (|a| == |b| && LexLess(a, b))
  }

  lemma {:induction false} LevelsFromOrdered(n: Node, d: nat, skip: bool)
    ensures forall i, j :: 0 <= i < j < |LevelsFrom(n, d, skip)| ==>
      Shallower(LevelsFrom(n, d, skip)[i], LevelsFrom(n, d, skip)[j])
    ensures forall p :: p in LevelsFrom(n, d, skip) ==> d <= |p|
    decreases Height(n) + 1 - d
  {
    if Level(n, d, skip) != [] {
      LevelBeyond(n, d, skip);
      LevelsFromOrdered(n, d + 1, skip);
      LevelSorted(n, d, skip);
      LevelDepth(n, d, skip);
      var a, b := Level(n, d, skip), LevelsFrom(n, d + 1, skip);
      assert LevelsFrom(n, d, skip) == a + b;
      forall i, j | 0 <= i < j < |a + b| ensures Shallower((a + b)[i], (a + b)[j]) {
        if j < |a| {
          assert LexLess(a[i], a[j]);
        } else if i >= |a| {
          assert (a + b)[i] == b[i - |a|] && (a + b)[j] == b[j - |a|];
        } else {
          assert (a + b)[j] == b[j - |a|] && b[j - |a|] in b;
        }
      }
    }
  }

  /** Breadth-first order visits shallower positions first and, within a depth, left to right. */
  lemma BfsOrdered(n: Node, skip: bool)
    ensures forall i, j :: 0 <= i < j < |BfsOrder(n, skip)| ==> Shallower(BfsOrder(n, skip)[i], BfsOrder(n, skip)[j])
  {
    LevelsFromOrdered(n, 0, skip);
  }

  // ---------------------------------------------------------------------------
  // Facts the search loop needs

  /** Depths grow by one from a position to the positions it appends. */
  lemma {:induction false} ExpandDeeper(n: Node, ps: seq<Path>, k: nat, skip: bool)
    requires forall p :: p in ps ==> |p| >= k
    ensures forall p :: p in Expand(n, ps, skip) ==> |p| >= k + 1
    decreases |ps|
  {
    if ps != [] {
      ExpandDeeper(n, ps[1..], k, skip);
      match NodeAt(n, ps[0])
      case Some(m) => LevelDepth(m, 1, skip);
      case None =>
    }
  }

  lemma {:induction false} FixpointDeep(n: Node, ps: seq<Path>, k: nat, skip: bool)
    requires Expand(n, ps, skip) == ps
    ensures forall p :: p in ps ==> |p| >= k
  {
    if k > 0 {
      FixpointDeep(n, ps, k - 1, skip);
      ExpandDeeper(n, ps, k - 1, skip);
    }
  }

  /** Appending children always goes deeper, so no non-empty queue reproduces itself. */
  lemma NoFixpoint(n: Node, ps: seq<Path>, skip: bool)
    requires Expand(n, ps, skip) == ps
    ensures ps == []
  {
    if ps != [] {
      FixpointDeep(n, ps, |ps[0]| + 1, skip);
    }
  }

  /** The order is what the root and the first `m` visits append, followed by what the later visits append. */
  lemma OrderSplit(n: Node, skip: bool, m: nat)
    requires n.Branch? && m <= |BfsOrder(n, skip)|
    ensures BfsOrder(n, skip) ==
      ([[]] + Expand(n, BfsOrder(n, skip)[..m], skip)) + Expand(n, BfsOrder(n, skip)[m..], skip)
  {
    var order := BfsOrder(n, skip);
    OrderFixpoint(n, skip);
    assert order == order[..m] + order[m..];
    ExpandAppend(n, order[..m], order[m..], skip);
  }

  /**
   * The state of the search loop: the first `m` positions of the order have been visited,
   * and the queue holds what the root and those visits appended and nobody has taken out yet.
   */
  ghost predicate QueueInvariant(n: Node, skip: bool, m: nat, queue: seq<Path>)
  {
    m <= |BfsOrder(n, skip)| && BfsOrder(n, skip)[..m] + queue == [[]] + Expand(n, BfsOrder(n, skip)[..m], skip)
  }

  /**
   * A non-empty queue starts with the next position of the order, which is a branch, and
   * visiting it (dequeue, then enqueue its children) keeps the loop state.
   */
  lemma QueueStep(n: Node, skip: bool, m: nat, queue: seq<Path>)
    requires n.Branch? && QueueInvariant(n, skip, m, queue) && queue != []
    ensures m < |BfsOrder(n, skip)| && queue[0] == BfsOrder(n, skip)[m]
    ensures NodeAt(n, queue[0]).Some? && NodeAt(n, queue[0]).value.Branch?
    ensures DataAt(n, queue[0]) == Some(NodeAt(n, queue[0]).value.skill)
    ensures QueueInvariant(n, skip, m + 1, queue[1..] + Under(queue[0], Level(NodeAt(n, queue[0]).value, 1, skip)))
  {
    QueueHead(n, skip, m, queue);
    BfsMembers(n, skip, queue[0]);
    QueueAdvance(n, BfsOrder(n, skip), m, queue, skip);
  }

  lemma QueueHead(n: Node, skip: bool, m: nat, queue: seq<Path>)
    requires n.Branch?
    requires m <= |BfsOrder(n, skip)|
    requires BfsOrder(n, skip)[..m] + queue == [[]] + Expand(n, BfsOrder(n, skip)[..m], skip)
    requires queue != []
    ensures m < |BfsOrder(n, skip)| && queue[0] == BfsOrder(n, skip)[m]
  {
    var order := BfsOrder(n, skip);
    OrderSplit(n, skip, m);
    var front := order[..m] + queue;
    assert order == front + Expand(n, order[m..], skip);
    assert |front| > m;
    assert order[m] == front[m];
  }

  lemma QueueAdvance(n: Node, order: seq<Path>, m: nat, queue: seq<Path>, skip: bool)
    requires m < |order| && queue != [] && queue[0] == order[m]
    requires order[..m] + queue == [[]] + Expand(n, order[..m], skip)
    ensures order[..m + 1] + (queue[1..] + Children(n, queue[0], skip)) == [[]] + Expand(n, order[..m + 1], skip)
  {
    ExpandOneMore(n, order, m, skip);
    var e, c := Expand(n, order[..m], skip), Children(n, queue[0], skip);
    ShiftHead(order, m, queue, [[]] + e, c);
    assert ([[]] + e) + c == [[]] + (e + c);
  }

  /** Moving the head of the queue to the end of the visited prefix keeps their concatenation. */
  lemma ShiftHead<T>(order: seq<T>, m: nat, queue: seq<T>, front: seq<T>, c: seq<T>)
    requires m < |order| && queue != [] && queue[0] == order[m]
    requires order[..m] + queue == front
    ensures order[..m + 1] + (queue[1..] + c) == front + c
  {
    assert order[..m + 1] == order[..m] + [queue[0]];
    assert order[..m + 1] + queue[1..] == order[..m] + queue;
  }

  /** When the queue runs empty, every position of the order has been visited. */
  lemma QueueExhausted(n: Node, skip: bool, m: nat)
    requires n.Branch? && QueueInvariant(n, skip, m, [])
    ensures m == |BfsOrder(n, skip)|
  {
    assert BfsOrder(n, skip)[..m] + [] == BfsOrder(n, skip)[..m];
    var order := BfsOrder(n, skip);
    OrderSplit(n, skip, m);
    assert order[..m] + order[m..] == order[..m] + Expand(n, order[m..], skip);
    NoFixpoint(n, order[m..], skip);
  }

  /** The branch children among the first `j + 1` children of `n` are those among the first `j`, then child `j` if it is a branch. */
  lemma LevelKidsNext(n: Node, j: nat, skip: bool)
    requires n.Branch? && j < |n.next|
    ensures LevelKids(n, j + 1, 0, skip) == LevelKids(n, j, 0, skip) + (if n.next[j].Branch? then [[j]] else [])
  {
    assert [j] + [] == [j];
    assert Prepend(j, [[]]) == [[j]];
  }

  lemma UnderAppend(q: Path, a: seq<Path>, b: seq<Path>)
    ensures Under(q, a + b) == Under(q, a) + Under(q, b)
  {
    assert forall k :: 0 <= k < |a + b| ==> Under(q, a + b)[k] == (Under(q, a) + Under(q, b))[k];
  }

  /** Visiting one more position appends its children to the queue. */
  lemma ExpandOneMore(n: Node, ps: seq<Path>, m: nat, skip: bool)
    requires m < |ps|
    ensures Expand(n, ps[..m + 1], skip) == Expand(n, ps[..m], skip) + Children(n, ps[m], skip)
  {
    assert ps[..m + 1] == ps[..m] + [ps[m]];
    ExpandAppend(n, ps[..m], [ps[m]], skip);
  }

  /** No position among the first `m` of `ps` matches. */
  ghost predicate NoMatchBefore(n: Node, ps: seq<Path>, m: nat, key: string, value: Value)
  {
    m <= |ps| && forall j :: 0 <= j < m ==> !MatchesAt(n, ps[j], key, value)
  }

  /** A visited position that does not match extends the prefix with no match by one. */
  lemma NoMatchStep(n: Node, ps: seq<Path>, m: nat, key: string, value: Value, d: SkillData)
    requires NoMatchBefore(n, ps, m, key, value) && m < |ps|
    requires DataAt(n, ps[m]) == Some(d) && !Matches(d, key, value)
    ensures NoMatchBefore(n, ps, m + 1, key, value)
  {
  }

  /** The first match is at `m` when `ps[m]` matches and no earlier position does. */
  lemma FirstMatchAt(n: Node, ps: seq<Path>, m: nat, key: string, value: Value)
    requires m < |ps| && MatchesAt(n, ps[m], key, value)
    requires forall j :: 0 <= j < m ==> !MatchesAt(n, ps[j], key, value)
    ensures FirstMatch(n, ps, key, value) == Some(m)
  {
    var r := FirstMatch(n, ps, key, value);
    assert r.Some?;
    assert !(r.value < m);
    assert !(m < r.value);
  }

  /** Positions whose records match alike in two trees have the same first match. */
  lemma {:induction false} FirstMatchAgree(a: Node, b: Node, ps: seq<Path>, key: string, value: Value)
    requires forall p :: p in ps ==> MatchesAt(a, p, key, value) == MatchesAt(b, p, key, value)
    ensures FirstMatch(a, ps, key, value) == FirstMatch(b, ps, key, value)
    decreases |ps|
  {
    if ps != [] {
      FirstMatchAgree(a, b, ps[1..], key, value);
    }
  }

  /** Without skipping, which positions search visits depends only on the shape of the tree. */
  lemma {:induction false} LevelShape(a: Node, b: Node, d: nat)
    requires ShapeOf(a) == ShapeOf(b)
    ensures Level(a, d, false) == Level(b, d, false)
    decreases a, 1
  {
    if a.Branch? {
      assert |ShapeOf(a).kids| == |a.next|;
      assert b.Branch? && |a.next| == |b.next|;
      if d > 0 {
        LevelKidsShape(a, b, |a.next|, d - 1);
      }
    } else {
      assert b.Leaf?;
    }
  }

  lemma {:induction false} LevelKidsShape(a: Node, b: Node, i: nat, d: nat)
    requires a.Branch? && b.Branch? && ShapeOf(a) == ShapeOf(b) && i <= |a.next|
    ensures |a.next| == |b.next| && LevelKids(a, i, d, false) == LevelKids(b, i, d, false)
    decreases a, 0, i
  {
    assert ShapeOf(a).kids == ShapeOf(b).kids;
    if i > 0 {
      assert ShapeOf(a).kids[i - 1] == ShapeOf(b).kids[i - 1];
      LevelKidsShape(a, b, i - 1, d);
      LevelShape(a.next[i - 1], b.next[i - 1], d);
    }
  }

  lemma {:induction false} LevelsFromShape(a: Node, b: Node, d: nat)
    requires ShapeOf(a) == ShapeOf(b)
    ensures LevelsFrom(a, d, false) == LevelsFrom(b, d, false)
    decreases Height(a) + 1 - d
  {
    LevelShape(a, b, d);
    if Level(a, d, false) != [] {
      LevelBeyond(a, d, false);
      LevelsFromShape(a, b, d + 1);
    }
  }
}
