/**
 * The unlock engine: it holds a skill tree and changes unlock flags in it, by an explicit
 * path of child indices or by searching for a record with a given field value, and it
 * reports which skills are next in line to be unlocked.
 */
module Engine {
  import opened Skills
  import opened Paths
  import opened Eligibility
  import opened BreadthFirst

  /** The ways an engine operation fails; the tree is left as it was in every case. */
  datatype Error =
    | InvalidPath   // the path does not start with the root marker 0 (or is empty)
    | OutOfBounds   // an index names no child of the branch it indexes
    | TooLong       // the path goes on after reaching a leaf
    | MultipleKeys  // the search criterion does not have exactly one key
    | NotFound      // no visited branch has the searched field value

  /** The result of a pure step that computes a value (a new tree) or fails. */
  datatype Result<T> = Ok(value: T) | Err(error: Error)

  /**
   * What an engine method reports: the operations return nothing and only change the held
   * tree, so success carries no value; the new state is the tree field itself.
   */
  datatype Outcome = Success | Failure(error: Error)

  /**
   * The recursive descent of a path-based write: from branch `n`, follow the indices of `p`
   * and set the flag of the node where the path ends; the tree with that one flag changed,
   * or the reason the path is wrong.
   */
  function Descend(n: Node, p: Path, v: bool): (r: Result<Node>)
    requires n.Branch?
    ensures r.Ok? <==> Reachable(n, p)
    ensures r.Ok? ==> r.value == UpdateAt(n, p, v)
    ensures r == Err(OutOfBounds) <==> IndexMissing(n, p)
    ensures r == Err(TooLong) <==> PastLeaf(n, p)
    ensures r.Err? ==> r.error == OutOfBounds || r.error == TooLong
    decreases p
  {
    if p == [] then Ok(WithFlag(n, v))
    else
      var i, rest := p[0], p[1..];
      if !(0 <= i < |n.next|) then
        MissingFirstIndex(n, p);
        Err(OutOfBounds)
      else
        var child := n.next[i];
        DescendStep(n, p);
        if child.Leaf? then
          if |rest| > 0 then
            BelowLeaf(child, rest);
            Err(TooLong)
          else
            Ok(Branch(n.skill, n.next[i := WithFlag(child, v)]))
        else
          match Descend(child, rest, v)
          case Ok(c) => Ok(Branch(n.skill, n.next[i := c]))
          case Err(e) => Err(e)
  }

  /**
   * What a key search does to tree `t`: set the flag of the first position in breadth-first
   * order whose record has field `key` equal to `value`, or report that there is none.
   */
  ghost function KeyUpdate(t: Node, key: string, value: Value, setUnlock: bool, skip: bool): Result<Node>
  {
    var order := BfsOrder(t, skip);
    match FirstMatch(t, order, key, value)
    case None => Err(NotFound)
    case Some(i) => Ok(UpdateAt(t, order[i], setUnlock))
  }

  /** The engine over one skill tree, whose root is always a branch. */
  class Unlocks {
    var tree: Node

    ghost predicate Valid()
      reads this
    {
      tree.Branch?
    }

    constructor (t: Node)
      requires t.Branch?
      ensures Valid() && tree == t
    {
      tree := t;
    }

    /**
     * Set the flag of the node at `path`, whose first element must be the root marker 0.
     * On success exactly that node's flag changes; on any error nothing changes.
     */
    method SetUnlockedByPath(path: Path, value: bool) returns (r: Outcome)
      requires Valid()
      modifies this
      ensures Valid()
      ensures r == Failure(InvalidPath) <==> |path| == 0 || path[0] != 0
      ensures r.Failure? ==> tree == old(tree)
      ensures r == Success <==> |path| > 0 && path[0] == 0 && Reachable(old(tree), path[1..])
      ensures r == Success ==> tree == UpdateAt(old(tree), path[1..], value)
      ensures r == Failure(OutOfBounds) <==> |path| > 0 && path[0] == 0 && IndexMissing(old(tree), path[1..])
      ensures r == Failure(TooLong) <==> |path| > 0 && path[0] == 0 && PastLeaf(old(tree), path[1..])
    {
      if |path| == 0 || path[0] != 0 {
        return Failure(InvalidPath);
      }
      var rest := path[1..];
      if |rest| == 0 {
        // the root's flag is written here and then once more by the descent
        tree := WithFlag(tree, value);
      }
      match Descend(tree, rest, value) {
        case Ok(t) =>
          tree := t;
          r := Success;
        case Err(e) =>
          r := Failure(e);
      }
    }

    /** The skills next in line to be unlocked, in pre-order. */
    function GetPossibleToUnlock(): (r: Unlockable)
      requires Valid()
      reads this
      ensures r.Single? <==> !tree.skill.isUnlocked
      ensures r.Single? ==> r.skill == tree.skill
      ensures r == Nothing <==> forall p :: !IsEligible(tree, p)
      ensures Reports(tree, EligiblePaths(tree), Items(r))
    {
      ScanForm(tree);
      ScanItems(tree);
      Scan(tree)
    }

    /**
     * Breadth-first search from the root over branches only: the first branch whose record
     * has field `key` equal to `value` gets its flag set to `setUnlock`. With `skipLocked`,
     * the children of a locked branch are not searched.
     */
    method UnlockByKey(key: string, value: Value, setUnlock: bool, skipLocked: bool) returns (r: Outcome)
      requires Valid()
      modifies this
      ensures Valid()
      ensures r.Failure? ==> tree == old(tree) && KeyUpdate(old(tree), key, value, setUnlock, skipLocked) == Err(r.error)
      ensures r.Success? ==> KeyUpdate(old(tree), key, value, setUnlock, skipLocked) == Ok(tree)
    {
      var found := FindByKey(tree, key, value, skipLocked);
      match found {
        case Some(p) =>
          tree := UpdateAt(tree, p, setUnlock);
          r := Success;
        case None =>
          r := Failure(NotFound);
      }
    }

    /**
     * Key search with a criterion of named fields: it must name exactly one field, and the
     * first branch in breadth-first order with that field value is unlocked.
     */
    method SetUnlockedByKey(criterion: map<string, Value>) returns (r: Outcome)
      requires Valid()
      modifies this
      ensures Valid()
      ensures r == Failure(MultipleKeys) <==> |criterion| != 1
      ensures r.Failure? ==> tree == old(tree)
      ensures |criterion| == 1 ==> exists key :: (key in criterion &&
        if r.Success? then KeyUpdate(old(tree), key, criterion[key], true, false) == Ok(tree)
        else KeyUpdate(old(tree), key, criterion[key], true, false) == Err(r.error))
    {
      if |criterion| != 1 {
        return Failure(MultipleKeys);
      }
      var key :| key in criterion;
      r := UnlockByKey(key, criterion[key], true, false);
    }
  }

  /**
   * The queue loop of key search over tree `t`: the position of the first branch in
   * breadth-first order whose record has field `key` equal to `value`, or none.
   */
  method FindByKey(t: Node, key: string, value: Value, skipLocked: bool) returns (found: Option<Path>)
    requires t.Branch?
    ensures found.None? <==> FirstMatch(t, BfsOrder(t, skipLocked), key, value).None?
    ensures found.Some? ==>
      found.value == BfsOrder(t, skipLocked)[FirstMatch(t, BfsOrder(t, skipLocked), key, value).value]
  {
    ghost var m := 0;
    var queue: seq<Path> := [[]];
    while queue != []
      invariant QueueInvariant(t, skipLocked, m, queue)
      invariant NoMatchBefore(t, BfsOrder(t, skipLocked), m, key, value)
      decreases |BfsOrder(t, skipLocked)| - m
    {
      QueueStep(t, skipLocked, m, queue);
      var p := queue[0];
      var node := NodeAt(t, p).value;
      if Matches(node.skill, key, value) {
        FirstMatchAt(t, BfsOrder(t, skipLocked), m, key, value);
        return Some(p);
      }
      NoMatchStep(t, BfsOrder(t, skipLocked), m, key, value, node.skill);
      queue := EnqueueChildren(queue[1..], p, node, skipLocked);
      m := m + 1;
    }
    QueueExhausted(t, skipLocked, m);
    return None;
  }

  /**
   * One visit's enqueueing: the branch children of `node` (at position `p`) go to the back of
   * the queue in list order, unless locked branches are skipped and `node` is locked.
   */
  method EnqueueChildren(queue: seq<Path>, p: Path, node: Node, skipLocked: bool) returns (q: seq<Path>)
    requires node.Branch?
    ensures q == queue + Under(p, Level(node, 1, skipLocked))
  {
    q := queue;
    if !skipLocked || node.skill.isUnlocked {
      for j := 0 to |node.next|
        invariant q == queue + Under(p, LevelKids(node, j, 0, skipLocked))
      {
        LevelKidsNext(node, j, skipLocked);
        UnderAppend(p, LevelKids(node, j, 0, skipLocked), if node.next[j].Branch? then [[j]] else []);
        if node.next[j].Branch? {
          q := q + [p + [j]];
        }
      }
    }
  }

  // ---------------------------------------------------------------------------
  // Properties of the operations

  /** Path writes: read-after-write at the addressed node, every other record and the shape unchanged. */
  lemma PathWriteFrame(t: Node, p: Path, v: bool, t': Node, q: Path)
    requires t.Branch? && Descend(t, p, v) == Ok(t')
    ensures DataAt(t', p) == Some(DataAt(t, p).value.(isUnlocked := v))
    ensures q != p ==> DataAt(t', q) == DataAt(t, q)
    ensures ShapeOf(t') == ShapeOf(t)
  {
    UpdateAtData(t, p, v, p);
    UpdateAtData(t, p, v, q);
    UpdateAtShape(t, p, v);
  }

  /** Writing `true` and then `false` at a path leaves the flag false and the rest as before the first write. */
  lemma {:induction false} PathWriteUndo(t: Node, p: Path, t1: Node)
    requires t.Branch? && Descend(t, p, true) == Ok(t1)
    ensures t1.Branch? && Descend(t1, p, false) == Ok(UpdateAt(t, p, false))
    ensures DataAt(t, p).value.isUnlocked == false ==> Descend(t1, p, false) == Ok(t)
  {
    UpdateAtData(t, p, true, p);
    UpdateAtTwice(t, p, true, false);
    if DataAt(t, p).value.isUnlocked == false {
      UpdateAtSame(t, p, false);
    }
  }

  /**
   * Key search only ever visits branches: when no branch record matches, the search fails
   * with NotFound even if some leaf record would match.
   */
  lemma LeavesNeverMatch(t: Node, key: string, value: Value, setUnlock: bool, skip: bool)
    requires forall p :: Reachable(t, p) && NodeAt(t, p).value.Branch? ==> !MatchesAt(t, p, key, value)
    ensures KeyUpdate(t, key, value, setUnlock, skip) == Err(NotFound)
  {
    var order := BfsOrder(t, skip);
    forall j | 0 <= j < |order| ensures !MatchesAt(t, order[j], key, value) {
      BfsMembers(t, skip, order[j]);
    }
  }

  /** A successful key search writes the first matching branch: the shallowest, leftmost among equally deep. */
  lemma KeyUpdateFirst(t: Node, key: string, value: Value, setUnlock: bool, skip: bool, t': Node)
    requires KeyUpdate(t, key, value, setUnlock, skip) == Ok(t')
    ensures exists p :: (Reachable(t, p) && NodeAt(t, p).value.Branch? && MatchesAt(t, p, key, value) &&
      t' == UpdateAt(t, p, setUnlock) &&
      forall q :: (Reachable(t, q) && NodeAt(t, q).value.Branch? && (skip ==> AncestorsUnlocked(t, q)) &&
        Shallower(q, p)) ==> !MatchesAt(t, q, key, value))
  {
    var order := BfsOrder(t, skip);
    var i := FirstMatch(t, order, key, value).value;
    var p := order[i];
    BfsMembers(t, skip, p);
    BfsOrdered(t, skip);
    forall q | Reachable(t, q) && NodeAt(t, q).value.Branch? && (skip ==> AncestorsUnlocked(t, q)) && Shallower(q, p)
      ensures !MatchesAt(t, q, key, value)
    {
      BfsMembers(t, skip, q);
      var j :| 0 <= j < |order| && order[j] == q;
      if j >= i {
        ShallowerAsymmetric(p, order[j]);
      }
    }
  }

  /** Breadth-first order never puts two positions each before the other. */
  lemma {:induction false} ShallowerAsymmetric(a: Path, b: Path)
    ensures !(Shallower(a, b) && Shallower(b, a))
    decreases |a|
  {
    if |a| == |b| && a != [] && b != [] {
      ShallowerAsymmetric(a[1..], b[1..]);
    }
  }

  /**
   * Unlocking by a field other than the flag is idempotent: a second identical search finds
   * the same branch again and leaves the tree as the first one did.
   */
  lemma KeyUpdateIdempotent(t: Node, key: string, value: Value, t': Node)
    requires key != IsUnlockedKey
    requires KeyUpdate(t, key, value, true, false) == Ok(t')
    ensures KeyUpdate(t', key, value, true, false) == Ok(t')
  {
    var order := BfsOrder(t, false);
    var i := FirstMatch(t, order, key, value).value;
    var p := order[i];
    BfsMembers(t, false, p);
    UpdateAtShape(t, p, true);
    LevelsFromShape(t', t, 0);
    forall q | q in order ensures MatchesAt(t', q, key, value) == MatchesAt(t, q, key, value) {
      WriteKeepsMatches(t, p, true, q, key, value);
    }
    FirstMatchAgree(t', t, order, key, value);
    UpdateAtTwice(t, p, true, true);
  }

  /**
   * A flag write changes no match on a caller-defined field: a search on any key other than
   * `isUnlocked` sees every record as it was.
   */
  lemma WriteKeepsMatches(t: Node, p: Path, v: bool, q: Path, key: string, value: Value)
    requires Reachable(t, p) && key != IsUnlockedKey
    ensures MatchesAt(UpdateAt(t, p, v), q, key, value) == MatchesAt(t, q, key, value)
  {
    UpdateAtData(t, p, v, q);
    if q == p {
      FlagWriteVisibility(DataAt(t, p).value, v, key);
    }
  }

  /**
   * Unlocking by the flag itself is not idempotent: while some visited branch is still locked,
   * a search for `isUnlocked == false` succeeds and unlocks a branch, so the tree changes.
   */
  lemma FlagSearchAdvances(t: Node, skip: bool, p: Path)
    requires Reachable(t, p) && NodeAt(t, p).value.Branch? && !DataAt(t, p).value.isUnlocked
    requires skip ==> AncestorsUnlocked(t, p)
    ensures KeyUpdate(t, IsUnlockedKey, Bool(false), true, skip).Ok?
    ensures KeyUpdate(t, IsUnlockedKey, Bool(false), true, skip).value != t
  {
    var order := BfsOrder(t, skip);
    BfsMembers(t, skip, p);
    var k :| 0 <= k < |order| && order[k] == p;
    assert MatchesAt(t, order[k], IsUnlockedKey, Bool(false));
    var i := FirstMatch(t, order, IsUnlockedKey, Bool(false)).value;
    var q := order[i];
    BfsMembers(t, skip, q);
    UpdateAtData(t, q, true, q);
    assert DataAt(UpdateAt(t, q, true), q) != DataAt(t, q);
  }
}
