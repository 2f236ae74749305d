/**
 * The eligibility scan: the skills that are locked but whose every ancestor is unlocked,
 * i.e. the ones next in line to be unlocked.
 */
module Eligibility {
  import opened Skills
  import opened Paths

  /**
   * What the scan returns: the node's own record when the node itself is locked, a flat
   * non-empty list when it is unlocked and something below it is eligible, and nothing otherwise.
   */
  datatype Unlockable = Single(skill: SkillData) | Several(skills: seq<SkillData>) | Nothing

  /** The records of a scan result as one list (a single record counts as a list of one). */
  function Items(u: Unlockable): seq<SkillData>
  {
    match u
    case Single(s) => [s]
    case Several(ss) => ss
    case Nothing => []
  }

  /** The recursive scan: a locked node reports itself, an unlocked branch reports what its children report. */
  function Scan(n: Node): Unlockable
    decreases n, 1, 0
  {
    match n
    case Branch(s, next) =>
      if s.isUnlocked then
        var found := ScanKids(n, |next|);
        if |found| != 0 then Several(found) else Nothing
      else Single(s)
    case Leaf(d) =>
      if d.isUnlocked then Nothing else Single(d)
  }

  /** The results of the first `i` children of branch `n`, flattened in child order, empty results dropped. */
  function ScanKids(n: Node, i: nat): seq<SkillData>
    requires n.Branch? && i <= |n.next|
    decreases n, 0, i
  {
    if i == 0 then [] else ScanKids(n, i - 1) + Items(Scan(n.next[i - 1]))
  }

  /** Position `p` holds a locked record and every node above it is unlocked. */
  ghost predicate IsEligible(n: Node, p: Path)
  {
    DataAt(n, p).Some? && !DataAt(n, p).value.isUnlocked && AncestorsUnlocked(n, p)
  }

  /** The positions of the eligible nodes in pre-order: the witness of where each scanned record sits. */
  ghost function EligiblePaths(n: Node): seq<Path>
    decreases n, 1, 0
  {
    if !Data(n).isUnlocked then [[]]
    else match n
      case Leaf(_) => []
      case Branch(_, next) => EligibleKids(n, |next|)
  }

  ghost function EligibleKids(n: Node, i: nat): seq<Path>
    requires n.Branch? && i <= |n.next|
    decreases n, 0, i
  {
    if i == 0 then [] else EligibleKids(n, i - 1) + Prepend(i - 1, EligiblePaths(n.next[i - 1]))
  }

  lemma {:induction false} EligibleKidsMembers(n: Node, i: nat, p: Path)
    requires n.Branch? && i <= |n.next|
    ensures p in EligibleKids(n, i) <==> |p| > 0 && 0 <= p[0] < i && p[1..] in EligiblePaths(n.next[p[0]])
  {
    if i > 0 {
      EligibleKidsMembers(n, i - 1, p);
      var e := EligiblePaths(n.next[i - 1]);
      if p in Prepend(i - 1, e) {
        var k :| 0 <= k < |e| && Prepend(i - 1, e)[k] == p;
        assert p[1..] == e[k];
      }
      if |p| > 0 && p[0] == i - 1 && p[1..] in e {
        var k :| 0 <= k < |e| && e[k] == p[1..];
        assert Prepend(i - 1, e)[k] == p;
      }
    }
  }

  /** The eligible positions are exactly the locked positions whose ancestors are all unlocked. */
  lemma {:induction false} EligibleExactly(n: Node, p: Path)
    ensures p in EligiblePaths(n) <==> IsEligible(n, p)
    decreases p
  {
    if p == [] {
      if n.Branch? && Data(n).isUnlocked {
        EligibleKidsMembers(n, |n.next|, p);
      }
    } else if !Data(n).isUnlocked {
      assert p[..0] == [];
      assert !Unlocked(n, p[..0]);
    } else if n.Branch? {
      EligibleKidsMembers(n, |n.next|, p);
      if 0 <= p[0] < |n.next| {
        EligibleExactly(n.next[p[0]], p[1..]);
        DescendStep(n, p);
      }
    }
  }

  lemma {:induction false} PrependSorted(c: int, s: seq<Path>)
    requires Sorted(s)
    ensures Sorted(Prepend(c, s))
  {
    var t := Prepend(c, s);
    forall i, j | 0 <= i < j < |t| ensures LexLess(t[i], t[j]) {
      assert t[i][1..] == s[i] && t[j][1..] == s[j];
    }
  }

  lemma {:induction false} EligibleKidsSorted(n: Node, i: nat)
    requires n.Branch? && i <= |n.next|
    requires forall j :: 0 <= j < i ==> Sorted(EligiblePaths(n.next[j]))
    ensures Sorted(EligibleKids(n, i))
  {
    if i > 0 {
      EligibleKidsSorted(n, i - 1);
      var a, b := EligibleKids(n, i - 1), Prepend(i - 1, EligiblePaths(n.next[i - 1]));
      PrependSorted(i - 1, EligiblePaths(n.next[i - 1]));
      forall x, y | 0 <= x < |a| && 0 <= y < |b| ensures LexLess(a[x], b[y]) {
        EligibleKidsMembers(n, i - 1, a[x]);
      }
      assert EligibleKids(n, i) == a + b;
    }
  }

  /** The eligible positions come in pre-order: parents before children, children in list order. */
  lemma {:induction false} EligibleSorted(n: Node)
    ensures Sorted(EligiblePaths(n))
    decreases n
  {
    if Data(n).isUnlocked && n.Branch? {
      forall j | 0 <= j < |n.next| ensures Sorted(EligiblePaths(n.next[j])) {
        EligibleSorted(n.next[j]);
      }
      EligibleKidsSorted(n, |n.next|);
    }
  }

  /** `s` lists, in order, the records found at positions `e` of `n`. */
  ghost predicate Reports(n: Node, e: seq<Path>, s: seq<SkillData>)
  {
    |s| == |e| && forall k :: 0 <= k < |e| ==> DataAt(n, e[k]) == Some(s[k])
  }

  lemma ReportsAppend(n: Node, a: seq<Path>, sa: seq<SkillData>, b: seq<Path>, sb: seq<SkillData>)
    requires Reports(n, a, sa) && Reports(n, b, sb)
    ensures Reports(n, a + b, sa + sb)
  {
    forall k | 0 <= k < |a + b| ensures DataAt(n, (a + b)[k]) == Some((sa + sb)[k]) {
      if k >= |a| {
        assert (a + b)[k] == b[k - |a|];
      }
    }
  }

  lemma ReportsPrepend(n: Node, i: nat, e: seq<Path>, s: seq<SkillData>)
    requires n.Branch? && i < |n.next| && Reports(n.next[i], e, s)
    ensures Reports(n, Prepend(i, e), s)
  {
    forall k | 0 <= k < |e| ensures DataAt(n, Prepend(i, e)[k]) == Some(s[k]) {
      var p := Prepend(i, e)[k];
      assert p[0] == i && p[1..] == e[k];
    }
  }

  lemma {:induction false} ScanKidsMatch(n: Node, i: nat)
    requires n.Branch? && i <= |n.next|
    requires forall j :: 0 <= j < i ==> Reports(n.next[j], EligiblePaths(n.next[j]), Items(Scan(n.next[j])))
    ensures Reports(n, EligibleKids(n, i), ScanKids(n, i))
  {
    if i > 0 {
      ScanKidsMatch(n, i - 1);
      var e, s := EligiblePaths(n.next[i - 1]), Items(Scan(n.next[i - 1]));
      ReportsPrepend(n, i - 1, e, s);
      ReportsAppend(n, EligibleKids(n, i - 1), ScanKids(n, i - 1), Prepend(i - 1, e), s);
    }
  }

  /** The scan reports, in order, the record at each eligible position, and nothing else. */
  lemma {:induction false} ScanItems(n: Node)
    ensures |Items(Scan(n))| == |EligiblePaths(n)|
    ensures forall k :: 0 <= k < |EligiblePaths(n)| ==> DataAt(n, EligiblePaths(n)[k]) == Some(Items(Scan(n))[k])
    decreases n
  {
    if Data(n).isUnlocked && n.Branch? {
      forall j | 0 <= j < |n.next|
        ensures Reports(n.next[j], EligiblePaths(n.next[j]), Items(Scan(n.next[j])))
      {
        ScanItems(n.next[j]);
      }
      ScanKidsMatch(n, |n.next|);
    }
  }

  /** Everything the scan reports is locked. */
  lemma ScanItemsLocked(n: Node)
    ensures forall x :: x in Items(Scan(n)) ==> !x.isUnlocked
  {
    ScanItems(n);
    forall x | x in Items(Scan(n)) ensures !x.isUnlocked {
      var k :| 0 <= k < |Items(Scan(n))| && Items(Scan(n))[k] == x;
      EligibleExactly(n, EligiblePaths(n)[k]);
    }
  }

  /**
   * The three shapes of a scan result: the node's own record alone when it is locked, nothing
   * when it is unlocked and no position is eligible, and otherwise a non-empty list.
   */
  lemma ScanForm(n: Node)
    ensures Scan(n).Single? <==> !Data(n).isUnlocked
    ensures Scan(n).Single? ==> Scan(n).skill == Data(n)
    ensures Scan(n) == Nothing <==> forall p :: !IsEligible(n, p)
    ensures Scan(n).Several? ==> |Scan(n).skills| > 0
  {
    ScanItems(n);
    if Scan(n) == Nothing {
      forall p ensures !IsEligible(n, p) {
        EligibleExactly(n, p);
      }
    } else {
      EligibleExactly(n, EligiblePaths(n)[0]);
    }
  }
}
