/** The data model of a skill tree: skill records and the branch/leaf tree built from them. */
module Skills {

  datatype Option<+T> = None | Some(value: T)

  /** A field value of a skill record. The unlock flag is seen by key search as a `Bool`. */
  datatype Value = Bool(b: bool) | Number(n: int) | Text(s: string) | Null

  /** The name under which the unlock flag is visible as a field of a skill record. */
  const IsUnlockedKey: string := "isUnlocked"

  /**
   * A skill record: any caller-defined named fields plus the mandatory unlock flag.
   * An entry of `fields` named `IsUnlockedKey` is shadowed by the flag.
   */
  datatype SkillData = SkillData(fields: map<string, Value>, isUnlocked: bool)

  /**
   * A node of the tree: a branch holds one skill record and an ordered list of children,
   * a leaf is a bare skill record with no children.
   */
  datatype Node = Branch(skill: SkillData, next: seq<Node>) | Leaf(data: SkillData)

  /** The skill record carried by a node: a branch's `skill`, or the leaf itself. */
  function Data(n: Node): SkillData
  {
    match n
    case Branch(s, _) => s
    case Leaf(d) => d
  }

  /** The node with its own skill record's unlock flag set to `v`; its children are kept. */
  function WithFlag(n: Node, v: bool): (r: Node)
    ensures Data(r) == Data(n).(isUnlocked := v)
    ensures r.Branch? == n.Branch? && (r.Branch? ==> r.next == n.next)
  {
    match n
    case Branch(s, next) => Branch(s.(isUnlocked := v), next)
    case Leaf(d) => Leaf(d.(isUnlocked := v))
  }

  /** Reading field `key` of a record, as a property access on the record would. */
  function Lookup(d: SkillData, key: string): Option<Value>
  {
    if key == IsUnlockedKey then Some(Bool(d.isUnlocked))
    else if key in d.fields then Some(d.fields[key])
    else None
  }

  /** The key search criterion: the record has field `key` and its value equals `value`. */
  predicate Matches(d: SkillData, key: string, value: Value)
  {
    Lookup(d, key) == Some(value)
  }

  /**
   * A write of the unlock flag is seen by a lookup of the flag's own name and by no other:
   * every caller-defined field reads as it did before.
   */
  lemma FlagWriteVisibility(d: SkillData, v: bool, key: string)
    ensures Lookup(d.(isUnlocked := v), IsUnlockedKey) == Some(Bool(v))
    ensures key != IsUnlockedKey ==> Lookup(d.(isUnlocked := v), key) == Lookup(d, key)
  {
  }
}
