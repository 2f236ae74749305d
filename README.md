# Skill-tree unlock engine, modelled in Dafny

This project models the `Unlocks` engine of a small TypeScript library. The engine manages a
tree of skills. Each skill carries an `isUnlocked` flag. A node is either a **branch**, which has
its own skill record and an ordered list of children, or a **leaf**, which is a bare skill
record. The engine has three operations:

- **set by path** (`setUnlockedByPath`): follow a list of child indices, which starts with the
  root marker `0`, and write the flag of the node where the list ends;
- **set by key** (`setUnlockedByKey`): search breadth first for the first branch whose record has
  a given field value, and write its flag;
- **eligibility scan** (`getPossibleToUnlock`): list the locked skills whose ancestors are all
  unlocked, which are the skills next in line to be unlocked.

Modules, one per concept:

- `skill.dfy`, module `Skills`: the data model (`SkillData`, `Node = Branch | Leaf`) and field
  lookup as key search sees it.
- `paths.dfy`, module `Paths`: positions in the tree, with `NodeAt`, `DataAt` and `UpdateAt`
  (one flag written). It also defines the two ways a path can be wrong and the pre-order on
  positions.
- `eligibility.dfy`, module `Eligibility`: `Scan`, the recursive scan exactly as the code computes
  it. `EligiblePaths` is a ghost witness that says where each reported record sits.
- `search.dfy`, module `BreadthFirst`: the breadth-first visiting order (`BfsOrder`), defined
  level by level. It also proves the queue discipline that the search loop relies on.
- `unlocks.dfy`, module `Engine`: the error taxonomy, the recursive path descent (`Descend`), and
  the class `Unlocks` with its methods. It ends with the lemmas that relate the operations.

Positions in `Paths` are relative to the root: the empty path is the root. The caller's path
`[0, i, j, …]` becomes the position `[i, j, …]` once `SetUnlockedByPath` has checked and dropped
the leading `0`.

The tree is held by value in the field `Unlocks.tree`. Its root is always a branch (`Valid()`).
A write replaces the field with the tree in which exactly one flag differs.

Key search reads fields through `Skills.Lookup`. The flag itself is a field named `isUnlocked`
of the record, so a criterion on `isUnlocked` compares against the flag. For that reason the
idempotence of key search is proved for every key except `isUnlocked`
(`Engine.KeyUpdateIdempotent`). With the criterion `{isUnlocked: false}`, each call unlocks one
more branch while a locked one remains to be visited (`Engine.FlagSearchAdvances`).

Key search visits only branches. The code puts only branch children in its queue
(`src/index.ts:111-121`), so its arm for non-branch nodes (`src/index.ts:124-131`) can never run.
A record that exists only as a leaf is therefore never found, and the model does the same.
`BreadthFirst.BfsMembers` proves that only branches are visited. `Engine.LeavesNeverMatch`
proves that a value found only on leaves gives `NotFound`.

The scan returns one of three shapes. It returns `Single(record)` when the scanned node itself
is locked (a bare object in the code). It returns `Nothing` when nothing below an unlocked node is
eligible (`null` in the code). Otherwise it returns `Several(list)`, a flat non-empty array. This
array can have a single element, when an unlocked branch has exactly one eligible descendant.
The scan returns records only, without their paths, as the code does. The paths exist in the
model only as the ghost `EligiblePaths`.

## Model

| member | source | states |
|---|---|---|
| `Skills.FlagWriteVisibility` | src/types/skill.ts:1-4 | the unlock flag is a field of the record named `isUnlocked`: after a flag write a lookup of that name reads the new value, and a lookup of any other name reads what it read before |
| `Skills.WithFlag` | src/index.ts:34 | writing a node's flag changes its record only in `isUnlocked`, keeps branch or leaf, and keeps a branch's child list |
| `Paths.MaxHeight` | src/types/skill.ts:6-9 | the height bound of a branch is at least the height of each of its children |
| `Paths.DepthBound` | src/types/skill.ts:6-9 | the tree is finite: every existing position is at most `Height(n)` steps deep |
| `Paths.DescendStep` | src/index.ts:38-55 | one step of descent: the node, the missing-index and past-leaf failures, and the unlocked-ancestors condition of `[i] + q` in a branch are those of `q` in child `i` |
| `Paths.MissingFirstIndex` | src/index.ts:39-41 | an index with no child at a branch makes the path fail as "missing index" and in no other way |
| `Paths.BelowLeaf` | src/index.ts:44-50 | a path that goes on below a leaf fails as "past a leaf" and in no other way |
| `Paths.UpdateAtData` | src/index.ts:32-56 | read-after-write: after a write at an existing position that node's record has `isUnlocked == v` and all its other fields unchanged, and the record at every other position is unchanged |
| `Paths.UpdateAtShape` | src/index.ts:32-56 | a write never adds, removes or reorders children, and never turns a branch into a leaf or back |
| `Paths.UpdateAtTwice` | src/index.ts:15-24 | a second write to the same position replaces the first (set true, then set false, gives the tree with that flag false) |
| `Paths.UpdateAtSame` | src/index.ts:15-24 | writing the value a flag already has leaves the whole tree unchanged |
| `Engine.Descend` | src/index.ts:27-57 | the descent succeeds exactly when the position exists, and then yields the tree with that one flag written; it fails with `OutOfBounds` exactly when some index names no child of the branch it indexes, and with `TooLong` exactly when the path goes on below a leaf; no other error |
| `Engine.Unlocks.constructor` | src/index.ts:11-13 | the engine holds the given tree, whose root is a branch |
| `Engine.Unlocks.SetUnlockedByPath` | src/index.ts:15-24 | an empty path or one not starting with `0` fails with `InvalidPath`; otherwise the outcome is that of the descent over the rest of the path (`[0]` writes the root); on any failure the tree is unchanged; on success it is the old tree with the one flag written |
| `Engine.PathWriteFrame` | src/index.ts:27-57 | after a successful path write the addressed node reads the new value, every other record is unchanged, and the shape of the tree is unchanged |
| `Engine.PathWriteUndo` | src/index.ts:15-24 | writing `true` and then `false` at a path gives the tree with that flag false; if it was false to begin with, the original tree comes back |
| `Eligibility.EligibleExactly` | src/index.ts:59-76 | a position is in the eligible list exactly when its record is locked and every node above it is unlocked, so unlocked nodes and nodes below a locked branch never appear |
| `Eligibility.EligibleSorted` | src/index.ts:62-64 | the eligible positions are in pre-order: a node before its descendants, and children in `nextSkills` order |
| `Eligibility.ScanItems` | src/index.ts:59-76 | the records the scan reports are, one for one and in order, the records at the eligible positions |
| `Eligibility.ScanItemsLocked` | src/index.ts:66-74 | every record the scan reports is locked |
| `Eligibility.ScanForm` | src/index.ts:59-76 | the scan returns the node's own record, not in a list, exactly when the node is locked; `Nothing` exactly when no position is eligible; and otherwise a non-empty list |
| `Engine.Unlocks.GetPossibleToUnlock` | src/index.ts:78-80 | on the held tree: the root's record alone when the root is locked, `Nothing` exactly when nothing is eligible, and otherwise the records at the eligible positions in pre-order |
| `BreadthFirst.FirstMatch` | src/index.ts:95-106 | the index of the first position in a visiting order whose record has the searched field value, with no earlier match; none exactly when no position matches |
| `BreadthFirst.LevelBeyond` | src/index.ts:95-123 | no branch lies below the height of the tree, so breadth-first search ends |
| `BreadthFirst.LevelExactly` | src/index.ts:108-123 | level `d` holds exactly the branches `d` steps deep, and when locked branches are skipped, only those whose ancestors are all unlocked |
| `BreadthFirst.LevelSorted` | src/index.ts:111-121 | within one level, branches come left to right in `nextSkills` order |
| `BreadthFirst.ExpandLevel` | src/index.ts:108-123 | visiting level `d` in order appends exactly level `d + 1` to the queue |
| `BreadthFirst.OrderFixpoint` | src/index.ts:93-123 | the breadth-first order is the root followed by everything that visiting the order appends: the FIFO discipline of the queue |
| `BreadthFirst.NoFixpoint` | src/index.ts:95-133 | every child is one step deeper than its parent, so no non-empty queue regenerates itself and the loop ends |
| `BreadthFirst.BfsMembers` | src/index.ts:108-123 | search visits exactly the branches of the tree and never a leaf; with `skipLocked`, only branches whose ancestors are all unlocked |
| `BreadthFirst.BfsOrdered` | src/index.ts:93-123 | search visits shallower branches first, and branches of one depth left to right |
| `BreadthFirst.QueueStep` | src/index.ts:95-123 | while the queue holds what the root and the visited branches appended, its head is the next branch in breadth-first order, and one more visit keeps that so |
| `BreadthFirst.QueueExhausted` | src/index.ts:95-134 | when the queue runs empty, every branch in breadth-first order has been visited |
| `BreadthFirst.FirstMatchAgree` | src/index.ts:102 | positions whose records match alike in two trees give the same first match |
| `BreadthFirst.LevelShape` | src/index.ts:118-122 | without skipping, which branches search visits depends only on the shape of the tree, not on any flag |
| `Engine.EnqueueChildren` | src/index.ts:108-123 | one visit appends the node's branch children, in list order, to the back of the queue; with `skipLocked` and a locked node it appends nothing |
| `Engine.FindByKey` | src/index.ts:93-134 | the queue loop finds a position exactly when some branch in breadth-first order matches, and then it is the first matching one in that order |
| `Engine.Unlocks.UnlockByKey` | src/index.ts:86-135 | the first branch in breadth-first order whose record has `key == value` gets `isUnlocked = setUnlock`, and nothing else changes; if there is none, `NotFound` and the tree is unchanged |
| `Engine.Unlocks.SetUnlockedByKey` | src/index.ts:137-146 | a criterion without exactly one key fails with `MultipleKeys` and changes nothing; otherwise it is the key search for that key and value with `setUnlock = true` and no skipping |
| `Engine.LeavesNeverMatch` | src/index.ts:108-134 | when no branch record matches, key search fails with `NotFound`, even if some leaf record would match |
| `Engine.KeyUpdateFirst` | src/index.ts:93-106 | a successful key search wrote the flag of a matching branch, and no visited branch that is shallower, or as deep and further left, matches |
| `Engine.KeyUpdateIdempotent` | src/index.ts:102-105 | for any key other than `isUnlocked`, repeating an unlocking key search that succeeded finds the same branch and leaves the tree as the first search did |
| `Engine.WriteKeepsMatches` | src/index.ts:102-104 | a flag write at an existing position changes no match on any key other than `isUnlocked`, at any position |
| `Engine.FlagSearchAdvances` | src/index.ts:102-104 | a search for `isUnlocked == false` succeeds whenever some visited branch is still locked, and then always changes the tree, so on that key repeated searches are not idempotent |

## Left out

- `isSkillTree` (src/index.ts:82-84) and the `"skill" in node` probes (src/index.ts:44, 60): replaced by the tagged union `Node`, whose discriminator is `Branch?`. A leaf whose record has a field named `skill` cannot be expressed, so it is not modelled.
- The non-branch arm of the search loop (src/index.ts:124-131) is unreachable, because only branches are ever put in the queue. The model has no code for it. `BreadthFirst.BfsMembers` states that it cannot run.
- The `PossibleUnlock` interface with paths (src/index.ts:3-6) is declared but never used. The scan returns records without paths, as the code does.
- JavaScript values and `===`: field values are the datatype `Value` (booleans, integers, strings, null) with structural equality. Floating point, `NaN`, objects compared by identity, and properties inherited through the prototype chain (which the `in` operator also sees) are not modelled.
- The criterion object of `setUnlockedByKey` is a `map` from field names to values. `Object.keys`/`Object.values` become the map's size and its one entry. A criterion with no key fails with the same error as one with several (`MultipleKeys`), as in the code.
- Path indices are integers. Fractional indices, which read `undefined` in JavaScript and fail with a missing index, are not modelled.
- `path.shift()` (src/index.ts:19) removes the root marker from the caller's own array. The model treats the path as an immutable sequence, so that change to the caller's array is not modelled.
- In-place writes and aliasing: the tree is held by value, and a write replaces it with the tree in which one flag differs. Subtrees shared between several parents, or with the caller's other objects, are not modelled.
- Exception messages are replaced by the `Error` datatype (`InvalidPath`, `OutOfBounds`, `TooLong`, `MultipleKeys`, `NotFound`).
- The demo tree, the driver calls and the console output (src/index.ts:149-174) are example scaffolding and I/O, and are not modelled.
