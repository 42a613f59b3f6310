# Romanov genealogy tree builder — a Dafny model

This project models the algorithmic core of `src/components/romanov-tree.ts`
from the GenealogyTree application. That core turns a genealogy into the
`TTree` that a tree component draws. It has three parts:

- **The store** (`Genealogy`). Person and marriage records are kept in
  insertion order. Their ids come from two counters that start at 0. Lookups
  return the first record with an id and throw when there is none. Two
  filter queries return the children of a marriage and the marriages of a
  person.
- **The generation walker** (`iterateOverGenealogy` and its helpers inside
  `createFullTreeStructure`). It is a depth-first walk from a start person
  over parent, sibling, spouse and child edges. It files every person it
  meets under a signed generation number, with parents one generation up and
  children one down. It also records the marriages of every person and the
  children of every marriage. Its only cycle guards are two markers: the
  parents' marriage it just came down from, and the marriage it just
  crossed.
- **The tree assembler** (`createTreeWithAllNodes` and its helpers). It
  sorts the generations and grows the tree level by level, starting from the
  lowest generation number. Under the root, and under every marriage node
  whose marriage has an entry in `childsMap`, it hangs a row of person
  nodes. The row holds the marriage's children, each expanded to the group
  of spouses reachable from that child over marriages. The row is centred
  on a middle node, and that middle node carries the marriage nodes of the
  next level. A marriage node without a `childsMap` entry stays without
  children.

Files:

- `optional.dfy`: the `Option` type.
- `store.dfy` (module `Store`): the records, the id counter and the
  `Genealogy` class. The lookups are functions over the record lists, and
  lemmas state what they return.
- `tree.dfy` (module `TreeNodes`): the `TTree` node. It is a class because
  the builder links a node into its parent first and assigns its `children`
  afterwards.
- `walker.dfy` (module `GenerationWalk`): the walker as a class whose fields
  are `generationsMap`, `marriagesMap`, `childsMap` and the two generation
  bounds. It also holds `Expand`, a function giving the direct recursive
  calls of one step, and the lemmas stating the edge rule about `Expand`.
- `assembler.dfy` (module `TreeAssembly`): the sort, the centring law, the
  marriage-group walk (`MarriageWalk`, a function that follows
  `iterateOverMarriages` step by step), the per-marriage step, the level loop and the entry
  point `CreateFullTreeStructure`.

How the model maps the source:

- **Thrown exceptions become values.** A `getPerson` or `getRelation` that
  throws becomes `Err(PersonNotFound(id))` or `Err(RelationNotFound(id))`
  (or `Failed(...)` for a method run for its effects). The error stops
  everything after it, as the throw does.
- **The walk has a fuel bound.** Its recursion is not guaranteed to end,
  for example when cousins marry. Every call therefore takes a `fuel` bound,
  and a call with no fuel left fails with `OutOfFuel`.
- **A generation bucket is a sequence.** Each bucket is a JavaScript `Map`
  from person id to person. It is modelled as its entries in insertion
  order: `set` on an existing id replaces that entry where it stands, and a
  new id is appended.
- **Shared mutable arguments become returned values.** `touchedPersons` is a
  field of the `TreeBuilder` class. The arrays that `iterateOverMarriages`
  pushes onto are modelled by returning what it pushes. The caller appends
  the result, which has the same effect.
- **The lookup of `generations[1]` is kept as an error.** It sits at
  `src/components/romanov-tree.ts:590` and its result is never used.
  However, it throws when the walk filed fewer than two generations.
  `CreateFullTreeStructure` therefore returns `Err(MissingGeneration(1))` in
  that case.
- **The start row is the lowest generation.** After the ascending sort,
  `generations[0]` is the lowest generation number, not generation 0. The
  model follows the code here.

## Model

| member | source | states |
|---|---|---|
| TreeNodes.TreeNode.constructor | src/components/tree.ts:1-9 | a node carries the given name, type and flags, and has no children yet |
| Store.IdGenerator.constructor | src/components/romanov-tree.ts:18-19 | the counter starts at the given value |
| Store.IdGenerator.Next | src/components/romanov-tree.ts:18-22 | returns the counter's value and then increments it by one |
| Store.WithDefaults | src/components/romanov-tree.ts:32-37 | a new person gets the next id, name `""` and no parents' marriage, and every field supplied in the config (the id included) overrides its default |
| Store.Genealogy.constructor | src/components/romanov-tree.ts:25-29 | empty lists, both counters at 0, ids sequential |
| Store.Genealogy.AddPerson | src/components/romanov-tree.ts:31-40 | the person built from the config and the person counter is appended; the person counter advances by one; relations and the relation counter are unchanged; ids stay sequential when no id is supplied; a person with a new id is what `getPerson` then finds |
| Store.Genealogy.AddRelation | src/components/romanov-tree.ts:42-51 | the marriage between the two persons, under the next relation id, is appended; persons and the person counter are unchanged; ids stay sequential; `getRelation` then finds it |
| Store.PersonByIdFinds | src/components/romanov-tree.ts:53-59 | `getPerson` succeeds exactly when some person has the id; it then returns the first such person in insertion order; otherwise it throws "not found" for that id |
| Store.PersonByIdMember | src/components/romanov-tree.ts:53-59 | a found person is a stored person with the requested id; a failure names the requested id |
| Store.PersonByIdAppend | src/components/romanov-tree.ts:31-40 | after a person with a fresh id is appended, `getPerson` returns that person |
| Store.RelationByIdFinds | src/components/romanov-tree.ts:65-71 | `getRelation` succeeds exactly when some relation has the id; it then returns the first such relation; otherwise it throws "not found" for that id |
| Store.RelationByIdMember | src/components/romanov-tree.ts:65-71 | a found relation is a stored relation with the requested id; a failure names the requested id |
| Store.RelationByIdAppend | src/components/romanov-tree.ts:42-51 | after a relation with a fresh id is appended, `getRelation` returns that relation |
| Store.PersonsByParentRelationIdKeeps | src/components/romanov-tree.ts:61-63 | the result holds exactly the persons whose parents' marriage is the given one, each as often as it is stored, in insertion order (a subsequence of the store) |
| Store.RelationsByPersonIdKeeps | src/components/romanov-tree.ts:73-77 | the result holds exactly the relations the person is a party of (first or second), each as often as it is stored, in insertion order |
| Store.SequentialLookup | src/components/romanov-tree.ts:31-71 | when every id came from the counters, looking up id `k` returns the `k`-th record added, and every other id throws |
| GenerationWalk.SetByIdKeepsKeysUnique | src/components/romanov-tree.ts:324-339 | `Map.set` on a bucket with unique ids: the entry with the person's id is overwritten where it stands, or the person is appended when no entry has that id; ids stay unique and gain the person's id; other entries are unchanged |
| GenerationWalk.AddMarriageKeepsWellFormed | src/components/romanov-tree.ts:351-369 | recording a marriage under both parties keeps the marriage lists consistent: every listed marriage involves its person and is listed under both of its parties |
| GenerationWalk.AddMarriageFound | src/components/romanov-tree.ts:362-367 | recording a marriage whose two parties `getPerson` finds adds to `marriagesMap` only keys that `getPerson` finds |
| GenerationWalk.PartiesFound | src/components/romanov-tree.ts:459-467 | when the current person and the other party of one of its marriages are both found, both parties of that marriage are found |
| GenerationWalk.RecordedKeysFound | src/components/romanov-tree.ts:415-482 | a marriage recorded with both parties findable, followed by calls that add only findable keys, adds only findable keys to `marriagesMap` |
| GenerationWalk.FilteredMarriagesKeeps | src/components/romanov-tree.ts:455-457 | the filtered marriages are exactly the person's marriages other than `previousRelationId` (with no previous relation, all of them), each kept as often as it occurs, in the original order (a subsequence) |
| GenerationWalk.MarriagesOfPerson | src/components/romanov-tree.ts:447-457 | every marriage left after the `previousRelationId` filter has the current person as a party |
| GenerationWalk.OtherThanKeeps | src/components/romanov-tree.ts:433-435 | the siblings filter keeps exactly the children whose id differs from the current person's, each as often as it occurs, in the original order (a subsequence) |
| GenerationWalk.SiblingsKeeps | src/components/romanov-tree.ts:433-435 | the siblings are exactly the stored persons whose parents' marriage is the given one, other than the current person, each as often as it is stored, in insertion order |
| GenerationWalk.MarriageVisitsSnoc | src/components/romanov-tree.ts:459-482 | the calls made over the first `i+1` marriages are those over the first `i` followed by the spouse and children calls of marriage `i` |
| GenerationWalk.VisitsViaMembers | src/components/romanov-tree.ts:436-444 | the `forEach` over siblings or children makes one call per person listed and no other |
| GenerationWalk.MarriageStepMembers | src/components/romanov-tree.ts:459-482 | the calls made for one marriage are the call on the other party at the same generation, then one call per child of the marriage one generation down, each with the marriage as its parents' marriage |
| GenerationWalk.MarriageVisitsMembers | src/components/romanov-tree.ts:459-482 | the calls made over a list of marriages are exactly the calls made for each marriage in it |
| GenerationWalk.ExpandAscent | src/components/romanov-tree.ts:415-431 | a step climbs exactly when the person's `parentsRelationId` is non-null and differs from `previousParentRelationId`; without a climb there are no parent or sibling calls; a climb calls the two parties of the parents' marriage, in order, one generation up, with that marriage as `previousRelationId` |
| GenerationWalk.ExpandSiblings | src/components/romanov-tree.ts:433-444 | on a climb, the sibling calls are one call per sibling in the siblings list's order (the other children of the parents' marriage), each at the person's own generation with that marriage as `previousParentRelationId`, and no other calls |
| GenerationWalk.ExpandMarriages | src/components/romanov-tree.ts:447-482 | the marriage calls are exactly these, for every marriage of the person other than `previousRelationId`: the spouse at the same generation and the children one generation down |
| GenerationWalk.PreviousMarriageNotCrossed | src/components/romanov-tree.ts:455-482 | no marriage call re-crosses `previousRelationId`, either to a spouse or to a child; spouse calls stay at the generation, child calls go one generation down |
| GenerationWalk.GenerationWalker.constructor | src/components/romanov-tree.ts:318-322 | the maps start empty and both generation bounds start at 0 |
| GenerationWalk.GenerationWalker.AddPersonToGeneration | src/components/romanov-tree.ts:324-339 | bucket `g` becomes `Map.set(person.id, person)` of its previous contents (an empty map if it was missing); other buckets are unchanged; the person is filed under `g` |
| GenerationWalk.GenerationWalker.RecalcGenerationsIndexes | src/components/romanov-tree.ts:341-347 | the minimum drops to `g` when `g` is below it; otherwise the maximum rises to `g` when `g` is above it; afterwards `min <= g <= max` |
| GenerationWalk.GenerationWalker.AddMarriageToPerson | src/components/romanov-tree.ts:351-360 | the marriage is appended to the person's list, which is created when missing |
| GenerationWalk.GenerationWalker.AddMarriage | src/components/romanov-tree.ts:362-367 | the marriage is appended to the first party's list, then to the second party's; no list loses an entry, and the marriage is then listed under both parties |
| GenerationWalk.GenerationWalker.AddChild | src/components/romanov-tree.ts:371-387 | nothing happens for a person without a parents' marriage; otherwise the person is appended to that marriage's child list; no list loses an entry |
| GenerationWalk.GenerationWalker.FileVisit | src/components/romanov-tree.ts:406-413 | the generation range is widened to `g`; the person is looked up (failure names its id and leaves the maps unchanged); a found person is `Map.set` into bucket `g`, and appended to its parents' marriage's child list when it has one |
| GenerationWalk.GenerationWalker.Walk | src/components/romanov-tree.ts:389-484 | a step that completes made exactly the direct calls `Expand` gives for the store, and every one of them filed its person; the current person is filed under its generation and in its parents' marriage's child list; the climbed parents' marriage and every crossed marriage are recorded under both parties; a step that completes found its own person and added to `marriagesMap` only keys that `getPerson` finds; a failing lookup fails the step with that lookup's error; the bounds only widen, and filed persons, recorded marriages and child entries are never lost |
| GenerationWalk.GenerationWalker.VisitParents | src/components/romanov-tree.ts:415-445 | the climb looks up the parents' marriage and both parents (each failure names its id); when they succeed, the parents' marriage is recorded under both parties; the parents and then the siblings are visited as `Climb` gives, and each of them is filed; when the climb completes, every key it added to `marriagesMap` is a person `getPerson` finds, the parents being looked up before their marriage is recorded |
| GenerationWalk.GenerationWalker.VisitMarriages | src/components/romanov-tree.ts:459-482 | the `forEach` over the filtered marriages makes, in order, the calls `MarriageVisits` gives; each call files its person, and each marriage is recorded under both parties; when the loop completes for a found person whose marriages these are, every key it added to `marriagesMap` is a person `getPerson` finds |
| GenerationWalk.GenerationWalker.VisitNthMarriage | src/components/romanov-tree.ts:459-482 | one round of that `forEach`: the calls of the first `i+1` marriages are those `MarriageVisits` gives, each files its person, and marriages `0..i` are recorded under both parties; when the round completes for a found person, the keys it added are persons `getPerson` finds |
| GenerationWalk.GenerationWalker.VisitMarriage | src/components/romanov-tree.ts:459-482 | the marriage is recorded under both parties; then the spouse and the children of the marriage are visited, as `MarriageStep` gives, and each of them is filed; when this completes for a found person, the keys it added are persons `getPerson` finds, the spouse being looked up by its own call right after the marriage is recorded |
| GenerationWalk.GenerationWalker.VisitOne | src/components/romanov-tree.ts:424-482 | one recursive call from a `forEach`: when it completes, its person is filed and found, and the keys it added to `marriagesMap` are persons `getPerson` finds; recorded marriages and child entries are never lost |
| GenerationWalk.GenerationWalker.VisitEach | src/components/romanov-tree.ts:424-444 | when the `forEach` completes, every person it visited is filed under the generation of their call, and the keys it added to `marriagesMap` are persons `getPerson` finds |
| TreeAssembly.MinimumExists | src/components/romanov-tree.ts:494-501 | a non-empty set of generation numbers has a least element |
| TreeAssembly.SortStep | src/components/romanov-tree.ts:494-501 | appending the least remaining generation with its bucket keeps the sorted prefix strictly ascending, below every remaining generation, and keeps every generation either sorted or remaining |
| TreeAssembly.SortGenerations | src/components/romanov-tree.ts:494-501 | the entries of `generationsMap`, each exactly once with its bucket, in strictly ascending order of generation number under the source's comparator |
| TreeAssembly.CenteredIsBalanced | src/components/romanov-tree.ts:565-580 | a centred row has odd length; its middle element is the placeholder for an even input and the old middle element for an odd input; removing the inserted placeholder gives back the input in order |
| TreeAssembly.CenteredNames | src/components/romanov-tree.ts:565-580 | centring a row of person nodes centres the row of their names, with `""` as the placeholder's name |
| TreeAssembly.CenterNode | src/components/romanov-tree.ts:565-580 | `getNodesCenterNode` splices the row in place: an even row of length n gets a new `{name:'', type:'person', noParent:true}` node at n/2, which is returned; an odd row is unchanged and its element at n/2 is returned |
| TreeAssembly.PersonToTreeNode | src/components/romanov-tree.ts:558-563 | a new person node with the person's name and no flags or children |
| TreeAssembly.MarriageToTreeNode | src/components/romanov-tree.ts:582-588 | a new marriage node with name `""` and `noParent` set |
| TreeAssembly.PersonsToTreeNodes | src/components/romanov-tree.ts:635 | one new person node per person, in order, carrying the persons' names, all distinct, with no flags or children |
| TreeAssembly.MarriagesToTreeNodes | src/components/romanov-tree.ts:640 | one new marriage node per marriage, in order, all distinct, each named `""` with `noParent` set and no children |
| TreeAssembly.HangRow | src/components/romanov-tree.ts:635-641 | the marriage node's children become the new person nodes of the persons, centred: their names are the persons' names around a `""` placeholder when the count is even, only the placeholder has `noParent` set, all are person nodes; the middle node's children are one new marriage node per new marriage and every other row node has none |
| TreeAssembly.UniqueIdsConcat | src/components/romanov-tree.ts:529-555 | joining two lists with unique ids and disjoint id sets gives unique ids and the union of the ids |
| TreeAssembly.MarriedUniqueAppend | src/components/romanov-tree.ts:603-619 | appending a group whose ids are new keeps every married person at most once in the list |
| TreeAssembly.AttachedAppend | src/components/romanov-tree.ts:529-552 | pushing a marriage and then the group reached through it onto a tree of persons and marriages gives a tree again: each later person is a party of the marriage pushed just before it, and that marriage's other party was pushed earlier |
| TreeAssembly.MarriageWalkCompletes | src/components/romanov-tree.ts:518-556 | the walk from any person and touched set completes when every person with recorded marriages can be looked up: its only failure is `getPerson` at line 539 |
| TreeAssembly.MarriagesFromCompletes | src/components/romanov-tree.ts:543-555 | the `forEach` over a person's marriages, from any marriage on, completes when every person with recorded marriages can be looked up |
| TreeAssembly.DepthFirstExample | src/components/romanov-tree.ts:543-555 | the marriages are read in list order and the walk from a spouse finishes before the next marriage is read: with person 3 married to 1 and then to 2, and 1 married to 2, the walk from 3 pushes persons 3, 1, 2 and the marriages 3–1 and 1–2, and skips 3–2 because 2 was touched through 1 |
| TreeAssembly.MarriageWalkFacts | src/components/romanov-tree.ts:518-556 | what a completed walk from a person and a touched set leaves: the touched set only grows, and only by persons with marriages; a touched or unmarried person pushes nothing; otherwise the pushed persons start with the person, each once as `getPerson` returns it, their ids are exactly the newly touched persons, one fewer marriage is pushed and the marriages join the persons as a tree, every pushed marriage is recorded and joins newly touched persons, and every marriage of a newly touched person leads to a touched person; a failed walk failed on a person lookup |
| TreeAssembly.MarriagesFromFacts | src/components/romanov-tree.ts:543-555 | the same for the `forEach` over the person's marriages, from marriage `i` on, given that the person and the groups of the marriages before `i` have been pushed and that those marriages lead to touched persons |
| TreeAssembly.ContributionOfFacts | src/components/romanov-tree.ts:603-619 | a child's contribution as the `forEach` callback computes it: a touched child contributes nothing and touches nobody, an untouched unmarried child contributes itself alone, and an untouched married child contributes the marriage group `MarriageWalkFacts` states, from the touched set at its turn |
| TreeAssembly.CollectedSnoc | src/components/romanov-tree.ts:603-619 | one child's contribution, taken from the touched set its predecessors left, extends what they contributed: the collected lists stay the in-order concatenation of the contributions; every untouched child is placed (a married one touched, an unmarried one listed); every newly touched person is listed once; every marriage of a newly touched person leads to a touched person |
| TreeAssembly.SnocRow | src/components/romanov-tree.ts:603-619 | after one more child, every untouched child is placed, every newly touched person is listed once, listed unmarried persons are children, and the new marriages join newly touched persons and are closed under marriage |
| TreeAssembly.TurnsGrow | src/components/romanov-tree.ts:662-676 | along one pass of the level loop, the shared `touchedPersons` only grows from one marriage node to the next |
| TreeAssembly.LevelRowsDisjoint | src/components/romanov-tree.ts:662-676 | two rows hung in the same pass share no married person |
| TreeAssembly.LevelPassedSnoc | src/components/romanov-tree.ts:663-676 | one more marriage node handled extends the pass, and the next level's marriages and nodes gain that node's new marriages and marriage nodes at the end |
| TreeAssembly.LevelsPassedSnoc | src/components/romanov-tree.ts:661-682 | a pass over the last level adds the next level: it is the concatenation of what the last level's marriage nodes contributed |
| TreeAssembly.GenerationSnoc | src/components/romanov-tree.ts:661-682 | one more generation keeps the levels passed and the rows hung in every earlier level, and appends the new level and its pass |
| TreeAssembly.TreeBuilder.constructor | src/components/romanov-tree.ts:646-648 | the builder starts with the walk's marriage and child maps and an empty `touchedPersons` |
| TreeAssembly.TreeBuilder.IterateOverMarriages | src/components/romanov-tree.ts:518-556 | the persons and marriages pushed and the touched set afterwards are exactly what `MarriageWalk` gives: a touched person, or one with no recorded marriages, is a no-op; otherwise the person is touched and pushed, then its marriages are read in list order, and a marriage whose other party is still untouched is pushed and followed by the walk from that party before the next marriage is read; a failure is that walk's failure, a "person not found"; in consequence (`MarriageWalkFacts`) the pushed persons form the person's marriage group, joined as a tree by the pushed marriages and closed under marriage; when every person with recorded marriages can be looked up, it completes |
| TreeAssembly.TreeBuilder.ChildStep | src/components/romanov-tree.ts:603-619 | the child's contribution and the touched set afterwards are exactly `ChildContribution`: a child touched at its turn contributes nothing and touches nobody; otherwise the walk from the child runs as `MarriageWalk` gives, and the child contributes the persons it pushed, or itself when it pushed none, with the marriages it pushed; a failure is that walk's failure; when every person with recorded marriages can be looked up, it completes |
| TreeAssembly.TreeBuilder.NewPersonsAndMarriages | src/components/romanov-tree.ts:594-623 | the children are handled in order, each from the touched set its predecessors left, and contribute as `ChildStep` states; the new persons and new marriages are the contributions joined in that order; every child untouched at the start is touched afterwards if married, or listed itself otherwise; every newly touched person is listed once; unmarried persons listed are children; new marriages are recorded and join newly touched persons; the newly touched persons are closed under marriage; a failure is "person not found", and when every person with recorded marriages can be looked up, it completes |
| TreeAssembly.TreeBuilder.StepOverMarriage | src/components/romanov-tree.ts:625-644 | the children are collected as `NewPersonsAndMarriages` states; the marriage node's children become the new, centred row of the collected persons, as `HangRow` states; the returned marriage nodes are new, one per new marriage, and are the children of the row's middle node; when every person with recorded marriages can be looked up, it completes |
| TreeAssembly.TreeBuilder.StepOverNode | src/components/romanov-tree.ts:663-676 | one round of the level loop: a marriage without a `childsMap` entry leaves its node alone and contributes nothing; otherwise its node gets its row as `StepOverMarriage` states, collected from the touched set the earlier nodes left; the rows hung under the earlier nodes stay as they are; when every person with recorded marriages can be looked up, it completes |
| TreeAssembly.TreeBuilder.StepOverLevel | src/components/romanov-tree.ts:662-678 | one pass of the level loop: `touchedPersons` starts empty; each marriage node, in order, is handled as `StepOverNode` states from the touched set its predecessors left; every node with a `childsMap` entry carries its centred row and the others stay childless; the next level's marriages and nodes are the concatenation, in order, of what the nodes contributed; the next level's nodes are new, distinct marriage nodes without children; when every person with recorded marriages can be looked up, it completes |
| TreeAssembly.TreeBuilder.StepOverLastLevel | src/components/romanov-tree.ts:661-678 | the level pass as `StepOverLevel` states, after which the rows hung in the earlier levels are unchanged; when every person with recorded marriages can be looked up, it completes |
| TreeAssembly.TreeBuilder.StepOverGeneration | src/components/romanov-tree.ts:661-682 | one round of the generation loop: the levels so far gain the next level, as a pass over the last level gives it; the root's row and the rows of every level passed are unchanged; the next level's nodes are new; when every person with recorded marriages can be looked up, it completes |
| TreeAssembly.TreeBuilder.CreateTreeWithAllNodes | src/components/romanov-tree.ts:646-683 | the root's row is the centred row of the persons collected, from an empty touched set, from the lowest generation; one level per generation, the first being the marriages collected with the root's row; each further level is what a pass of the level loop over the level before gives; every marriage node with a `childsMap` entry carries its centred row with the next level's nodes under its middle, every other node and every node of the last level has no children; a failure is "person not found", and when every person with recorded marriages can be looked up, it completes |
| TreeAssembly.CreateFullTreeStructure | src/components/romanov-tree.ts:318-719 | a failed walk fails the build with its error (a missing start person with "person not found"); after a walk that completes, its first step made exactly the calls `Expand` gives for the store from the start person at generation 0, each of them filed, generation 0 holds the start person, and every person with recorded marriages can be looked up; the generations are sorted ascending, each once with its bucket; fewer than two generations fail with the lookup of `generations[1]`, and otherwise the build succeeds, returning a new hidden, unnamed root that carries the tree `CreateTreeWithAllNodes` states for the walk's records and the sorted generations |
| TreeAssembly.AssembleTree | src/components/romanov-tree.ts:512-683 | a new hidden, unnamed root, then `createTreeWithAllNodes` over the walk's records: the build fails only with "person not found", and never when every person with recorded marriages can be looked up; on success the root carries the tree `CreateTreeWithAllNodes` states |

## Left out

- **Sample data.** The Romanov records (`src/components/romanov-tree.ts:80-237`) and the module-level call that exports `romanovTreeStructure` are static input. They are not modelled.
- **Dead draft.** `createTreeStructure`, `createTreeNodeFromPerson` and `createTreeMarriageNodeFromRelation` (`src/components/romanov-tree.ts:243-314`) are never reached and are not modelled.
- **Commented-out code.** The blocks at `src/components/romanov-tree.ts:503-510` and `687-717` are not modelled.
- **Unused result at line 590.** `personsInGenerationWithoutParents` (`src/components/romanov-tree.ts:590-592`) is computed and never used. Only its failing index is kept, as `MissingGeneration(1)`.
- **Files outside the core.** `src/components/tree.ts` is modelled only as the `TreeNode` class. `app/components/romanov-tree-prepared.ts`, the Nuxt plugin and middleware, and the build and lint configuration have no logic to model.
- **Node fields.** `TTree`'s `id` and `data` fields are never set by the builder and are left out.
- **Object identity.** Person and relation records are values here. The source shares one object between the store, the buckets and the child lists. The builder never mutates these objects, so this changes nothing.
- **Config keys set to `undefined`.** A `Partial<TPerson>` key that is present but explicitly `undefined` overrides the default in the source. The model treats such a key as absent.
- **Sort algorithm.** `Array.prototype.sort`'s own algorithm is not modelled. `SortGenerations` yields the same result, because the generation numbers are distinct keys.
- GenerationWalk.GenerationWalker.Walk: the walk is bounded by `fuel`, because the source's recursion need not terminate. A run that the source would finish can fail here with `OutOfFuel` when the fuel is too small.
- GenerationWalk.GenerationWalker.Walk: it states the calls one step makes, and that every call it makes files its person and records the marriages it crosses. There is no closed-form description of the full set a whole walk reaches.
- GenerationWalk.GenerationWalker.Walk: the walker reads the store's record lists as they were when it was created. The source reads the live store, which nothing changes during the walk.
- GenerationWalk.GenerationWalker.Walk: when a lookup throws midway, the maps keep what was recorded before the throw, as in the source. Nothing is stated about that partial state.
- TreeAssembly.TreeBuilder.CreateTreeWithAllNodes: the tree is stated level by level, as the record of what each pass did. There is no closed-form description of the whole tree as a function of the genealogy. The freshness of the row nodes is stated per call (`StepOverMarriage`), not for the finished tree.
- TreeAssembly.TreeBuilder.StepOverLevel: `touchedPersons` after a pass is stated through the pass record, not as a field value.
