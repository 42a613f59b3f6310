/**
 * The tree assembler of `createFullTreeStructure`
 * (src/components/romanov-tree.ts): the generations the walk filed are
 * sorted, and the `TTree` is grown level by level from the lowest
 * generation down. Each level hangs, under every marriage node of the level
 * before, the persons reachable from that marriage's children over
 * marriages, centred around a middle node that carries the next level's
 * marriage nodes.
 */
module TreeAssembly {
  import opened Optional
  import opened Store
  import opened GenerationWalk
  import opened TreeNodes

  // ---------------------------------------------------------------------
  // Sorting the generations

  /** The comparator of the generation sort: ascending generation number. */
  function CompareGenerations(a: int, b: int): int
  {
    if a > b then 1 else if a < b then -1 else 0
  }

  ghost predicate SortedByKey(entries: seq<(int, seq<Person>)>)
  {
    forall i, j :: 0 <= i < j < |entries| ==> CompareGenerations(entries[i].0, entries[j].0) < 0
  }

  /** A non-empty finite set of generation numbers has a least element. */
  lemma {:induction false} MinimumExists(s: set<int>)
    requires s != {}
    ensures exists k :: k in s && forall j :: j in s ==> k <= j
    decreases |s|
  {
    if forall y :: y !in s {
      assert false;
    }
    var x :| x in s;
    if s != {x} {
      var rest := s - {x};
      MinimumExists(rest);
      var k :| k in rest && forall j :: j in rest ==> k <= j;
      var least := if x < k then x else k;
      forall j | j in s
        ensures least <= j
      {
        if j != x {
          assert j in rest;
        }
      }
      assert least in s;
    } else {
      assert forall j :: j in s ==> x <= j;
    }
  }

  /** `sorted` holds, in ascending order, the generations taken out of
      `remaining` so far, each with its bucket, all below the ones left. */
  ghost predicate SortProgress(generations: map<int, seq<Person>>, sorted: seq<(int, seq<Person>)>, remaining: set<int>)
  {
    && remaining <= generations.Keys
    && |sorted| + |remaining| == |generations|
    && SortedByKey(sorted)
    && (forall i :: 0 <= i < |sorted| ==> sorted[i].0 in generations && sorted[i].1 == generations[sorted[i].0])
    && (forall i, k :: 0 <= i < |sorted| && k in remaining ==> sorted[i].0 < k)
    && (forall k :: k in generations ==> k in remaining || exists i :: 0 <= i < |sorted| && sorted[i].0 == k)
  }

  /** Taking the least remaining generation out keeps the sort's progress. */
  lemma {:induction false} SortStep(generations: map<int, seq<Person>>, sorted: seq<(int, seq<Person>)>, remaining: set<int>, k: int)
    requires SortProgress(generations, sorted, remaining)
    requires k in remaining && forall j :: j in remaining ==> k <= j
    ensures SortProgress(generations, sorted + [(k, generations[k])], remaining - {k})
  {
    var next := sorted + [(k, generations[k])];
    forall key | key in generations
      ensures key in remaining - {k} || exists i :: 0 <= i < |next| && next[i].0 == key
    {
      if key == k {
        assert next[|next| - 1].0 == key;
      } else if key !in remaining {
        var i :| 0 <= i < |sorted| && sorted[i].0 == key;
        assert next[i].0 == key;
      }
    }
    forall i, j | 0 <= i < j < |next|
      ensures CompareGenerations(next[i].0, next[j].0) < 0
    {
      if j == |sorted| {
        assert next[i] == sorted[i];
      }
    }
  }

  /** `Array.from(generationsMap.entries()).sort(...)`: every filed
      generation exactly once, with its bucket, in ascending order of
      generation number. */
  method SortGenerations(generations: map<int, seq<Person>>) returns (sorted: seq<(int, seq<Person>)>)
    ensures |sorted| == |generations|
    ensures SortedByKey(sorted)
    ensures forall i :: 0 <= i < |sorted| ==> sorted[i].0 in generations && sorted[i].1 == generations[sorted[i].0]
    ensures forall k :: k in generations ==> exists i :: 0 <= i < |sorted| && sorted[i].0 == k
  {
    sorted := [];
    var remaining := generations.Keys;
    while remaining != {}
      invariant SortProgress(generations, sorted, remaining)
      decreases |remaining|
    {
      MinimumExists(remaining);
      var k :| k in remaining && forall j :: j in remaining ==> k <= j;
      SortStep(generations, sorted, remaining, k);
      sorted := sorted + [(k, generations[k])];
      remaining := remaining - {k};
    }
  }

  // ---------------------------------------------------------------------
  // Centring a row of nodes

  /** The row `getNodesCenterNode` leaves behind: a row of even length gets
      `placeholder` inserted at the middle, a row of odd length is kept. */
  function Centered<T>(nodes: seq<T>, placeholder: T): seq<T>
  {
    if |nodes| % 2 == 0 then nodes[..|nodes| / 2] + [placeholder] + nodes[|nodes| / 2..] else nodes
  }

  /** The node `getNodesCenterNode` returns. */
  function CenterOf<T>(nodes: seq<T>, placeholder: T): T
  {
    if |nodes| % 2 == 0 then placeholder else nodes[|nodes| / 2]
  }

  /** A centred row has odd length and the centre node sits in its middle,
      with as many nodes before as after it; the placeholder is inserted
      without disturbing the order of the other nodes. */
  lemma CenteredIsBalanced<T>(nodes: seq<T>, placeholder: T)
    ensures |Centered(nodes, placeholder)| % 2 == 1
    ensures |Centered(nodes, placeholder)| == if |nodes| % 2 == 0 then |nodes| + 1 else |nodes|
    ensures Centered(nodes, placeholder)[|Centered(nodes, placeholder)| / 2] == CenterOf(nodes, placeholder)
    ensures |nodes| % 2 == 0 ==>
      Centered(nodes, placeholder)[..|nodes| / 2] + Centered(nodes, placeholder)[|nodes| / 2 + 1..] == nodes
  {
    if |nodes| % 2 == 0 {
      var r := Centered(nodes, placeholder);
      assert r[..|nodes| / 2] == nodes[..|nodes| / 2];
      assert r[|nodes| / 2 + 1..] == nodes[|nodes| / 2..];
      assert nodes[..|nodes| / 2] + nodes[|nodes| / 2..] == nodes;
    }
  }

  /** Centring a row of person nodes centres the row of their names, the
      placeholder's name being empty. */
  lemma CenteredNames(nodes: seq<TreeNode>, center: TreeNode, ps: seq<Person>)
    requires Names(nodes) == PersonNames(ps)
    requires |nodes| % 2 == 0 ==> center.name == ""
    ensures Names(Centered(nodes, center)) == Centered(PersonNames(ps), "")
  {
    var r := Centered(nodes, center);
    var h := |nodes| / 2;
    assert |Names(nodes)| == |nodes| && |PersonNames(ps)| == |ps|;
    if |nodes| % 2 == 0 {
      forall k | 0 <= k < |r| ensures Names(r)[k] == Centered(PersonNames(ps), "")[k] {
        if k < h {
          assert r[k] == nodes[k];
          assert Names(nodes)[k] == nodes[k].name;
        } else if k > h {
          assert r[k] == nodes[k - 1];
          assert Names(nodes)[k - 1] == nodes[k - 1].name;
        }
      }
    }
  }

  /** `getNodesCenterNode` applied to the child row of `node`, which it
      changes in place with `splice`. */
  method CenterNode(node: TreeNode) returns (center: TreeNode)
    requires node.children.Some?
    modifies node`children
    ensures node.children == Some(Centered(old(node.children.value), center))
    ensures center == CenterOf(old(node.children.value), center)
    ensures |old(node.children.value)| % 2 == 0 ==>
      && fresh(center) && center.name == "" && center.nodeType == PersonNode
      && center.hidden == None && center.noParent == Some(true) && center.children == None
  {
    var nodes := node.children.value;
    var centerIndex := |nodes| / 2;
    if |nodes| % 2 == 0 {
      center := new TreeNode("", PersonNode, None, Some(true));
      node.children := Some(nodes[..centerIndex] + [center] + nodes[centerIndex..]);
    } else {
      center := nodes[centerIndex];
    }
  }

  // ---------------------------------------------------------------------
  // Mapping records to nodes

  /** `mapPersonToTreeNode`. */
  method PersonToTreeNode(person: Person) returns (node: TreeNode)
    ensures fresh(node) && node.name == person.name && node.nodeType == PersonNode
    ensures node.hidden == None && node.noParent == None && node.children == None
  {
    node := new TreeNode(person.name, PersonNode, None, None);
  }

  /** `mapMarriageToTreeNode`: the marriage itself leaves no trace on its node. */
  method MarriageToTreeNode(marriage: Relation) returns (node: TreeNode)
    ensures fresh(node) && node.name == "" && node.nodeType == MarriageNode
    ensures node.hidden == None && node.noParent == Some(true) && node.children == None
  {
    node := new TreeNode("", MarriageNode, None, Some(true));
  }

  function PersonNames(ps: seq<Person>): seq<string>
  {
    seq(|ps|, i requires 0 <= i < |ps| => ps[i].name)
  }

  /** `newPersons.map(mapPersonToTreeNode)`. */
  method PersonsToTreeNodes(ps: seq<Person>) returns (nodes: seq<TreeNode>)
    ensures |nodes| == |ps| && Names(nodes) == PersonNames(ps)
    ensures forall i :: 0 <= i < |nodes| ==>
      && fresh(nodes[i]) && nodes[i].nodeType == PersonNode
      && nodes[i].hidden == None && nodes[i].noParent == None && nodes[i].children == None
    ensures forall i, j :: 0 <= i < j < |nodes| ==> nodes[i] != nodes[j]
  {
    nodes := [];
    for i := 0 to |ps|
      invariant |nodes| == i
      invariant forall j :: 0 <= j < i ==>
        && fresh(nodes[j]) && nodes[j].name == ps[j].name && nodes[j].nodeType == PersonNode
        && nodes[j].hidden == None && nodes[j].noParent == None && nodes[j].children == None
      invariant forall j, k :: 0 <= j < k < i ==> nodes[j] != nodes[k]
    {
      var node := PersonToTreeNode(ps[i]);
      nodes := nodes + [node];
    }
    assert forall j :: 0 <= j < |nodes| ==> Names(nodes)[j] == PersonNames(ps)[j];
  }

  /** `newMarriages.map(mapMarriageToTreeNode)`. */
  method MarriagesToTreeNodes(ms: seq<Relation>) returns (nodes: seq<TreeNode>)
    ensures |nodes| == |ms| && MarriageNodes(nodes) && Childless(nodes)
    ensures forall i :: 0 <= i < |nodes| ==> fresh(nodes[i])
  {
    nodes := [];
    for i := 0 to |ms|
      invariant |nodes| == i && MarriageNodes(nodes) && Childless(nodes)
      invariant forall j :: 0 <= j < i ==> fresh(nodes[j])
    {
      var node := MarriageToTreeNode(ms[i]);
      nodes := nodes + [node];
    }
  }

  /** Marriage nodes as `mapMarriageToTreeNode` makes them, no node listed
      twice. */
  ghost predicate MarriageNodes(nodes: seq<TreeNode>)
  {
    && (forall k :: 0 <= k < |nodes| ==> MarriageNodeKind(nodes[k]))
    && (forall a, b :: 0 <= a < b < |nodes| ==> nodes[a] != nodes[b])
  }

  /** No node of the list has children yet. */
  ghost predicate Childless(nodes: seq<TreeNode>)
    reads nodes
  {
    forall k :: 0 <= k < |nodes| ==> nodes[k].children == None
  }

  /** The fields `mapMarriageToTreeNode` fixes for good. */
  predicate MarriageNodeKind(node: TreeNode)
  {
    node.name == "" && node.nodeType == MarriageNode && node.hidden == None && node.noParent == Some(true)
  }

  /** A child row as `stepOverMarriage` builds it for the persons `ps`: one
      person node per person, in order, with an unnamed placeholder spliced
      in at the middle when their number is even; only the placeholder has
      `noParent` set. */
  ghost predicate PersonRow(row: seq<TreeNode>, ps: seq<Person>)
  {
    && |row| == (if |ps| % 2 == 0 then |ps| + 1 else |ps|)
    && Names(row) == Centered(PersonNames(ps), "")
    && (forall k :: 0 <= k < |row| ==> row[k].nodeType == PersonNode && row[k].hidden == None)
    && (forall k :: 0 <= k < |row| ==>
          row[k].noParent == if |ps| % 2 == 0 && k == |ps| / 2 then Some(true) else None)
  }

  /** `node` carries the person row of `ps`, whose middle node carries the
      marriage nodes `below` while the others carry nothing. */
  ghost predicate RowHung(node: TreeNode, ps: seq<Person>, below: seq<TreeNode>)
    reads node, if node.children.Some? then node.children.value else []
  {
    && node.children.Some?
    && PersonRow(node.children.value, ps)
    && forall k :: 0 <= k < |node.children.value| ==>
         node.children.value[k].children == if k == |node.children.value| / 2 then Some(below) else None
  }

  lemma CenteredAt<T>(nodes: seq<T>, placeholder: T, k: int)
    requires 0 <= k < |Centered(nodes, placeholder)|
    ensures Centered(nodes, placeholder)[k] ==
      if |nodes| % 2 == 1 || k < |nodes| / 2 then nodes[k]
      else if k == |nodes| / 2 then placeholder
      else nodes[k - 1]
  {
  }

  /** Lines 634-641 of `stepOverMarriage`: the nodes of `newPersons` become
      the centred child row of `marriageNode`, and the middle of that row
      gets one marriage node per new marriage, in order. */
  method HangRow(marriageNode: TreeNode, newPersons: seq<Person>, newMarriages: seq<Relation>)
    returns (newMarriagesNodes: seq<TreeNode>)
    modifies marriageNode`children
    ensures RowHung(marriageNode, newPersons, newMarriagesNodes)
    ensures forall n :: n in marriageNode.children.value ==> fresh(n)
    ensures |newMarriagesNodes| == |newMarriages| && MarriageNodes(newMarriagesNodes) && Childless(newMarriagesNodes)
    ensures forall n :: n in newMarriagesNodes ==> fresh(n)
  {
    var newPersonsNodes := PersonsToTreeNodes(newPersons);
    marriageNode.children := Some(newPersonsNodes);
    var personsMiddleNode := CenterNode(marriageNode);
    ghost var row := marriageNode.children.value;
    CenteredIsBalanced(newPersonsNodes, personsMiddleNode);
    CenteredNames(newPersonsNodes, personsMiddleNode, newPersons);
    newMarriagesNodes := MarriagesToTreeNodes(newMarriages);
    ghost var h := |row| / 2;
    forall k | 0 <= k < |row|
      ensures row[k].nodeType == PersonNode && row[k].hidden == None
      ensures row[k].noParent == if |newPersons| % 2 == 0 && k == |newPersons| / 2 then Some(true) else None
      ensures fresh(row[k]) && (k != h ==> row[k] != personsMiddleNode && row[k].children == None)
    {
      CenteredAt(newPersonsNodes, personsMiddleNode, k);
    }
    personsMiddleNode.children := Some(newMarriagesNodes);
    assert row[h] == personsMiddleNode;
  }

  // ---------------------------------------------------------------------
  // Marriage components

  /** The person has a non-empty list of marriages met by the walk. */
  predicate HasMarriages(marriages: map<int, seq<Relation>>, personId: int)
  {
    personId in marriages && marriages[personId] != []
  }

  /** No id of a person with marriages occurs twice in the list. */
  ghost predicate MarriedUnique(marriages: map<int, seq<Relation>>, ps: seq<Person>)
  {
    forall i, j :: 0 <= i < j < |ps| && HasMarriages(marriages, ps[i].id) ==> ps[i].id != ps[j].id
  }

  lemma UniqueIdsConcat(a: seq<Person>, b: seq<Person>)
    requires UniqueIds(a) && UniqueIds(b) && Ids(a) !! Ids(b)
    ensures UniqueIds(a + b) && Ids(a + b) == Ids(a) + Ids(b)
  {
    IdsConcat(a, b);
    forall i, j | 0 <= i < |a| <= j < |a + b|
      ensures (a + b)[i].id != (a + b)[j].id
    {
      assert (a + b)[i].id in Ids(a);
      assert (a + b)[j] == b[j - |a|];
      assert (a + b)[j].id in Ids(b);
    }
  }

  /** Appending a list without repeated ids whose ids are new keeps the
      married persons of a list free of repeats. */
  lemma MarriedUniqueAppend(marriages: map<int, seq<Relation>>, a: seq<Person>, b: seq<Person>)
    requires MarriedUnique(marriages, a) && MarriedUnique(marriages, b)
    requires forall q :: q in a && HasMarriages(marriages, q.id) ==> q.id !in Ids(b)
    ensures MarriedUnique(marriages, a + b)
  {
    forall i, j | 0 <= i < |a| <= j < |a + b| && HasMarriages(marriages, (a + b)[i].id)
      ensures (a + b)[i].id != (a + b)[j].id
    {
      assert a[i] in a;
      assert (a + b)[j] == b[j - |a|];
      assert b[j - |a|] in b;
    }
  }

  /** The pushed marriages join the pushed persons as a tree rooted at the
      first person: the person at position `k > 0` is a party of marriage
      `k - 1`, whose other party was pushed before it. */
  ghost predicate Attached(ms: seq<Relation>, ps: seq<Person>)
  {
    forall k :: 0 < k < |ps| && k <= |ms| ==>
      IsParty(ms[k - 1], ps[k].id) && Other(ms[k - 1], ps[k].id) in Ids(ps[..k])
  }

  /** A group attached to a person already in the tree, through the
      marriage that reached it, extends the tree. */
  lemma {:induction false} AttachedAppend(ms: seq<Relation>, ps: seq<Person>, marriage: Relation, subMs: seq<Relation>, subPs: seq<Person>)
    requires |ps| == |ms| + 1 && |subPs| == |subMs| + 1
    requires Attached(ms, ps) && Attached(subMs, subPs)
    requires IsParty(marriage, subPs[0].id) && Other(marriage, subPs[0].id) in Ids(ps)
    ensures Attached(ms + [marriage] + subMs, ps + subPs)
  {
    var allMs, allPs := ms + [marriage] + subMs, ps + subPs;
    forall k | 0 < k < |allPs| && k <= |allMs|
      ensures IsParty(allMs[k - 1], allPs[k].id) && Other(allMs[k - 1], allPs[k].id) in Ids(allPs[..k])
    {
      if k < |ps| {
        assert allMs[k - 1] == ms[k - 1] && allPs[k] == ps[k];
        assert allPs[..k] == ps[..k];
      } else {
        AttachedAppendNew(ms, ps, marriage, subMs, subPs, k - |ps|);
      }
    }
  }

  /** The appended part of `AttachedAppend`, position `|ps| + t`. */
  lemma {:induction false} AttachedAppendNew(ms: seq<Relation>, ps: seq<Person>, marriage: Relation, subMs: seq<Relation>, subPs: seq<Person>, t: nat)
    requires |ps| == |ms| + 1 && |subPs| == |subMs| + 1 && t < |subPs|
    requires Attached(subMs, subPs)
    requires IsParty(marriage, subPs[0].id) && Other(marriage, subPs[0].id) in Ids(ps)
    ensures IsParty((ms + [marriage] + subMs)[|ps| + t - 1], (ps + subPs)[|ps| + t].id)
    ensures Other((ms + [marriage] + subMs)[|ps| + t - 1], (ps + subPs)[|ps| + t].id) in Ids((ps + subPs)[..|ps| + t])
  {
    var allMs, allPs, k := ms + [marriage] + subMs, ps + subPs, |ps| + t;
    assert allPs[k] == subPs[t];
    assert allPs[..k] == ps + subPs[..t];
    IdsConcat(ps, subPs[..t]);
    if t == 0 {
      assert allMs[k - 1] == marriage;
    } else {
      AttachedLater(ms, marriage, subMs, subPs, t);
    }
  }

  lemma {:induction false} AttachedLater(ms: seq<Relation>, marriage: Relation, subMs: seq<Relation>, subPs: seq<Person>, t: nat)
    requires |subPs| == |subMs| + 1 && 0 < t < |subPs|
    requires Attached(subMs, subPs)
    ensures (ms + [marriage] + subMs)[|ms| + t] == subMs[t - 1]
    ensures IsParty(subMs[t - 1], subPs[t].id) && Other(subMs[t - 1], subPs[t].id) in Ids(subPs[..t])
  {
    AttachedAt(subMs, subPs, t);
  }

  lemma {:induction false} AttachedAt(ms: seq<Relation>, ps: seq<Person>, k: nat)
    requires Attached(ms, ps) && 0 < k < |ps| && k <= |ms|
    ensures IsParty(ms[k - 1], ps[k].id) && Other(ms[k - 1], ps[k].id) in Ids(ps[..k])
  {
  }

  /** The lists of a list, joined in order. */
  function Flatten<T>(ss: seq<seq<T>>): seq<T>
    decreases |ss|
  {
    if ss == [] then [] else Flatten(ss[..|ss| - 1]) + ss[|ss| - 1]
  }

  lemma FlattenSnoc<T>(ss: seq<seq<T>>, s: seq<T>)
    ensures Flatten(ss + [s]) == Flatten(ss) + s
  {
    assert (ss + [s])[..|ss|] == ss;
  }

  // ---------------------------------------------------------------------
  // The marriage walk as a function

  /** What one `iterateOverMarriages` call leaves behind: `touchedPersons`
      after it, and what it pushed onto `resultMarriages` and
      `resultPersons`, in order. */
  datatype Pushed = Pushed(touched: set<int>, marriages: seq<Relation>, persons: seq<Person>)

  /** `iterateOverMarriages` from `personId` with `touched` as
      `touchedPersons`: nothing when the person is touched or has no
      marriages; otherwise the person is touched, looked up (a failed lookup
      ends the walk) and pushed, and its marriages are followed in list
      order as `MarriagesFrom` says. */
  function MarriageWalk(marriages: map<int, seq<Relation>>, persons: seq<Person>, personId: int, touched: set<int>): (r: Result<Pushed>)
    ensures r.Ok? ==> touched <= r.value.touched
    decreases marriages.Keys - touched, 0, 0
  {
    if personId in touched || !HasMarriages(marriages, personId) then Ok(Pushed(touched, [], []))
    else match PersonById(persons, personId)
      case Err(e) => Err(e)
      case Ok(person) => MarriagesFrom(marriages, persons, personId, marriages[personId], 0, Pushed(touched + {personId}, [], [person]))
  }

  /** The `forEach` of `iterateOverMarriages` from marriage `i` of the
      person's list on, `acc` being the touched set and what was pushed
      before marriage `i`: a marriage whose other party is touched is
      skipped; otherwise the marriage is pushed and the walk from the other
      party runs to its end before the next marriage is looked at. */
  function MarriagesFrom(marriages: map<int, seq<Relation>>, persons: seq<Person>, personId: int,
                         personMarriages: seq<Relation>, i: nat, acc: Pushed): (r: Result<Pushed>)
    requires i <= |personMarriages|
    ensures r.Ok? ==> acc.touched <= r.value.touched
    decreases marriages.Keys - acc.touched, 1, |personMarriages| - i
  {
    if i == |personMarriages| then Ok(acc)
    else
      var marriage := personMarriages[i];
      var anotherPersonId := Other(marriage, personId);
      if anotherPersonId in acc.touched then MarriagesFrom(marriages, persons, personId, personMarriages, i + 1, acc)
      else match MarriageWalk(marriages, persons, anotherPersonId, acc.touched)
        case Err(e) => Err(e)
        case Ok(sub) =>
          MarriagesFrom(marriages, persons, personId, personMarriages, i + 1,
                        Pushed(sub.touched, acc.marriages + [marriage] + sub.marriages, acc.persons + sub.persons))
  }

  /** The walk fails only on a lookup: when every person with marriages
      can be looked up, it completes. */
  lemma {:induction false} MarriageWalkCompletes(marriages: map<int, seq<Relation>>, persons: seq<Person>, personId: int, touched: set<int>)
    requires KeysFound(persons, marriages)
    ensures MarriageWalk(marriages, persons, personId, touched).Ok?
    decreases marriages.Keys - touched, 0, 0
  {
    if personId !in touched && HasMarriages(marriages, personId) {
      var person := PersonById(persons, personId).value;
      MarriagesFromCompletes(marriages, persons, personId, marriages[personId], 0, Pushed(touched + {personId}, [], [person]));
    }
  }

  lemma {:induction false} MarriagesFromCompletes(marriages: map<int, seq<Relation>>, persons: seq<Person>, personId: int,
                                                  personMarriages: seq<Relation>, i: nat, acc: Pushed)
    requires KeysFound(persons, marriages) && i <= |personMarriages|
    ensures MarriagesFrom(marriages, persons, personId, personMarriages, i, acc).Ok?
    decreases marriages.Keys - acc.touched, 1, |personMarriages| - i
  {
    if i < |personMarriages| {
      var marriage := personMarriages[i];
      var anotherPersonId := Other(marriage, personId);
      if anotherPersonId in acc.touched {
        MarriagesFromCompletes(marriages, persons, personId, personMarriages, i + 1, acc);
      } else {
        MarriageWalkCompletes(marriages, persons, anotherPersonId, acc.touched);
        var sub := MarriageWalk(marriages, persons, anotherPersonId, acc.touched).value;
        MarriagesFromCompletes(marriages, persons, personId, personMarriages, i + 1,
                               Pushed(sub.touched, acc.marriages + [marriage] + sub.marriages, acc.persons + sub.persons));
      }
    }
  }

  /** The walk is depth first in list order. Person 3 is married to 1 and
      then to 2, and 1 is married to 2 as well: the walk from 3 pushes 3,
      then 1 through the first marriage, then 2 through the marriage of 1
      and 2 before it comes back to the second marriage of 3, which it
      skips, 2 being touched by then. */
  lemma DepthFirstExample()
    ensures var m1, m2, m3 := Relation(10, 3, 1, Marriage), Relation(11, 3, 2, Marriage), Relation(12, 1, 2, Marriage);
      var p1, p2, p3 := Person(1, "a", None), Person(2, "b", None), Person(3, "c", None);
      MarriageWalk(map[3 := [m1, m2], 1 := [m1, m3], 2 := [m2, m3]], [p1, p2, p3], 3, {}) ==
        Ok(Pushed({1, 2, 3}, [m1, m3], [p3, p1, p2]))
  {
    var m1, m2, m3 := Relation(10, 3, 1, Marriage), Relation(11, 3, 2, Marriage), Relation(12, 1, 2, Marriage);
    var p1, p2, p3 := Person(1, "a", None), Person(2, "b", None), Person(3, "c", None);
    var marriages, persons := map[3 := [m1, m2], 1 := [m1, m3], 2 := [m2, m3]], [p1, p2, p3];
    assert persons[1..] == [p2, p3] && persons[1..][1..] == [p3];
    assert PersonById(persons, 1) == Ok(p1);
    assert PersonById(persons, 2) == Ok(p2);
    assert PersonById([p3], 3) == Ok(p3) && PersonById([p2, p3], 3) == Ok(p3);
    assert PersonById(persons, 3) == Ok(p3);
    assert marriages[2] == [m2, m3] && marriages[1] == [m1, m3] && marriages[3] == [m1, m2];
    var fromTwo := Pushed({3, 1, 2}, [], [p2]);
    assert MarriagesFrom(marriages, persons, 2, [m2, m3], 2, fromTwo) == Ok(fromTwo);
    assert MarriagesFrom(marriages, persons, 2, [m2, m3], 1, fromTwo) == Ok(fromTwo);
    assert MarriagesFrom(marriages, persons, 2, [m2, m3], 0, fromTwo) == Ok(fromTwo);
    assert {3, 1} + {2} == {3, 1, 2};
    assert MarriageWalk(marriages, persons, 2, {3, 1}) == Ok(fromTwo);
    var fromOne := Pushed({3, 1, 2}, [m3], [p1, p2]);
    assert MarriagesFrom(marriages, persons, 1, [m1, m3], 2, fromOne) == Ok(fromOne);
    assert [] + [m3] + [] == [m3] && [p1] + [p2] == [p1, p2];
    assert MarriagesFrom(marriages, persons, 1, [m1, m3], 1, Pushed({3, 1}, [], [p1])) == Ok(fromOne);
    assert MarriagesFrom(marriages, persons, 1, [m1, m3], 0, Pushed({3, 1}, [], [p1])) == Ok(fromOne);
    assert {3} + {1} == {3, 1};
    assert MarriageWalk(marriages, persons, 1, {3}) == Ok(fromOne);
    var fromThree := Pushed({3, 1, 2}, [m1, m3], [p3, p1, p2]);
    assert MarriagesFrom(marriages, persons, 3, [m1, m2], 2, fromThree) == Ok(fromThree);
    assert MarriagesFrom(marriages, persons, 3, [m1, m2], 1, fromThree) == Ok(fromThree);
    assert [] + [m1] + [m3] == [m1, m3] && [p3] + [p1, p2] == [p3, p1, p2];
    assert MarriagesFrom(marriages, persons, 3, [m1, m2], 0, Pushed({3}, [], [p3])) == Ok(fromThree);
    assert {} + {3} == {3};
    assert MarriageWalk(marriages, persons, 3, {}) == Ok(fromThree);
    assert fromThree == Pushed({1, 2, 3}, [m1, m3], [p3, p1, p2]);
  }

  // ---------------------------------------------------------------------
  // What the children under one marriage contribute

  /** The group `iterateOverMarriages` collects from `personId`: it starts
      with that person, its ids are exactly `newlyTouched`, each later
      person is a party of the marriage pushed just before it whose other
      party came earlier, and every person is the record `getPerson`
      returns for its id. */
  ghost predicate MarriageGroup(persons: seq<Person>, personId: int, newlyTouched: set<int>, ms: seq<Relation>, ps: seq<Person>)
  {
    && |ps| == |ms| + 1 && ps[0].id == personId
    && UniqueIds(ps) && Ids(ps) == newlyTouched
    && Attached(ms, ps)
    && (forall q :: q in ps ==> PersonById(persons, q.id) == Ok(q))
  }

  /** Every marriage of a person in `newly` leads to a person in `within`:
      the marriage walk left no marriage of theirs unfollowed. */
  ghost predicate Closed(marriages: map<int, seq<Relation>>, newly: set<int>, within: set<int>)
  {
    forall q, m :: q in newly && q in marriages && m in marriages[q] ==> Other(m, q) in within
  }

  /** What a completed walk from `personId`, started with `start` touched,
      leaves: every newly touched person has marriages, each of which leads
      to a touched person; every pushed marriage joins newly touched persons
      and is listed under both; nothing is pushed from a touched person or
      one without marriages, and otherwise the pushed persons and marriages
      form the person's marriage group. */
  ghost predicate WalkedFrom(marriages: map<int, seq<Relation>>, persons: seq<Person>, personId: int, start: set<int>, w: Pushed)
  {
    && start <= w.touched
    && (forall id :: id in w.touched - start ==> HasMarriages(marriages, id))
    && Closed(marriages, w.touched - start, w.touched)
    && (forall m :: m in w.marriages ==>
          m.firstPersonId in w.touched - start && m.secondPersonId in w.touched - start && MarriageFiled(marriages, m))
    && (personId in start || !HasMarriages(marriages, personId) ==> w == Pushed(start, [], []))
    && (personId !in start && HasMarriages(marriages, personId) ==>
          MarriageGroup(persons, personId, w.touched - start, w.marriages, w.persons))
  }

  /** The state of the `forEach` of a walk from `personId` before marriage
      `i`: the person is touched and pushed first, the persons and marriages
      pushed so far form its group, and every marriage before `i` leads to a
      touched person. */
  ghost predicate WalkingFrom(marriages: map<int, seq<Relation>>, persons: seq<Person>, personId: int, start: set<int>,
                              personMarriages: seq<Relation>, i: nat, acc: Pushed)
  {
    && personId in marriages && personMarriages == marriages[personId] && i <= |personMarriages|
    && start + {personId} <= acc.touched
    && (forall id :: id in acc.touched - start ==> HasMarriages(marriages, id))
    && Closed(marriages, acc.touched - start - {personId}, acc.touched)
    && (forall m :: m in acc.marriages ==>
          m.firstPersonId in acc.touched - start && m.secondPersonId in acc.touched - start && MarriageFiled(marriages, m))
    && MarriageGroup(persons, personId, acc.touched - start, acc.marriages, acc.persons)
    && (forall j :: 0 <= j < i ==> Other(personMarriages[j], personId) in acc.touched)
  }

  /** What `iterateOverMarriages` promises: a completed walk leaves what
      `WalkedFrom` says, and a failed one failed on a person lookup. */
  lemma {:induction false} MarriageWalkFacts(marriages: map<int, seq<Relation>>, persons: seq<Person>, personId: int, start: set<int>)
    requires MarriagesWellFormed(marriages)
    ensures MarriageWalk(marriages, persons, personId, start).Ok? ==>
      WalkedFrom(marriages, persons, personId, start, MarriageWalk(marriages, persons, personId, start).value)
    ensures MarriageWalk(marriages, persons, personId, start).Err? ==>
      MarriageWalk(marriages, persons, personId, start).error == PersonNotFound(personId) ||
      MarriageWalk(marriages, persons, personId, start).error.PersonNotFound?
    decreases marriages.Keys - start, 0, 0
  {
    if personId !in start && HasMarriages(marriages, personId) {
      PersonByIdMember(persons, personId);
      if PersonById(persons, personId).Ok? {
        var person := PersonById(persons, personId).value;
        var acc := Pushed(start + {personId}, [], [person]);
        assert Ids(acc.persons) == {personId};
        MarriagesFromFacts(marriages, persons, personId, start, marriages[personId], 0, acc);
      }
    }
  }

  lemma {:induction false} MarriagesFromFacts(marriages: map<int, seq<Relation>>, persons: seq<Person>, personId: int, start: set<int>,
                                              personMarriages: seq<Relation>, i: nat, acc: Pushed)
    requires MarriagesWellFormed(marriages) && WalkingFrom(marriages, persons, personId, start, personMarriages, i, acc)
    ensures MarriagesFrom(marriages, persons, personId, personMarriages, i, acc).Ok? ==>
      WalkedFrom(marriages, persons, personId, start, MarriagesFrom(marriages, persons, personId, personMarriages, i, acc).value)
    ensures MarriagesFrom(marriages, persons, personId, personMarriages, i, acc).Err? ==>
      MarriagesFrom(marriages, persons, personId, personMarriages, i, acc).error.PersonNotFound?
    decreases marriages.Keys - acc.touched, 1, |personMarriages| - i
  {
    if i == |personMarriages| {
      WalkingDone(marriages, persons, personId, start, personMarriages, acc);
    } else {
      var marriage := personMarriages[i];
      var anotherPersonId := Other(marriage, personId);
      if anotherPersonId in acc.touched {
        MarriagesFromFacts(marriages, persons, personId, start, personMarriages, i + 1, acc);
      } else {
        MarriageWalkFacts(marriages, persons, anotherPersonId, acc.touched);
        if MarriageWalk(marriages, persons, anotherPersonId, acc.touched).Ok? {
          var sub := MarriageWalk(marriages, persons, anotherPersonId, acc.touched).value;
          WalkingStep(marriages, persons, personId, start, personMarriages, i, acc, sub);
          MarriagesFromFacts(marriages, persons, personId, start, personMarriages, i + 1,
                             Pushed(sub.touched, acc.marriages + [marriage] + sub.marriages, acc.persons + sub.persons));
        }
      }
    }
  }

  /** After the last marriage, the walk's state is what it leaves. */
  lemma WalkingDone(marriages: map<int, seq<Relation>>, persons: seq<Person>, personId: int, start: set<int>,
                    personMarriages: seq<Relation>, acc: Pushed)
    requires WalkingFrom(marriages, persons, personId, start, personMarriages, |personMarriages|, acc)
    ensures WalkedFrom(marriages, persons, personId, start, acc)
  {
    forall q, m | q in acc.touched - start && q in marriages && m in marriages[q]
      ensures Other(m, q) in acc.touched
    {
      if q == personId {
        var j :| 0 <= j < |personMarriages| && personMarriages[j] == m;
      }
    }
  }

  /** One marriage to an untouched person, followed by the walk from that
      person, extends the group. */
  lemma WalkingStep(marriages: map<int, seq<Relation>>, persons: seq<Person>, personId: int, start: set<int>,
                    personMarriages: seq<Relation>, i: nat, acc: Pushed, sub: Pushed)
    requires MarriagesWellFormed(marriages) && WalkingFrom(marriages, persons, personId, start, personMarriages, i, acc)
    requires i < |personMarriages| && Other(personMarriages[i], personId) !in acc.touched
    requires WalkedFrom(marriages, persons, Other(personMarriages[i], personId), acc.touched, sub)
    ensures WalkingFrom(marriages, persons, personId, start, personMarriages, i + 1,
                        Pushed(sub.touched, acc.marriages + [personMarriages[i]] + sub.marriages, acc.persons + sub.persons))
  {
    var marriage, anotherPersonId := personMarriages[i], Other(personMarriages[i], personId);
    assert marriage in marriages[personId];
    assert IsParty(marriage, personId) && marriage in marriages[anotherPersonId];
    assert Other(marriage, anotherPersonId) == personId;
    var next := Pushed(sub.touched, acc.marriages + [marriage] + sub.marriages, acc.persons + sub.persons);
    WalkingStepGroup(marriages, persons, personId, start, personMarriages, i, acc, sub);
    WalkingStepClosed(marriages, persons, personId, start, personMarriages, i, acc, sub);
    assert MarriageGroup(persons, anotherPersonId, sub.touched - acc.touched, sub.marriages, sub.persons);
    assert sub.persons[0] in sub.persons && sub.persons[0].id in Ids(sub.persons);
    assert anotherPersonId in sub.touched;
    forall j | 0 <= j <= i ensures Other(personMarriages[j], personId) in next.touched {
      if j < i {
        assert Other(personMarriages[j], personId) in acc.touched;
      }
    }
    forall m | m in next.marriages
      ensures m.firstPersonId in next.touched - start && m.secondPersonId in next.touched - start && MarriageFiled(marriages, m)
    {
      if m !in acc.marriages && m != marriage {
        assert m in sub.marriages;
      }
    }
    forall id | id in next.touched - start ensures HasMarriages(marriages, id) {
      if id in acc.touched {
        assert id in acc.touched - start;
      } else {
        assert id in sub.touched - acc.touched;
      }
    }
  }

  /** The closure part of `WalkingStep`. */
  lemma WalkingStepClosed(marriages: map<int, seq<Relation>>, persons: seq<Person>, personId: int, start: set<int>,
                          personMarriages: seq<Relation>, i: nat, acc: Pushed, sub: Pushed)
    requires MarriagesWellFormed(marriages) && WalkingFrom(marriages, persons, personId, start, personMarriages, i, acc)
    requires i < |personMarriages| && Other(personMarriages[i], personId) !in acc.touched
    requires WalkedFrom(marriages, persons, Other(personMarriages[i], personId), acc.touched, sub)
    ensures Closed(marriages, sub.touched - start - {personId}, sub.touched)
  {
    forall q, m | q in sub.touched - start - {personId} && q in marriages && m in marriages[q]
      ensures Other(m, q) in sub.touched
    {
      if q in acc.touched {
        assert Other(m, q) in acc.touched;
      }
    }
  }

  /** The group part of `WalkingStep`. */
  lemma WalkingStepGroup(marriages: map<int, seq<Relation>>, persons: seq<Person>, personId: int, start: set<int>,
                         personMarriages: seq<Relation>, i: nat, acc: Pushed, sub: Pushed)
    requires MarriagesWellFormed(marriages) && WalkingFrom(marriages, persons, personId, start, personMarriages, i, acc)
    requires i < |personMarriages| && Other(personMarriages[i], personId) !in acc.touched
    requires WalkedFrom(marriages, persons, Other(personMarriages[i], personId), acc.touched, sub)
    ensures HasMarriages(marriages, Other(personMarriages[i], personId))
    ensures MarriageGroup(persons, personId, sub.touched - start,
                          acc.marriages + [personMarriages[i]] + sub.marriages, acc.persons + sub.persons)
  {
    var marriage, anotherPersonId := personMarriages[i], Other(personMarriages[i], personId);
    assert marriage in marriages[personId];
    assert IsParty(marriage, personId) && marriage in marriages[anotherPersonId];
    assert Other(marriage, anotherPersonId) == personId;
    assert personId in Ids(acc.persons);
    assert HasMarriages(marriages, anotherPersonId);
    assert MarriageGroup(persons, anotherPersonId, sub.touched - acc.touched, sub.marriages, sub.persons);
    assert Ids(acc.persons) !! Ids(sub.persons);
    AttachedAppend(acc.marriages, acc.persons, marriage, sub.marriages, sub.persons);
    UniqueIdsConcat(acc.persons, sub.persons);
    assert Ids(acc.persons + sub.persons) == sub.touched - start;
    assert (acc.persons + sub.persons)[0] == acc.persons[0];
    assert forall q :: q in acc.persons + sub.persons ==> q in acc.persons || q in sub.persons;
  }

  /** The `forEach` callback of `getNewPersonsAndNewMarriagesFromChilds`
      for one child, `before` being the persons touched at its turn: a
      touched child contributes nothing; otherwise the walk from the child
      runs, and the child contributes the persons it pushed, or itself when
      it pushed none. The result is the touched set after the child, the
      marriages pushed and the persons contributed. */
  function ChildContribution(marriages: map<int, seq<Relation>>, persons: seq<Person>, child: Person, before: set<int>): Result<Pushed>
  {
    if child.id in before then Ok(Pushed(before, [], []))
    else match MarriageWalk(marriages, persons, child.id, before)
      case Err(e) => Err(e)
      case Ok(group) => Ok(if |group.persons| > 0 then group else group.(persons := [child]))
  }

  /** Child `child`, taking its turn with `before` touched, leaves `after`
      touched, pushes `pushedMarriages` and contributes `contributed`. */
  ghost predicate ContributionOf(marriages: map<int, seq<Relation>>, persons: seq<Person>, child: Person,
                                 before: set<int>, after: set<int>, pushedMarriages: seq<Relation>, contributed: seq<Person>)
  {
    ChildContribution(marriages, persons, child, before) == Ok(Pushed(after, pushedMarriages, contributed))
  }

  /** What one child contributes to the row under its parents' marriage:
      nothing when it was touched; the child itself when it has no
      marriages; otherwise the marriage group from the child. Every newly
      touched person has marriages, each of which leads to a touched person,
      and every pushed marriage joins newly touched persons. */
  ghost predicate Contributes(marriages: map<int, seq<Relation>>, persons: seq<Person>, child: Person,
                              before: set<int>, after: set<int>, pushedMarriages: seq<Relation>, contributed: seq<Person>)
  {
    && before <= after
    && (forall id :: id in after - before ==> HasMarriages(marriages, id))
    && Closed(marriages, after - before, after)
    && (forall m :: m in pushedMarriages ==>
          m.firstPersonId in after - before && m.secondPersonId in after - before && MarriageFiled(marriages, m))
    && (child.id in before ==> after == before && pushedMarriages == [] && contributed == [])
    && (child.id !in before && !HasMarriages(marriages, child.id) ==>
          after == before && pushedMarriages == [] && contributed == [child])
    && (child.id !in before && HasMarriages(marriages, child.id) ==>
          MarriageGroup(persons, child.id, after - before, pushedMarriages, contributed))
  }

  /** What `ContributionOf` promises about a child's contribution. */
  lemma ContributionOfFacts(marriages: map<int, seq<Relation>>, persons: seq<Person>, child: Person,
                            before: set<int>, after: set<int>, pushedMarriages: seq<Relation>, contributed: seq<Person>)
    requires MarriagesWellFormed(marriages) && ContributionOf(marriages, persons, child, before, after, pushedMarriages, contributed)
    ensures Contributes(marriages, persons, child, before, after, pushedMarriages, contributed)
  {
    if child.id !in before {
      MarriageWalkFacts(marriages, persons, child.id, before);
    }
  }

  /** The record of one `getNewPersonsAndNewMarriagesFromChilds` call:
      `turns[i]` is `touchedPersons` when child `i` comes up, the last entry
      being the set afterwards; `groups[i]` and `groupsMarriages[i]` are
      what child `i` contributed. */
  datatype Collection = Collection(turns: seq<set<int>>, groups: seq<seq<Person>>, groupsMarriages: seq<seq<Relation>>)

  /** The first `n` children were handled in order, each contributing as
      `ContributionOf` says from the touched set its predecessors left. */
  ghost predicate Contributions(marriages: map<int, seq<Relation>>, persons: seq<Person>, childList: seq<Person>, n: nat, c: Collection)
  {
    && n <= |childList| && |c.turns| == n + 1 && |c.groups| == n && |c.groupsMarriages| == n
    && forall i :: 0 <= i < n ==>
         ContributionOf(marriages, persons, childList[i], c.turns[i], c.turns[i + 1], c.groupsMarriages[i], c.groups[i])
  }

  /** `getNewPersonsAndNewMarriagesFromChilds` as a relation: every child is
      handled in order, and the new persons and new marriages are the
      children's contributions joined in that order. */
  ghost predicate CollectedFrom(marriages: map<int, seq<Relation>>, persons: seq<Person>, childList: seq<Person>, c: Collection,
                                newPersons: seq<Person>, newMarriages: seq<Relation>)
  {
    && Contributions(marriages, persons, childList, |childList|, c)
    && newPersons == Flatten(c.groups) && newMarriages == Flatten(c.groupsMarriages)
  }

  /** What follows about the persons and marriages collected from the first
      `n` children while the touched set grew from `start` to `end`: every
      child untouched at the start is placed (a married one touched, an
      unmarried one listed); the touched persons are listed; a listed
      married person was newly touched and is listed once, a listed
      unmarried person is a child; the new marriages join newly touched
      persons; and every marriage of a newly touched person leads to a
      touched person. */
  ghost predicate RowFacts(marriages: map<int, seq<Relation>>, childList: seq<Person>, n: nat, start: set<int>, end: set<int>,
                           newPersons: seq<Person>, newMarriages: seq<Relation>)
  {
    && n <= |childList| && start <= end
    && (forall id :: id in end - start ==> HasMarriages(marriages, id))
    && Closed(marriages, end - start, end)
    && (forall c :: c in childList[..n] && c.id !in start ==>
          if HasMarriages(marriages, c.id) then c.id in end else c in newPersons)
    && end - start <= Ids(newPersons)
    && (forall q :: q in newPersons ==>
          && (HasMarriages(marriages, q.id) ==> q.id in end - start)
          && (!HasMarriages(marriages, q.id) ==> q in childList))
    && MarriedUnique(marriages, newPersons)
    && (forall m :: m in newMarriages ==>
          m.firstPersonId in end - start && m.secondPersonId in end - start && MarriageFiled(marriages, m))
  }

  /** The state of `getNewPersonsAndNewMarriagesFromChilds` after `n`
      children. */
  ghost predicate Collected(marriages: map<int, seq<Relation>>, persons: seq<Person>, childList: seq<Person>, n: nat, c: Collection,
                            newPersons: seq<Person>, newMarriages: seq<Relation>)
  {
    && Contributions(marriages, persons, childList, n, c)
    && newPersons == Flatten(c.groups) && newMarriages == Flatten(c.groupsMarriages)
    && RowFacts(marriages, childList, n, c.turns[0], c.turns[n], newPersons, newMarriages)
  }

  function Extend(c: Collection, after: set<int>, pushedMarriages: seq<Relation>, contributed: seq<Person>): Collection
  {
    Collection(c.turns + [after], c.groups + [contributed], c.groupsMarriages + [pushedMarriages])
  }

  /** The state after `n` children, and what child `n` contributes. */
  ghost predicate SnocReady(marriages: map<int, seq<Relation>>, persons: seq<Person>, childList: seq<Person>, n: nat, c: Collection,
                            newPersons: seq<Person>, newMarriages: seq<Relation>,
                            after: set<int>, pushedMarriages: seq<Relation>, contributed: seq<Person>)
  {
    && n < |childList|
    && Collected(marriages, persons, childList, n, c, newPersons, newMarriages)
    && ContributionOf(marriages, persons, childList[n], c.turns[n], after, pushedMarriages, contributed)
    && Contributes(marriages, persons, childList[n], c.turns[n], after, pushedMarriages, contributed)
  }

  /** One child's contribution extends what the children before it
      contributed. */
  lemma {:induction false} CollectedSnoc(marriages: map<int, seq<Relation>>, persons: seq<Person>, childList: seq<Person>, n: nat, c: Collection,
      newPersons: seq<Person>, newMarriages: seq<Relation>, after: set<int>, pushedMarriages: seq<Relation>, contributed: seq<Person>)
    requires SnocReady(marriages, persons, childList, n, c, newPersons, newMarriages, after, pushedMarriages, contributed)
    ensures Collected(marriages, persons, childList, n + 1, Extend(c, after, pushedMarriages, contributed),
                      newPersons + contributed, newMarriages + pushedMarriages)
  {
    var c' := Extend(c, after, pushedMarriages, contributed);
    FlattenSnoc(c.groups, contributed);
    FlattenSnoc(c.groupsMarriages, pushedMarriages);
    assert c'.turns[0] == c.turns[0] && c'.turns[n + 1] == after;
    SnocContributions(marriages, persons, childList, n, c, newPersons, newMarriages, after, pushedMarriages, contributed);
    SnocRow(marriages, persons, childList, n, c, newPersons, newMarriages, after, pushedMarriages, contributed);
  }

  lemma {:induction false} SnocRow(marriages: map<int, seq<Relation>>, persons: seq<Person>, childList: seq<Person>, n: nat, c: Collection,
      newPersons: seq<Person>, newMarriages: seq<Relation>, after: set<int>, pushedMarriages: seq<Relation>, contributed: seq<Person>)
    requires SnocReady(marriages, persons, childList, n, c, newPersons, newMarriages, after, pushedMarriages, contributed)
    ensures RowFacts(marriages, childList, n + 1, c.turns[0], after, newPersons + contributed, newMarriages + pushedMarriages)
  {
    SnocChildren(marriages, persons, childList, n, c, newPersons, newMarriages, after, pushedMarriages, contributed);
    SnocPersons(marriages, persons, childList, n, c, newPersons, newMarriages, after, pushedMarriages, contributed);
    SnocMarriages(marriages, persons, childList, n, c, newPersons, newMarriages, after, pushedMarriages, contributed);
    SnocClosure(marriages, persons, childList, n, c, newPersons, newMarriages, after, pushedMarriages, contributed);
  }

  lemma {:induction false} SnocContributions(marriages: map<int, seq<Relation>>, persons: seq<Person>, childList: seq<Person>, n: nat, c: Collection,
      newPersons: seq<Person>, newMarriages: seq<Relation>, after: set<int>, pushedMarriages: seq<Relation>, contributed: seq<Person>)
    requires SnocReady(marriages, persons, childList, n, c, newPersons, newMarriages, after, pushedMarriages, contributed)
    ensures Contributions(marriages, persons, childList, n + 1, Extend(c, after, pushedMarriages, contributed))
  {
    var c' := Extend(c, after, pushedMarriages, contributed);
    forall i | 0 <= i < n + 1
      ensures ContributionOf(marriages, persons, childList[i], c'.turns[i], c'.turns[i + 1], c'.groupsMarriages[i], c'.groups[i])
    {
      if i < n {
        assert c'.turns[i] == c.turns[i] && c'.turns[i + 1] == c.turns[i + 1];
        assert c'.groups[i] == c.groups[i] && c'.groupsMarriages[i] == c.groupsMarriages[i];
      } else {
        assert c'.turns[i] == c.turns[n] && c'.turns[i + 1] == after;
        assert c'.groups[i] == contributed && c'.groupsMarriages[i] == pushedMarriages;
      }
    }
  }

  lemma {:induction false} SnocChildren(marriages: map<int, seq<Relation>>, persons: seq<Person>, childList: seq<Person>, n: nat, c: Collection,
      newPersons: seq<Person>, newMarriages: seq<Relation>, after: set<int>, pushedMarriages: seq<Relation>, contributed: seq<Person>)
    requires SnocReady(marriages, persons, childList, n, c, newPersons, newMarriages, after, pushedMarriages, contributed)
    ensures forall ch :: ch in childList[..n + 1] && ch.id !in c.turns[0] ==>
      if HasMarriages(marriages, ch.id) then ch.id in after else ch in newPersons + contributed
  {
    var before := c.turns[n];
    assert childList[..n + 1] == childList[..n] + [childList[n]];
    forall ch | ch in childList[..n + 1] && ch.id !in c.turns[0]
      ensures if HasMarriages(marriages, ch.id) then ch.id in after else ch in newPersons + contributed
    {
      if ch in childList[..n] {
        if !HasMarriages(marriages, ch.id) {
          assert ch in newPersons;
        }
      } else {
        assert ch == childList[n];
        if ch.id !in before && !HasMarriages(marriages, ch.id) {
          assert (newPersons + contributed)[|newPersons|] == ch;
        } else if ch.id !in before {
          assert contributed[0].id == ch.id && ch.id in Ids(contributed);
        }
      }
    }
  }

  lemma {:induction false} SnocPersons(marriages: map<int, seq<Relation>>, persons: seq<Person>, childList: seq<Person>, n: nat, c: Collection,
      newPersons: seq<Person>, newMarriages: seq<Relation>, after: set<int>, pushedMarriages: seq<Relation>, contributed: seq<Person>)
    requires SnocReady(marriages, persons, childList, n, c, newPersons, newMarriages, after, pushedMarriages, contributed)
    ensures after - c.turns[0] <= Ids(newPersons + contributed)
    ensures forall q :: q in newPersons + contributed ==>
      && (HasMarriages(marriages, q.id) ==> q.id in after - c.turns[0])
      && (!HasMarriages(marriages, q.id) ==> q in childList)
    ensures MarriedUnique(marriages, newPersons + contributed)
  {
    var before := c.turns[n];
    IdsConcat(newPersons, contributed);
    if childList[n].id !in before && HasMarriages(marriages, childList[n].id) {
      assert forall q :: q in contributed ==> q.id in Ids(contributed);
    }
    MarriedUniqueAppend(marriages, newPersons, contributed);
  }

  lemma {:induction false} SnocMarriages(marriages: map<int, seq<Relation>>, persons: seq<Person>, childList: seq<Person>, n: nat, c: Collection,
      newPersons: seq<Person>, newMarriages: seq<Relation>, after: set<int>, pushedMarriages: seq<Relation>, contributed: seq<Person>)
    requires SnocReady(marriages, persons, childList, n, c, newPersons, newMarriages, after, pushedMarriages, contributed)
    ensures forall m :: m in newMarriages + pushedMarriages ==>
      m.firstPersonId in after - c.turns[0] && m.secondPersonId in after - c.turns[0] && MarriageFiled(marriages, m)
  {
  }

  lemma {:induction false} SnocClosure(marriages: map<int, seq<Relation>>, persons: seq<Person>, childList: seq<Person>, n: nat, c: Collection,
      newPersons: seq<Person>, newMarriages: seq<Relation>, after: set<int>, pushedMarriages: seq<Relation>, contributed: seq<Person>)
    requires SnocReady(marriages, persons, childList, n, c, newPersons, newMarriages, after, pushedMarriages, contributed)
    ensures c.turns[0] <= after && forall id :: id in after - c.turns[0] ==> HasMarriages(marriages, id)
    ensures Closed(marriages, after - c.turns[0], after)
  {
  }

  // ---------------------------------------------------------------------
  // One pass of the level loop

  /** The record of one pass of the level loop: `turns[j]` is
      `touchedPersons` when marriage node `j` comes up, the last entry being
      the set afterwards; `rows[j]` are the persons hung under node `j`,
      `steps[j]` and `stepNodes[j]` the marriages and marriage nodes hung
      below them, and `collections[j]` the record of the call that collected
      them. */
  datatype Pass = Pass(turns: seq<set<int>>, rows: seq<seq<Person>>, steps: seq<seq<Relation>>,
                       stepNodes: seq<seq<TreeNode>>, collections: seq<Collection>)

  /** What happens at one marriage node of a level: without a `childsMap`
      entry nothing; with one, its children are collected from the touched
      set `before` as `getNewPersonsAndNewMarriagesFromChilds` does, leaving
      `after`, and one marriage node is made per new marriage. */
  ghost predicate MarriagePassed(marriages: map<int, seq<Relation>>, persons: seq<Person>, childs: map<int, seq<Person>>,
                                 marriage: Relation, before: set<int>, after: set<int>,
                                 row: seq<Person>, step: seq<Relation>, stepNodes: seq<TreeNode>, c: Collection)
  {
    if marriage.id in childs then
      && |stepNodes| == |step|
      && CollectedFrom(marriages, persons, childs[marriage.id], c, row, step)
      && c.turns[0] == before && c.turns[|childs[marriage.id]|] == after
      && RowFacts(marriages, childs[marriage.id], |childs[marriage.id]|, before, after, row, step)
    else
      after == before && row == [] && step == [] && stepNodes == []
  }

  /** The first `n` marriage nodes of a level were passed in order, with
      `touchedPersons` cleared before the first. */
  ghost predicate LevelPassed(marriages: map<int, seq<Relation>>, persons: seq<Person>, childs: map<int, seq<Person>>,
                              currentMarriages: seq<Relation>, n: nat, p: Pass)
  {
    && n <= |currentMarriages|
    && |p.turns| == n + 1 && p.turns[0] == {}
    && |p.rows| == n && |p.steps| == n && |p.stepNodes| == n && |p.collections| == n
    && forall j :: 0 <= j < n ==>
         MarriagePassed(marriages, persons, childs, currentMarriages[j], p.turns[j], p.turns[j + 1],
                        p.rows[j], p.steps[j], p.stepNodes[j], p.collections[j])
  }

  function ExtendPass(p: Pass, after: set<int>, row: seq<Person>, step: seq<Relation>, stepNodes: seq<TreeNode>, c: Collection): Pass
  {
    Pass(p.turns + [after], p.rows + [row], p.steps + [step], p.stepNodes + [stepNodes], p.collections + [c])
  }

  /** The touched set only grows along a pass. */
  lemma {:induction false} TurnsGrow(marriages: map<int, seq<Relation>>, persons: seq<Person>, childs: map<int, seq<Person>>,
                                     currentMarriages: seq<Relation>, n: nat, p: Pass, a: nat, b: nat)
    requires LevelPassed(marriages, persons, childs, currentMarriages, n, p) && a <= b <= n
    ensures p.turns[a] <= p.turns[b]
    decreases b - a
  {
    if a < b {
      TurnsGrow(marriages, persons, childs, currentMarriages, n, p, a + 1, b);
      assert MarriagePassed(marriages, persons, childs, currentMarriages[a], p.turns[a], p.turns[a + 1],
                            p.rows[a], p.steps[a], p.stepNodes[a], p.collections[a]);
    }
  }

  /** Two rows of one level share no married person: a married person is
      placed only by the marriage node at whose turn it gets touched, and
      the touched set is shared by the whole pass. */
  lemma LevelRowsDisjoint(marriages: map<int, seq<Relation>>, persons: seq<Person>, childs: map<int, seq<Person>>,
                          currentMarriages: seq<Relation>, n: nat, p: Pass, j1: nat, j2: nat)
    requires LevelPassed(marriages, persons, childs, currentMarriages, n, p) && j1 < j2 < n
    ensures forall q1, q2 :: q1 in p.rows[j1] && q2 in p.rows[j2] && HasMarriages(marriages, q1.id) ==> q1.id != q2.id
  {
    TurnsGrow(marriages, persons, childs, currentMarriages, n, p, j1 + 1, j2);
    assert MarriagePassed(marriages, persons, childs, currentMarriages[j1], p.turns[j1], p.turns[j1 + 1],
                          p.rows[j1], p.steps[j1], p.stepNodes[j1], p.collections[j1]);
    assert MarriagePassed(marriages, persons, childs, currentMarriages[j2], p.turns[j2], p.turns[j2 + 1],
                          p.rows[j2], p.steps[j2], p.stepNodes[j2], p.collections[j2]);
  }

  /** One more marriage node passed. */
  lemma {:induction false} LevelPassedSnoc(marriages: map<int, seq<Relation>>, persons: seq<Person>, childs: map<int, seq<Person>>,
                                           currentMarriages: seq<Relation>, n: nat, p: Pass, after: set<int>,
                                           row: seq<Person>, step: seq<Relation>, stepNodes: seq<TreeNode>, c: Collection)
    requires n < |currentMarriages| && LevelPassed(marriages, persons, childs, currentMarriages, n, p)
    requires MarriagePassed(marriages, persons, childs, currentMarriages[n], p.turns[n], after, row, step, stepNodes, c)
    ensures LevelPassed(marriages, persons, childs, currentMarriages, n + 1, ExtendPass(p, after, row, step, stepNodes, c))
    ensures Flatten(ExtendPass(p, after, row, step, stepNodes, c).steps) == Flatten(p.steps) + step
    ensures Flatten(ExtendPass(p, after, row, step, stepNodes, c).stepNodes) == Flatten(p.stepNodes) + stepNodes
  {
    var p' := ExtendPass(p, after, row, step, stepNodes, c);
    FlattenSnoc(p.steps, step);
    FlattenSnoc(p.stepNodes, stepNodes);
    forall j | 0 <= j < n + 1
      ensures MarriagePassed(marriages, persons, childs, currentMarriages[j], p'.turns[j], p'.turns[j + 1],
                             p'.rows[j], p'.steps[j], p'.stepNodes[j], p'.collections[j])
    {
      if j < n {
        assert p'.turns[j] == p.turns[j] && p'.turns[j + 1] == p.turns[j + 1];
        assert p'.rows[j] == p.rows[j] && p'.steps[j] == p.steps[j];
        assert p'.stepNodes[j] == p.stepNodes[j] && p'.collections[j] == p.collections[j];
      } else {
        assert p'.turns[j] == p.turns[n] && p'.turns[j + 1] == after;
      }
    }
  }

  /** Two lists of marriage nodes with no node in common join into one. */
  lemma MarriageNodesAppend(a: seq<TreeNode>, b: seq<TreeNode>)
    requires MarriageNodes(a) && MarriageNodes(b)
    requires forall x, y :: x in a && y in b ==> x != y
    ensures MarriageNodes(a + b)
  {
    forall i, j | 0 <= i < j < |a + b|
      ensures (a + b)[i] != (a + b)[j]
    {
      if j >= |a| && i < |a| {
        assert (a + b)[i] in a && (a + b)[j] in b;
      }
    }
  }

  /** After the first `n` marriage nodes of a level were passed, each of
      them with a `childsMap` entry carries its row and the others carry
      nothing. */
  ghost predicate LevelHung(childs: map<int, seq<Person>>, currentMarriages: seq<Relation>, currentMarriagesNodes: seq<TreeNode>,
                            n: nat, p: Pass)
    reads currentMarriagesNodes, RowsOf(currentMarriagesNodes)
  {
    && n <= |currentMarriages| == |currentMarriagesNodes| && |p.rows| == n && |p.stepNodes| == n
    && forall j :: 0 <= j < n ==>
         if currentMarriages[j].id in childs then RowHung(currentMarriagesNodes[j], p.rows[j], p.stepNodes[j])
         else currentMarriagesNodes[j].children == None
  }

  /** One more level hung: the earlier levels and the last one, whose nodes
      are none of the next level's. */
  lemma LevelsHungSnoc(childs: map<int, seq<Person>>, levels: seq<seq<Relation>>, levelNodes: seq<seq<TreeNode>>,
                       passes: seq<Pass>, next: seq<Relation>, nextNodes: seq<TreeNode>, p: Pass)
    requires |levels| == |levelNodes| == |passes| + 1
    requires forall k :: 0 <= k < |passes| ==> LevelHung(childs, levels[k], levelNodes[k], |levels[k]|, passes[k])
    requires LevelHung(childs, levels[|passes|], levelNodes[|passes|], |levels[|passes|]|, p)
    requires forall k, j :: 0 <= k <= |passes| && 0 <= j < |levelNodes[k]| ==> levelNodes[k][j] !in nextNodes
    ensures forall k :: 0 <= k < |passes| + 1 ==>
      LevelHung(childs, (levels + [next])[k], (levelNodes + [nextNodes])[k], |(levels + [next])[k]|, (passes + [p])[k])
    ensures forall k, j :: 0 <= k < |passes| + 1 && 0 <= j < |(levelNodes + [nextNodes])[k]| ==>
      (levelNodes + [nextNodes])[k][j] !in nextNodes
  {
    forall k | 0 <= k < |passes| + 1
      ensures (levels + [next])[k] == levels[k] && (levelNodes + [nextNodes])[k] == levelNodes[k]
      ensures (passes + [p])[k] == if k < |passes| then passes[k] else p
    {
    }
  }

  /** The rows hung in a level are made of person nodes. */
  lemma LevelRowsArePersons(childs: map<int, seq<Person>>, currentMarriages: seq<Relation>, currentMarriagesNodes: seq<TreeNode>,
                            p: Pass)
    requires LevelHung(childs, currentMarriages, currentMarriagesNodes, |currentMarriages|, p)
    ensures forall x :: x in RowsOf(currentMarriagesNodes) ==> x.nodeType == PersonNode
  {
    forall x | x in RowsOf(currentMarriagesNodes) ensures x.nodeType == PersonNode {
      var j :| 0 <= j < |currentMarriagesNodes| && currentMarriagesNodes[j].children.Some?
               && x in currentMarriagesNodes[j].children.value;
      var k :| 0 <= k < |currentMarriagesNodes[j].children.value| && currentMarriagesNodes[j].children.value[k] == x;
    }
  }

  /** The nodes of the child rows of `nodes`. */
  ghost function RowsOf(nodes: seq<TreeNode>): (r: set<TreeNode>)
    reads nodes
    ensures forall j, x :: 0 <= j < |nodes| && nodes[j].children.Some? && x in nodes[j].children.value ==> x in r
  {
    set j, x | 0 <= j < |nodes| && nodes[j].children.Some? && x in nodes[j].children.value :: x
  }

  /** One more marriage node passed. */
  lemma LevelHungSnoc(childs: map<int, seq<Person>>, currentMarriages: seq<Relation>, currentMarriagesNodes: seq<TreeNode>,
                      n: nat, p: Pass, after: set<int>, row: seq<Person>, step: seq<Relation>, stepNodes: seq<TreeNode>, c: Collection)
    requires n < |currentMarriages| && LevelHung(childs, currentMarriages, currentMarriagesNodes, n, p)
    requires currentMarriages[n].id in childs ==> RowHung(currentMarriagesNodes[n], row, stepNodes)
    requires currentMarriages[n].id !in childs ==> currentMarriagesNodes[n].children == None
    ensures LevelHung(childs, currentMarriages, currentMarriagesNodes, n + 1, ExtendPass(p, after, row, step, stepNodes, c))
  {
    var p' := ExtendPass(p, after, row, step, stepNodes, c);
    forall j | 0 <= j < n + 1
      ensures if currentMarriages[j].id in childs then RowHung(currentMarriagesNodes[j], p'.rows[j], p'.stepNodes[j])
              else currentMarriagesNodes[j].children == None
    {
      if j < n {
        assert p'.rows[j] == p.rows[j] && p'.stepNodes[j] == p.stepNodes[j];
      }
    }
  }

  /** The levels below the root row as the level loop builds them: level
      `i + 1` holds, in order, the marriages (and marriage nodes) hung below
      the rows of pass `i` over level `i`. */
  ghost predicate LevelsPassed(marriages: map<int, seq<Relation>>, persons: seq<Person>, childs: map<int, seq<Person>>,
                               levels: seq<seq<Relation>>, levelNodes: seq<seq<TreeNode>>, passes: seq<Pass>)
  {
    && |levels| > 0 && |levelNodes| == |levels| && |passes| == |levels| - 1
    && (forall i :: 0 <= i < |levels| ==> |levelNodes[i]| == |levels[i]|)
    && (forall i, j :: 0 <= i < |levels| && 0 <= j < |levels[i]| ==> MarriageNodeKind(levelNodes[i][j]))
    && forall i :: 0 <= i < |passes| ==>
         && LevelPassed(marriages, persons, childs, levels[i], |levels[i]|, passes[i])
         && levels[i + 1] == Flatten(passes[i].steps) && levelNodes[i + 1] == Flatten(passes[i].stepNodes)
  }

  /** One more level passed: the pass over the last level gives the next. */
  lemma LevelsPassedSnoc(marriages: map<int, seq<Relation>>, persons: seq<Person>, childs: map<int, seq<Person>>,
                         levels: seq<seq<Relation>>, levelNodes: seq<seq<TreeNode>>, passes: seq<Pass>,
                         next: seq<Relation>, nextNodes: seq<TreeNode>, p: Pass)
    requires LevelsPassed(marriages, persons, childs, levels, levelNodes, passes)
    requires LevelPassed(marriages, persons, childs, levels[|passes|], |levels[|passes|]|, p)
    requires next == Flatten(p.steps) && nextNodes == Flatten(p.stepNodes)
    requires |nextNodes| == |next| && MarriageNodes(nextNodes)
    ensures LevelsPassed(marriages, persons, childs, levels + [next], levelNodes + [nextNodes], passes + [p])
  {
    var levels', levelNodes', passes' := levels + [next], levelNodes + [nextNodes], passes + [p];
    forall i | 0 <= i < |passes'|
      ensures LevelPassed(marriages, persons, childs, levels'[i], |levels'[i]|, passes'[i])
      ensures levels'[i + 1] == Flatten(passes'[i].steps) && levelNodes'[i + 1] == Flatten(passes'[i].stepNodes)
    {
      if i < |passes| {
        assert levels'[i] == levels[i] && passes'[i] == passes[i];
        assert levels'[i + 1] == levels[i + 1] && levelNodes'[i + 1] == levelNodes[i + 1];
      }
    }
  }

  /** One more generation keeps both the passes and the hung rows of every level. */
  lemma GenerationSnoc(marriages: map<int, seq<Relation>>, persons: seq<Person>, childs: map<int, seq<Person>>,
                       levels: seq<seq<Relation>>, levelNodes: seq<seq<TreeNode>>, passes: seq<Pass>,
                       next: seq<Relation>, nextNodes: seq<TreeNode>, p: Pass)
    requires LevelsPassed(marriages, persons, childs, levels, levelNodes, passes)
    requires LevelPassed(marriages, persons, childs, levels[|passes|], |levels[|passes|]|, p)
    requires next == Flatten(p.steps) && nextNodes == Flatten(p.stepNodes)
    requires |nextNodes| == |next| && MarriageNodes(nextNodes)
    requires forall k :: 0 <= k < |passes| ==> LevelHung(childs, levels[k], levelNodes[k], |levels[k]|, passes[k])
    requires LevelHung(childs, levels[|passes|], levelNodes[|passes|], |levels[|passes|]|, p)
    requires forall k, j :: 0 <= k <= |passes| && 0 <= j < |levelNodes[k]| ==> levelNodes[k][j] !in nextNodes
    ensures LevelsPassed(marriages, persons, childs, levels + [next], levelNodes + [nextNodes], passes + [p])
    ensures next == (levels + [next])[|passes + [p]|] && nextNodes == (levelNodes + [nextNodes])[|passes + [p]|]
    ensures forall k :: 0 <= k < |passes + [p]| ==>
      LevelHung(childs, (levels + [next])[k], (levelNodes + [nextNodes])[k], |(levels + [next])[k]|, (passes + [p])[k])
    ensures forall k, j :: 0 <= k < |passes + [p]| && 0 <= j < |(levelNodes + [nextNodes])[k]| ==>
      (levelNodes + [nextNodes])[k][j] !in nextNodes
  {
    LevelsPassedSnoc(marriages, persons, childs, levels, levelNodes, passes, next, nextNodes, p);
    LevelsHungSnoc(childs, levels, levelNodes, passes, next, nextNodes, p);
  }

  /** The state of the assembly: the walk's records and `touchedPersons`. */
  class TreeBuilder {
    const persons: seq<Person>
    /** The walker's `marriagesMap`. */
    const marriages: map<int, seq<Relation>>
    /** The walker's `childsMap`. */
    const childs: map<int, seq<Person>>
    /** `touchedPersons`: persons already placed on the current level. */
    var touched: set<int>

    ghost predicate Valid()
    {
      MarriagesWellFormed(marriages)
    }

    constructor (walker: GenerationWalker)
      requires walker.Valid()
      ensures persons == walker.persons && marriages == walker.marriages && childs == walker.childs
      ensures touched == {} && Valid()
    {
      persons := walker.persons;
      marriages := walker.marriages;
      childs := walker.childs;
      touched := {};
    }

    /** `iterateOverMarriages`: from `personId`, the depth-first walk over
        the marriages met by the generation walk that collects a connected
        group of spouses, exactly as `MarriageWalk` says. It returns what it
        pushes onto `resultMarriages` and `resultPersons`. */
    method IterateOverMarriages(personId: int) returns (outcome: Outcome, pushedMarriages: seq<Relation>, pushedPersons: seq<Person>)
      requires Valid()
      modifies this`touched
      decreases marriages.Keys - touched
      ensures old(touched) <= touched
      ensures forall id :: id in touched - old(touched) ==> HasMarriages(marriages, id)
      ensures personId in old(touched) || !HasMarriages(marriages, personId) ==>
        outcome == Done && touched == old(touched) && pushedMarriages == [] && pushedPersons == []
      ensures personId !in old(touched) && HasMarriages(marriages, personId) ==> personId in touched
      ensures outcome.Done? ==> MarriageWalk(marriages, persons, personId, old(touched)) == Ok(Pushed(touched, pushedMarriages, pushedPersons))
      ensures outcome.Failed? ==> MarriageWalk(marriages, persons, personId, old(touched)) == Err(outcome.error)
      ensures outcome.Done? ==> WalkedFrom(marriages, persons, personId, old(touched), Pushed(touched, pushedMarriages, pushedPersons))
      ensures outcome.Failed? ==> outcome.error.PersonNotFound?
      ensures KeysFound(persons, marriages) ==> outcome.Done?
    {
      MarriageWalkFacts(marriages, persons, personId, touched);
      if KeysFound(persons, marriages) {
        MarriageWalkCompletes(marriages, persons, personId, touched);
      }
      pushedMarriages, pushedPersons := [], [];
      if personId in touched || !HasMarriages(marriages, personId) {
        return Done, pushedMarriages, pushedPersons;
      }
      var personMarriages := marriages[personId];
      touched := touched + {personId};
      var found := PersonById(persons, personId);
      if found.Err? {
        return Failed(found.error), pushedMarriages, pushedPersons;
      }
      pushedPersons := [found.value];

      for i := 0 to |personMarriages|
        invariant old(touched) + {personId} <= touched
        invariant forall id :: id in touched - old(touched) ==> HasMarriages(marriages, id)
        invariant MarriageWalk(marriages, persons, personId, old(touched)) ==
          MarriagesFrom(marriages, persons, personId, personMarriages, i, Pushed(touched, pushedMarriages, pushedPersons))
      {
        var marriage := personMarriages[i];
        var anotherPersonId := Other(marriage, personId);
        if anotherPersonId in touched {
          continue;
        }
        var subOutcome, subMarriages, subPersons := IterateOverMarriages(anotherPersonId);
        if subOutcome.Failed? {
          return subOutcome, pushedMarriages, pushedPersons;
        }
        pushedMarriages := pushedMarriages + [marriage] + subMarriages;
        pushedPersons := pushedPersons + subPersons;
      }
      outcome := Done;
    }

    /** The `forEach` callback of `getNewPersonsAndNewMarriagesFromChilds`
        for one child, exactly as `ChildContribution` says: a touched child
        is skipped; otherwise the child's marriage group is collected, and a
        child without one stands for itself. */
    method ChildStep(child: Person) returns (outcome: Outcome, pushedMarriages: seq<Relation>, contributed: seq<Person>)
      requires Valid()
      modifies this`touched
      ensures old(touched) <= touched
      ensures forall id :: id in touched - old(touched) ==> HasMarriages(marriages, id)
      ensures child.id in old(touched) || !HasMarriages(marriages, child.id) ==> outcome == Done
      ensures outcome.Done? ==> ContributionOf(marriages, persons, child, old(touched), touched, pushedMarriages, contributed)
      ensures outcome.Failed? ==> ChildContribution(marriages, persons, child, old(touched)) == Err(outcome.error)
      ensures outcome.Failed? ==> outcome.error.PersonNotFound?
      ensures KeysFound(persons, marriages) ==> outcome.Done?
    {
      if child.id in touched {
        return Done, [], [];
      }
      var personsOfGroup;
      outcome, pushedMarriages, personsOfGroup := IterateOverMarriages(child.id);
      if outcome.Failed? {
        return outcome, pushedMarriages, [];
      }
      contributed := if |personsOfGroup| > 0 then personsOfGroup else [child];
    }

    /** `getNewPersonsAndNewMarriagesFromChilds`: the persons to place under
        a marriage and the marriages to hang below them, collected child by
        child as `CollectedFrom` says; `c` records each child's turn. */
    method NewPersonsAndMarriages(childList: seq<Person>)
      returns (outcome: Outcome, newMarriages: seq<Relation>, newPersons: seq<Person>, ghost c: Collection)
      requires Valid()
      modifies this`touched
      ensures old(touched) <= touched
      ensures forall id :: id in touched - old(touched) ==> HasMarriages(marriages, id)
      ensures outcome.Failed? ==> outcome.error.PersonNotFound?
      ensures KeysFound(persons, marriages) ==> outcome.Done?
      ensures outcome.Done? ==> CollectedFrom(marriages, persons, childList, c, newPersons, newMarriages)
      ensures outcome.Done? ==> c.turns[0] == old(touched) && c.turns[|childList|] == touched
      ensures outcome.Done? ==> RowFacts(marriages, childList, |childList|, old(touched), touched, newPersons, newMarriages)
    {
      newMarriages, newPersons := [], [];
      c := Collection([touched], [], []);
      for i := 0 to |childList|
        invariant Collected(marriages, persons, childList, i, c, newPersons, newMarriages)
        invariant c.turns[0] == old(touched) && c.turns[i] == touched
      {
        var stepOutcome, pushedMarriages, contributed := ChildStep(childList[i]);
        if stepOutcome.Failed? {
          return stepOutcome, newMarriages, newPersons, c;
        }
        ContributionOfFacts(marriages, persons, childList[i], c.turns[i], touched, pushedMarriages, contributed);
        CollectedSnoc(marriages, persons, childList, i, c, newPersons, newMarriages, touched, pushedMarriages, contributed);
        c := Extend(c, touched, pushedMarriages, contributed);
        newMarriages := newMarriages + pushedMarriages;
        newPersons := newPersons + contributed;
      }
      assert childList[..|childList|] == childList;
      outcome := Done;
    }

    /** `stepOverMarriage`: the children are collected as
        `getNewPersonsAndNewMarriagesFromChilds` does, and the row of the
        new persons is hung under `marriageNode`, with one fresh marriage
        node per new marriage under its middle. */
    method StepOverMarriage(marriageNode: TreeNode, childList: seq<Person>)
      returns (outcome: Outcome, newMarriagesNodes: seq<TreeNode>, newMarriages: seq<Relation>,
               ghost newPersons: seq<Person>, ghost c: Collection)
      requires Valid()
      modifies this`touched, marriageNode`children
      ensures old(touched) <= touched
      ensures forall id :: id in touched - old(touched) ==> HasMarriages(marriages, id)
      ensures outcome.Failed? ==> outcome.error.PersonNotFound?
      ensures KeysFound(persons, marriages) ==> outcome.Done?
      ensures outcome.Done? ==> CollectedFrom(marriages, persons, childList, c, newPersons, newMarriages)
      ensures outcome.Done? ==> c.turns[0] == old(touched) && c.turns[|childList|] == touched
      ensures outcome.Done? ==> RowFacts(marriages, childList, |childList|, old(touched), touched, newPersons, newMarriages)
      ensures outcome.Done? ==> RowHung(marriageNode, newPersons, newMarriagesNodes)
      ensures outcome.Done? ==> forall n :: n in marriageNode.children.value ==> fresh(n)
      ensures |newMarriagesNodes| == |newMarriages| && MarriageNodes(newMarriagesNodes) && Childless(newMarriagesNodes)
      ensures forall n :: n in newMarriagesNodes ==> fresh(n)
    {
      var rowPersons;
      outcome, newMarriages, rowPersons, c := NewPersonsAndMarriages(childList);
      newPersons := rowPersons;
      if outcome.Failed? {
        return outcome, [], [], newPersons, c;
      }
      newMarriagesNodes := HangRow(marriageNode, rowPersons, newMarriages);
    }

    /** `createTreeWithAllNodes`: the persons of the lowest generation (and
        their marriage groups) are hung under `root`; then, once per further
        generation, a pass of the level loop hangs the rows under the
        marriage nodes of the current level. `levels[i]` and `levelNodes[i]`
        are the marriages and marriage nodes of level `i`, `passes[i]` the
        record of the pass over level `i`. */
    method CreateTreeWithAllNodes(root: TreeNode, generations: seq<(int, seq<Person>)>)
      returns (outcome: Outcome, ghost rootPersons: seq<Person>, ghost rootCollection: Collection,
               ghost levels: seq<seq<Relation>>, ghost levelNodes: seq<seq<TreeNode>>, ghost passes: seq<Pass>)
      requires Valid() && |generations| > 0
      modifies this`touched, root`children
      ensures outcome.Failed? ==> outcome.error.PersonNotFound?
      ensures KeysFound(persons, marriages) ==> outcome.Done?
      ensures outcome.Done? ==> |levels| == |generations| && LevelsPassed(marriages, persons, childs, levels, levelNodes, passes)
      ensures outcome.Done? ==>
        && CollectedFrom(marriages, persons, generations[0].1, rootCollection, rootPersons, levels[0])
        && rootCollection.turns[0] == {}
        && RowFacts(marriages, generations[0].1, |generations[0].1|, {}, rootCollection.turns[|generations[0].1|], rootPersons, levels[0])
      ensures outcome.Done? ==> RowHung(root, rootPersons, levelNodes[0])
      ensures outcome.Done? ==> forall i :: 0 <= i < |passes| ==>
        LevelHung(childs, levels[i], levelNodes[i], |levels[i]|, passes[i])
      ensures outcome.Done? ==> Childless(levelNodes[|passes|])
    {
      levels, levelNodes, passes := [], [], [];
      touched := {};
      var startPersons := generations[0].1;
      var firstMarriagesNodes, firstMarriages;
      outcome, firstMarriagesNodes, firstMarriages, rootPersons, rootCollection := StepOverMarriage(root, startPersons);
      if outcome.Failed? {
        return;
      }
      levels, levelNodes := [firstMarriages], [firstMarriagesNodes];

      var currentMarriages := firstMarriages;
      var currentMarriagesNodes := firstMarriagesNodes;
      for i := 1 to |generations|
        invariant |levels| == i && LevelsPassed(marriages, persons, childs, levels, levelNodes, passes)
        invariant currentMarriages == levels[|passes|] && currentMarriagesNodes == levelNodes[|passes|]
        invariant MarriageNodes(currentMarriagesNodes) && Childless(currentMarriagesNodes)
        invariant forall n :: n in currentMarriagesNodes ==> fresh(n)
        invariant levels[0] == firstMarriages && levelNodes[0] == firstMarriagesNodes
        invariant root !in currentMarriagesNodes && RowHung(root, rootPersons, levelNodes[0])
        invariant forall k :: 0 <= k < |passes| ==> LevelHung(childs, levels[k], levelNodes[k], |levels[k]|, passes[k])
        invariant forall k, j :: 0 <= k < |passes| && 0 <= j < |levelNodes[k]| ==> levelNodes[k][j] !in currentMarriagesNodes
      {
        var levelOutcome, nextMarriages, nextMarriagesNodes;
        levelOutcome, nextMarriages, nextMarriagesNodes, levels, levelNodes, passes :=
          StepOverGeneration(currentMarriages, currentMarriagesNodes, root, rootPersons, levels, levelNodes, passes);
        if levelOutcome.Failed? {
          return levelOutcome, rootPersons, rootCollection, levels, levelNodes, passes;
        }
        currentMarriages := nextMarriages;
        currentMarriagesNodes := nextMarriagesNodes;
      }
      outcome := Done;
    }

    /** One round of the generation loop of `createTreeWithAllNodes` (lines
        660-681): the level pass over the last level built so far. The rows
        hung under the marriage nodes of the earlier levels stay as they
        are. */
    method StepOverGeneration(currentMarriages: seq<Relation>, currentMarriagesNodes: seq<TreeNode>,
                              ghost root: TreeNode, ghost rootPersons: seq<Person>,
                              ghost levels: seq<seq<Relation>>, ghost levelNodes: seq<seq<TreeNode>>, ghost passes: seq<Pass>)
      returns (outcome: Outcome, nextMarriages: seq<Relation>, nextMarriagesNodes: seq<TreeNode>,
               ghost nextLevels: seq<seq<Relation>>, ghost nextLevelNodes: seq<seq<TreeNode>>, ghost nextPasses: seq<Pass>)
      requires Valid() && LevelsPassed(marriages, persons, childs, levels, levelNodes, passes)
      requires currentMarriages == levels[|passes|] && currentMarriagesNodes == levelNodes[|passes|]
      requires MarriageNodes(currentMarriagesNodes) && Childless(currentMarriagesNodes)
      requires forall k :: 0 <= k < |passes| ==> LevelHung(childs, levels[k], levelNodes[k], |levels[k]|, passes[k])
      requires forall k, j :: 0 <= k < |passes| && 0 <= j < |levelNodes[k]| ==> levelNodes[k][j] !in currentMarriagesNodes
      requires root !in currentMarriagesNodes && RowHung(root, rootPersons, levelNodes[0])
      modifies this`touched, set n | n in currentMarriagesNodes
      ensures |nextMarriagesNodes| == |nextMarriages| && MarriageNodes(nextMarriagesNodes) && Childless(nextMarriagesNodes)
      ensures forall n :: n in nextMarriagesNodes ==> fresh(n)
      ensures RowHung(root, rootPersons, levelNodes[0])
      ensures outcome.Failed? ==> outcome.error.PersonNotFound?
      ensures KeysFound(persons, marriages) ==> outcome.Done?
      ensures outcome.Done? ==>
        && nextLevels == levels + [nextMarriages] && nextLevelNodes == levelNodes + [nextMarriagesNodes]
        && |nextPasses| == |passes| + 1 && nextPasses[..|passes|] == passes
      ensures outcome.Done? ==> LevelsPassed(marriages, persons, childs, nextLevels, nextLevelNodes, nextPasses)
      ensures outcome.Done? ==> nextMarriages == nextLevels[|nextPasses|] && nextMarriagesNodes == nextLevelNodes[|nextPasses|]
      ensures outcome.Done? ==> forall k :: 0 <= k < |nextPasses| ==>
        LevelHung(childs, nextLevels[k], nextLevelNodes[k], |nextLevels[k]|, nextPasses[k])
      ensures outcome.Done? ==> forall k, j :: 0 <= k < |nextPasses| && 0 <= j < |nextLevelNodes[k]| ==>
        nextLevelNodes[k][j] !in nextMarriagesNodes
    {
      ghost var rootRow := root.children.value;
      assert forall x :: x in rootRow ==> x.nodeType == PersonNode;
      ghost var pass;
      outcome, nextMarriages, nextMarriagesNodes, pass := StepOverLastLevel(currentMarriages, currentMarriagesNodes, levels, levelNodes, passes);
      assert root.children == old(root.children);
      forall x | x in rootRow ensures x.children == old(x.children) {
        assert x !in currentMarriagesNodes;
      }
      assert RowHung(root, rootPersons, levelNodes[0]);
      nextLevels, nextLevelNodes, nextPasses := levels + [nextMarriages], levelNodes + [nextMarriagesNodes], passes + [pass];
      if outcome.Done? {
        GenerationSnoc(marriages, persons, childs, levels, levelNodes, passes, nextMarriages, nextMarriagesNodes, pass);
      }
    }

    /** The level pass over the last level built so far, after which the
        rows hung in the earlier levels are as they were. */
    method StepOverLastLevel(currentMarriages: seq<Relation>, currentMarriagesNodes: seq<TreeNode>,
                             ghost levels: seq<seq<Relation>>, ghost levelNodes: seq<seq<TreeNode>>, ghost passes: seq<Pass>)
      returns (outcome: Outcome, nextMarriages: seq<Relation>, nextMarriagesNodes: seq<TreeNode>, ghost p: Pass)
      requires Valid() && |currentMarriages| == |currentMarriagesNodes|
      requires MarriageNodes(currentMarriagesNodes) && Childless(currentMarriagesNodes)
      requires |levels| == |levelNodes| == |passes| + 1
      requires forall k :: 0 <= k < |passes| ==> LevelHung(childs, levels[k], levelNodes[k], |levels[k]|, passes[k])
      requires forall k, j :: 0 <= k < |passes| && 0 <= j < |levelNodes[k]| ==> levelNodes[k][j] !in currentMarriagesNodes
      modifies this`touched, set n | n in currentMarriagesNodes
      ensures |nextMarriages| == |nextMarriagesNodes| && MarriageNodes(nextMarriagesNodes) && Childless(nextMarriagesNodes)
      ensures forall n :: n in nextMarriagesNodes ==> fresh(n)
      ensures outcome.Failed? ==> outcome.error.PersonNotFound?
      ensures KeysFound(persons, marriages) ==> outcome.Done?
      ensures outcome.Done? ==> LevelPassed(marriages, persons, childs, currentMarriages, |currentMarriages|, p)
      ensures outcome.Done? ==> nextMarriages == Flatten(p.steps) && nextMarriagesNodes == Flatten(p.stepNodes)
      ensures outcome.Done? ==> LevelHung(childs, currentMarriages, currentMarriagesNodes, |currentMarriages|, p)
      ensures forall k :: 0 <= k < |passes| ==> LevelHung(childs, levels[k], levelNodes[k], |levels[k]|, passes[k])
    {
      forall k | 0 <= k < |passes|
        ensures forall x :: x in levelNodes[k] ==> x !in currentMarriagesNodes
        ensures forall x :: x in RowsOf(levelNodes[k]) ==> x !in currentMarriagesNodes
      {
        LevelRowsArePersons(childs, levels[k], levelNodes[k], passes[k]);
      }
      outcome, nextMarriages, nextMarriagesNodes, p := StepOverLevel(currentMarriages, currentMarriagesNodes);
      forall k | 0 <= k < |passes| ensures LevelHung(childs, levels[k], levelNodes[k], |levels[k]|, passes[k]) {
        assert RowsOf(levelNodes[k]) == old(RowsOf(levelNodes[k]));
      }
    }

    /** One round of the level loop of `createTreeWithAllNodes` (lines
        663-679) at marriage node `index` of the level: without a
        `childsMap` entry the node is left alone; with one it gets its row
        as `stepOverMarriage` builds it. The rows hung under the nodes
        before it, and the nodes made for the next level, stay as they
        are. */
    method StepOverNode(currentMarriages: seq<Relation>, currentMarriagesNodes: seq<TreeNode>, index: nat, ghost p: Pass,
                        ghost nextMarriagesNodes: seq<TreeNode>)
      returns (outcome: Outcome, newMarriagesNodes: seq<TreeNode>, newMarriages: seq<Relation>,
               ghost row: seq<Person>, ghost c: Collection)
      requires Valid() && index < |currentMarriages| == |currentMarriagesNodes| && MarriageNodes(currentMarriagesNodes)
      requires LevelHung(childs, currentMarriages, currentMarriagesNodes, index, p)
      requires currentMarriagesNodes[index].children == None
      requires currentMarriagesNodes[index] !in nextMarriagesNodes && Childless(nextMarriagesNodes)
      modifies this`touched, currentMarriagesNodes[index]
      ensures Childless(nextMarriagesNodes)
      ensures |newMarriagesNodes| == |newMarriages| && MarriageNodes(newMarriagesNodes) && Childless(newMarriagesNodes)
      ensures forall n :: n in newMarriagesNodes ==> fresh(n)
      ensures outcome.Failed? ==> outcome.error.PersonNotFound?
      ensures KeysFound(persons, marriages) ==> outcome.Done?
      ensures outcome.Done? ==> MarriagePassed(marriages, persons, childs, currentMarriages[index], old(touched), touched,
                                               row, newMarriages, newMarriagesNodes, c)
      ensures outcome.Done? ==> LevelHung(childs, currentMarriages, currentMarriagesNodes, index + 1,
                                          ExtendPass(p, touched, row, newMarriages, newMarriagesNodes, c))
    {
      var marriage := currentMarriages[index];
      var marriageNode := currentMarriagesNodes[index];
      ghost var placed := RowsOf(currentMarriagesNodes[..index]);
      assert forall x :: x in placed ==> x.nodeType == PersonNode;
      assert forall j :: 0 <= j < index ==> currentMarriagesNodes[j] != marriageNode;
      if marriage.id !in childs {
        outcome, newMarriagesNodes, newMarriages, row, c := Done, [], [], [], Collection([], [], []);
      } else {
        outcome, newMarriagesNodes, newMarriages, row, c := StepOverMarriage(marriageNode, childs[marriage.id]);
        if outcome.Failed? {
          return;
        }
      }
      forall x | x in placed ensures x.children == old(x.children) {
        assert x != marriageNode;
      }
      LevelHungSnoc(childs, currentMarriages, currentMarriagesNodes, index, p, touched, row, newMarriages, newMarriagesNodes, c);
    }

    /** One pass of the level loop of `createTreeWithAllNodes`:
        `touchedPersons` is cleared, and the marriage nodes of the level are
        visited in order; a node whose marriage has a `childsMap` entry gets
        its row as `stepOverMarriage` builds it, the others are left alone.
        The next level is the new marriages (and their nodes) joined in
        order. */
    method StepOverLevel(currentMarriages: seq<Relation>, currentMarriagesNodes: seq<TreeNode>)
      returns (outcome: Outcome, nextMarriages: seq<Relation>, nextMarriagesNodes: seq<TreeNode>, ghost p: Pass)
      requires Valid() && |currentMarriages| == |currentMarriagesNodes|
      requires MarriageNodes(currentMarriagesNodes) && Childless(currentMarriagesNodes)
      modifies this`touched, set n | n in currentMarriagesNodes
      ensures |nextMarriages| == |nextMarriagesNodes| && MarriageNodes(nextMarriagesNodes) && Childless(nextMarriagesNodes)
      ensures forall n :: n in nextMarriagesNodes ==> fresh(n)
      ensures outcome.Failed? ==> outcome.error.PersonNotFound?
      ensures KeysFound(persons, marriages) ==> outcome.Done?
      ensures outcome.Done? ==> LevelPassed(marriages, persons, childs, currentMarriages, |currentMarriages|, p)
      ensures outcome.Done? ==> nextMarriages == Flatten(p.steps) && nextMarriagesNodes == Flatten(p.stepNodes)
      ensures outcome.Done? ==> LevelHung(childs, currentMarriages, currentMarriagesNodes, |currentMarriages|, p)
    {
      touched := {};
      nextMarriages, nextMarriagesNodes := [], [];
      p := Pass([{}], [], [], [], []);
      for index := 0 to |currentMarriagesNodes|
        invariant LevelPassed(marriages, persons, childs, currentMarriages, index, p) && touched == p.turns[index]
        invariant nextMarriages == Flatten(p.steps) && nextMarriagesNodes == Flatten(p.stepNodes)
        invariant |nextMarriages| == |nextMarriagesNodes| && MarriageNodes(nextMarriagesNodes) && Childless(nextMarriagesNodes)
        invariant forall n :: n in nextMarriagesNodes ==> fresh(n)
        invariant LevelHung(childs, currentMarriages, currentMarriagesNodes, index, p)
        invariant forall j :: index <= j < |currentMarriagesNodes| ==> currentMarriagesNodes[j].children == None
      {
        var marriageNode := currentMarriagesNodes[index];
        assert marriageNode in currentMarriagesNodes && marriageNode !in nextMarriagesNodes;
        var stepOutcome, newMarriagesNodes, newMarriages, row, c := StepOverNode(currentMarriages, currentMarriagesNodes, index, p, nextMarriagesNodes);
        if stepOutcome.Failed? {
          assert !KeysFound(persons, marriages);
          return stepOutcome, nextMarriages, nextMarriagesNodes, p;
        }
        LevelPassedSnoc(marriages, persons, childs, currentMarriages, index, p, touched, row, newMarriages, newMarriagesNodes, c);
        MarriageNodesAppend(nextMarriagesNodes, newMarriagesNodes);
        p := ExtendPass(p, touched, row, newMarriages, newMarriagesNodes, c);
        nextMarriages := nextMarriages + newMarriages;
        nextMarriagesNodes := nextMarriagesNodes + newMarriagesNodes;
      }
      outcome := Done;
    }
  }

  /** `createFullTreeStructure`: the walk from the start person at
      generation 0, the sort of the generations, and the assembly under a
      hidden root. The lookup of `generations[1]` that precedes the
      assembly throws when the walk filed fewer than two generations.
      `walked` is the walk's outcome, `walker` the walker with its records
      and `expansion` the calls the walk made from the start person,
      `sorted` the sorted generations; the rest is what
      `CreateTreeWithAllNodes` returns. A completed walk has filed both
      parties of every marriage it recorded, so the assembly cannot fail
      once the second generation exists. */
  method CreateFullTreeStructure(genealogy: Genealogy, startPersonId: int, fuel: nat)
    returns (result: Result<TreeNode>, ghost walked: Outcome, ghost walker: GenerationWalker, ghost expansion: Expansion,
             ghost sorted: seq<(int, seq<Person>)>, ghost rootPersons: seq<Person>, ghost rootCollection: Collection,
             ghost levels: seq<seq<Relation>>, ghost levelNodes: seq<seq<TreeNode>>, ghost passes: seq<Pass>)
    ensures fresh(walker) && walker.Valid() && walker.persons == genealogy.persons && walker.relations == genealogy.relations
    ensures fuel == 0 ==> result == Err(OutOfFuel)
    ensures fuel > 0 && PersonById(genealogy.persons, startPersonId).Err? ==> result == Err(PersonNotFound(startPersonId))
    ensures walked.Failed? ==> result == Err(walked.error)
    ensures walked.Done? ==> 0 in walker.generations && startPersonId in Ids(walker.generations[0])
    ensures walked.Done? ==>
      && Expand(genealogy.persons, genealogy.relations, Visit(startPersonId, None, None, None, 0)) == Ok(expansion)
      && forall v :: v in expansion.parents + expansion.siblings + expansion.marriages ==> Recorded(walker.filed, v)
    ensures walked.Done? ==> KeysFound(genealogy.persons, walker.marriages)
    ensures walked.Done? && |walker.generations| >= 2 ==> result.Ok?
    ensures walked.Done? ==>
      && |sorted| == |walker.generations| && SortedByKey(sorted)
      && (forall i :: 0 <= i < |sorted| ==> sorted[i].0 in walker.generations && sorted[i].1 == walker.generations[sorted[i].0])
      && (forall k :: k in walker.generations ==> exists i :: 0 <= i < |sorted| && sorted[i].0 == k)
    ensures walked.Done? && |walker.generations| < 2 ==> result == Err(MissingGeneration(1))
    ensures result.Ok? ==> walked.Done? && PersonById(genealogy.persons, startPersonId).Ok?
    ensures result.Ok? ==>
      && fresh(result.value) && result.value.name == "" && result.value.nodeType == PersonNode
      && result.value.hidden == Some(true) && result.value.noParent == None
    ensures result.Ok? ==>
      && |sorted| >= 2 && |levels| == |sorted|
      && LevelsPassed(walker.marriages, genealogy.persons, walker.childs, levels, levelNodes, passes)
    ensures result.Ok? ==>
      && CollectedFrom(walker.marriages, genealogy.persons, sorted[0].1, rootCollection, rootPersons, levels[0])
      && rootCollection.turns[0] == {}
      && RowFacts(walker.marriages, sorted[0].1, |sorted[0].1|, {}, rootCollection.turns[|sorted[0].1|], rootPersons, levels[0])
    ensures result.Ok? ==> RowHung(result.value, rootPersons, levelNodes[0])
    ensures result.Ok? ==> forall i :: 0 <= i < |passes| ==>
      LevelHung(walker.childs, levels[i], levelNodes[i], |levels[i]|, passes[i])
    ensures result.Ok? ==> Childless(levelNodes[|passes|])
  {
    sorted, rootPersons, rootCollection, levels, levelNodes, passes := [], [], Collection([], [], []), [], [], [];
    var w := new GenerationWalker(genealogy);
    walker := w;
    var start := Visit(startPersonId, None, None, None, 0);
    PersonByIdMember(genealogy.persons, startPersonId);
    var walkOutcome;
    walkOutcome, expansion := w.Walk(start, fuel);
    walked := walkOutcome;
    if walkOutcome.Failed? {
      result := Err(walkOutcome.error);
      return;
    }
    assert Recorded(w.filed, start);
    assert KeysFound(genealogy.persons, w.marriages) by {
      assert NewKeysFound(genealogy.persons, map[], w.marriages);
    }
    var generations := SortGenerations(w.generations);
    sorted := generations;
    if |generations| < 2 {
      result := Err(MissingGeneration(1));
      return;
    }
    result, rootPersons, rootCollection, levels, levelNodes, passes := AssembleTree(w, generations);
  }

  /** The assembly part of `createFullTreeStructure`, once the generations
      are sorted and the second one exists: a new hidden, unnamed root and
      `CreateTreeWithAllNodes` over the walker's records. It fails only
      when a person a recorded marriage names cannot be found. */
  method AssembleTree(walker: GenerationWalker, generations: seq<(int, seq<Person>)>)
    returns (result: Result<TreeNode>, ghost rootPersons: seq<Person>, ghost rootCollection: Collection,
             ghost levels: seq<seq<Relation>>, ghost levelNodes: seq<seq<TreeNode>>, ghost passes: seq<Pass>)
    requires walker.Valid() && |generations| >= 2
    ensures result.Err? ==> result.error.PersonNotFound?
    ensures KeysFound(walker.persons, walker.marriages) ==> result.Ok?
    ensures result.Ok? ==>
      && fresh(result.value) && result.value.name == "" && result.value.nodeType == PersonNode
      && result.value.hidden == Some(true) && result.value.noParent == None
    ensures result.Ok? ==>
      && |levels| == |generations|
      && LevelsPassed(walker.marriages, walker.persons, walker.childs, levels, levelNodes, passes)
    ensures result.Ok? ==>
      && CollectedFrom(walker.marriages, walker.persons, generations[0].1, rootCollection, rootPersons, levels[0])
      && rootCollection.turns[0] == {}
      && RowFacts(walker.marriages, generations[0].1, |generations[0].1|, {}, rootCollection.turns[|generations[0].1|], rootPersons, levels[0])
    ensures result.Ok? ==> RowHung(result.value, rootPersons, levelNodes[0])
    ensures result.Ok? ==> forall i :: 0 <= i < |passes| ==>
      LevelHung(walker.childs, levels[i], levelNodes[i], |levels[i]|, passes[i])
    ensures result.Ok? ==> Childless(levelNodes[|passes|])
  {
    var treeRoot := new TreeNode("", PersonNode, Some(true), None);
    var builder := new TreeBuilder(walker);
    var built;
    built, rootPersons, rootCollection, levels, levelNodes, passes := builder.CreateTreeWithAllNodes(treeRoot, generations);
    if built.Failed? {
      result := Err(built.error);
      return;
    }
    result := Ok(treeRoot);
  }
}
