/**
 * The generation walker of `createFullTreeStructure`
 * (src/components/romanov-tree.ts): a depth-first walk from the start
 * person over parent, sibling, spouse and child edges that files every
 * person it meets under a signed generation number and records marriages
 * per person and children per marriage. Its only cycle guards are the two
 * "previous" markers of a call; there is no visited set.
 */
module GenerationWalk {
  import opened Optional
  import opened Store

  /** The arguments of one call of `iterateOverGenealogy`. */
  datatype Visit = Visit(
    currentPersonId: int,
    previousPersonId: Option<int>,
    previousRelationId: Option<int>,
    previousParentRelationId: Option<int>,
    generationNumber: int)

  /** The recursive calls one call makes directly, in order: the two parents,
      then the siblings, then for every marriage the spouse followed by the
      children of that marriage. */
  datatype Expansion = Expansion(parents: seq<Visit>, siblings: seq<Visit>, marriages: seq<Visit>)

  // ---------------------------------------------------------------------
  // The walker's buckets and adjacency maps

  function Ids(bucket: seq<Person>): set<int>
  {
    set q | q in bucket :: q.id
  }

  lemma IdsConcat(a: seq<Person>, b: seq<Person>)
    ensures Ids(a + b) == Ids(a) + Ids(b)
  {
    assert forall q :: q in a + b <==> q in a || q in b;
  }

  ghost predicate UniqueIds(bucket: seq<Person>)
  {
    forall i, j :: 0 <= i < j < |bucket| ==> bucket[i].id != bucket[j].id
  }

  /** The position of the first entry with the given id, or the bucket's
      length when there is none. */
  function IndexOfId(bucket: seq<Person>, id: int): (i: nat)
    ensures i <= |bucket|
    ensures i < |bucket| ==> bucket[i].id == id
    ensures forall j :: 0 <= j < i ==> bucket[j].id != id
  {
    if bucket == [] then 0
    else if bucket[0].id == id then 0
    else 1 + IndexOfId(bucket[1..], id)
  }

  /** A generation bucket is a `Map<number, TPerson>` keyed by person id,
      kept here as its entries in insertion order. `Map.prototype.set`
      replaces the entry of an existing key where it stands and appends a
      new key at the end. */
  function SetById(bucket: seq<Person>, person: Person): seq<Person>
  {
    var i := IndexOfId(bucket, person.id);
    if i < |bucket| then bucket[i := person] else bucket + [person]
  }

  /** On a bucket without repeated ids, `SetById` overwrites the entry with
      the person's id in place, or appends the person when no entry has that
      id; the ids stay unique and gain the person's id. */
  lemma SetByIdKeepsKeysUnique(bucket: seq<Person>, person: Person)
    requires UniqueIds(bucket)
    ensures UniqueIds(SetById(bucket, person))
    ensures person in SetById(bucket, person)
    ensures person.id !in Ids(bucket) ==> SetById(bucket, person) == bucket + [person]
    ensures person.id in Ids(bucket) ==> |SetById(bucket, person)| == |bucket|
    ensures forall i :: 0 <= i < |bucket| ==> SetById(bucket, person)[i] == if bucket[i].id == person.id then person else bucket[i]
    ensures Ids(SetById(bucket, person)) == Ids(bucket) + {person.id}
  {
    var i := IndexOfId(bucket, person.id);
    var r := SetById(bucket, person);
    if i < |bucket| {
      assert person.id in Ids(bucket);
      forall id | id in Ids(r) ensures id in Ids(bucket) + {person.id} {
        var j :| 0 <= j < |r| && r[j].id == id;
      }
      forall id | id in Ids(bucket) ensures id in Ids(r) {
        var j :| 0 <= j < |bucket| && bucket[j].id == id;
        assert r[j].id == id;
      }
    } else {
      assert person.id !in Ids(bucket);
      assert forall q :: q in r <==> q in bucket || q == person;
    }
  }

  function Bucket(generations: map<int, seq<Person>>, generationNumber: int): seq<Person>
  {
    if generationNumber in generations then generations[generationNumber] else []
  }

  /** Push onto the list stored under `key`, starting a new list when there is none. */
  function AppendAt<K, V>(m: map<K, seq<V>>, key: K, value: V): map<K, seq<V>>
  {
    m[key := (if key in m then m[key] else []) + [value]]
  }

  /** The other party of a marriage, as the source computes it. */
  function Other(marriage: Relation, personId: int): int
  {
    if marriage.firstPersonId == personId then marriage.secondPersonId else marriage.firstPersonId
  }

  /** Every marriage listed for a person involves that person, and is listed
      for both of its parties. */
  ghost predicate MarriagesWellFormed(marriages: map<int, seq<Relation>>)
  {
    forall p, m :: p in marriages && m in marriages[p] ==>
      && IsParty(m, p)
      && m.firstPersonId in marriages && m in marriages[m.firstPersonId]
      && m.secondPersonId in marriages && m in marriages[m.secondPersonId]
  }

  lemma AppendAtMembers<K, V>(m: map<K, seq<V>>, key: K, value: V)
    ensures forall k :: k in AppendAt(m, key, value) <==> k in m || k == key
    ensures forall k, x :: k in AppendAt(m, key, value) && x in AppendAt(m, key, value)[k] <==>
      (k in m && x in m[k]) || (k == key && x == value)
  {
  }

  /** Listing a marriage under both of its parties keeps the marriage
      lists well formed. */
  lemma {:induction false} AddMarriageKeepsWellFormed(marriages: map<int, seq<Relation>>, marriage: Relation)
    requires MarriagesWellFormed(marriages)
    ensures MarriagesWellFormed(AppendAt(AppendAt(marriages, marriage.firstPersonId, marriage), marriage.secondPersonId, marriage))
  {
    var once := AppendAt(marriages, marriage.firstPersonId, marriage);
    var twice := AppendAt(once, marriage.secondPersonId, marriage);
    AppendAtMembers(marriages, marriage.firstPersonId, marriage);
    AppendAtMembers(once, marriage.secondPersonId, marriage);
    forall p: int, m: Relation | p in twice && m in twice[p]
      ensures IsParty(m, p)
      ensures m.firstPersonId in twice && m in twice[m.firstPersonId]
      ensures m.secondPersonId in twice && m in twice[m.secondPersonId]
    {
      if m != marriage {
        assert p in marriages && m in marriages[p];
      }
    }
  }

  /** Every list of `before` is a prefix of the list under the same key in
      `after`: the walk only appends to its adjacency maps. */
  ghost predicate Grows<K, V>(before: map<K, seq<V>>, after: map<K, seq<V>>)
  {
    forall k :: k in before ==> k in after && before[k] <= after[k]
  }

  lemma {:induction false} GrowsTransitive<K, V>(a: map<K, seq<V>>, b: map<K, seq<V>>, c: map<K, seq<V>>)
    requires Grows(a, b) && Grows(b, c)
    ensures Grows(a, c)
  {
    forall k | k in a
      ensures k in c && a[k] <= c[k]
    {
      assert a[k] == b[k][..|a[k]|];
      assert b[k] == c[k][..|b[k]|];
      assert a[k] == c[k][..|a[k]|];
    }
  }

  /** What a growing map lists, it keeps listing. */
  lemma {:induction false} GrowsKeeps<K, V>(before: map<K, seq<V>>, after: map<K, seq<V>>)
    requires Grows(before, after)
    ensures forall k, x :: k in before && x in before[k] ==> k in after && x in after[k]
  {
    forall k, x | k in before && x in before[k]
      ensures k in after && x in after[k]
    {
      assert before[k] == after[k][..|before[k]|];
    }
  }

  lemma AppendAtGrows<K, V>(m: map<K, seq<V>>, key: K, value: V)
    ensures Grows(m, AppendAt(m, key, value))
  {
  }

  /** The marriage is listed under both of its parties. */
  ghost predicate MarriageFiled(marriages: map<int, seq<Relation>>, marriage: Relation)
  {
    && marriage.firstPersonId in marriages && marriage in marriages[marriage.firstPersonId]
    && marriage.secondPersonId in marriages && marriage in marriages[marriage.secondPersonId]
  }

  /** Marriages listed under both parties stay listed while the map grows. */
  lemma {:induction false} MarriagesStayFiled(before: map<int, seq<Relation>>, after: map<int, seq<Relation>>, ms: seq<Relation>, n: nat)
    requires Grows(before, after) && n <= |ms|
    requires forall j :: 0 <= j < n ==> MarriageFiled(before, ms[j])
    ensures forall j :: 0 <= j < n ==> MarriageFiled(after, ms[j])
  {
    GrowsKeeps(before, after);
  }

  /** A person born of a marriage is listed among that marriage's children. */
  ghost predicate ChildFiled(childs: map<int, seq<Person>>, person: Person)
  {
    person.parentsRelationId.Some? ==>
      person.parentsRelationId.value in childs && person in childs[person.parentsRelationId.value]
  }

  /** The visit's person has been filed under the visit's generation. */
  ghost predicate Recorded(filed: set<(int, int)>, v: Visit)
  {
    (v.generationNumber, v.currentPersonId) in filed
  }

  /** Every person with a list in `marriagesMap` can be looked up. */
  ghost predicate KeysFound(persons: seq<Person>, marriages: map<int, seq<Relation>>)
  {
    forall id {:trigger PersonById(persons, id)} :: id in marriages ==> PersonById(persons, id).Ok?
  }

  /** Every person given a list in `marriagesMap` between `before` and
      `after` can be looked up. */
  ghost predicate NewKeysFound(persons: seq<Person>, before: map<int, seq<Relation>>, after: map<int, seq<Relation>>)
  {
    forall id :: id in after && id !in before ==> PersonById(persons, id).Ok?
  }

  /** Recording a marriage whose parties can both be looked up gives only
      keys that can be looked up. */
  lemma AddMarriageFound(persons: seq<Person>, marriages: map<int, seq<Relation>>, marriage: Relation)
    requires PersonById(persons, marriage.firstPersonId).Ok? && PersonById(persons, marriage.secondPersonId).Ok?
    ensures NewKeysFound(persons, marriages, AppendAt(AppendAt(marriages, marriage.firstPersonId, marriage), marriage.secondPersonId, marriage))
  {
  }

  /** A marriage whose parties can both be looked up, recorded before walks
      that add only keys that can be looked up, adds only such keys. */
  lemma RecordedKeysFound(persons: seq<Person>, before: map<int, seq<Relation>>, visited: map<int, seq<Relation>>,
                          after: map<int, seq<Relation>>, marriage: Relation)
    requires PersonById(persons, marriage.firstPersonId).Ok? && PersonById(persons, marriage.secondPersonId).Ok?
    requires NewKeysFound(persons, AppendAt(AppendAt(before, marriage.firstPersonId, marriage), marriage.secondPersonId, marriage), visited)
    requires NewKeysFound(persons, visited, after)
    ensures NewKeysFound(persons, before, after)
  {
    var recorded := AppendAt(AppendAt(before, marriage.firstPersonId, marriage), marriage.secondPersonId, marriage);
    AddMarriageFound(persons, before, marriage);
    NewKeysFoundTransitive(persons, recorded, visited, after);
    NewKeysFoundTransitive(persons, before, recorded, after);
  }

  /** When a party of a marriage and the other party can be looked up, both
      parties can. */
  lemma PartiesFound(persons: seq<Person>, marriage: Relation, personId: int)
    requires PersonById(persons, personId).Ok? && IsParty(marriage, personId) && PersonById(persons, Other(marriage, personId)).Ok?
    ensures PersonById(persons, marriage.firstPersonId).Ok? && PersonById(persons, marriage.secondPersonId).Ok?
  {
  }

  /** The person can be looked up and is a party of every marriage listed. */
  ghost predicate PartyOfAll(persons: seq<Person>, personId: int, ms: seq<Relation>)
  {
    PersonById(persons, personId).Ok? && forall m :: m in ms ==> IsParty(m, personId)
  }

  lemma NewKeysFoundTransitive(persons: seq<Person>, a: map<int, seq<Relation>>, b: map<int, seq<Relation>>, c: map<int, seq<Relation>>)
    requires NewKeysFound(persons, a, b) && NewKeysFound(persons, b, c)
    ensures NewKeysFound(persons, a, c)
  {
    forall id | id in c && id !in a ensures PersonById(persons, id).Ok? {
      if id in b {
        assert PersonById(persons, id).Ok?;
      }
    }
  }

  // ---------------------------------------------------------------------
  // One step of the walk, as a function of the store

  /** The walk climbs to the parents only when the person has a parents'
      marriage and that marriage is not the one the walk just came down. */
  predicate Ascends(person: Person, v: Visit)
  {
    person.parentsRelationId.Some? && person.parentsRelationId != v.previousParentRelationId
  }

  function ParentVisits(parentRelation: Relation, v: Visit): seq<Visit>
  {
    [Visit(parentRelation.firstPersonId, Some(v.currentPersonId), Some(parentRelation.id), None, v.generationNumber - 1),
     Visit(parentRelation.secondPersonId, Some(v.currentPersonId), Some(parentRelation.id), None, v.generationNumber - 1)]
  }

  /** The call on a person reached from the marriage they were born of (a
      sibling or a child): that marriage becomes its `previousParentRelationId`. */
  function BornVisit(person: Person, v: Visit, relationId: int, generationNumber: int): Visit
  {
    Visit(person.id, Some(v.currentPersonId), None, Some(relationId), generationNumber)
  }

  function VisitsVia(persons: seq<Person>, v: Visit, relationId: int, generationNumber: int): seq<Visit>
  {
    seq(|persons|, i requires 0 <= i < |persons| => BornVisit(persons[i], v, relationId, generationNumber))
  }

  function SpouseVisit(marriage: Relation, v: Visit): Visit
  {
    Visit(Other(marriage, v.currentPersonId), Some(v.currentPersonId), Some(marriage.id), None, v.generationNumber)
  }

  /** The person's marriages without the one the walk just crossed. */
  function FilteredMarriages(marriages: seq<Relation>, previousRelationId: Option<int>): seq<Relation>
  {
    if previousRelationId.None? || marriages == [] then marriages
    else if marriages[0].id == previousRelationId.value then FilteredMarriages(marriages[1..], previousRelationId)
    else [marriages[0]] + FilteredMarriages(marriages[1..], previousRelationId)
  }

  /** The marriages kept are exactly the given marriages other than the one
      the walk just crossed, each as often as given, in the given order. */
  lemma {:induction false} FilteredMarriagesKeeps(marriages: seq<Relation>, previousRelationId: Option<int>)
    ensures forall m :: m in FilteredMarriages(marriages, previousRelationId) <==>
      m in marriages && Some(m.id) != previousRelationId
    ensures forall m: Relation {:trigger multiset(FilteredMarriages(marriages, previousRelationId))[m]} ::
      Some(m.id) != previousRelationId ==> multiset(FilteredMarriages(marriages, previousRelationId))[m] == multiset(marriages)[m]
    ensures IsSubsequence(FilteredMarriages(marriages, previousRelationId), marriages)
  {
    if previousRelationId.None? {
      SubsequenceOfItself(marriages);
    } else if marriages != [] {
      var rest := FilteredMarriages(marriages[1..], previousRelationId);
      FilteredMarriagesKeeps(marriages[1..], previousRelationId);
      assert marriages == [marriages[0]] + marriages[1..];
      if marriages[0].id != previousRelationId.value {
        assert ([marriages[0]] + rest)[1..] == rest;
      }
    }
  }

  /** Every marriage a call walks over involves the call's person. */
  lemma MarriagesOfPerson(persons: seq<Person>, relations: seq<Relation>, personId: int, previousRelationId: Option<int>)
    requires PersonById(persons, personId).Ok?
    ensures PartyOfAll(persons, personId, FilteredMarriages(RelationsByPersonId(relations, personId), previousRelationId))
  {
    RelationsByPersonIdKeeps(relations, personId);
    FilteredMarriagesKeeps(RelationsByPersonId(relations, personId), previousRelationId);
  }

  lemma {:induction false} SubsequenceOfItself<T>(s: seq<T>)
    ensures IsSubsequence(s, s)
    decreases |s|
  {
    if s != [] {
      SubsequenceOfItself(s[1..]);
    }
  }

  /** The persons of a list other than the one with the given id. */
  function OtherThan(persons: seq<Person>, personId: int): seq<Person>
  {
    if persons == [] then []
    else if persons[0].id == personId then OtherThan(persons[1..], personId)
    else [persons[0]] + OtherThan(persons[1..], personId)
  }

  /** The siblings filter keeps exactly the persons with another id, each as
      often as listed, in the listed order. */
  lemma {:induction false} OtherThanKeeps(persons: seq<Person>, personId: int)
    ensures forall q :: q in OtherThan(persons, personId) <==> q in persons && q.id != personId
    ensures forall q: Person {:trigger multiset(OtherThan(persons, personId))[q]} ::
      q.id != personId ==> multiset(OtherThan(persons, personId))[q] == multiset(persons)[q]
    ensures IsSubsequence(OtherThan(persons, personId), persons)
  {
    if persons != [] {
      var rest := OtherThan(persons[1..], personId);
      OtherThanKeeps(persons[1..], personId);
      assert persons == [persons[0]] + persons[1..];
      if persons[0].id != personId {
        assert ([persons[0]] + rest)[1..] == rest;
      }
    }
  }

  /** The other children of the marriage the person was born of. */
  function Siblings(persons: seq<Person>, parentRelationId: int, personId: int): seq<Person>
  {
    OtherThan(PersonsByParentRelationId(persons, parentRelationId), personId)
  }

  lemma {:induction false} SubsequenceTransitive<T>(a: seq<T>, b: seq<T>, c: seq<T>)
    requires IsSubsequence(a, b) && IsSubsequence(b, c)
    ensures IsSubsequence(a, c)
    decreases |c|
  {
    if a != [] {
      if b[0] == c[0] && IsSubsequence(b[1..], c[1..]) {
        if a[0] == b[0] && IsSubsequence(a[1..], b[1..]) {
          SubsequenceTransitive(a[1..], b[1..], c[1..]);
        } else {
          SubsequenceTransitive(a, b[1..], c[1..]);
        }
      } else {
        SubsequenceTransitive(a, b, c[1..]);
      }
    }
  }

  /** The siblings are the other children of the marriage, each as often as
      stored, in the store's insertion order. */
  lemma SiblingsKeeps(persons: seq<Person>, parentRelationId: int, personId: int)
    ensures forall q :: q in Siblings(persons, parentRelationId, personId) <==>
      q in persons && q.parentsRelationId == Some(parentRelationId) && q.id != personId
    ensures forall q: Person {:trigger multiset(Siblings(persons, parentRelationId, personId))[q]} ::
      q.parentsRelationId == Some(parentRelationId) && q.id != personId ==>
        multiset(Siblings(persons, parentRelationId, personId))[q] == multiset(persons)[q]
    ensures IsSubsequence(Siblings(persons, parentRelationId, personId), persons)
  {
    var children := PersonsByParentRelationId(persons, parentRelationId);
    PersonsByParentRelationIdKeeps(persons, parentRelationId);
    OtherThanKeeps(children, personId);
    SubsequenceTransitive(OtherThan(children, personId), children, persons);
  }

  /** The calls made for one marriage: the spouse, then the children of the marriage. */
  function MarriageStep(persons: seq<Person>, marriage: Relation, v: Visit): seq<Visit>
  {
    [SpouseVisit(marriage, v)] + VisitsVia(PersonsByParentRelationId(persons, marriage.id), v, marriage.id, v.generationNumber + 1)
  }

  function MarriageVisits(persons: seq<Person>, marriages: seq<Relation>, v: Visit): seq<Visit>
    decreases |marriages|
  {
    if marriages == [] then []
    else MarriageVisits(persons, marriages[..|marriages| - 1], v) + MarriageStep(persons, marriages[|marriages| - 1], v)
  }

  lemma MarriageVisitsSnoc(persons: seq<Person>, marriages: seq<Relation>, i: nat, v: Visit)
    requires i < |marriages|
    ensures MarriageVisits(persons, marriages[..i + 1], v) == MarriageVisits(persons, marriages[..i], v) + MarriageStep(persons, marriages[i], v)
  {
    assert marriages[..i + 1][..i] == marriages[..i];
  }

  /** The calls of the climb to the parents' marriage `parentsRelationId`:
      both parents, then every sibling, or the error a lookup throws. */
  function Climb(persons: seq<Person>, relations: seq<Relation>, parentsRelationId: int, v: Visit): Result<Expansion>
  {
    match RelationById(relations, parentsRelationId)
    case Err(e) => Err(e)
    case Ok(parentRelation) =>
      if PersonById(persons, parentRelation.firstPersonId).Err? then Err(PersonNotFound(parentRelation.firstPersonId))
      else if PersonById(persons, parentRelation.secondPersonId).Err? then Err(PersonNotFound(parentRelation.secondPersonId))
      else
        var siblings := VisitsVia(Siblings(persons, parentRelation.id, v.currentPersonId), v, parentRelation.id, v.generationNumber);
        Ok(Expansion(ParentVisits(parentRelation, v), siblings, []))
  }

  /** The direct recursive calls of `iterateOverGenealogy(v)` on a store
      holding `persons` and `relations`, or the error a lookup throws before
      the first of them. */
  function Expand(persons: seq<Person>, relations: seq<Relation>, v: Visit): Result<Expansion>
  {
    match PersonById(persons, v.currentPersonId)
    case Err(e) => Err(e)
    case Ok(person) =>
      var marriageVisits := MarriageVisits(persons, FilteredMarriages(RelationsByPersonId(relations, v.currentPersonId), v.previousRelationId), v);
      if !Ascends(person, v) then Ok(Expansion([], [], marriageVisits))
      else
        match Climb(persons, relations, person.parentsRelationId.value, v)
        case Err(e) => Err(e)
        case Ok(climb) => Ok(Expansion(climb.parents, climb.siblings, marriageVisits))
  }

  // ---------------------------------------------------------------------
  // The edge rule of one step

  lemma VisitsViaMembers(ps: seq<Person>, v: Visit, relationId: int, generationNumber: int)
    ensures forall w :: w in VisitsVia(ps, v, relationId, generationNumber) <==>
      exists c :: c in ps && w == BornVisit(c, v, relationId, generationNumber)
  {
    var r := VisitsVia(ps, v, relationId, generationNumber);
    forall w | w in r ensures exists c :: c in ps && w == BornVisit(c, v, relationId, generationNumber) {
      var i :| 0 <= i < |r| && r[i] == w;
      assert ps[i] in ps;
    }
    forall c | c in ps ensures BornVisit(c, v, relationId, generationNumber) in r {
      var i :| 0 <= i < |ps| && ps[i] == c;
      assert r[i] == BornVisit(c, v, relationId, generationNumber);
    }
  }

  /** `w` is a call made across `marriage`: to the spouse, or to a child of
      the marriage one generation down. */
  ghost predicate MarriageCall(persons: seq<Person>, marriage: Relation, v: Visit, w: Visit)
  {
    || w == SpouseVisit(marriage, v)
    || exists c :: c in persons && c.parentsRelationId == Some(marriage.id) && w == BornVisit(c, v, marriage.id, v.generationNumber + 1)
  }

  /** The calls made for one marriage are the call on the spouse and one
      call per child of the marriage, a generation further down. */
  lemma MarriageStepMembers(persons: seq<Person>, marriage: Relation, v: Visit)
    ensures forall w :: w in MarriageStep(persons, marriage, v) <==> MarriageCall(persons, marriage, v, w)
  {
    var children := PersonsByParentRelationId(persons, marriage.id);
    PersonsByParentRelationIdKeeps(persons, marriage.id);
    VisitsViaMembers(children, v, marriage.id, v.generationNumber + 1);
  }

  /** The calls made for a list of marriages are those made for each of them. */
  lemma {:induction false} MarriageVisitsMembers(persons: seq<Person>, marriages: seq<Relation>, v: Visit)
    ensures forall w :: w in MarriageVisits(persons, marriages, v) <==>
      exists m :: m in marriages && w in MarriageStep(persons, m, v)
    decreases |marriages|
  {
    if marriages != [] {
      var init := marriages[..|marriages| - 1];
      var last := marriages[|marriages| - 1];
      MarriageVisitsMembers(persons, init, v);
      assert marriages == init + [last];
      assert MarriageVisits(persons, marriages, v) == MarriageVisits(persons, init, v) + MarriageStep(persons, last, v);
      forall w | w in MarriageVisits(persons, marriages, v)
        ensures exists m :: m in marriages && w in MarriageStep(persons, m, v)
      {
        if w !in MarriageStep(persons, last, v) {
          var m :| m in init && w in MarriageStep(persons, m, v);
          assert m in marriages;
        }
      }
    }
  }

  /** A step either fails on a lookup, or makes exactly the calls the
      edge rule allows: the climb happens iff the person has a parents'
      marriage other than `previousParentRelationId`, and it visits the two
      parties of that marriage one generation up, with that marriage as the
      one just crossed. */
  lemma ExpandAscent(persons: seq<Person>, relations: seq<Relation>, v: Visit)
    requires Expand(persons, relations, v).Ok?
    ensures PersonById(persons, v.currentPersonId).Ok?
    ensures var person := PersonById(persons, v.currentPersonId).value;
      var e := Expand(persons, relations, v).value;
      && (e.parents != [] <==> Ascends(person, v))
      && (!Ascends(person, v) ==> e.siblings == [])
      && (Ascends(person, v) ==>
            && RelationById(relations, person.parentsRelationId.value).Ok?
            && var parentRelation := RelationById(relations, person.parentsRelationId.value).value;
            && IsParty(parentRelation, e.parents[0].currentPersonId)
            && IsParty(parentRelation, e.parents[1].currentPersonId)
            && e.parents == [
                 Visit(parentRelation.firstPersonId, Some(v.currentPersonId), person.parentsRelationId, None, v.generationNumber - 1),
                 Visit(parentRelation.secondPersonId, Some(v.currentPersonId), person.parentsRelationId, None, v.generationNumber - 1)])
  {
    var person := PersonById(persons, v.currentPersonId).value;
    if Ascends(person, v) {
      RelationByIdMember(relations, person.parentsRelationId.value);
    }
  }

  /** The siblings visited are exactly the other children of the person's
      parents' marriage, each at the person's own generation. */
  lemma ExpandSiblings(persons: seq<Person>, relations: seq<Relation>, v: Visit)
    requires Expand(persons, relations, v).Ok?
    ensures PersonById(persons, v.currentPersonId).Ok?
    ensures var person := PersonById(persons, v.currentPersonId).value;
      var e := Expand(persons, relations, v).value;
      Ascends(person, v) ==>
        && e.siblings == VisitsVia(Siblings(persons, person.parentsRelationId.value, v.currentPersonId), v, person.parentsRelationId.value, v.generationNumber)
        && forall w :: w in e.siblings <==>
          exists s :: s in persons && s.parentsRelationId == person.parentsRelationId && s.id != v.currentPersonId &&
            w == BornVisit(s, v, person.parentsRelationId.value, v.generationNumber)
  {
    var person := PersonById(persons, v.currentPersonId).value;
    if Ascends(person, v) {
      var parentsRelationId := person.parentsRelationId.value;
      RelationByIdMember(relations, parentsRelationId);
      PersonsByParentRelationIdKeeps(persons, parentsRelationId);
      OtherThanKeeps(PersonsByParentRelationId(persons, parentsRelationId), v.currentPersonId);
      VisitsViaMembers(Siblings(persons, parentsRelationId, v.currentPersonId), v, parentsRelationId, v.generationNumber);
    }
  }

  /** The marriage calls are exactly, for every marriage of the person other
      than `previousRelationId`, the spouse at the same generation and the
      children of that marriage one generation down. */
  lemma ExpandMarriages(persons: seq<Person>, relations: seq<Relation>, v: Visit)
    requires Expand(persons, relations, v).Ok?
    ensures forall w :: w in Expand(persons, relations, v).value.marriages <==>
      exists m :: m in relations && IsParty(m, v.currentPersonId) && Some(m.id) != v.previousRelationId &&
        MarriageCall(persons, m, v, w)
  {
    var marriages := RelationsByPersonId(relations, v.currentPersonId);
    var filtered := FilteredMarriages(marriages, v.previousRelationId);
    RelationsByPersonIdKeeps(relations, v.currentPersonId);
    FilteredMarriagesKeeps(marriages, v.previousRelationId);
    MarriageVisitsMembers(persons, filtered, v);
    forall m | m in filtered {
      MarriageStepMembers(persons, m, v);
    }
  }

  /** The marriage `previousRelationId` is never crossed again: no marriage
      call goes over it, neither to the spouse nor to a child. Spouses stay
      at the generation, children go one down. */
  lemma PreviousMarriageNotCrossed(persons: seq<Person>, relations: seq<Relation>, v: Visit)
    requires Expand(persons, relations, v).Ok?
    ensures forall w :: w in Expand(persons, relations, v).value.marriages ==>
      && w.previousPersonId == Some(v.currentPersonId)
      && (v.previousRelationId.Some? ==> w.previousRelationId != v.previousRelationId && w.previousParentRelationId != v.previousRelationId)
      && (w.previousRelationId.Some? ==> w.generationNumber == v.generationNumber && w.previousParentRelationId.None?)
      && (w.previousRelationId.None? ==> w.generationNumber == v.generationNumber + 1 && w.previousParentRelationId.Some?)
  {
    ExpandMarriages(persons, relations, v);
  }

  // ---------------------------------------------------------------------
  // The walker's state and operations

  class GenerationWalker {
    /** The store's records; the walk only reads them. */
    const persons: seq<Person>
    const relations: seq<Relation>
    /** `generationsMap`: generation number -> bucket of persons. */
    var generations: map<int, seq<Person>>
    var minGenerationIndex: int
    var maxGenerationIndex: int
    /** `marriagesMap`: person id -> marriages met, in the order met. */
    var marriages: map<int, seq<Relation>>
    /** `childsMap`: marriage id -> children met, in the order met. */
    var childs: map<int, seq<Person>>
    /** Every (generation number, person id) pair filed so far. */
    ghost var filed: set<(int, int)>

    ghost predicate Valid()
      reads this
    {
      && minGenerationIndex <= 0 <= maxGenerationIndex
      && (forall k :: k in generations ==> minGenerationIndex <= k <= maxGenerationIndex)
      && (forall k :: k in generations ==> UniqueIds(generations[k]))
      && (forall r, q :: r in childs && q in childs[r] ==> q.parentsRelationId == Some(r))
      && MarriagesWellFormed(marriages)
      && (forall g, id :: (g, id) in filed ==> g in generations && id in Ids(generations[g]))
    }

    constructor (genealogy: Genealogy)
      ensures persons == genealogy.persons && relations == genealogy.relations && Valid()
      ensures generations == map[] && marriages == map[] && childs == map[] && filed == {}
      ensures minGenerationIndex == 0 && maxGenerationIndex == 0
    {
      persons := genealogy.persons;
      relations := genealogy.relations;
      generations := map[];
      minGenerationIndex := 0;
      maxGenerationIndex := 0;
      marriages := map[];
      childs := map[];
      filed := {};
    }

    method AddPersonToGeneration(person: Person, generationNumber: int)
      requires Valid()
      requires minGenerationIndex <= generationNumber <= maxGenerationIndex
      modifies this`generations, this`filed
      ensures Valid()
      ensures generations == old(generations)[generationNumber := SetById(Bucket(old(generations), generationNumber), person)]
      ensures person in generations[generationNumber]
      ensures filed == old(filed) + {(generationNumber, person.id)}
    {
      var generation := Bucket(generations, generationNumber);
      SetByIdKeepsKeysUnique(generation, person);
      generation := SetById(generation, person);
      generations := generations[generationNumber := generation];
      filed := filed + {(generationNumber, person.id)};
    }

    method RecalcGenerationsIndexes(generationNumber: int)
      requires Valid()
      modifies this`minGenerationIndex, this`maxGenerationIndex
      ensures Valid()
      ensures old(minGenerationIndex) > generationNumber ==>
        minGenerationIndex == generationNumber && maxGenerationIndex == old(maxGenerationIndex)
      ensures old(minGenerationIndex) <= generationNumber ==>
        minGenerationIndex == old(minGenerationIndex) &&
        maxGenerationIndex == (if generationNumber > old(maxGenerationIndex) then generationNumber else old(maxGenerationIndex))
      ensures minGenerationIndex <= generationNumber <= maxGenerationIndex
    {
      if minGenerationIndex > generationNumber {
        minGenerationIndex := generationNumber;
      } else if generationNumber > maxGenerationIndex {
        maxGenerationIndex := generationNumber;
      }
    }

    method AddMarriageToPerson(marriage: Relation, personId: int)
      modifies this`marriages
      ensures marriages == AppendAt(old(marriages), personId, marriage)
    {
      var personMarriages := if personId in marriages then marriages[personId] else [];
      personMarriages := personMarriages + [marriage];
      marriages := marriages[personId := personMarriages];
    }

    method AddMarriage(marriage: Relation)
      requires Valid()
      modifies this`marriages
      ensures Valid()
      ensures marriages == AppendAt(AppendAt(old(marriages), marriage.firstPersonId, marriage), marriage.secondPersonId, marriage)
      ensures Grows(old(marriages), marriages) && MarriageFiled(marriages, marriage)
    {
      AddMarriageToPerson(marriage, marriage.firstPersonId);
      AddMarriageToPerson(marriage, marriage.secondPersonId);
      AddMarriageKeepsWellFormed(old(marriages), marriage);
      AppendAtGrows(old(marriages), marriage.firstPersonId, marriage);
      AppendAtGrows(AppendAt(old(marriages), marriage.firstPersonId, marriage), marriage.secondPersonId, marriage);
      GrowsTransitive(old(marriages), AppendAt(old(marriages), marriage.firstPersonId, marriage), marriages);
    }

    method AddChild(person: Person)
      requires Valid()
      modifies this`childs
      ensures Valid()
      ensures person.parentsRelationId.None? ==> childs == old(childs)
      ensures person.parentsRelationId.Some? ==> childs == AppendAt(old(childs), person.parentsRelationId.value, person)
      ensures Grows(old(childs), childs) && ChildFiled(childs, person)
    {
      if person.parentsRelationId == None {
        return;
      }
      var parentsRelationId := person.parentsRelationId.value;
      var personChilds := if parentsRelationId in childs then childs[parentsRelationId] else [];
      personChilds := personChilds + [person];
      childs := childs[parentsRelationId := personChilds];
    }

    /** `iterateOverGenealogy`. The source's recursion is not guaranteed to
        end; `fuel` bounds its depth and a call with no fuel left fails
        with `OutOfFuel`. `expansion` lists the recursive calls made
        directly; every one of them that completes has filed its person. */
    method Walk(v: Visit, fuel: nat) returns (outcome: Outcome, ghost expansion: Expansion)
      requires Valid()
      modifies this
      decreases fuel, 3
      ensures Valid() && old(filed) <= filed
      ensures Grows(old(marriages), marriages) && Grows(old(childs), childs)
      ensures minGenerationIndex <= old(minGenerationIndex) && old(maxGenerationIndex) <= maxGenerationIndex
      ensures fuel == 0 ==> outcome == Failed(OutOfFuel)
      ensures fuel > 0 ==> minGenerationIndex <= v.generationNumber <= maxGenerationIndex
      ensures fuel > 0 && Expand(persons, relations, v).Err? ==> outcome == Failed(Expand(persons, relations, v).error)
      ensures fuel > 0 && PersonById(persons, v.currentPersonId).Ok? ==>
        Recorded(filed, v) && ChildFiled(childs, PersonById(persons, v.currentPersonId).value)
      ensures outcome.Done? ==> Expand(persons, relations, v) == Ok(expansion)
      ensures outcome.Done? ==> forall w :: w in expansion.parents + expansion.siblings + expansion.marriages ==> Recorded(filed, w)
      ensures outcome.Done? ==> forall m :: m in FilteredMarriages(RelationsByPersonId(relations, v.currentPersonId), v.previousRelationId) ==>
        MarriageFiled(marriages, m)
      ensures outcome.Done? && Ascends(PersonById(persons, v.currentPersonId).value, v) ==>
        MarriageFiled(marriages, RelationById(relations, PersonById(persons, v.currentPersonId).value.parentsRelationId.value).value)
      ensures outcome.Done? ==> PersonById(persons, v.currentPersonId).Ok? && NewKeysFound(persons, old(marriages), marriages)
    {
      expansion := Expansion([], [], []);
      if fuel == 0 {
        return Failed(OutOfFuel), expansion;
      }
      var found := FileVisit(v);
      if found.Err? {
        return Failed(found.error), expansion;
      }
      var person := found.value;
      ghost var filedMarriages, filedChilds := marriages, childs;

      outcome := Done;
      if person.parentsRelationId.Some? && person.parentsRelationId != v.previousParentRelationId {
        outcome, expansion := VisitParents(v, person.parentsRelationId.value, fuel);
      }
      ghost var climbedMarriages, climbedChilds := marriages, childs;
      GrowsTransitive(old(marriages), filedMarriages, marriages);
      GrowsTransitive(old(childs), filedChilds, childs);
      GrowsKeeps(filedChilds, childs);
      if outcome.Failed? {
        return;
      }

      var filteredMarriages := FilteredMarriages(RelationsByPersonId(relations, v.currentPersonId), v.previousRelationId);
      MarriagesOfPerson(persons, relations, v.currentPersonId, v.previousRelationId);
      ghost var marriageCalls;
      outcome, marriageCalls := VisitMarriages(v, filteredMarriages, fuel);
      expansion := expansion.(marriages := marriageCalls);
      GrowsTransitive(old(marriages), climbedMarriages, marriages);
      GrowsTransitive(old(childs), climbedChilds, childs);
      GrowsKeeps(climbedMarriages, marriages);
      GrowsKeeps(filedChilds, childs);
      if outcome.Done? {
        NewKeysFoundTransitive(persons, old(marriages), climbedMarriages, marriages);
      }
    }

    /** The bookkeeping that opens `iterateOverGenealogy`: the generation
        range is widened to the visit's generation, the person is looked up,
        filed under that generation and listed among the children of their
        parents' marriage. */
    method FileVisit(v: Visit) returns (found: Result<Person>)
      requires Valid()
      modifies this`generations, this`filed, this`minGenerationIndex, this`maxGenerationIndex, this`childs
      ensures Valid() && old(filed) <= filed && Grows(old(childs), childs)
      ensures old(minGenerationIndex) > v.generationNumber ==>
        minGenerationIndex == v.generationNumber && maxGenerationIndex == old(maxGenerationIndex)
      ensures old(minGenerationIndex) <= v.generationNumber ==>
        minGenerationIndex == old(minGenerationIndex) &&
        maxGenerationIndex == (if v.generationNumber > old(maxGenerationIndex) then v.generationNumber else old(maxGenerationIndex))
      ensures found == PersonById(persons, v.currentPersonId)
      ensures found.Err? ==> found.error == PersonNotFound(v.currentPersonId)
      ensures found.Err? ==> generations == old(generations) && filed == old(filed) && childs == old(childs)
      ensures found.Ok? ==> found.value.id == v.currentPersonId && Recorded(filed, v) && ChildFiled(childs, found.value)
      ensures found.Ok? ==>
        && generations == old(generations)[v.generationNumber := SetById(Bucket(old(generations), v.generationNumber), found.value)]
        && filed == old(filed) + {(v.generationNumber, v.currentPersonId)}
        && childs == (if found.value.parentsRelationId.None? then old(childs)
                      else AppendAt(old(childs), found.value.parentsRelationId.value, found.value))
    {
      RecalcGenerationsIndexes(v.generationNumber);
      found := PersonById(persons, v.currentPersonId);
      PersonByIdMember(persons, v.currentPersonId);
      if found.Err? {
        return;
      }
      AddPersonToGeneration(found.value, v.generationNumber);
      AddChild(found.value);
    }

    /** The climb of `iterateOverGenealogy`: the parents' marriage is looked
        up and recorded, then both parents and every sibling are visited. */
    method VisitParents(v: Visit, parentsRelationId: int, fuel: nat) returns (outcome: Outcome, ghost climb: Expansion)
      requires Valid() && fuel > 0
      modifies this
      decreases fuel, 2
      ensures Valid() && old(filed) <= filed
      ensures Grows(old(marriages), marriages) && Grows(old(childs), childs)
      ensures minGenerationIndex <= old(minGenerationIndex) && old(maxGenerationIndex) <= maxGenerationIndex
      ensures Climb(persons, relations, parentsRelationId, v).Err? ==> outcome == Failed(Climb(persons, relations, parentsRelationId, v).error)
      ensures Climb(persons, relations, parentsRelationId, v).Ok? ==> MarriageFiled(marriages, RelationById(relations, parentsRelationId).value)
      ensures outcome.Done? ==> Climb(persons, relations, parentsRelationId, v) == Ok(climb)
      ensures outcome.Done? ==> forall w :: w in climb.parents + climb.siblings ==> Recorded(filed, w)
      ensures outcome.Done? ==> NewKeysFound(persons, old(marriages), marriages)
    {
      climb := Expansion([], [], []);
      var relationFound := RelationById(relations, parentsRelationId);
      RelationByIdMember(relations, parentsRelationId);
      if relationFound.Err? {
        return Failed(relationFound.error), climb;
      }
      var parentRelation := relationFound.value;
      var firstParent := PersonById(persons, parentRelation.firstPersonId);
      PersonByIdMember(persons, parentRelation.firstPersonId);
      if firstParent.Err? {
        return Failed(firstParent.error), climb;
      }
      var secondParent := PersonById(persons, parentRelation.secondPersonId);
      PersonByIdMember(persons, parentRelation.secondPersonId);
      if secondParent.Err? {
        return Failed(secondParent.error), climb;
      }
      AddMarriage(parentRelation);
      ghost var recordedMarriages, recordedChilds := marriages, childs;

      var parentVisits := [
        Visit(firstParent.value.id, Some(v.currentPersonId), Some(parentRelation.id), None, v.generationNumber - 1),
        Visit(secondParent.value.id, Some(v.currentPersonId), Some(parentRelation.id), None, v.generationNumber - 1)];
      assert parentVisits == ParentVisits(parentRelation, v);
      outcome := VisitEach(parentVisits, fuel - 1);
      if outcome.Done? {
        var siblingVisits := VisitsVia(Siblings(persons, parentRelation.id, v.currentPersonId), v, parentRelation.id, v.generationNumber);
        ghost var parentsFiled := filed;
        ghost var visitedMarriages, visitedChilds := marriages, childs;
        outcome := VisitEach(siblingVisits, fuel - 1);
        GrowsTransitive(recordedMarriages, visitedMarriages, marriages);
        GrowsTransitive(recordedChilds, visitedChilds, childs);
        if outcome.Done? {
          climb := Expansion(parentVisits, siblingVisits, []);
          RecordedKeysFound(persons, old(marriages), visitedMarriages, marriages, parentRelation);
        }
      }
      GrowsTransitive(old(marriages), recordedMarriages, marriages);
      GrowsKeeps(recordedMarriages, marriages);
    }

    /** The `forEach` over the person's marriages other than the one just
        crossed: every marriage of the list is recorded in turn. */
    method VisitMarriages(v: Visit, filteredMarriages: seq<Relation>, fuel: nat) returns (outcome: Outcome, ghost calls: seq<Visit>)
      requires Valid() && fuel > 0
      modifies this
      decreases fuel, 2
      ensures Valid() && old(filed) <= filed
      ensures Grows(old(marriages), marriages) && Grows(old(childs), childs)
      ensures minGenerationIndex <= old(minGenerationIndex) && old(maxGenerationIndex) <= maxGenerationIndex
      ensures outcome.Done? ==> calls == MarriageVisits(persons, filteredMarriages, v)
      ensures outcome.Done? ==> forall w :: w in calls ==> Recorded(filed, w)
      ensures outcome.Done? ==> forall m :: m in filteredMarriages ==> MarriageFiled(marriages, m)
      ensures outcome.Done? && PartyOfAll(persons, v.currentPersonId, filteredMarriages) ==>
        NewKeysFound(persons, old(marriages), marriages)
    {
      ghost var involved := PartyOfAll(persons, v.currentPersonId, filteredMarriages);
      calls := [];
      for i := 0 to |filteredMarriages|
        invariant Valid() && old(filed) <= filed
        invariant Grows(old(marriages), marriages) && Grows(old(childs), childs)
        invariant minGenerationIndex <= old(minGenerationIndex) && old(maxGenerationIndex) <= maxGenerationIndex
        invariant calls == MarriageVisits(persons, filteredMarriages[..i], v)
        invariant forall w :: w in calls ==> Recorded(filed, w)
        invariant forall j :: 0 <= j < i ==> MarriageFiled(marriages, filteredMarriages[j])
        invariant involved ==> NewKeysFound(persons, old(marriages), marriages)
      {
        ghost var before, beforeChilds := marriages, childs;
        outcome, calls := VisitNthMarriage(v, filteredMarriages, i, fuel, calls);
        GrowsTransitive(old(marriages), before, marriages);
        GrowsTransitive(old(childs), beforeChilds, childs);
        if outcome.Failed? {
          return;
        }
        if involved {
          NewKeysFoundTransitive(persons, old(marriages), before, marriages);
        }
      }
      assert filteredMarriages[..|filteredMarriages|] == filteredMarriages;
      outcome := Done;
    }

    /** One round of the `forEach` over the marriages: marriage `i` is
        visited, extending the calls made for the marriages before it. */
    method VisitNthMarriage(v: Visit, filteredMarriages: seq<Relation>, i: nat, fuel: nat, ghost callsBefore: seq<Visit>)
      returns (outcome: Outcome, ghost calls: seq<Visit>)
      requires Valid() && fuel > 0 && i < |filteredMarriages|
      requires callsBefore == MarriageVisits(persons, filteredMarriages[..i], v)
      requires forall w :: w in callsBefore ==> Recorded(filed, w)
      requires forall j :: 0 <= j < i ==> MarriageFiled(marriages, filteredMarriages[j])
      modifies this
      decreases fuel, 1
      ensures Valid() && old(filed) <= filed
      ensures Grows(old(marriages), marriages) && Grows(old(childs), childs)
      ensures minGenerationIndex <= old(minGenerationIndex) && old(maxGenerationIndex) <= maxGenerationIndex
      ensures outcome.Done? ==> calls == MarriageVisits(persons, filteredMarriages[..i + 1], v)
      ensures outcome.Done? ==> forall w :: w in calls ==> Recorded(filed, w)
      ensures forall j :: 0 <= j <= i ==> MarriageFiled(marriages, filteredMarriages[j])
      ensures outcome.Done? && PersonById(persons, v.currentPersonId).Ok? && IsParty(filteredMarriages[i], v.currentPersonId) ==>
        NewKeysFound(persons, old(marriages), marriages)
    {
      ghost var step;
      outcome, step := VisitMarriage(v, filteredMarriages[i], fuel);
      MarriagesStayFiled(old(marriages), marriages, filteredMarriages, i);
      MarriageVisitsSnoc(persons, filteredMarriages, i, v);
      calls := callsBefore + step;
    }

    /** One marriage of the `forEach`: the marriage is recorded, then the
        spouse and the children of the marriage are visited. */
    method VisitMarriage(v: Visit, marriage: Relation, fuel: nat) returns (outcome: Outcome, ghost step: seq<Visit>)
      requires Valid() && fuel > 0
      modifies this
      decreases fuel, 0
      ensures Valid() && old(filed) <= filed
      ensures Grows(old(marriages), marriages) && Grows(old(childs), childs)
      ensures minGenerationIndex <= old(minGenerationIndex) && old(maxGenerationIndex) <= maxGenerationIndex
      ensures MarriageFiled(marriages, marriage)
      ensures outcome.Done? ==> step == MarriageStep(persons, marriage, v)
      ensures outcome.Done? ==> forall w :: w in step ==> Recorded(filed, w)
      ensures outcome.Done? && PersonById(persons, v.currentPersonId).Ok? && IsParty(marriage, v.currentPersonId) ==>
        NewKeysFound(persons, old(marriages), marriages)
    {
      step := [];
      var anotherPersonId := Other(marriage, v.currentPersonId);
      ghost var expected := MarriageStep(persons, marriage, v);
      assert expected == [SpouseVisit(marriage, v)] + VisitsVia(PersonsByParentRelationId(persons, marriage.id), v, marriage.id, v.generationNumber + 1);
      AddMarriage(marriage);
      ghost var recordedMarriages, recordedChilds := marriages, childs;
      var spouseVisit := Visit(anotherPersonId, Some(v.currentPersonId), Some(marriage.id), None, v.generationNumber);
      outcome := VisitOne(spouseVisit, fuel - 1);
      if outcome.Done? {
        var children := PersonsByParentRelationId(persons, marriage.id);
        var childVisits := VisitsVia(children, v, marriage.id, v.generationNumber + 1);
        assert [spouseVisit] + childVisits == expected;
        ghost var visitedMarriages, visitedChilds := marriages, childs;
        outcome := VisitEach(childVisits, fuel - 1);
        GrowsTransitive(recordedMarriages, visitedMarriages, marriages);
        GrowsTransitive(recordedChilds, visitedChilds, childs);
        if outcome.Done? {
          step := [spouseVisit] + childVisits;
          assert Recorded(filed, spouseVisit);
          forall w | w in step ensures Recorded(filed, w) {
            if w != spouseVisit {
              assert w in childVisits;
            }
          }
          if PersonById(persons, v.currentPersonId).Ok? && IsParty(marriage, v.currentPersonId) {
            PartiesFound(persons, marriage, v.currentPersonId);
            RecordedKeysFound(persons, old(marriages), visitedMarriages, marriages, marriage);
          }
        }
      }
      GrowsTransitive(old(marriages), recordedMarriages, marriages);
      GrowsKeeps(recordedMarriages, marriages);
    }

    /** The callback of a `forEach`: one recursive call, of which the caller
        uses only the effect on the walker's state. */
    method VisitOne(v: Visit, fuel: nat) returns (outcome: Outcome)
      requires Valid()
      modifies this
      decreases fuel, 4
      ensures Valid() && old(filed) <= filed
      ensures Grows(old(marriages), marriages) && Grows(old(childs), childs)
      ensures minGenerationIndex <= old(minGenerationIndex) && old(maxGenerationIndex) <= maxGenerationIndex
      ensures fuel > 0 ==> minGenerationIndex <= v.generationNumber <= maxGenerationIndex
      ensures outcome.Done? ==> Recorded(filed, v)
      ensures outcome.Done? ==> PersonById(persons, v.currentPersonId).Ok? && NewKeysFound(persons, old(marriages), marriages)
    {
      ghost var expansion;
      outcome, expansion := Walk(v, fuel);
    }

    /** The `forEach` over a list of parents, siblings or children. */
    method VisitEach(visits: seq<Visit>, fuel: nat) returns (outcome: Outcome)
      requires Valid()
      modifies this
      decreases fuel, 5
      ensures Valid() && old(filed) <= filed
      ensures Grows(old(marriages), marriages) && Grows(old(childs), childs)
      ensures minGenerationIndex <= old(minGenerationIndex) && old(maxGenerationIndex) <= maxGenerationIndex
      ensures outcome.Done? ==> forall w :: w in visits ==> Recorded(filed, w)
      ensures outcome.Done? ==> NewKeysFound(persons, old(marriages), marriages)
    {
      for i := 0 to |visits|
        invariant Valid() && old(filed) <= filed
        invariant Grows(old(marriages), marriages) && Grows(old(childs), childs)
        invariant minGenerationIndex <= old(minGenerationIndex) && old(maxGenerationIndex) <= maxGenerationIndex
        invariant forall j :: 0 <= j < i ==> Recorded(filed, visits[j])
        invariant NewKeysFound(persons, old(marriages), marriages)
      {
        ghost var before, beforeChilds := marriages, childs;
        outcome := VisitOne(visits[i], fuel);
        GrowsTransitive(old(marriages), before, marriages);
        GrowsTransitive(old(childs), beforeChilds, childs);
        if outcome.Failed? {
          return;
        }
        NewKeysFoundTransitive(persons, old(marriages), before, marriages);
      }
      outcome := Done;
    }
  }
}
