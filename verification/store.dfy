/**
 * The relational store of src/components/romanov-tree.ts: person and
 * marriage records kept in insertion order, two id counters, and the
 * lookups the tree builder uses.
 */
module Store {
  import opened Optional

  datatype Person = Person(id: int, name: string, parentsRelationId: Option<int>)

  datatype RelationType = Marriage

  datatype Relation = Relation(id: int, firstPersonId: int, secondPersonId: int, relationType: RelationType)

  /** `Partial<TPerson>`: every field may be left out; a supplied
      `parentsRelationId` may itself be null (`Some(None)`). */
  datatype PersonConfig = PersonConfig(id: Option<int>, name: Option<string>, parentsRelationId: Option<Option<int>>)

  /** What the builder can fail with: the two "not found" errors the store
      throws, indexing a generation that does not exist, and running out of
      the recursion budget the model gives the generation walker. */
  datatype Error = PersonNotFound(personId: int) | RelationNotFound(relationId: int) | MissingGeneration(index: nat) | OutOfFuel

  datatype Result<T> = Ok(value: T) | Err(error: Error)

  /** Outcome of a computation run for its effects. */
  datatype Outcome = Done | Failed(error: Error)

  /** `r` keeps some of the elements of `s`, in their order in `s`. */
  ghost predicate IsSubsequence<T>(r: seq<T>, s: seq<T>)
    decreases |s|
  {
    r == [] || (s != [] && ((r[0] == s[0] && IsSubsequence(r[1..], s[1..])) || IsSubsequence(r, s[1..])))
  }

  /** The closure returned by `createIdGenerator`: a counter handed out and then incremented. */
  class IdGenerator {
    var counter: int

    constructor (start: int)
      ensures counter == start
    {
      counter := start;
    }

    method Next() returns (id: int)
      modifies this
      ensures id == old(counter) && counter == old(counter) + 1
    {
      id := counter;
      counter := counter + 1;
    }
  }

  /** The person a `Partial<TPerson>` config produces: defaults first, then
      every supplied field of the config overrides its default. */
  function WithDefaults(config: PersonConfig, nextId: int): (p: Person)
    ensures config.id.None? ==> p.id == nextId
    ensures config.id.Some? ==> p.id == config.id.value
    ensures config.name.None? ==> p.name == ""
    ensures config.name.Some? ==> p.name == config.name.value
    ensures config.parentsRelationId.None? ==> p.parentsRelationId == None
    ensures config.parentsRelationId.Some? ==> p.parentsRelationId == config.parentsRelationId.value
  {
    Person(
      if config.id.Some? then config.id.value else nextId,
      if config.name.Some? then config.name.value else "",
      if config.parentsRelationId.Some? then config.parentsRelationId.value else None)
  }

  class Genealogy {
    var persons: seq<Person>
    var relations: seq<Relation>
    const personIds: IdGenerator
    const relationIds: IdGenerator

    ghost predicate Valid()
      reads this
    {
      personIds != relationIds
    }

    /** Every record carries the id its counter handed out, so ids are
        0, 1, 2, ... in insertion order (no config overrode an id). */
    ghost predicate SequentialIds()
      reads this, personIds, relationIds
    {
      && personIds.counter == |persons|
      && relationIds.counter == |relations|
      && (forall i :: 0 <= i < |persons| ==> persons[i].id == i)
      && (forall i :: 0 <= i < |relations| ==> relations[i].id == i)
    }

    constructor ()
      ensures Valid() && SequentialIds()
      ensures persons == [] && relations == []
      ensures fresh(personIds) && fresh(relationIds)
      ensures personIds.counter == 0 && relationIds.counter == 0
    {
      persons := [];
      relations := [];
      personIds := new IdGenerator(0);
      relationIds := new IdGenerator(0);
    }

    method AddPerson(config: PersonConfig) returns (person: Person)
      requires Valid()
      modifies this, personIds
      ensures Valid()
      ensures person == WithDefaults(config, old(personIds.counter))
      ensures personIds.counter == old(personIds.counter) + 1
      ensures relationIds.counter == old(relationIds.counter)
      ensures persons == old(persons) + [person] && relations == old(relations)
      ensures old(SequentialIds()) && config.id.None? ==> SequentialIds()
      ensures (forall q :: q in old(persons) ==> q.id != person.id) ==> PersonById(persons, person.id) == Ok(person)
    {
      var id := personIds.Next();
      person := WithDefaults(config, id);
      persons := persons + [person];
      PersonByIdAppend(old(persons), person);
    }

    method AddRelation(firstPerson: Person, secondPerson: Person) returns (relation: Relation)
      requires Valid()
      modifies this, relationIds
      ensures Valid()
      ensures relation == Relation(old(relationIds.counter), firstPerson.id, secondPerson.id, Marriage)
      ensures relationIds.counter == old(relationIds.counter) + 1
      ensures personIds.counter == old(personIds.counter)
      ensures relations == old(relations) + [relation] && persons == old(persons)
      ensures old(SequentialIds()) ==> SequentialIds()
      ensures (forall m :: m in old(relations) ==> m.id != relation.id) ==> RelationById(relations, relation.id) == Ok(relation)
    {
      var id := relationIds.Next();
      relation := Relation(id, firstPerson.id, secondPerson.id, Marriage);
      relations := relations + [relation];
      RelationByIdAppend(old(relations), relation);
    }
  }

  // The lookups, over the store's two insertion-ordered lists. Each is
  // the `find` or `filter` of the source written out as a recursion.

  /** `getPerson`: the first person with the id, or `PersonNotFound`. */
  function PersonById(persons: seq<Person>, personId: int): Result<Person>
  {
    if persons == [] then Err(PersonNotFound(personId))
    else if persons[0].id == personId then Ok(persons[0])
    else PersonById(persons[1..], personId)
  }

  /** `getRelation`: the first relation with the id, or `RelationNotFound`. */
  function RelationById(relations: seq<Relation>, relationId: int): Result<Relation>
  {
    if relations == [] then Err(RelationNotFound(relationId))
    else if relations[0].id == relationId then Ok(relations[0])
    else RelationById(relations[1..], relationId)
  }

  /** `getPersonsByParentRelationId`. */
  function PersonsByParentRelationId(persons: seq<Person>, parentRelationId: int): seq<Person>
  {
    if persons == [] then []
    else if persons[0].parentsRelationId == Some(parentRelationId) then [persons[0]] + PersonsByParentRelationId(persons[1..], parentRelationId)
    else PersonsByParentRelationId(persons[1..], parentRelationId)
  }

  predicate IsParty(relation: Relation, personId: int)
  {
    relation.firstPersonId == personId || relation.secondPersonId == personId
  }

  /** `getRelationsByPersonId`. */
  function RelationsByPersonId(relations: seq<Relation>, personId: int): seq<Relation>
  {
    if relations == [] then []
    else if IsParty(relations[0], personId) then [relations[0]] + RelationsByPersonId(relations[1..], personId)
    else RelationsByPersonId(relations[1..], personId)
  }

  /** `getPerson` succeeds exactly when some person has the id, and then
      returns the first such person; otherwise it throws `PersonNotFound`. */
  lemma {:induction false} PersonByIdFinds(persons: seq<Person>, personId: int)
    ensures PersonById(persons, personId).Ok? <==> exists i :: 0 <= i < |persons| && persons[i].id == personId
    ensures PersonById(persons, personId).Ok? ==>
      exists i :: 0 <= i < |persons| && persons[i] == PersonById(persons, personId).value &&
        persons[i].id == personId && forall j :: 0 <= j < i ==> persons[j].id != personId
    ensures PersonById(persons, personId).Err? ==> PersonById(persons, personId).error == PersonNotFound(personId)
  {
    if persons != [] && persons[0].id != personId {
      PersonByIdFinds(persons[1..], personId);
      if PersonById(persons, personId).Ok? {
        var i :| 0 <= i < |persons[1..]| && persons[1..][i] == PersonById(persons, personId).value &&
          persons[1..][i].id == personId && forall j :: 0 <= j < i ==> persons[1..][j].id != personId;
        assert persons[i + 1] == persons[1..][i];
        assert forall j :: 0 < j < i + 1 ==> persons[j] == persons[1..][j - 1];
      } else {
        forall i | 0 <= i < |persons|
          ensures persons[i].id != personId
        {
          if i > 0 {
            assert persons[i] == persons[1..][i - 1];
          }
        }
      }
    }
  }

  /** A person appended under an id no stored person has is what `getPerson` then finds. */
  lemma {:induction false} PersonByIdAppend(persons: seq<Person>, person: Person)
    ensures (forall q :: q in persons ==> q.id != person.id) ==> PersonById(persons + [person], person.id) == Ok(person)
  {
    if persons != [] {
      assert (persons + [person])[1..] == persons[1..] + [person];
      PersonByIdAppend(persons[1..], person);
    }
  }

  /** A person found by `getPerson` carries the id asked for and is one of the persons stored. */
  lemma {:induction false} PersonByIdMember(persons: seq<Person>, personId: int)
    ensures PersonById(persons, personId).Ok? ==>
      PersonById(persons, personId).value in persons && PersonById(persons, personId).value.id == personId
    ensures PersonById(persons, personId).Err? ==> PersonById(persons, personId).error == PersonNotFound(personId)
  {
    if persons != [] && persons[0].id != personId {
      PersonByIdMember(persons[1..], personId);
    }
  }

  /** `getRelation` succeeds exactly when some relation has the id, and then
      returns the first such relation; otherwise it throws `RelationNotFound`. */
  lemma {:induction false} RelationByIdFinds(relations: seq<Relation>, relationId: int)
    ensures RelationById(relations, relationId).Ok? <==> exists i :: 0 <= i < |relations| && relations[i].id == relationId
    ensures RelationById(relations, relationId).Ok? ==>
      exists i :: 0 <= i < |relations| && relations[i] == RelationById(relations, relationId).value &&
        relations[i].id == relationId && forall j :: 0 <= j < i ==> relations[j].id != relationId
    ensures RelationById(relations, relationId).Err? ==> RelationById(relations, relationId).error == RelationNotFound(relationId)
  {
    if relations != [] && relations[0].id != relationId {
      RelationByIdFinds(relations[1..], relationId);
      if RelationById(relations, relationId).Ok? {
        var i :| 0 <= i < |relations[1..]| && relations[1..][i] == RelationById(relations, relationId).value &&
          relations[1..][i].id == relationId && forall j :: 0 <= j < i ==> relations[1..][j].id != relationId;
        assert relations[i + 1] == relations[1..][i];
        assert forall j :: 0 < j < i + 1 ==> relations[j] == relations[1..][j - 1];
      } else {
        forall i | 0 <= i < |relations|
          ensures relations[i].id != relationId
        {
          if i > 0 {
            assert relations[i] == relations[1..][i - 1];
          }
        }
      }
    }
  }

  /** A relation appended under an id no stored relation has is what `getRelation` then finds. */
  lemma {:induction false} RelationByIdAppend(relations: seq<Relation>, relation: Relation)
    ensures (forall m :: m in relations ==> m.id != relation.id) ==> RelationById(relations + [relation], relation.id) == Ok(relation)
  {
    if relations != [] {
      assert (relations + [relation])[1..] == relations[1..] + [relation];
      RelationByIdAppend(relations[1..], relation);
    }
  }

  /** A relation found by `getRelation` carries the id asked for and is one of the relations stored. */
  lemma {:induction false} RelationByIdMember(relations: seq<Relation>, relationId: int)
    ensures RelationById(relations, relationId).Ok? ==>
      RelationById(relations, relationId).value in relations && RelationById(relations, relationId).value.id == relationId
    ensures RelationById(relations, relationId).Err? ==> RelationById(relations, relationId).error == RelationNotFound(relationId)
  {
    if relations != [] && relations[0].id != relationId {
      RelationByIdMember(relations[1..], relationId);
    }
  }

  /** `getPersonsByParentRelationId` lists exactly the children of the
      marriage, each as often as stored, in insertion order. */
  lemma {:induction false} PersonsByParentRelationIdKeeps(persons: seq<Person>, parentRelationId: int)
    ensures forall q :: q in PersonsByParentRelationId(persons, parentRelationId) <==> q in persons && q.parentsRelationId == Some(parentRelationId)
    ensures forall q: Person {:trigger multiset(PersonsByParentRelationId(persons, parentRelationId))[q]} ::
      q.parentsRelationId == Some(parentRelationId) ==> multiset(PersonsByParentRelationId(persons, parentRelationId))[q] == multiset(persons)[q]
    ensures IsSubsequence(PersonsByParentRelationId(persons, parentRelationId), persons)
  {
    if persons != [] {
      var rest := PersonsByParentRelationId(persons[1..], parentRelationId);
      PersonsByParentRelationIdKeeps(persons[1..], parentRelationId);
      assert persons == [persons[0]] + persons[1..];
      if persons[0].parentsRelationId == Some(parentRelationId) {
        assert ([persons[0]] + rest)[1..] == rest;
      }
    }
  }

  /** `getRelationsByPersonId` lists exactly the marriages the person is a
      party of, each as often as stored, in insertion order. */
  lemma {:induction false} RelationsByPersonIdKeeps(relations: seq<Relation>, personId: int)
    ensures forall m :: m in RelationsByPersonId(relations, personId) <==> m in relations && IsParty(m, personId)
    ensures forall m: Relation {:trigger multiset(RelationsByPersonId(relations, personId))[m]} ::
      IsParty(m, personId) ==> multiset(RelationsByPersonId(relations, personId))[m] == multiset(relations)[m]
    ensures IsSubsequence(RelationsByPersonId(relations, personId), relations)
  {
    if relations != [] {
      var rest := RelationsByPersonId(relations[1..], personId);
      RelationsByPersonIdKeeps(relations[1..], personId);
      assert relations == [relations[0]] + relations[1..];
      if IsParty(relations[0], personId) {
        assert ([relations[0]] + rest)[1..] == rest;
      }
    }
  }

  /** In a store whose ids were all handed out by the counters, the id of a
      record is its position: lookups find exactly the record added with
      that id and fail on every other id. */
  lemma SequentialLookup(g: Genealogy, id: int)
    requires g.SequentialIds()
    ensures 0 <= id < |g.persons| ==> PersonById(g.persons, id) == Ok(g.persons[id])
    ensures !(0 <= id < |g.persons|) ==> PersonById(g.persons, id) == Err(PersonNotFound(id))
    ensures 0 <= id < |g.relations| ==> RelationById(g.relations, id) == Ok(g.relations[id])
    ensures !(0 <= id < |g.relations|) ==> RelationById(g.relations, id) == Err(RelationNotFound(id))
  {
    PersonByIdFinds(g.persons, id);
    RelationByIdFinds(g.relations, id);
    if 0 <= id < |g.persons| {
      assert g.persons[id].id == id;
      var i :| 0 <= i < |g.persons| && g.persons[i] == PersonById(g.persons, id).value &&
        g.persons[i].id == id && forall j :: 0 <= j < i ==> g.persons[j].id != id;
    }
    if 0 <= id < |g.relations| {
      assert g.relations[id].id == id;
      var i :| 0 <= i < |g.relations| && g.relations[i] == RelationById(g.relations, id).value &&
        g.relations[i].id == id && forall j :: 0 <= j < i ==> g.relations[j].id != id;
    }
  }
}
