/**
 * UniquePersonList: a list of persons in which no two are the same person.
 * Person identity (`isSamePerson`) is a parameter `same`; list lookups that
 * use `equals` use `==`.
 */
module UniquePersons {
  import opened Wrappers

  datatype ListError = DuplicatePerson | PersonNotFound

  /** contains: some listed person q satisfies same(p, q). */
  function Contains<P>(s: seq<P>, p: P, same: (P, P) -> bool): (r: bool)
    ensures r ==> |s| > 0
    ensures p in s && same(p, p) ==> r
  {
    exists i :: 0 <= i < |s| && same(p, s[i])
  }

  /** personsAreUnique: no earlier person is the same person as a later one. */
  function PersonsAreUnique<P>(s: seq<P>, same: (P, P) -> bool): (r: bool)
    ensures |s| <= 1 ==> r
    ensures r && |s| > 0 ==> !Contains(s[1..], s[0], same)
  {
    forall i, j :: 0 <= i < j < |s| ==> !same(s[i], s[j])
  }

  ghost predicate Symmetric<P(!new)>(same: (P, P) -> bool) {
    forall a, b :: same(a, b) ==> same(b, a)
  }

  ghost predicate Transitive<P(!new)>(same: (P, P) -> bool) {
    forall a, b, c :: same(a, b) && same(b, c) ==> same(a, c)
  }

  /** List.indexOf: the first position holding p, or -1. */
  function IndexOf<P(==)>(s: seq<P>, p: P): (i: int)
    ensures -1 <= i < |s|
    ensures i >= 0 ==> s[i] == p && forall j :: 0 <= j < i ==> s[j] != p
    ensures i == -1 <==> p !in s
  {
    if |s| == 0 then -1
    else if s[0] == p then 0
    else
      var k := IndexOf(s[1..], p);
      assert forall j :: 1 <= j < |s| ==> s[j] == s[1..][j - 1];
      if k == -1 then -1 else k + 1
  }

  /** add: a person who is already contained is refused; otherwise appended. */
  function Add<P>(s: seq<P>, p: P, same: (P, P) -> bool): (r: Result<seq<P>, ListError>)
    ensures r.Err? <==> Contains(s, p, same)
    ensures r.Err? ==> r.error == DuplicatePerson
    ensures r.Ok? ==> |r.value| == |s| + 1 && r.value[..|s|] == s && r.value[|s|] == p
  {
    if Contains(s, p, same) then Err(DuplicatePerson) else Ok(s + [p])
  }

  /**
   * setPerson: the target must be listed; an edited person who is not the
   * same person as the target must not already be contained; the target's
   * position then holds the edited person.
   */
  function SetPerson<P(==)>(s: seq<P>, target: P, edited: P, same: (P, P) -> bool): (r: Result<seq<P>, ListError>)
    ensures r.Err? <==> target !in s || (!same(target, edited) && Contains(s, edited, same))
    ensures r.Err? ==> r.error == (if target !in s then PersonNotFound else DuplicatePerson)
    ensures r.Ok? ==> (|r.value| == |s| && r.value[IndexOf(s, target)] == edited
      && forall j :: 0 <= j < |s| && j != IndexOf(s, target) ==> r.value[j] == s[j])
  {
    var index := IndexOf(s, target);
    if index == -1 then Err(PersonNotFound)
    else if !same(target, edited) && Contains(s, edited, same) then Err(DuplicatePerson)
    else Ok(s[index := edited])
  }

  /** remove: the first person equal to p is dropped; an absent person is an error. */
  function Remove<P(==)>(s: seq<P>, p: P): (r: Result<seq<P>, ListError>)
    ensures r.Err? <==> p !in s
    ensures r.Err? ==> r.error == PersonNotFound
    ensures r.Ok? ==> (|r.value| == |s| - 1
      && r.value == s[..IndexOf(s, p)] + s[IndexOf(s, p) + 1..])
  {
    var index := IndexOf(s, p);
    if index == -1 then Err(PersonNotFound) else Ok(s[..index] + s[index + 1..])
  }

  /** setPersons(List): a list with a repeated person is refused; otherwise it replaces the contents. */
  function SetPersons<P>(persons: seq<P>, same: (P, P) -> bool): (r: Result<seq<P>, ListError>)
    ensures r.Err? <==> exists i, j :: 0 <= i < j < |persons| && same(persons[i], persons[j])
    ensures r.Err? ==> r.error == DuplicatePerson
    ensures r.Ok? ==> r.value == persons && PersonsAreUnique(r.value, same)
  {
    if PersonsAreUnique(persons, same) then Ok(persons) else Err(DuplicatePerson)
  }

  /** UniquePersonList.personsAreUnique, with its two nested loops. */
  method CheckPersonsAreUnique<P>(persons: seq<P>, same: (P, P) -> bool) returns (unique: bool)
    ensures unique <==> forall i, j :: 0 <= i < j < |persons| ==> !same(persons[i], persons[j])
  {
    var i := 0;
    while i < |persons| - 1
      invariant 0 <= i <= |persons|
      invariant forall a, b :: 0 <= a < i && a < b < |persons| ==> !same(persons[a], persons[b])
    {
      var j := i + 1;
      while j < |persons|
        invariant i + 1 <= j <= |persons|
        invariant forall b :: i < b < j ==> !same(persons[i], persons[b])
      {
        if same(persons[i], persons[j]) {
          return false;
        }
        j := j + 1;
      }
      i := i + 1;
    }
    return true;
  }

  // ---------------------------------------------------------------------
  // Lemmas: every successful change keeps the list free of duplicates
  // ---------------------------------------------------------------------

  /** With a symmetric identity, adding keeps the list unique; the new person is found again. */
  lemma AddKeepsUnique<P(!new)>(s: seq<P>, p: P, same: (P, P) -> bool)
    requires PersonsAreUnique(s, same) && Symmetric(same) && Add(s, p, same).Ok?
    ensures PersonsAreUnique(Add(s, p, same).value, same)
    ensures Contains(Add(s, p, same).value, p, same) <==> same(p, p)
  {
    var r := Add(s, p, same).value;
    assert r == s + [p];
    assert forall k :: 0 <= k < |s| ==> r[k] == s[k] && !same(p, s[k]);
    assert r[|s|] == p;
  }

  /**
   * With an identity that is an equivalence, replacing a person keeps the
   * list unique: an edited person who is the same person as the target
   * cannot also be the same as anyone else.
   */
  lemma SetPersonKeepsUnique<P(!new)>(s: seq<P>, target: P, edited: P, same: (P, P) -> bool)
    requires PersonsAreUnique(s, same) && Symmetric(same) && Transitive(same)
    requires SetPerson(s, target, edited, same).Ok?
    ensures PersonsAreUnique(SetPerson(s, target, edited, same).value, same)
  {
    var r := SetPerson(s, target, edited, same).value;
    var k := IndexOf(s, target);
    forall i, j | 0 <= i < j < |r|
      ensures !same(r[i], r[j])
    {
      if i == k {
        assert r[i] == edited && r[j] == s[j];
        if same(target, edited) {
          assert !same(s[i], s[j]);
        } else {
          assert !same(edited, s[j]);
        }
      } else if j == k {
        assert r[i] == s[i] && r[j] == edited;
        if same(target, edited) {
          assert !same(s[i], s[j]);
        } else {
          assert !same(edited, s[i]);
        }
      }
    }
  }

  /** Removing a person keeps the list unique. */
  lemma RemoveKeepsUnique<P>(s: seq<P>, p: P, same: (P, P) -> bool)
    requires PersonsAreUnique(s, same) && Remove(s, p).Ok?
    ensures PersonsAreUnique(Remove(s, p).value, same)
    ensures |Remove(s, p).value| == |s| - 1
  {
    var r := Remove(s, p).value;
    var k := IndexOf(s, p);
    assert forall a :: 0 <= a < |r| ==> r[a] == (if a < k then s[a] else s[a + 1]);
  }

  /** Replacing a listed person by the same person never fails. */
  lemma SetSamePersonSucceeds<P>(s: seq<P>, target: P, edited: P, same: (P, P) -> bool)
    requires target in s && same(target, edited)
    ensures SetPerson(s, target, edited, same).Ok?
  {
  }
}
