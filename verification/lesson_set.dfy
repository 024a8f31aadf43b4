/**
 * A person's lessons: a TreeSet ordered by Lesson.compareTo, modelled as a
 * sequence kept strictly ascending. Two lessons in the same slot (same
 * calendar date and start time) compare equal, so a set holds at most one.
 */
module LessonSets {
  import Lessons

  type Lesson = Lessons.Lesson

  predicate Sorted(s: seq<Lesson>) {
    forall i, j :: 0 <= i < j < |s| ==> Lessons.CompareTo(s[i], s[j]) < 0
  }

  predicate AllWf(s: seq<Lesson>) {
    forall i :: 0 <= i < |s| ==> Lessons.Wf(s[i])
  }

  /** TreeSet.contains: some element compares equal. */
  predicate HasSlot(s: seq<Lesson>, x: Lesson) {
    exists i :: 0 <= i < |s| && Lessons.CompareTo(s[i], x) == 0
  }

  /**
   * TreeSet.add: a lesson whose slot is taken is not added; otherwise it
   * goes in at its place in the order.
   */
  function Insert(s: seq<Lesson>, x: Lesson): (r: seq<Lesson>)
    requires Sorted(s)
    ensures Sorted(r)
    ensures HasSlot(s, x) ==> r == s
    ensures !HasSlot(s, x) ==> |r| == |s| + 1 && forall y :: y in r <==> y in s || y == x
  {
    if |s| == 0 then [x]
    else
      var c := Lessons.CompareTo(x, s[0]);
      if c < 0 then
        InsertFront(s, x);
        [x] + s
      else if c == 0 then
        Lessons.CompareToAntisymmetric(x, s[0]);
        s
      else
        var t := Insert(s[1..], x);
        InsertAfterHead(s, x, t);
        [s[0]] + t
  }

  lemma InsertFront(s: seq<Lesson>, x: Lesson)
    requires Sorted(s) && |s| > 0 && Lessons.CompareTo(x, s[0]) < 0
    ensures !HasSlot(s, x) && Sorted([x] + s)
  {
    forall i | 0 <= i < |s|
      ensures Lessons.CompareTo(x, s[i]) < 0 && Lessons.CompareTo(s[i], x) != 0
    {
      if i > 0 {
        Lessons.CompareToTransitive(x, s[0], s[i]);
      }
      Lessons.CompareToAntisymmetric(x, s[i]);
    }
  }

  lemma InsertAfterHead(s: seq<Lesson>, x: Lesson, t: seq<Lesson>)
    requires Sorted(s) && |s| > 0 && Lessons.CompareTo(x, s[0]) > 0 && Sorted(t)
    requires HasSlot(s[1..], x) ==> t == s[1..]
    requires !HasSlot(s[1..], x) ==> |t| == |s| && forall y :: y in t <==> y in s[1..] || y == x
    ensures Sorted([s[0]] + t)
    ensures HasSlot(s, x) ==> [s[0]] + t == s
    ensures !HasSlot(s, x) ==> |[s[0]] + t| == |s| + 1 && forall y :: y in [s[0]] + t <==> y in s || y == x
  {
    Lessons.CompareToAntisymmetric(x, s[0]);
    assert s == [s[0]] + s[1..];
    assert HasSlot(s, x) <==> HasSlot(s[1..], x) by {
      if HasSlot(s, x) {
        var i :| 0 <= i < |s| && Lessons.CompareTo(s[i], x) == 0;
        assert s[1..][i - 1] == s[i];
      }
      if HasSlot(s[1..], x) {
        var i :| 0 <= i < |s[1..]| && Lessons.CompareTo(s[1..][i], x) == 0;
        assert s[i + 1] == s[1..][i];
      }
    }
    forall y | y in t
      ensures Lessons.CompareTo(s[0], y) < 0
    {
      if y != x {
        var k :| 1 <= k < |s| && s[k] == y;
      }
    }
  }

  /** new TreeSet(list): the lessons added one by one in list order. */
  function FromSeq(xs: seq<Lesson>): (r: seq<Lesson>)
    ensures Sorted(r)
    ensures forall y :: y in r ==> y in xs
    ensures forall y :: y in xs ==> HasSlot(r, y)
  {
    if |xs| == 0 then []
    else
      var init := FromSeq(xs[..|xs| - 1]);
      var r := Insert(init, xs[|xs| - 1]);
      FromSeqStep(xs, init, r);
      r
  }

  lemma FromSeqStep(xs: seq<Lesson>, init: seq<Lesson>, r: seq<Lesson>)
    requires |xs| > 0 && Sorted(init)
    requires forall y :: y in init ==> y in xs[..|xs| - 1]
    requires forall y :: y in xs[..|xs| - 1] ==> HasSlot(init, y)
    requires r == Insert(init, xs[|xs| - 1])
    ensures forall y :: y in r ==> y in xs
    ensures forall y :: y in xs ==> HasSlot(r, y)
  {
    var p, x := xs[..|xs| - 1], xs[|xs| - 1];
    assert xs == p + [x];
    forall y | y in r
      ensures y in xs
    {
      if y != x {
        assert y in init;
      }
    }
    SlotsAfterInsert(p, x, init, r);
  }

  /** Inserting x keeps the slot of every earlier lesson and gives x one. */
  lemma SlotsAfterInsert(p: seq<Lesson>, x: Lesson, init: seq<Lesson>, r: seq<Lesson>)
    requires Sorted(init) && r == Insert(init, x)
    requires forall y :: y in p ==> HasSlot(init, y)
    ensures forall y :: y in p + [x] ==> HasSlot(r, y)
  {
    if !HasSlot(init, x) {
      KeepsSlots(init, x, r);
      OwnSlot(r, x);
    }
    forall y | y in p + [x]
      ensures HasSlot(r, y)
    {
      if y != x {
        assert y in p;
      }
    }
  }

  /** A listed lesson holds its own slot. */
  lemma OwnSlot(r: seq<Lesson>, x: Lesson)
    requires x in r
    ensures HasSlot(r, x)
  {
    var j :| 0 <= j < |r| && r[j] == x;
    assert Lessons.CompareTo(r[j], x) == 0;
  }

  /** Every slot of a set is still held after adding a lesson that is new to it. */
  lemma KeepsSlots(init: seq<Lesson>, x: Lesson, r: seq<Lesson>)
    requires forall y :: y in r <==> y in init || y == x
    ensures x in r
    ensures forall y :: HasSlot(init, y) ==> HasSlot(r, y)
  {
    forall y | HasSlot(init, y)
      ensures HasSlot(r, y)
    {
      var i :| 0 <= i < |init| && Lessons.CompareTo(init[i], y) == 0;
      assert init[i] in r;
      var j :| 0 <= j < |r| && r[j] == init[i];
    }
  }

  /** List.remove(Object): drops the first element equal to x, if any. */
  function RemoveFirst(s: seq<Lesson>, x: Lesson): (r: seq<Lesson>)
    ensures (forall i :: 0 <= i < |s| ==> !Lessons.Equals(s[i], x)) ==> r == s
    ensures forall i :: (0 <= i < |s| && Lessons.Equals(s[i], x)
      && forall j :: 0 <= j < i ==> !Lessons.Equals(s[j], x)) ==> r == s[..i] + s[i + 1..]
  {
    if |s| == 0 then []
    else if Lessons.Equals(s[0], x) then s[1..]
    else
      var t := RemoveFirst(s[1..], x);
      RemoveFirstStep(s, x, t);
      [s[0]] + t
  }

  lemma RemoveFirstStep(s: seq<Lesson>, x: Lesson, t: seq<Lesson>)
    requires |s| > 0 && !Lessons.Equals(s[0], x)
    requires (forall i :: 0 <= i < |s[1..]| ==> !Lessons.Equals(s[1..][i], x)) ==> t == s[1..]
    requires forall i :: (0 <= i < |s[1..]| && Lessons.Equals(s[1..][i], x)
      && forall j :: 0 <= j < i ==> !Lessons.Equals(s[1..][j], x)) ==> t == s[1..][..i] + s[1..][i + 1..]
    ensures (forall i :: 0 <= i < |s| ==> !Lessons.Equals(s[i], x)) ==> [s[0]] + t == s
    ensures forall i :: (0 <= i < |s| && Lessons.Equals(s[i], x)
      && forall j :: 0 <= j < i ==> !Lessons.Equals(s[j], x)) ==> [s[0]] + t == s[..i] + s[i + 1..]
  {
    assert s == [s[0]] + s[1..];
    forall i | 0 <= i < |s| && Lessons.Equals(s[i], x) && forall j :: 0 <= j < i ==> !Lessons.Equals(s[j], x)
      ensures [s[0]] + t == s[..i] + s[i + 1..]
    {
      assert i > 0;
      assert s[1..][i - 1] == s[i];
      assert forall j :: 0 <= j < i - 1 ==> s[1..][j] == s[j + 1];
      DropShift(s, i);
    }
  }

  lemma DropShift(s: seq<Lesson>, i: int)
    requires 0 < i < |s|
    ensures [s[0]] + (s[1..][..i - 1] + s[1..][i..]) == s[..i] + s[i + 1..]
  {
  }

  /** Removing never introduces a lesson. */
  lemma {:induction false} RemoveFirstKeepsMembers(s: seq<Lesson>, x: Lesson)
    ensures forall y :: y in RemoveFirst(s, x) ==> y in s
  {
    if |s| > 0 && !Lessons.Equals(s[0], x) {
      RemoveFirstKeepsMembers(s[1..], x);
      assert RemoveFirst(s, x) == [s[0]] + RemoveFirst(s[1..], x);
    }
  }

  /** The mapping step of the edit command: each lesson equal to toEdit becomes edited. */
  function Replace(s: seq<Lesson>, toEdit: Lesson, edited: Lesson): (r: seq<Lesson>)
    ensures |r| == |s|
    ensures forall i :: 0 <= i < |s| ==> r[i] == (if Lessons.Equals(s[i], toEdit) then edited else s[i])
  {
    if |s| == 0 then []
    else Replace(s[..|s| - 1], toEdit, edited) + [if Lessons.Equals(s[|s| - 1], toEdit) then edited else s[|s| - 1]]
  }

  // ---------------------------------------------------------------------
  // Lemmas
  // ---------------------------------------------------------------------

  /** Adding a lesson after every element appends it. */
  lemma {:induction false} InsertGreatest(s: seq<Lesson>, x: Lesson)
    requires Sorted(s)
    requires forall i :: 0 <= i < |s| ==> Lessons.CompareTo(s[i], x) < 0
    ensures Insert(s, x) == s + [x]
  {
    if |s| > 0 {
      Lessons.CompareToAntisymmetric(x, s[0]);
      InsertGreatest(s[1..], x);
      assert [s[0]] + (s[1..] + [x]) == s + [x];
    }
  }

  /** Copying a TreeSet into a new TreeSet gives the same set. */
  lemma {:induction false} FromSortedIsIdentity(s: seq<Lesson>)
    requires Sorted(s)
    ensures FromSeq(s) == s
  {
    if |s| > 0 {
      var init := s[..|s| - 1];
      assert Sorted(init);
      FromSortedIsIdentity(init);
      InsertGreatest(init, s[|s| - 1]);
      assert init + [s[|s| - 1]] == s;
    }
  }

  /** In a TreeSet of constructed lessons, a lesson equal to the i-th one lies nowhere before it. */
  lemma FirstEqualIsAt(s: seq<Lesson>, i: int)
    requires Sorted(s) && AllWf(s) && 0 <= i < |s|
    ensures Lessons.Equals(s[i], s[i])
    ensures forall j :: 0 <= j < i ==> !Lessons.Equals(s[j], s[i])
  {
    forall j | 0 <= j < i
      ensures !Lessons.Equals(s[j], s[i])
    {
      if Lessons.Equals(s[j], s[i]) {
        Lessons.EqualsImpliesSameSlot(s[j], s[i]);
      }
    }
  }

  /**
   * The delete command's new lesson set: the list of lessons without the
   * one at the index, every other lesson kept in order.
   */
  lemma RemoveAtIndex(s: seq<Lesson>, i: int)
    requires Sorted(s) && AllWf(s) && 0 <= i < |s|
    ensures FromSeq(RemoveFirst(s, s[i])) == s[..i] + s[i + 1..]
    ensures |s[..i] + s[i + 1..]| == |s| - 1
  {
    var r := s[..i] + s[i + 1..];
    RemoveFirstAt(s, i);
    SortedWithout(s, i);
    FromSortedIsIdentity(r);
  }

  lemma RemoveFirstAt(s: seq<Lesson>, i: int)
    requires Sorted(s) && AllWf(s) && 0 <= i < |s|
    ensures RemoveFirst(s, s[i]) == s[..i] + s[i + 1..]
  {
    FirstEqualIsAt(s, i);
  }

  lemma SortedWithout(s: seq<Lesson>, i: int)
    requires Sorted(s) && 0 <= i < |s|
    ensures Sorted(s[..i] + s[i + 1..])
  {
    var r := s[..i] + s[i + 1..];
    assert forall a :: 0 <= a < |r| ==> r[a] == (if a < i then s[a] else s[a + 1]);
  }

  /** Adding to a set already holding the slot changes nothing; otherwise the set gains exactly the lesson. */
  lemma AddLesson(s: seq<Lesson>, x: Lesson)
    requires Sorted(s)
    ensures FromSeq(s) == s
    ensures !HasSlot(s, x) ==> x in Insert(s, x) && forall y :: y in s ==> y in Insert(s, x)
  {
    FromSortedIsIdentity(s);
  }

  /** In a TreeSet of constructed lessons, the i-th lesson is the only one equal to it. */
  lemma OnlyOneEqual(s: seq<Lesson>, i: int)
    requires Sorted(s) && AllWf(s) && 0 <= i < |s|
    ensures forall j :: 0 <= j < |s| && j != i ==> !Lessons.Equals(s[j], s[i])
  {
    forall j | 0 <= j < |s| && j != i
      ensures !Lessons.Equals(s[j], s[i])
    {
      if Lessons.Equals(s[j], s[i]) {
        Lessons.EqualsImpliesSameSlot(s[j], s[i]);
        Lessons.CompareToAntisymmetric(s[j], s[i]);
      }
    }
  }

  /**
   * The edit command's new lesson set: it holds the edited lesson's slot,
   * the slot of every other lesson, and nothing but the edited lesson and
   * the other lessons; the lesson edited is the only one replaced.
   */
  lemma EditAtIndex(s: seq<Lesson>, i: int, edited: Lesson)
    requires Sorted(s) && AllWf(s) && 0 <= i < |s|
    ensures var r := FromSeq(Replace(s, s[i], edited));
      HasSlot(r, edited)
      && (forall j :: 0 <= j < |s| && j != i ==> HasSlot(r, s[j]))
      && (forall y :: y in r ==> y == edited || exists j :: 0 <= j < |s| && j != i && y == s[j])
  {
    var m := ReplaceAt(s, i, edited);
    EditKeepsSlots(s, i, edited, m);
    EditAddsNothingElse(s, i, edited, m);
  }

  lemma EditKeepsSlots(s: seq<Lesson>, i: int, edited: Lesson, m: seq<Lesson>)
    requires 0 <= i < |s| && |m| == |s|
    requires m[i] == edited && forall j :: 0 <= j < |s| && j != i ==> m[j] == s[j]
    ensures HasSlot(FromSeq(m), edited)
    ensures forall j :: 0 <= j < |s| && j != i ==> HasSlot(FromSeq(m), s[j])
  {
    assert m[i] in m;
    assert forall j :: 0 <= j < |s| && j != i ==> m[j] in m;
  }

  lemma EditAddsNothingElse(s: seq<Lesson>, i: int, edited: Lesson, m: seq<Lesson>)
    requires 0 <= i < |s| && |m| == |s|
    requires m[i] == edited && forall j :: 0 <= j < |s| && j != i ==> m[j] == s[j]
    ensures forall y :: y in FromSeq(m) ==> y == edited || exists j :: 0 <= j < |s| && j != i && y == s[j]
  {
    forall y | y in FromSeq(m)
      ensures y == edited || exists j :: 0 <= j < |s| && j != i && y == s[j]
    {
      assert y in m;
      var k :| 0 <= k < |m| && m[k] == y;
    }
  }

  lemma ReplaceAt(s: seq<Lesson>, i: int, edited: Lesson) returns (m: seq<Lesson>)
    requires Sorted(s) && AllWf(s) && 0 <= i < |s|
    ensures m == Replace(s, s[i], edited) && |m| == |s|
    ensures m[i] == edited && forall j :: 0 <= j < |s| && j != i ==> m[j] == s[j]
  {
    OnlyOneEqual(s, i);
    m := Replace(s, s[i], edited);
  }
}
