/**
 * Tags label students; a tag shown in the tag list also carries the
 * number of students labelled with it.
 */
module Tags {
  import opened Wrappers
  import opened Text

  const MessageConstraints: string := "Tags names should be alphanumeric."

  datatype Tag = Tag(name: string, numStudents: int)

  /** Tag.isValidTagName: the regular expression \p{Alnum}+. */
  function IsValidTagName(s: string): (r: bool)
    ensures r ==> s != [] && ' ' !in s
  {
    |s| >= 1 && forall i :: 0 <= i < |s| ==> IsAlnum(s[i])
  }

  /** The invariant every constructed tag keeps: a valid, upper-case name and a positive count. */
  predicate Wf(t: Tag) {
    IsValidTagName(t.name) && ToUpper(t.name) == t.name && t.numStudents > 0
  }

  /** The public constructor: upper-cases the name and counts one student. */
  function Make(s: string): (r: Result<Tag, string>)
    ensures r.Err? <==> !IsValidTagName(s)
    ensures r.Err? ==> r.error == MessageConstraints
    ensures r.Ok? ==> r.value.name == ToUpper(s) && r.value.numStudents == 1
    ensures r.Ok? ==> Wf(r.value)
  {
    if !IsValidTagName(s) then Err(MessageConstraints)
    else
      ToUpperIdempotent(s);
      Ok(Tag(ToUpper(s), 1))
  }

  /** Tag.createTagWithNum: the same name with the given count. */
  function CreateTagWithNum(t: Tag, num: int): (r: Tag)
    requires Wf(t) && num > 0
    ensures r.name == t.name && r.numStudents == num
    ensures Wf(r) && Equals(r, t)
  {
    Tag(t.name, num)
  }

  /** Tag.equals: by name only. */
  function Equals(a: Tag, b: Tag): (r: bool)
    ensures r ==> HashCode(a) == HashCode(b)
  {
    a.name == b.name
  }

  /** Tag.hashCode: the name's String.hashCode. */
  function HashCode(t: Tag): (h: int)
    ensures -TwoTo31 <= h < TwoTo31
  {
    StringHash(t.name)
  }

  /** Tag.toString. */
  function ToString(t: Tag): (r: string)
    ensures |r| == |t.name| + 2 && r[0] == '[' && r[|r| - 1] == ']'
    ensures r[1..|r| - 1] == t.name
  {
    "[" + t.name + "]"
  }

  // ---------------------------------------------------------------------
  // Lemmas
  // ---------------------------------------------------------------------

  lemma UpperKeepsAlnum(s: string)
    requires IsValidTagName(s)
    ensures IsValidTagName(ToUpper(s))
  {
  }

  /** Names differing only in letter case make equal tags. */
  lemma MakeIgnoresCase(s1: string, s2: string)
    requires Make(s1).Ok? && Make(s2).Ok?
    ensures Equals(Make(s1).value, Make(s2).value) <==> ToUpper(s1) == ToUpper(s2)
  {
  }

  /** Equal tags hash alike, whatever their counts. */
  lemma EqualTagsHashAlike(a: Tag, b: Tag)
    requires Equals(a, b)
    ensures HashCode(a) == HashCode(b)
    ensures a.numStudents != b.numStudents ==> a != b
  {
  }

  /** Changing the count keeps equality and hash. */
  lemma CountIsInvisible(t: Tag, num: int)
    requires Wf(t) && num > 0
    ensures Equals(CreateTagWithNum(t, num), t)
    ensures HashCode(CreateTagWithNum(t, num)) == HashCode(t)
  {
  }

  /** The printed form determines the tag's identity. */
  lemma ToStringIffEqual(a: Tag, b: Tag)
    ensures ToString(a) == ToString(b) <==> Equals(a, b)
  {
    if ToString(a) == ToString(b) {
      assert a.name == ToString(a)[1..|ToString(a)| - 1];
    }
  }

  lemma HashExamples()
    ensures StringHash("A") == 65
    ensures StringHash("AB") == 2081
  {
    assert "AB"[..1] == "A";
    assert "A"[..0] == [];
  }

  lemma InvalidNames()
    ensures !IsValidTagName("") && !IsValidTagName("friend s") && !IsValidTagName("#1")
    ensures Make("math1").Ok? && Make("math1").value.name == "MATH1"
  {
    assert "friend s"[6] == ' ';
    assert "#1"[0] == '#';
    assert IsValidTagName("math1");
  }
}
