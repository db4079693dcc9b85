/** The Title value object: a validated, trimmed title compared by value. */
module Titles {
  import opened Common
  import opened Text

  const MinLength: int := 1
  const MaxLength: int := 500

  datatype Title = Title(value: string)

  /** What every constructed title satisfies: non-empty, at most MaxLength
      characters, no white space at either end. */
  ghost predicate WellFormed(v: string)
  {
    MinLength <= |v| <= MaxLength && !IsWhiteSpace(v[0]) && !IsWhiteSpace(v[|v| - 1])
  }

  /** The constructor `new Title(value)`. The length limit applies to the
      untrimmed input; the stored value is the trimmed input. */
  function NewTitle(value: Nullable<string>): (r: Result<Title>)
    ensures r.Success? <==> !IsNullOrWhiteSpace(value) && |value.value| <= MaxLength
    ensures r.Failure? ==> r.error == Argument("value")
    ensures r.Success? ==> WellFormed(r.value.value)
    ensures r.Success? ==> r.value.value == Trim(value.value)
  {
    if IsNullOrWhiteSpace(value) then Failure(Argument("value"))
    else if |value.value| < MinLength || |value.value| > MaxLength then Failure(Argument("value"))
    else Success(Title(Trim(value.value)))
  }

  /** `Equals(Title? other)`: true exactly for a non-null title with the same value. */
  function Equals(t: Title, other: Nullable<Title>): (r: bool)
    ensures r <==> other == NonNull(t)
  {
    other.NonNull? && t.value == other.value.value
  }

  /** `operator ==`: two nulls are equal, a null and a title are not,
      two titles are equal when `Equals` says so. */
  function OpEquality(left: Nullable<Title>, right: Nullable<Title>): (r: bool)
    ensures r <==> left == right
    ensures left.NonNull? ==> r == Equals(left.value, right)
  {
    match left
    case NonNull(l) => Equals(l, right)
    case Null => right.Null?
  }

  /** `operator !=`: the negation of `==`. */
  function OpInequality(left: Nullable<Title>, right: Nullable<Title>): (r: bool)
    ensures r <==> left != right
  {
    !OpEquality(left, right)
  }

  /** The implicit conversion to string: the stored value, which the
      constructor accepts unchanged when the title is well formed. */
  function AsString(t: Title): (s: string)
    ensures s == t.value
    ensures WellFormed(t.value) ==> NewTitle(NonNull(s)) == Success(t)
  {
    TrimOfWellFormed(t.value);
    t.value
  }

  /** A string with no white space at either end is its own trim. */
  lemma TrimOfWellFormed(v: string)
    ensures WellFormed(v) ==> Trim(v) == v
  {
    if WellFormed(v) {
      assert LeadingWhiteSpace(v) == 0;
    }
  }

  /** `Equals` is reflexive and symmetric. */
  lemma EqualsReflexiveSymmetric(a: Title, b: Title)
    ensures Equals(a, NonNull(a))
    ensures Equals(a, NonNull(b)) == Equals(b, NonNull(a))
  {
  }

  /** Converting a title to a string and back yields the same title: a
      constructed title passes its own validation unchanged. */
  lemma TitleRoundTrip(value: Nullable<string>)
    requires NewTitle(value).Success?
    ensures NewTitle(NonNull(AsString(NewTitle(value).value))) == NewTitle(value)
  {
    var v := AsString(NewTitle(value).value);
    TrimIdempotent(value.value);
    assert !AllWhiteSpace(v) by {
      assert !IsWhiteSpace(v[0]);
    }
  }

  /** The limit is on the untrimmed length: "a" followed by 500 spaces is
      rejected although its trimmed form has a single character. */
  lemma LengthCheckedBeforeTrim()
    ensures var s := ['a'] + seq(MaxLength, _ => ' ');
            |Trim(s)| == 1 && NewTitle(NonNull(s)).Failure?
  {
    var s := ['a'] + seq(MaxLength, _ => ' ');
    assert !AllWhiteSpace(s) by {
      assert !IsWhiteSpace(s[0]);
    }
    assert LeadingWhiteSpace(s) == 0;
    assert AllWhiteSpace(s[1..]);
    var r := Trim(s);
    assert r != [] && r[0] == 'a';
  }
}
