/** The student performance analyser: each input line gives a roll number, a first and a
    last name and three marks; the roll number and the name are checked, the roll
    number must not repeat, the average mark gives a letter grade, and at the end the
    roll numbers are bubble-sorted. Marks are doubles in the program; here the average is
    a `real` and the marks themselves are not part of the model. */
module Students {
  import opened CType

  /** At most this many students. */
  const MAX: nat := 100

  // ---------------------------------------------------------------------------
  // Validators
  // ---------------------------------------------------------------------------

  /** What `isValidRollNumber` accepts: a non-empty run of decimal digits whose value
      (as `atoi` reads it) is at least 1. */
  predicate ValidRollNumber(s: string) {
    s != [] && AllDigits(s) && DecimalValue(s) >= 1
  }

  /** `isValidRollNumber`: NULL and the empty string are refused, then every character
      must be a digit, then the value must be positive. */
  method IsValidRollNumber(str: Option<string>) returns (ok: bool)
    ensures ok <==> str.Some? && ValidRollNumber(str.value)
  {
    if str.None? || str.value == [] {
      return false;
    }
    var s := str.value;
    var i := 0;
    while i < |s|
      invariant 0 <= i <= |s|
      invariant forall k :: 0 <= k < i ==> IsDigit(s[k])
    {
      if !IsDigit(s[i]) {
        return false;
      }
      i := i + 1;
    }
    ok := DecimalValue(s) >= 1;
  }

  /** A roll number is valid exactly when it is all digits with at least one digit
      other than '0' (so "007" is roll number 7, and "000" is refused). */
  lemma RollNumberShape(s: string)
    ensures ValidRollNumber(s) <==> AllDigits(s) && exists i :: 0 <= i < |s| && s[i] != '0'
  {
    if AllDigits(s) {
      DecimalValuePositive(s);
    }
  }

  /** What `isValidName` accepts: a non-empty string of letters and spaces. */
  predicate ValidName(s: string) {
    s != [] && forall k :: 0 <= k < |s| ==> IsAlpha(s[k]) || s[k] == ' '
  }

  /** `isValidName`: NULL and the empty string are refused, then every character must
      be a letter or a space. */
  method IsValidName(str: Option<string>) returns (ok: bool)
    ensures ok <==> str.Some? && ValidName(str.value)
  {
    if str.None? || str.value == [] {
      return false;
    }
    var s := str.value;
    var i := 0;
    while i < |s|
      invariant 0 <= i <= |s|
      invariant forall k :: 0 <= k < i ==> IsAlpha(s[k]) || s[k] == ' '
    {
      if !IsAlpha(s[i]) && s[i] != ' ' {
        return false;
      }
      i := i + 1;
    }
    return true;
  }

  /** The full name is `first + " " + last`; it is valid exactly when both words are
      letters only (the words come from `%s`, so they hold no spaces). */
  lemma FullNameValid(first: string, last: string)
    requires first != [] && last != []
    requires forall k :: 0 <= k < |first| ==> first[k] != ' '
    requires forall k :: 0 <= k < |last| ==> last[k] != ' '
    ensures ValidName(first + " " + last) <==>
      (forall k :: 0 <= k < |first| ==> IsAlpha(first[k])) && (forall k :: 0 <= k < |last| ==> IsAlpha(last[k]))
  {
    var s := first + " " + last;
    assert forall k :: 0 <= k < |first| ==> s[k] == first[k];
    assert forall k :: 0 <= k < |last| ==> s[|first| + 1 + k] == last[k];
    if ValidName(s) {
      forall k | 0 <= k < |last|
        ensures IsAlpha(last[k])
      {
        assert s[|first| + 1 + k] == last[k];
      }
    }
  }

  // ---------------------------------------------------------------------------
  // Grades
  // ---------------------------------------------------------------------------

  /** `getGrade`: 'A' from 85, 'B' from 70, 'C' from 50, 'D' from 35, 'F' below. */
  function Grade(avg: real): (g: char)
    ensures g in {'A', 'B', 'C', 'D', 'F'}
    ensures g == 'A' <==> avg >= 85.0
    ensures g == 'F' <==> avg < 35.0
  {
    if avg >= 85.0 then 'A'
    else if avg >= 70.0 then 'B'
    else if avg >= 50.0 then 'C'
    else if avg >= 35.0 then 'D'
    else 'F'
  }

  /** The lowest average that earns the grade. */
  function Threshold(g: char): real
    requires g in {'A', 'B', 'C', 'D'}
  {
    match g
    case 'A' => 85.0
    case 'B' => 70.0
    case 'C' => 50.0
    case _ => 35.0
  }

  /** A higher average never earns a worse grade (the letters are in alphabetical order,
      'F' last). */
  lemma GradeMonotone(a: real, b: real)
    requires a <= b
    ensures Grade(b) <= Grade(a)
  {
  }

  /** A grade other than 'F' is earned exactly from its threshold up to the next
      grade's threshold. */
  lemma GradeBands(avg: real, g: char)
    requires g in {'A', 'B', 'C', 'D'}
    ensures Grade(avg) == g <==>
      avg >= Threshold(g) && (g == 'A' || avg < Threshold((g as int - 1) as char))
  {
  }

  // ---------------------------------------------------------------------------
  // Roll numbers
  // ---------------------------------------------------------------------------

  /** `isDuplicateRollNumber`: whether the roll number is among the first `count`
      entries of the list. */
  method IsDuplicateRollNumber(roll: int, list: seq<int>, count: nat) returns (dup: bool)
    requires count <= |list|
    ensures dup <==> roll in list[..count]
  {
    var i := 0;
    while i < count
      invariant 0 <= i <= count
      invariant roll !in list[..i]
    {
      if list[i] == roll {
        return true;
      }
      i := i + 1;
    }
    assert list[..i] == list[..count];
    return false;
  }

  predicate Distinct(s: seq<int>) {
    forall i, j :: 0 <= i < j < |s| ==> s[i] != s[j]
  }

  datatype Admission = BadRollNumber | DuplicateRollNumber | BadName | BadMarks | Admitted

  /** One student line of the enrolment loop, after the six fields are scanned: the roll
      number is checked, then looked up among the rolls taken so far, then the full name
      is built and checked, then the marks; an admitted student's roll number joins the
      list. A refused line is asked for again. The marks are floating point, so whether
      `isValidMark` accepts all three comes in as `marksValid`. */
  method Admit(rolls: seq<int>, rollStr: string, first: string, last: string, marksValid: bool)
    returns (r: seq<int>, outcome: Admission)
    ensures outcome == BadRollNumber <==> !ValidRollNumber(rollStr)
    ensures outcome == DuplicateRollNumber <==> ValidRollNumber(rollStr) && DecimalValue(rollStr) in rolls
    ensures outcome == BadName <==>
      ValidRollNumber(rollStr) && DecimalValue(rollStr) !in rolls && !ValidName(first + " " + last)
    ensures outcome == BadMarks ==> !marksValid
    ensures outcome == Admitted <==>
      ValidRollNumber(rollStr) && DecimalValue(rollStr) !in rolls && ValidName(first + " " + last) && marksValid
    ensures outcome == Admitted ==> r == rolls + [DecimalValue(rollStr)]
    ensures outcome != Admitted ==> r == rolls
    ensures Distinct(rolls) ==> Distinct(r)
  {
    var ok := IsValidRollNumber(Some(rollStr));
    if !ok {
      return rolls, BadRollNumber;
    }
    var roll := DecimalValue(rollStr);
    var dup := IsDuplicateRollNumber(roll, rolls, |rolls|);
    assert rolls[..|rolls|] == rolls;
    if dup {
      return rolls, DuplicateRollNumber;
    }
    var named := IsValidName(Some(first + " " + last));
    if !named {
      return rolls, BadName;
    }
    if !marksValid {
      return rolls, BadMarks;
    }
    r := rolls + [roll];
    outcome := Admitted;
  }

  // ---------------------------------------------------------------------------
  // Sorting
  // ---------------------------------------------------------------------------

  predicate Sorted(s: seq<int>) {
    forall i, j :: 0 <= i < j < |s| ==> s[i] <= s[j]
  }

  /** The list with entries j and j+1 exchanged. */
  function SwapNext(a: seq<int>, j: nat): (r: seq<int>)
    requires j + 1 < |a|
    ensures |r| == |a| && r[j] == a[j + 1] && r[j + 1] == a[j]
    ensures forall k :: 0 <= k < |a| && k != j && k != j + 1 ==> r[k] == a[k]
    ensures multiset(r) == multiset(a)
  {
    var r := a[j := a[j + 1]][j + 1 := a[j]];
    assert r == a[..j] + [a[j + 1], a[j]] + a[j + 2..];
    assert a == a[..j] + [a[j], a[j + 1]] + a[j + 2..];
    r
  }

  /** The bubble pass state: the tail from `bound` on is sorted and no smaller than
      anything before it. */
  predicate SortedTail(a: seq<int>, bound: nat)
    requires bound <= |a|
  {
    (forall i, j :: bound <= i < j < |a| ==> a[i] <= a[j])
    && (forall i, j :: 0 <= i < bound <= j < |a| ==> a[i] <= a[j])
  }

  /** One inner pass of `sortRollNumbers`: adjacent entries out of order are exchanged
      from the front up to `bound`, which carries the largest of them to `bound - 1`. */
  method BubblePass(a: seq<int>, bound: nat) returns (r: seq<int>)
    requires 1 <= bound <= |a| && SortedTail(a, bound)
    ensures |r| == |a| && multiset(r) == multiset(a)
    ensures SortedTail(r, bound - 1)
  {
    r := a;
    var j := 0;
    while j < bound - 1
      invariant 0 <= j <= bound - 1
      invariant |r| == |a| && multiset(r) == multiset(a)
      invariant SortedTail(r, bound)
      invariant forall k :: 0 <= k < j ==> r[k] <= r[j]
    {
      if r[j] > r[j + 1] {
        r := SwapNext(r, j);
      }
      j := j + 1;
    }
  }

  /** `sortRollNumbers`: bubble sort, ascending. */
  method SortRollNumbers(arr: seq<int>) returns (r: seq<int>)
    ensures Sorted(r) && multiset(r) == multiset(arr)
  {
    r := arr;
    if |arr| < 2 {
      return;
    }
    var i := 0;
    while i < |arr| - 1
      invariant 0 <= i <= |arr| - 1
      invariant |r| == |arr| && multiset(r) == multiset(arr)
      invariant SortedTail(r, |arr| - i)
    {
      r := BubblePass(r, |arr| - i);
      i := i + 1;
    }
  }

  /** Sorting distinct roll numbers lists them strictly ascending, each once. */
  lemma SortedDistinctAscending(arr: seq<int>, r: seq<int>)
    requires Distinct(arr) && Sorted(r) && multiset(r) == multiset(arr)
    ensures forall i, j :: 0 <= i < j < |r| ==> r[i] < r[j]
  {
    forall i, j | 0 <= i < j < |r|
      ensures r[i] < r[j]
    {
      if r[i] == r[j] {
        assert r == r[..j] + r[j..];
        assert multiset(r) == multiset(r[..j]) + multiset(r[j..]);
        assert r[i] in multiset(r[..j]) && r[j] in multiset(r[j..]);
        assert multiset(r)[r[i]] >= 2;
        DistinctCountsOnce(arr, r[i]);
      }
    }
  }

  lemma {:induction false} DistinctCountsOnce(s: seq<int>, x: int)
    requires Distinct(s)
    ensures multiset(s)[x] <= 1
  {
    if s != [] {
      var t := s[..|s| - 1];
      assert s == t + [s[|s| - 1]];
      DistinctCountsOnce(t, x);
      if x == s[|s| - 1] {
        assert x !in t;
      }
    }
  }
}
