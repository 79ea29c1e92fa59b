/** Character classes of the C library (`<ctype.h>` in the "C" locale), the
    case-insensitive comparison behind `strcasecmp`/`strncasecmp`, and the
    decimal value that `atoi` computes for a string of digits. Every program
    of the collection uses some of them, so they are defined once here. */
module CType {

  /** The NULL-or-value results of the C helpers. */
  datatype Option<+T> = None | Some(value: T)

  /** `unsigned char`. */
  type Byte = b: int | 0 <= b < 256

  /** `isdigit` */
  predicate IsDigit(c: char) {
    '0' <= c <= '9'
  }

  predicate IsUpper(c: char) {
    'A' <= c <= 'Z'
  }

  predicate IsLower(c: char) {
    'a' <= c <= 'z'
  }

  /** `isalpha` */
  predicate IsAlpha(c: char) {
    IsUpper(c) || IsLower(c)
  }

  /** `isalnum` */
  predicate IsAlnum(c: char) {
    IsAlpha(c) || IsDigit(c)
  }

  /** `isspace`: blank, tab, newline, vertical tab, form feed, carriage return. */
  predicate IsSpace(c: char) {
    c == ' ' || c == '\t' || c == '\n' || c == 11 as char || c == 12 as char || c == '\r'
  }

  /** `tolower` */
  function ToLower(c: char): (r: char)
    ensures IsUpper(c) ==> IsLower(r)
    ensures !IsUpper(c) ==> r == c
  {
    if IsUpper(c) then (c as int - 'A' as int + 'a' as int) as char else c
  }

  /** Two characters compare equal under `strcasecmp`. */
  predicate SameIgnoringCase(a: char, b: char) {
    ToLower(a) == ToLower(b)
  }

  /** `strcasecmp(a, b) == 0` */
  predicate EqualIgnoringCase(a: string, b: string) {
    |a| == |b| && forall i :: 0 <= i < |a| ==> SameIgnoringCase(a[i], b[i])
  }

  /** `strncpy(dst, src, size - 1)` followed by `dst[size - 1] = '\0'`: the copy in a
      buffer of `size` characters keeps the whole string when it fits and exactly its
      first size - 1 characters otherwise. */
  function BoundedCopy(s: string, size: nat): (t: string)
    requires size >= 1
    ensures |t| <= size - 1 && |t| <= |s| && t == s[..|t|]
    ensures |s| <= size - 1 ==> t == s
    ensures |s| > size - 1 ==> t == s[..size - 1]
  {
    if |s| <= size - 1 then s else s[..size - 1]
  }

  predicate AllDigits(s: string) {
    forall i :: 0 <= i < |s| ==> IsDigit(s[i])
  }

  function DigitValue(c: char): (d: nat)
    requires IsDigit(c)
    ensures d < 10
  {
    c as int - '0' as int
  }

  /** The value `atoi` (and the calculator's `num*10 + digit` loop) gives a
      string of decimal digits, read most significant digit first. */
  function DecimalValue(s: string): nat
    requires AllDigits(s)
  {
    if s == [] then 0 else 10 * DecimalValue(s[..|s| - 1]) + DigitValue(s[|s| - 1])
  }

  /** A digit string has a positive value exactly when one of its digits is not '0'. */
  lemma {:induction false} DecimalValuePositive(s: string)
    requires AllDigits(s)
    ensures DecimalValue(s) >= 1 <==> exists i :: 0 <= i < |s| && s[i] != '0'
  {
    if s != [] {
      var p := s[..|s| - 1];
      assert AllDigits(p);
      DecimalValuePositive(p);
      if exists i :: 0 <= i < |p| && p[i] != '0' {
        var i :| 0 <= i < |p| && p[i] != '0';
        assert s[i] != '0';
      }
      if exists i :: 0 <= i < |s| && s[i] != '0' {
        var i :| 0 <= i < |s| && s[i] != '0';
        if i < |p| {
          assert p[i] != '0';
        }
      }
    }
  }

  /** Adding the same bag to both sides of an exchange, in the middle: if a and c make up
      what d and e make up, then so do a, b and c and d, b and e. */
  lemma MultisetShuffle<T>(a: multiset<T>, b: multiset<T>, c: multiset<T>, d: multiset<T>, e: multiset<T>)
    requires a + c == d + e
    ensures a + b + c == d + b + e
  {
    forall y
      ensures (a + b + c)[y] == (d + b + e)[y]
    {
      assert (a + c)[y] == (d + e)[y];
    }
  }

  /** A sequence cut around one element is the same sequence. */
  lemma AroundElement<T>(s: seq<T>, j: nat)
    requires j < |s|
    ensures s[..j] + [s[j]] + s[j + 1..] == s
  {
  }

  /** A non-empty sequence is its head followed by its tail. */
  lemma HeadTail<T>(s: seq<T>)
    requires s != []
    ensures [s[0]] + s[1..] == s
  {
  }

  /** The head and the tail of a sequence built as one element followed by more. */
  lemma ConsParts<T>(x: T, rest: seq<T>)
    ensures ([x] + rest)[0] == x && ([x] + rest)[1..] == rest
  {
  }
}
