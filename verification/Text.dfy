/** Strings the way the C library sees them: decimal printing, strtol, strchr, strstr, isspace. */
module Text {

  datatype Option<+T> = None | Some(value: T)

  predicate IsDigit(c: char) {
    '0' <= c <= '9'
  }

  /** isspace in the "C" locale. */
  predicate IsSpace(c: char) {
    c == ' ' || c == '\t' || c == '\n' || c == '\U{0B}' || c == '\U{0C}' || c == '\r'
  }

  predicate HasPrefix(s: string, p: string) {
    |p| <= |s| && s[..|p|] == p
  }

  predicate HasSuffix(s: string, p: string) {
    |p| <= |s| && s[|s| - |p|..] == p
  }

  // ----- splitting at a character -----

  /** strchr: index of the first `c`, or the length when there is none. */
  function IndexOf(s: string, c: char): (i: nat)
    ensures i <= |s|
    ensures forall j | 0 <= j < i :: s[j] != c
    ensures i < |s| ==> s[i] == c
  {
    IndexFrom(s, c, 0)
  }

  function IndexFrom(s: string, c: char, from: nat): (i: nat)
    requires from <= |s|
    ensures from <= i <= |s|
    ensures forall j | from <= j < i :: s[j] != c
    ensures i < |s| ==> s[i] == c
    decreases |s| - from
  {
    if from == |s| || s[from] == c then from else IndexFrom(s, c, from + 1)
  }

  lemma IndexOfIs(a: string, c: char, b: string)
    requires c !in a
    ensures IndexOf(a + [c] + b, c) == |a|
  {
    var s := a + [c] + b;
    assert s[|a|] == c;
    assert forall j | 0 <= j < |a| :: s[j] == a[j];
  }

  /** A string splits in only one way at its first `c`. */
  lemma SplitFirst(a1: string, b1: string, a2: string, b2: string, c: char)
    requires c !in a1 && c !in a2
    requires a1 + [c] + b1 == a2 + [c] + b2
    ensures a1 == a2 && b1 == b2
  {
    IndexOfIs(a1, c, b1);
    IndexOfIs(a2, c, b2);
    var s := a1 + [c] + b1;
    assert a1 == s[..|a1|] && a2 == s[..|a1|];
    assert b1 == s[|a1| + 1..] && b2 == s[|a1| + 1..];
  }

  /** A string splits in only one way at its last `c`. */
  lemma SplitLast(a1: string, b1: string, a2: string, b2: string, c: char)
    requires c !in b1 && c !in b2
    requires a1 + [c] + b1 == a2 + [c] + b2
    ensures a1 == a2 && b1 == b2
  {
    var s := a1 + [c] + b1;
    var t := a2 + [c] + b2;
    assert s[|a1|] == c && t[|a2|] == c;
    assert forall j | |a1| < j < |s| :: s[j] == b1[j - |a1| - 1];
    assert forall j | |a2| < j < |t| :: t[j] == b2[j - |a2| - 1];
    assert a1 == s[..|a1|] && a2 == t[..|a1|];
    assert b1 == s[|a1| + 1..] && b2 == t[|a1| + 1..];
  }

  // ----- numbers -----

  function Digit(d: nat): (c: char)
    requires d < 10
    ensures IsDigit(c) && DigitValue(c) == d
  {
    '0' + d as char
  }

  function DigitValue(c: char): (d: nat)
    requires IsDigit(c)
    ensures d < 10
  {
    (c - '0') as nat
  }

  /** printf("%d") of a non-negative number. */
  function Decimal(n: nat): (s: string)
    ensures |s| > 0
    ensures forall c | c in s :: IsDigit(c)
  {
    if n < 10 then [Digit(n)] else Decimal(n / 10) + [Digit(n % 10)]
  }

  /** printf("%d") */
  function PrintInt(n: int): (s: string)
    ensures |s| > 0
  {
    if n < 0 then ['-'] + Decimal(-n) else Decimal(n)
  }

  /** The number written in `s[from..end]`. */
  function DigitsValue(s: string, from: nat, end: nat): nat
    requires from <= end <= |s|
    requires forall j | from <= j < end :: IsDigit(s[j])
    decreases end
  {
    if from == end then 0 else DigitsValue(s, from, end - 1) * 10 + DigitValue(s[end - 1])
  }

  lemma {:induction false} DigitsValuePrefix(s: string, t: string, end: nat)
    requires end <= |s| && end <= |t|
    requires forall j | 0 <= j < end :: s[j] == t[j] && IsDigit(s[j])
    ensures DigitsValue(s, 0, end) == DigitsValue(t, 0, end)
  {
    if end > 0 {
      DigitsValuePrefix(s, t, end - 1);
    }
  }

  lemma {:induction false} DecimalReadsBack(n: nat)
    ensures DigitsValue(Decimal(n), 0, |Decimal(n)|) == n
  {
    if n >= 10 {
      var s, t := Decimal(n), Decimal(n / 10);
      DecimalReadsBack(n / 10);
      DigitsValuePrefix(t, s, |t|);
    } else {
      assert DigitsValue([Digit(n)], 0, 0) == 0;
    }
  }

  lemma {:induction false} DecimalInjective(m: nat, n: nat)
    requires Decimal(m) == Decimal(n)
    ensures m == n
  {
    DecimalReadsBack(m);
    DecimalReadsBack(n);
  }

  /** Length of the run of digits at the start of `s`. */
  function DigitRun(s: string): (n: nat)
    ensures n <= |s|
    ensures forall j | 0 <= j < n :: IsDigit(s[j])
    ensures n < |s| ==> !IsDigit(s[n])
  {
    DigitRunFrom(s, 0)
  }

  function DigitRunFrom(s: string, from: nat): (n: nat)
    requires from <= |s|
    ensures from <= n <= |s|
    ensures forall j | from <= j < n :: IsDigit(s[j])
    ensures n < |s| ==> !IsDigit(s[n])
    decreases |s| - from
  {
    if from == |s| || !IsDigit(s[from]) then from else DigitRunFrom(s, from + 1)
  }

  lemma DigitRunIs(a: string, b: string)
    requires forall c | c in a :: IsDigit(c)
    requires b == [] || !IsDigit(b[0])
    ensures DigitRun(a + b) == |a|
    ensures (a + b)[..|a|] == a
  {
    var s := a + b;
    assert forall j | 0 <= j < |a| :: s[j] == a[j];
    assert b != [] ==> s[|a|] == b[0];
  }

  /** Length of the run of blanks at the start of `s`. */
  function SpaceRun(s: string): (n: nat)
    ensures n <= |s|
    ensures forall j | 0 <= j < n :: IsSpace(s[j])
    ensures n < |s| ==> !IsSpace(s[n])
  {
    SpaceRunFrom(s, 0)
  }

  function SpaceRunFrom(s: string, from: nat): (n: nat)
    requires from <= |s|
    ensures from <= n <= |s|
    ensures forall j | from <= j < n :: IsSpace(s[j])
    ensures n < |s| ==> !IsSpace(s[n])
    decreases |s| - from
  {
    if from == |s| || !IsSpace(s[from]) then from else SpaceRunFrom(s, from + 1)
  }

  /** strtol(s, &end, 10) on unbounded integers: the value and how many characters were consumed
      (0 when no conversion could be made). */
  function Strtol(s: string): (r: (int, nat))
    ensures r.1 <= |s|
  {
    var w := SpaceRunFrom(s, 0);
    var d := if w < |s| && (s[w] == '-' || s[w] == '+') then w + 1 else w;
    var n := DigitRunFrom(s, d);
    if n == d then (0, 0)
    else
      var v: int := DigitsValue(s, d, n);
      (if w < d && s[w] == '-' then -v else v, n)
  }

  lemma {:induction false} StrtolReadsBack(n: nat, rest: string)
    requires rest == [] || !IsDigit(rest[0])
    ensures Strtol(Decimal(n) + rest) == (n, |Decimal(n)|)
  {
    var d := Decimal(n);
    var s := d + rest;
    assert forall j | 0 <= j < |d| :: s[j] == d[j];
    assert rest != [] ==> s[|d|] == rest[0];
    assert IsDigit(s[0]) && SpaceRunFrom(s, 0) == 0;
    assert DigitRunFrom(s, 0) == |d|;
    DigitsValuePrefix(d, s, |d|);
    DecimalReadsBack(n);
  }

  const LONG_MAX: int := 0x7FFF_FFFF_FFFF_FFFF

  /** strtol stops at the ends of the range of long. */
  function ToLong(n: int): int {
    if n > LONG_MAX then LONG_MAX else if n < -LONG_MAX - 1 then -LONG_MAX - 1 else n
  }

  /** Conversion of a long to int16_t. */
  function Int16(n: int): (r: int)
    ensures -0x8000 <= r < 0x8000 && (n - r) % 0x1_0000 == 0
    ensures -0x8000 <= n < 0x8000 ==> r == n
  {
    var m := n % 0x1_0000;
    if m < 0x8000 then m else m - 0x1_0000
  }

  // ----- searching for a substring -----

  predicate OccursAt(s: string, p: string, i: int) {
    0 <= i && i + |p| <= |s| && s[i..i + |p|] == p
  }

  ghost predicate Occurs(s: string, p: string) {
    exists i :: OccursAt(s, p, i)
  }

  /** strstr / memmem: the first occurrence at `from` or later. */
  function FindFrom(s: string, p: string, from: nat): (r: Option<nat>)
    ensures r.Some? ==>
              from <= r.value && OccursAt(s, p, r.value) && forall j | from <= j < r.value :: !OccursAt(s, p, j)
    ensures r.None? ==> forall j | from <= j :: !OccursAt(s, p, j)
    decreases |s| - from
  {
    if OccursAt(s, p, from) then Some(from)
    else if from >= |s| then None
    else FindFrom(s, p, from + 1)
  }

  function Find(s: string, p: string): (r: Option<nat>)
    ensures r.Some? ==> OccursAt(s, p, r.value) && forall j | 0 <= j < r.value :: !OccursAt(s, p, j)
    ensures r.None? <==> !Occurs(s, p)
  {
    FindFrom(s, p, 0)
  }

  /** Two literals that differ at a position both have: no extensions of them are equal. */
  ghost predicate Diverge(a: string, b: string) {
    exists i :: 0 <= i < |a| && i < |b| && a[i] != b[i]
  }

  lemma DivergeExtends(a: string, x: string, b: string, y: string)
    requires Diverge(a, b)
    ensures a + x != b + y
  {
    var i :| 0 <= i < |a| && i < |b| && a[i] != b[i];
    assert (a + x)[i] == a[i] && (b + y)[i] == b[i];
  }
}
