/** The names of boot variables digit by digit, and what moving to the front does to any BootOrder. */
module BootVarLaws {
  import opened Text
  import opened BootVar

  const UPPER: string := "0123456789ABCDEF"
  const LOWER: string := "0123456789abcdef"

  // ----- names -----

  lemma DigitIs(v: nat)
    requires v < 16
    ensures HexDigit(v) == UPPER[v]
  {
  }

  /** The digits of a name that is written are upper case. */
  lemma NameIsUpperCase(n: nat)
    requires n <= 0xFFFF
    ensures exists a, b, c, d | 0 <= a < 16 && 0 <= b < 16 && 0 <= c < 16 && 0 <= d < 16 ::
              BootName(n) == "Boot" + [UPPER[a], UPPER[b], UPPER[c], UPPER[d]] && n == ((a * 16 + b) * 16 + c) * 16 + d
  {
    hide BootName, HexDigit;
    FourDigits(n);
    Nibbles(n);
    var a, b, c, d := n / 16 / 16 / 16, n / 16 / 16 % 16, n / 16 % 16, n % 16;
    DigitIs(a);
    DigitIs(b);
    DigitIs(c);
    DigitIs(d);
    assert BootName(n) == "Boot" + [UPPER[a], UPPER[b], UPPER[c], UPPER[d]];
  }

  lemma LowerDigitIs(v: nat)
    requires v < 16
    ensures LOWER[v] == if v < 10 then '0' + v as char else 'a' + (v - 10) as char
  {
  }

  /** What a digit counts, in either case. */
  lemma DigitCounts(c: char)
    ensures IsHex(c) <==> c in UPPER || c in LOWER
    ensures IsHex(c) ==> c == UPPER[HexValue(c)] || c == LOWER[HexValue(c)]
  {
    if IsHex(c) {
      DigitIs(HexValue(c));
      LowerDigitIs(HexValue(c));
    } else {
      DigitsAreHex(c);
    }
  }

  lemma DigitsAreHex(c: char)
    ensures c in UPPER || c in LOWER ==> IsHex(c)
  {
    forall v: nat | v < 16
      ensures IsHex(UPPER[v]) && IsHex(LOWER[v])
    {
      DigitIs(v);
      LowerDigitIs(v);
    }
  }

  /** Which names are those of boot variables: "Boot", four hexadecimal digits in either case, and behind them nothing
      that begins with a fifth. */
  lemma BootNames(name: string)
    ensures IsBootName(name) <==>
            exists a: char, b: char, c: char, d: char, rest: string ::
              && IsHex(a) && IsHex(b) && IsHex(c) && IsHex(d) && (rest == "" || !IsHex(rest[0]))
              && name == "Boot" + [a, b, c, d] + rest
  {
    if IsBootName(name) {
      assert name == "Boot" + [name[4], name[5], name[6], name[7]] + name[8..];
    }
    forall a: char, b: char, c: char, d: char, rest: string |
      IsHex(a) && IsHex(b) && IsHex(c) && IsHex(d) && (rest == "" || !IsHex(rest[0])) &&
      name == "Boot" + [a, b, c, d] + rest
      ensures IsBootName(name)
    {
      assert name[..4] == "Boot";
    }
  }

  // ----- the free number -----

  /** How many of the numbers are not above `x`. */
  function CountUpto(s: seq<int>, x: int): nat {
    if s == [] then 0 else CountUpto(s[..|s| - 1], x) + if s[|s| - 1] <= x then 1 else 0
  }

  lemma {:induction false} CountFront(s: seq<int>, x: int)
    requires s != []
    ensures CountUpto(s, x) == CountUpto(s[1..], x) + if s[0] <= x then 1 else 0
  {
    if |s| == 1 {
      assert s[..0] == [] && s[1..] == [];
    } else {
      var r := s[..|s| - 1];
      CountFront(r, x);
      assert r[1..] == s[1..][..|s| - 2] && s[1..][|s| - 2] == s[|s| - 1];
    }
  }

  lemma {:induction false} CountInsert(s: seq<int>, n: int, x: int)
    ensures CountUpto(Insert(s, n), x) == CountUpto(s, x) + if n <= x then 1 else 0
  {
    var t := Insert(s, n);
    CountFront(t, x);
    if s == [] || n <= s[0] {
      assert t[1..] == s;
    } else {
      CountInsert(s[1..], n, x);
      CountFront(s, x);
      assert t[1..] == Insert(s[1..], n);
    }
  }

  lemma {:induction false} CountSorted(s: seq<int>, x: int)
    ensures CountUpto(Sorted(s), x) == CountUpto(s, x)
  {
    if s != [] {
      CountSorted(s[..|s| - 1], x);
      CountInsert(Sorted(s[..|s| - 1]), s[|s| - 1], x);
    }
  }

  /** Of an ascending list those not above `x` come first. */
  lemma {:induction false} CountAscending(s: seq<int>, x: int, n: nat)
    requires Ascending(s) && n <= |s|
    ensures n > 0 && s[n - 1] <= x ==> CountUpto(s, x) >= n
    ensures n < |s| && s[n] > x ==> CountUpto(s, x) <= n
    ensures CountUpto(s, x) <= |s|
  {
    if s != [] {
      var r := s[..|s| - 1];
      CountAscending(r, x, if n < |s| then n else |r|);
      if n == |s| && s[n - 1] <= x {
        CountAll(s, x);
      }
    }
  }

  lemma {:induction false} CountAll(s: seq<int>, x: int)
    requires forall i | 0 <= i < |s| :: s[i] <= x
    ensures CountUpto(s, x) == |s|
  {
    if s != [] {
      CountAll(s[..|s| - 1], x);
    }
  }

  /** The number given to a new record, without sorting: it is the least `n` such that at most `n` records have a number
      that is not above `n`. */
  lemma {:induction false} FreeNoCounts(nums: seq<int>)
    ensures CountUpto(nums, FreeNo(nums)) <= FreeNo(nums)
    ensures forall n | 0 <= n < FreeNo(nums) :: CountUpto(nums, n) > n
  {
    var s, res := Sorted(nums), FreeNo(nums);
    SortedIs(nums);
    CountSorted(nums, res);
    CountAscending(s, res, res);
    forall n | 0 <= n < res
      ensures CountUpto(nums, n) > n
    {
      CountSorted(nums, n);
      CountAscending(s, n, n + 1);
    }
  }

  // ----- BootOrder -----

  lemma {:induction false} WithoutSplits(p: seq<nat>, q: seq<nat>, number: nat, n: nat)
    requires n <= |q|
    ensures WithoutUpto(p + q, number, |p| + n) == WithoutUpto(p, number, |p|) + WithoutUpto(q, number, n)
  {
    if n == 0 {
      WithoutPrefix(p, q, number, |p|);
    } else {
      WithoutSplits(p, q, number, n - 1);
      assert (p + q)[|p| + n - 1] == q[n - 1];
    }
  }

  lemma {:induction false} WithoutPrefix(p: seq<nat>, q: seq<nat>, number: nat, n: nat)
    requires n <= |p|
    ensures WithoutUpto(p + q, number, n) == WithoutUpto(p, number, n)
  {
    if n > 0 {
      WithoutPrefix(p, q, number, n - 1);
    }
  }

  /** What is left behind the number, of one list and then of another, is what is left of both: the other entries keep
      their order. */
  lemma PushedSplits(p: seq<nat>, q: seq<nat>, number: nat)
    ensures Pushed(p + q, number) == Pushed(p, number) + Pushed(q, number)[1..]
  {
    hide WithoutUpto;
    WithoutSplits(p, q, number, |q|);
    var x, y := WithoutUpto(p, number, |p|), WithoutUpto(q, number, |q|);
    assert ([number] + y)[1..] == y && [number] + (x + y) == ([number] + x) + y;
  }

  lemma PushedOne(x: nat, number: nat)
    ensures Pushed([x], number) == if x == number then [number] else [number, x]
    ensures Pushed([], number) == [number]
  {
    assert WithoutUpto([x], number, 0) == [];
    assert [number] + [] == [number];
  }

  /** A number that stands in the list once, or not at all, goes to the front. */
  lemma PushedIs(p: seq<nat>, q: seq<nat>, number: nat)
    requires number !in p && number !in q
    ensures Pushed(p + [number] + q, number) == [number] + p + q
    ensures Pushed(p + q, number) == [number] + p + q
  {
    PushedAbsent(p, number);
    PushedAbsent(q, number);
    hide Pushed;
    PushedSplits(p + [number], q, number);
    PushedSplits(p, [number], number);
    PushedSplits(p, q, number);
    PushedOne(number, number);
    assert ([number] + q)[1..] == q && [number][1..] == [];
    assert [number] + p + [] == [number] + p;
  }

  lemma PushedAbsent(p: seq<nat>, number: nat)
    requires number !in p
    ensures Pushed(p, number) == [number] + p
  {
    assert p[..|p|] == p;
    WithoutAbsent(p, number, |p|);
  }
}
