/** EFI boot variables: finding a free number, naming a new record, and moving it to the front of
    BootOrder (UEFI Specification 2.10, sections 3.1.3 and 3.3). */
module BootVar {
  import opened Text
  import opened Disks

  // ----- numbers and names -----

  predicate IsHex(c: char) {
    '0' <= c <= '9' || 'A' <= c <= 'F' || 'a' <= c <= 'f'
  }

  function HexValue(c: char): (v: nat)
    requires IsHex(c)
    ensures v < 16
  {
    if c <= '9' then (c - '0') as nat else if c <= 'F' then (c - 'A') as nat + 10 else (c - 'a') as nat + 10
  }

  function HexDigit(v: nat): (c: char)
    requires v < 16
    ensures IsHex(c) && HexValue(c) == v
  {
    if v < 10 then '0' + v as char else 'A' + (v - 10) as char
  }

  /** printf("%X") */
  function Hex(n: nat): (s: string)
    ensures |s| > 0 && forall c | c in s :: IsHex(c)
  {
    if n < 16 then [HexDigit(n)] else Hex(n / 16) + [HexDigit(n % 16)]
  }

  /** printf("Boot%04X") */
  function BootName(n: nat): string {
    "Boot" + seq(if |Hex(n)| < 4 then 4 - |Hex(n)| else 0, i => '0') + Hex(n)
  }

  /** The number the four digits behind "Boot" stand for. */
  function NumberOf(name: string): (n: nat)
    requires IsBootName(name)
    ensures n <= 0xFFFF
  {
    ((HexValue(name[4]) * 16 + HexValue(name[5])) * 16 + HexValue(name[6])) * 16 + HexValue(name[7])
  }

  /** "Boot" and exactly four hexadecimal digits, in either case; what follows is not looked at, as long
      as it is not a fifth one. */
  predicate IsBootName(name: string) {
    && |name| >= 8 && name[..4] == "Boot"
    && IsHex(name[4]) && IsHex(name[5]) && IsHex(name[6]) && IsHex(name[7])
    && (|name| > 8 ==> !IsHex(name[8]))
  }

  lemma {:induction false} HexLength(n: nat)
    ensures n < 16 ==> |Hex(n)| == 1
    ensures 16 <= n < 0x100 ==> |Hex(n)| == 2
    ensures 0x100 <= n < 0x1000 ==> |Hex(n)| == 3
    ensures 0x1000 <= n < 0x1_0000 ==> |Hex(n)| == 4
    ensures n >= 0x1_0000 ==> |Hex(n)| > 4
  {
    if n >= 16 {
      HexLength(n / 16);
    }
  }

  /** The name fits its nine bytes exactly when the number has sixteen bits. */
  lemma NameFits(n: nat)
    ensures |BootName(n)| <= 8 <==> n <= 0xFFFF
  {
    HexLength(n);
  }

  lemma Nibbles(n: nat)
    requires n <= 0xFFFF
    ensures n / 16 / 16 / 16 < 16
    ensures ((n / 16 / 16 / 16 * 16 + n / 16 / 16 % 16) * 16 + n / 16 % 16) * 16 + n % 16 == n
  {
  }

  /** The four digits of a number that fits. */
  lemma FourDigits(n: nat)
    requires n <= 0xFFFF
    ensures n / 16 / 16 / 16 < 16
    ensures BootName(n) ==
            "Boot" + [HexDigit(n / 16 / 16 / 16), HexDigit(n / 16 / 16 % 16), HexDigit(n / 16 % 16), HexDigit(n % 16)]
  {
    var a, b, c := n / 16, n / 16 / 16, n / 16 / 16 / 16;
    HexLength(n);
    if n < 16 {
    } else if n < 0x100 {
      assert Hex(a) == [HexDigit(a)];
    } else if n < 0x1000 {
      assert Hex(b) == [HexDigit(b)];
      assert Hex(a) == [HexDigit(b)] + [HexDigit(a % 16)];
    } else {
      assert Hex(c) == [HexDigit(c)];
      assert Hex(b) == [HexDigit(c)] + [HexDigit(b % 16)];
      assert Hex(a) == Hex(b) + [HexDigit(a % 16)];
    }
  }

  /** A name that fits reads back as its number. */
  lemma NameReadsBack(n: nat)
    requires n <= 0xFFFF
    ensures IsBootName(BootName(n)) && NumberOf(BootName(n)) == n
  {
    FourDigits(n);
    Nibbles(n);
    assert BootName(n)[..4] == "Boot";
  }

  // ----- the free number -----

  predicate Ascending(s: seq<int>) {
    forall i, j | 0 <= i < j < |s| :: s[i] <= s[j]
  }

  function Insert(s: seq<int>, x: int): seq<int> {
    if s == [] || x <= s[0] then [x] + s else [s[0]] + Insert(s[1..], x)
  }

  lemma {:induction false} InsertMembers(s: seq<int>, x: int)
    ensures multiset(Insert(s, x)) == multiset(s) + multiset{x}
    ensures |Insert(s, x)| == |s| + 1
  {
    if s != [] {
      assert s == [s[0]] + s[1..];
      InsertMembers(s[1..], x);
    }
  }

  lemma {:induction false} InsertAscends(s: seq<int>, x: int)
    requires Ascending(s)
    ensures Ascending(Insert(s, x))
    ensures forall i | 0 <= i < |Insert(s, x)| :: Insert(s, x)[i] == x || Insert(s, x)[i] in s
  {
    if s != [] && x > s[0] {
      InsertAscends(s[1..], x);
      var t := Insert(s[1..], x);
      assert forall i | 0 <= i < |t| :: t[i] == x || t[i] in s[1..];
    }
  }

  function Sorted(s: seq<int>): seq<int> {
    if s == [] then [] else Insert(Sorted(s[..|s| - 1]), s[|s| - 1])
  }

  lemma {:induction false} SortedIs(s: seq<int>)
    ensures Ascending(Sorted(s)) && multiset(Sorted(s)) == multiset(s)
  {
    hide Insert;
    if s != [] {
      var r, x := s[..|s| - 1], s[|s| - 1];
      SortedIs(r);
      InsertMembers(Sorted(r), x);
      InsertAscends(Sorted(r), x);
      assert s == r + [x];
    }
  }

  /** qsort of the numbers. */
  method Sort(nums: array<int>)
    modifies nums
    ensures nums[..] == Sorted(old(nums[..]))
  {
    var sorted: seq<int> := [];
    ghost var start := nums[..];
    for i := 0 to nums.Length
      invariant nums[..] == start && sorted == Sorted(start[..i])
    {
      assert start[..i + 1][..i] == start[..i] && start[..i + 1][i] == start[i];
      sorted := Insert(sorted, nums[i]);
    }
    assert start[..nums.Length] == start;
    SortedIs(start);
    assert |multiset(sorted)| == |sorted| && |multiset(start)| == |start|;
    forall i | 0 <= i < nums.Length {
      nums[i] := sorted[i];
    }
    assert nums[..] == sorted;
  }

  /** The first index whose entry is larger than the index itself. */
  function Gap(s: seq<int>, i: nat): (n: nat)
    requires i <= |s|
    ensures i <= n <= |s|
    ensures n < |s| ==> n < s[n]
    ensures forall j | i <= j < n :: s[j] <= j
    decreases |s| - i
  {
    if i == |s| || i < s[i] then i else Gap(s, i + 1)
  }

  /** The number given to a new record. */
  function FreeNo(nums: seq<int>): nat {
    Gap(Sorted(nums), 0)
  }

  /** It is absent from the records and at most their number; and it is the least absent number exactly
      when no number below it is taken twice. */
  lemma FreeNoIsFree(nums: seq<int>)
    requires forall i | 0 <= i < |nums| :: nums[i] >= 0
    ensures FreeNo(nums) !in nums && FreeNo(nums) <= |nums|
    ensures (forall n | 0 <= n < FreeNo(nums) :: n in nums) <==> SingleBelow(nums, FreeNo(nums))
  {
    var s, res := Sorted(nums), FreeNo(nums);
    SortedIs(nums);
    SameNumbers(nums, s);
    assert forall j | 0 <= j < |s| :: s[j] in nums;
    StopIsFree(s, res);
    StopIsLeast(s, res);
  }

  /** No number below `n` stands twice in the list. */
  ghost predicate SingleBelow(s: seq<int>, n: int) {
    forall i, j | 0 <= i < j < |s| && s[i] == s[j] :: s[i] >= n
  }

  /** Where the search through the sorted numbers stops. */
  ghost predicate StopsAt(s: seq<int>, res: int) {
    && 0 <= res <= |s| && (res < |s| ==> res < s[res])
    && forall i | 0 <= i < res :: s[i] <= i
  }

  lemma BeyondStop(s: seq<int>, res: int)
    requires Ascending(s) && StopsAt(s, res)
    ensures forall i | res <= i < |s| :: s[i] > res
  {
    forall i | res <= i < |s|
      ensures s[i] > res
    {
      assert s[res] <= s[i];
    }
  }

  /** The number found is in no record, and the "no gap" correction is never needed. */
  lemma StopIsFree(s: seq<int>, res: int)
    requires Ascending(s) && StopsAt(s, res)
    ensures res !in s
    ensures s != [] ==> res != s[|s| - 1]
  {
    BeyondStop(s, res);
  }

  lemma {:induction false} FilledUpTo(s: seq<int>, res: int, i: int)
    requires Ascending(s) && StopsAt(s, res) && 0 <= i <= res
    requires forall n | 0 <= n < res :: n in s
    ensures forall j | i <= j < res :: s[j] == j
    decreases res - i
  {
    if i < res {
      FilledUpTo(s, res, i + 1);
      BeyondStop(s, res);
      assert i in s;
      var j :| 0 <= j < |s| && s[j] == i;
      assert j == i;
    }
  }

  lemma {:induction false} CountedUpTo(s: seq<int>, res: int, i: int)
    requires Ascending(s) && StopsAt(s, res) && 0 <= i <= res && SingleBelow(s, res)
    requires forall j | 0 <= j < |s| :: s[j] >= 0
    ensures forall j | 0 <= j < i :: s[j] == j
  {
    if i > 0 {
      CountedUpTo(s, res, i - 1);
      if i > 1 {
        assert s[i - 2] != s[i - 1];
      }
    }
  }

  /** It is the least free number exactly when no number below it is taken twice. */
  lemma StopIsLeast(s: seq<int>, res: int)
    requires Ascending(s) && StopsAt(s, res) && forall j | 0 <= j < |s| :: s[j] >= 0
    ensures (forall n | 0 <= n < res :: n in s) <==> SingleBelow(s, res)
  {
    if forall n | 0 <= n < res :: n in s {
      FilledUpTo(s, res, 0);
      BeyondStop(s, res);
    }
    if SingleBelow(s, res) {
      CountedUpTo(s, res, res);
      forall n | 0 <= n < res
        ensures n in s
      {
        assert s[n] == n;
      }
    }
  }

  // ----- BootOrder -----

  /** The first `n` entries but for the number. */
  function WithoutUpto(o: seq<nat>, number: nat, n: nat): seq<nat>
    requires n <= |o|
  {
    if n == 0 then []
    else if o[n - 1] == number then WithoutUpto(o, number, n - 1)
    else WithoutUpto(o, number, n - 1) + [o[n - 1]]
  }

  /** The number first, then the other entries in their order. */
  function Pushed(o: seq<nat>, number: nat): seq<nat> {
    [number] + WithoutUpto(o, number, |o|)
  }

  lemma {:induction false} WithoutCounts(o: seq<nat>, number: nat, n: nat)
    requires n <= |o|
    ensures forall x :: multiset(WithoutUpto(o, number, n))[x] == if x == number then 0 else multiset(o[..n])[x]
  {
    if n > 0 {
      WithoutCounts(o, number, n - 1);
      assert o[..n] == o[..n - 1] + [o[n - 1]];
    }
  }

  /** Pushing keeps every other entry as often as it stood there, and leaves the number once. */
  lemma PushedCounts(o: seq<nat>, number: nat)
    ensures forall x :: multiset(Pushed(o, number))[x] == if x == number then 1 else multiset(o)[x]
    ensures Pushed(o, number)[0] == number
  {
    WithoutCounts(o, number, |o|);
    assert o[..|o|] == o;
  }

  lemma {:induction false} WithoutAbsent(o: seq<nat>, number: nat, n: nat)
    requires n <= |o| && number !in o[..n]
    ensures WithoutUpto(o, number, n) == o[..n]
  {
    if n > 0 {
      assert o[..n] == o[..n - 1] + [o[n - 1]];
      WithoutAbsent(o, number, n - 1);
    }
  }

  lemma {:induction false} WithoutLength(o: seq<nat>, number: nat, n: nat)
    requires n <= |o|
    ensures |WithoutUpto(o, number, n)| <= n
    ensures number in o[..n] ==> |WithoutUpto(o, number, n)| < n
  {
    if n > 0 {
      assert o[..n] == o[..n - 1] + [o[n - 1]];
      WithoutLength(o, number, n - 1);
    }
  }

  /** The number's own place is enough room: writing never runs past the end. */
  lemma {:induction false} RoomLeft(o: seq<nat>, number: nat, n: nat)
    requires n < |o| && number in o && o[n] != number
    ensures 1 + |WithoutUpto(o, number, n)| < |o|
  {
    WithoutLength(o, number, n);
    forall k | 0 <= k < n
      ensures o[k] in o[..n]
    {
      assert o[..n][k] == o[k];
    }
    var i :| 0 <= i < |o| && o[i] == number;
  }

  /** Pushing twice is pushing once. */
  lemma PushedTwice(o: seq<nat>, number: nat)
    ensures Pushed(Pushed(o, number), number) == Pushed(o, number)
  {
    var p := Pushed(o, number);
    WithoutCounts(o, number, |o|);
    var w := WithoutUpto(o, number, |o|);
    assert number !in multiset(w);
    SkipFirst(w, number, |w|);
    assert p[..|p|] == p && w[..|w|] == w;
  }

  lemma {:induction false} SkipFirst(w: seq<nat>, number: nat, n: nat)
    requires n <= |w| && number !in w
    ensures WithoutUpto([number] + w, number, n + 1) == w[..n]
  {
    var p := [number] + w;
    if n == 0 {
      assert WithoutUpto(p, number, 0) == [];
    } else {
      SkipFirst(w, number, n - 1);
      assert p[n] == w[n - 1] && w[..n] == w[..n - 1] + [w[n - 1]];
    }
  }

  // ----- the variables -----

  /** The vendor GUID of the variables the EFI standard defines. */
  const GLOBAL_GUID: string := "8be4df61-93ca-11d2-aa0d-00e098032b8c"

  datatype VarName = VarName(guid: string, name: string)

  /** What the firmware enumerates: the global variables, and those of other vendors. */
  function AllNames(vars: map<string, string>, foreign: set<VarName>): set<VarName> {
    (set name | name in vars :: VarName(GLOBAL_GUID, name)) + foreign
  }

  predicate IsBootVar(v: VarName) {
    IsBootName(v.name) && v.guid == GLOBAL_GUID
  }

  datatype BootRec = BootRec(name: string, num: nat)

  ghost predicate AreRecs(recs: seq<BootRec>, vars: map<string, string>) {
    && (forall i | 0 <= i < |recs| ::
          IsBootName(recs[i].name) && recs[i].num == NumberOf(recs[i].name) && recs[i].name in vars)
    && (forall i, j | 0 <= i < j < |recs| :: recs[i].name != recs[j].name)
    && (forall name | name in vars && IsBootName(name) :: exists i :: 0 <= i < |recs| && recs[i].name == name)
  }

  function NumsOf(recs: seq<BootRec>): seq<int> {
    seq(|recs|, i requires 0 <= i < |recs| => recs[i].num)
  }

  /** The variables of the EFI firmware: `vars` holds the global ones, but for BootOrder, which `bootOrder` holds
      as numbers; `foreign` names those of other vendors. */
  class Firmware {
    var vars: map<string, string>
    var bootOrder: Option<seq<nat>>
    var recs: seq<BootRec>
    var recsCount: nat
    ghost var faults: nat
    const foreign: set<VarName>
    /** The order in which variable names are enumerated. */
    const order: set<VarName> -> seq<VarName>

    ghost predicate Valid()
      reads this
    {
      (forall q :: Lists(order(q), q)) && forall v | v in foreign :: v.guid != GLOBAL_GUID
    }

    /** The list of records is that of the variables, and its count is right. */
    ghost predicate InSync()
      reads this
    {
      AreRecs(recs, vars) && recsCount == |recs|
    }

    constructor (vars: map<string, string>, foreign: set<VarName>, bootOrder: Option<seq<nat>>,
                 order: set<VarName> -> seq<VarName>)
      requires (forall q :: Lists(order(q), q)) && forall v | v in foreign :: v.guid != GLOBAL_GUID
      ensures Valid() && this.vars == vars && this.bootOrder == bootOrder && recs == []
      ensures this.foreign == foreign && this.order == order
    {
      this.vars := vars;
      this.foreign := foreign;
      this.bootOrder := bootOrder;
      this.order := order;
      recs := [];
      recsCount := 0;
      faults := 0;
    }

    /** A call into the firmware succeeds or fails. */
    method Try() returns (ok: bool)
      modifies this`faults
      ensures faults == old(faults) + if ok then 0 else 1
    {
      ok := *;
      if !ok {
        faults := faults + 1;
      }
    }

    /** bootvar_read_boot_recs */
    method ReadBootRecs() returns (ok: bool)
      requires Valid()
      modifies this`recs, this`recsCount, this`faults
      ensures Valid() && faults >= old(faults) && (faults == old(faults) ==> ok)
      ensures ok ==> InSync() && var names := order(AllNames(vars, foreign)); recs == RecsFrom(names, |names|)
    {
      recs := [];
      var names := order(AllNames(vars, foreign));
      for i := 0 to |names|
        invariant recs == RecsFrom(names, i) && faults == old(faults)
      {
        ok := Try();
        if !ok {
          return;
        }
        if IsBootVar(names[i]) {
          recs := recs + [BootRec(names[i].name, NumberOf(names[i].name))];
        }
      }
      recsCount := |recs|;
      ok := true;
      RecsAre(names, |names|, vars, foreign);
    }

    /** bootvar_find_free_no */
    method FindFreeNo() returns (res: int)
      requires InSync()
      ensures res == if recs == [] then -1 else FreeNo(NumsOf(recs))
    {
      if recs == [] {
        return -1;
      }
      var cnt := recsCount;
      var nums := new int[cnt](i => 0);
      for i := 0 to cnt
        invariant forall j | 0 <= j < i :: nums[j] == recs[j].num
      {
        nums[i] := recs[i].num;
      }
      assert nums[..] == NumsOf(recs);
      Sort(nums);
      SortedIs(NumsOf(recs));
      res := 0;
      for i := 0 to cnt
        invariant res == i && Gap(nums[..], i) == Gap(nums[..], 0)
      {
        if res < nums[i] {
          break;
        }
        res := res + 1;
      }
      StopIsFree(nums[..], res);
      if res == nums[cnt - 1] {
        res := res + 1;    // never: see StopIsFree
      }
    }

    /** bootvar_push_to_boot_order */
    method PushToBootOrder(rec: BootRec) returns (ok: bool)
      requires IsBootName(rec.name)
      modifies this`bootOrder, this`faults
      ensures faults >= old(faults) && (faults == old(faults) ==> (ok <==> old(bootOrder).Some?))
      ensures ok ==> old(bootOrder).Some? && bootOrder == Some(Pushed(old(bootOrder).value, NumberOf(rec.name)))
      ensures !ok ==> bootOrder == old(bootOrder)
    {
      ok := Try();
      if !ok || bootOrder.None? {
        return false;
      }
      var moved := MoveToFront(bootOrder.value, NumberOf(rec.name));
      ok := Try();
      if ok {
        bootOrder := Some(moved);
      }
    }

    /** bootvar_find_boot_rec: the first record that can be read and holds the data. */
    method FindBootRec(data: string) returns (r: Option<BootRec>)
      requires InSync()
      modifies this`faults
      ensures faults >= old(faults)
      ensures r.Some? ==> r.value in recs && vars[r.value.name] == data
      ensures faults == old(faults) ==> r == FirstWith(recs, vars, data, 0)
    {
      for i := 0 to |recs|
        invariant faults >= old(faults)
        invariant faults == old(faults) ==> FirstWith(recs, vars, data, i) == FirstWith(recs, vars, data, 0)
      {
        var readable := Try();
        if !readable {
          continue;
        }
        if vars[recs[i].name] == data {
          return Some(recs[i]);
        }
      }
      return None;
    }

    /** The part of bootvar_add_boot_rec that creates a record. */
    method NewBootRec(data: string) returns (r: Option<BootRec>)
      requires Valid() && InSync()
      modifies this`vars, this`recs, this`recsCount, this`faults
      ensures Valid() && faults >= old(faults)
      ensures Extends(old(vars), vars, data)
      ensures r.Some? ==> InSync() && IsNewRec(old(recs), old(vars), recs, vars, r.value, data)
      ensures faults == old(faults) ==> (r.Some? <==> old(recs) != [] && FreeNo(NumsOf(old(recs))) <= 0xFFFF)
    {
      r := None;
      var slot := FindFreeNo();
      if slot < 0 {
        return;
      }
      var name := BootName(slot);
      FreeNameIsNew(recs, vars);
      if |name| > 8 {
        return;
      }
      var ok := Try();
      if !ok {
        return;
      }
      vars := vars[name := data];
      ok := ReadBootRecs();
      if ok {
        r := FindNamed(recs, name);
      }
    }

    /** bootvar_add_boot_rec: an existing record, or a new one under a free number. */
    method AddBootRec(data: string) returns (r: Option<BootRec>)
      requires Valid() && InSync()
      modifies this`vars, this`recs, this`recsCount, this`faults
      ensures Valid() && faults >= old(faults)
      ensures Extends(old(vars), vars, data)
      ensures r.Some? ==> InSync() && r.value in recs && vars[r.value.name] == data
      ensures faults == old(faults) && r.Some? ==> FirstWith(recs, vars, data, 0) == r
      ensures faults == old(faults) && old(FirstWith(recs, vars, data, 0)).Some? ==>
                r.Some? && vars == old(vars) && recs == old(recs)
      ensures faults == old(faults) && old(FirstWith(recs, vars, data, 0)).None? ==>
                (r.Some? <==> old(recs) != [] && FreeNo(NumsOf(old(recs))) <= 0xFFFF)
    {
      ghost var recs0, vars0 := recs, vars;
      r := FindBootRec(data);
      if r.None? {
        r := NewBootRec(data);
        if faults == old(faults) && r.Some? {
          OnlyNewHolds(recs0, vars0, recs, vars, r.value, data);
        }
      }
    }

    /** bootvar_create; `data` is absent when the load option could not be made. No variable is overwritten
        and at most one is added; on success the data is in a boot record whose number heads BootOrder, the
        other entries keeping their order; on failure BootOrder is unchanged. When no call fails, success
        takes an existing record, a BootOrder variable, and either the data being there already or a free
        number of sixteen bits. */
    method Create(data: Option<string>) returns (ok: bool, rec: Option<BootRec>)
      requires Valid() && InSync()
      modifies this`vars, this`bootOrder, this`recs, this`recsCount, this`faults
      ensures Valid() && faults >= old(faults)
      ensures if data.Some? then Extends(old(vars), vars, data.value) else vars == old(vars)
      ensures ok ==> InSync() && data.Some? && rec.Some? && rec.value in recs && vars[rec.value.name] == data.value
      ensures ok ==> old(bootOrder).Some? && bootOrder == Some(Pushed(old(bootOrder).value, rec.value.num))
      ensures !ok ==> bootOrder == old(bootOrder)
      ensures faults == old(faults) && ok ==> rec == FirstWith(recs, vars, data.value, 0)
      ensures faults == old(faults) && ok && old(FirstWith(recs, vars, data.value, 0)).Some? ==>
                vars == old(vars) && recs == old(recs)
      ensures faults == old(faults) ==>
                (ok <==> && data.Some? && old(recs) != [] && old(bootOrder).Some?
                         && (old(FirstWith(recs, vars, data.value, 0)).Some? || FreeNo(NumsOf(old(recs))) <= 0xFFFF))
    {
      ok, rec := false, None;
      if data.None? {
        return;
      }
      rec := AddBootRec(data.value);
      if rec.None? {
        return;
      }
      ok := PushToBootOrder(rec.value);
    }

    /** Creating the same record again changes neither the variables nor BootOrder. */
    method CreateTwice(data: Option<string>)
      returns (first: bool, second: bool, ghost vars1: map<string, string>, ghost order1: Option<seq<nat>>)
      requires Valid() && InSync()
      modifies this`vars, this`bootOrder, this`recs, this`recsCount, this`faults
      ensures first && faults == old(faults) ==> second && vars == vars1 && bootOrder == order1
    {
      var rec, again;
      first, rec := Create(data);
      vars1, order1 := vars, bootOrder;
      if !first {
        return false, false, vars1, order1;
      }
      second, again := Create(data);
      if faults == old(faults) {
        PushedTwice(old(bootOrder).value, rec.value.num);
      }
    }
  }

  /** The record was added under the free number, and the list was read anew. */
  ghost predicate IsNewRec(recs0: seq<BootRec>, vars0: map<string, string>, recs: seq<BootRec>,
                           vars: map<string, string>, r: BootRec, data: string) {
    r in recs && r.name !in vars0 && vars == vars0[r.name := data]
  }

  lemma {:induction false} OnlyNewHolds(recs0: seq<BootRec>, vars0: map<string, string>, recs: seq<BootRec>,
                                        vars: map<string, string>, r: BootRec, data: string)
    requires AreRecs(recs0, vars0) && AreRecs(recs, vars) && IsNewRec(recs0, vars0, recs, vars, r, data)
    requires FirstWith(recs0, vars0, data, 0).None?
    ensures FirstWith(recs, vars, data, 0) == Some(r)
  {
    forall j | 0 <= j < |recs| && recs[j].name != r.name
      ensures vars[recs[j].name] != data
    {
      assert recs[j].name in vars0 && IsBootName(recs[j].name);
      var i :| 0 <= i < |recs0| && recs0[i].name == recs[j].name;
      assert vars0[recs0[i].name] != data;
    }
    var k :| 0 <= k < |recs| && recs[k] == r;
  }

  function FirstWith(recs: seq<BootRec>, vars: map<string, string>, data: string, i: nat): (r: Option<BootRec>)
    requires i <= |recs| && forall j | 0 <= j < |recs| :: recs[j].name in vars
    ensures r.Some? ==> exists j :: i <= j < |recs| && recs[j] == r.value && vars[recs[j].name] == data &&
                                    forall l | i <= l < j :: vars[recs[l].name] != data
    ensures r.None? ==> forall j | i <= j < |recs| :: vars[recs[j].name] != data
    decreases |recs| - i
  {
    if i == |recs| then None
    else if vars[recs[i].name] == data then Some(recs[i])
    else FirstWith(recs, vars, data, i + 1)
  }

  /** Nothing is overwritten, and at most one boot record is added. */
  ghost predicate Extends(before: map<string, string>, after: map<string, string>, data: string) {
    after == before || exists n: nat :: n <= 0xFFFF && BootName(n) !in before && after == before[BootName(n) := data]
  }

  /** The name of the free number fits exactly when the number has sixteen bits, and is not taken. */
  lemma FreeNameIsNew(recs: seq<BootRec>, vars: map<string, string>)
    requires AreRecs(recs, vars)
    ensures var n := FreeNo(NumsOf(recs));
            && (|BootName(n)| <= 8 <==> n <= 0xFFFF)
            && (n <= 0xFFFF ==> IsBootName(BootName(n)) && NumberOf(BootName(n)) == n && BootName(n) !in vars)
  {
    var n := FreeNo(NumsOf(recs));
    NameFits(n);
    FreeNoIsFree(NumsOf(recs));
    if n <= 0xFFFF {
      NameReadsBack(n);
      forall i | 0 <= i < |recs|
        ensures recs[i].name != BootName(n)
      {
        assert NumsOf(recs)[i] == recs[i].num;
      }
    }
  }

  /** strcmp over the list. */
  method FindNamed(recs: seq<BootRec>, name: string) returns (r: Option<BootRec>)
    ensures r.Some? ==> r.value in recs && r.value.name == name
    ensures r.None? ==> forall i | 0 <= i < |recs| :: recs[i].name != name
  {
    for i := 0 to |recs|
      invariant forall j | 0 <= j < i :: recs[j].name != name
    {
      if recs[i].name == name {
        return Some(recs[i]);
      }
    }
    return None;
  }

  /** The two branches of bootvar_push_to_boot_order, in an array allocated for the purpose. */
  method MoveToFront(o: seq<nat>, number: nat) returns (moved: seq<nat>)
    ensures moved == Pushed(o, number)
  {
    var found := false;
    for i := 0 to |o|
      invariant found <==> number in o[..i]
    {
      if o[i] == number {
        found := true;
        break;
      }
    }
    assert o[..|o|] == o;
    if !found {
      var buf := new nat[|o| + 1](i => 0);
      buf[0] := number;
      forall i | 0 <= i < |o| {
        buf[1 + i] := o[i];
      }
      WithoutAbsent(o, number, |o|);
      assert buf[..] == [number] + o;
      return buf[..];
    }
    var buf := new nat[|o|](i => 0);
    buf[0] := number;
    var c := 1;
    for i := 0 to |o|
      invariant c == 1 + |WithoutUpto(o, number, i)| <= |o|
      invariant buf[..c] == [number] + WithoutUpto(o, number, i)
    {
      if o[i] != number {
        RoomLeft(o, number, i);
        buf[c] := o[i];
        c := c + 1;
      }
    }
    moved := buf[..c];
  }

  /** The records among the first `n` names. */
  function RecsFrom(names: seq<VarName>, n: nat): seq<BootRec>
    requires n <= |names|
  {
    if n == 0 then []
    else
      var v := names[n - 1];
      if IsBootVar(v) then RecsFrom(names, n - 1) + [BootRec(v.name, NumberOf(v.name))] else RecsFrom(names, n - 1)
  }

  lemma {:induction false} RecsFromNames(names: seq<VarName>, n: nat)
    requires n <= |names|
    ensures forall i | 0 <= i < |RecsFrom(names, n)| ::
              var r := RecsFrom(names, n)[i];
              IsBootName(r.name) && r.num == NumberOf(r.name) && VarName(GLOBAL_GUID, r.name) in names[..n]
    ensures forall k | 0 <= k < n && IsBootVar(names[k]) ::
              exists i :: 0 <= i < |RecsFrom(names, n)| && RecsFrom(names, n)[i].name == names[k].name
  {
    if n > 0 {
      RecsFromNames(names, n - 1);
      assert names[..n] == names[..n - 1] + [names[n - 1]];
      var before, now := RecsFrom(names, n - 1), RecsFrom(names, n);
      assert forall i | 0 <= i < |before| :: now[i] == before[i];
      if IsBootVar(names[n - 1]) {
        assert now[|before|].name == names[n - 1].name;
      }
    }
  }

  lemma {:induction false} RecsDiffer(names: seq<VarName>, n: nat)
    requires n <= |names| && forall i, j | 0 <= i < j < |names| :: names[i] != names[j]
    ensures forall i, j | 0 <= i < j < |RecsFrom(names, n)| :: RecsFrom(names, n)[i].name != RecsFrom(names, n)[j].name
  {
    if n > 0 {
      RecsDiffer(names, n - 1);
      RecsFromNames(names, n - 1);
      assert names[n - 1] !in names[..n - 1];
    }
  }

  lemma {:induction false} RecsAre(names: seq<VarName>, n: nat, vars: map<string, string>, foreign: set<VarName>)
    requires Lists(names, AllNames(vars, foreign)) && n == |names|
    requires forall v | v in foreign :: v.guid != GLOBAL_GUID
    ensures AreRecs(RecsFrom(names, n), vars)
  {
    RecsFromNames(names, n);
    RecsDiffer(names, n);
    assert names[..n] == names;
    forall name | name in vars && IsBootName(name)
      ensures exists i :: 0 <= i < |RecsFrom(names, n)| && RecsFrom(names, n)[i].name == name
    {
      assert VarName(GLOBAL_GUID, name) in names;
      var k :| 0 <= k < |names| && names[k] == VarName(GLOBAL_GUID, name);
      assert IsBootVar(names[k]);
    }
  }

  lemma SameNumbers(a: seq<int>, b: seq<int>)
    requires multiset(a) == multiset(b)
    ensures |a| == |b| && forall x :: x in a <==> x in b
    ensures forall n :: SingleBelow(a, n) <==> SingleBelow(b, n)
  {
    assert |multiset(a)| == |a| && |multiset(b)| == |b|;
    assert forall x :: x in a <==> x in multiset(a);
    assert forall x :: x in b <==> x in multiset(b);
    forall n
      ensures SingleBelow(a, n) <==> SingleBelow(b, n)
    {
      SingleCounts(a, n);
      SingleCounts(b, n);
    }
  }

  /** Being single is a matter of counts. */
  lemma SingleCounts(s: seq<int>, n: int)
    ensures SingleBelow(s, n) <==> forall x | x < n :: multiset(s)[x] <= 1
  {
    if SingleBelow(s, n) {
      forall x | x < n
        ensures multiset(s)[x] <= 1
      {
        SingleCount(s, n, |s|, x);
        assert s[..|s|] == s;
      }
    } else {
      var i, j :| 0 <= i < j < |s| && s[i] == s[j] && s[i] < n;
      assert s == s[..j] + s[j..] && s[..j][i] == s[i] && s[j..][0] == s[j];
      assert multiset(s)[s[i]] == multiset(s[..j])[s[i]] + multiset(s[j..])[s[i]];
    }
  }

  lemma {:induction false} SingleCount(s: seq<int>, n: int, m: nat, x: int)
    requires SingleBelow(s, n) && x < n && m <= |s|
    ensures multiset(s[..m])[x] <= 1
    ensures x !in s[..m] ==> multiset(s[..m])[x] == 0
  {
    if m > 0 {
      SingleCount(s, n, m - 1, x);
      assert s[..m] == s[..m - 1] + [s[m - 1]];
      if s[m - 1] == x {
        assert x !in s[..m - 1];
      }
    }
  }
}
