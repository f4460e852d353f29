/** The names of files, letter by letter, and exactly which names are read. */
module NameLaws {
  import opened Text
  import opened Names
  import opened Systemd

  // ----- an example -----

  const KVM: Ident := Ident("kvm", "4.2.1", 121)

  function Clear(usrModules: bool): Build {
    Build("org.clearlinux", "Clear-linux", usrModules)
  }

  /** The names of one kernel. */
  lemma NamesExample(usrModules: bool)
    ensures KernelName(Clear(usrModules), KVM) == "org.clearlinux.kvm.4.2.1-121"
    ensures Uname(KVM) == "4.2.1-121.kvm" && UntypedName(KVM) == "4.2.1-121"
    ensures EntryName(Clear(usrModules), KVM) == "Clear-linux-kvm-4.2.1-121.conf"
  {
    hide PrintInt;
    PrintedNumber();
  }

  /** Those of its other files. */
  lemma FilesExample(usrModules: bool)
    ensures CmdlineName(KVM) == "cmdline-4.2.1-121.kvm" && ConfigName(KVM) == "config-4.2.1-121.kvm"
    ensures SystemMapName(KVM) == "System.map-4.2.1-121.kvm" && VmlinuxName(KVM) == "vmlinux-4.2.1-121.kvm"
    ensures HeadersName(KVM) == "linux-headers-4.2.1-121.kvm" && MarkerName(KVM) == "k_booted_4.2.1-121.kvm"
  {
    hide Uname;
    NamesExample(usrModules);
  }

  lemma CopiesExample(vendor: string, usrModules: bool)
    ensures var b := Build("org", vendor, usrModules);
            InitrdName(b, KVM) == "initrd-org.kvm.4.2.1-121" && TargetName(b, KVM) == "kernel-org.kvm.4.2.1-121"
  {
    hide PrintInt;
    PrintedNumber();
  }

  lemma PrintedNumber()
    ensures PrintInt(121) == "121" && PrintInt(-121) == "-121"
  {
    assert Decimal(1) == "1" && Decimal(12) == Decimal(1) + "2";
    assert Decimal(121) == Decimal(12) + "1";
  }

  // ----- numbers -----

  lemma {:induction false} SpacesEnd(s: string, n: nat)
    requires n <= |s| && (forall j | 0 <= j < n :: IsSpace(s[j])) && (n < |s| ==> !IsSpace(s[n]))
    ensures SpaceRunFrom(s, 0) == n
  {
  }

  lemma {:induction false} DigitsEnd(s: string, from: nat, n: nat)
    requires from <= n <= |s| && (forall j | from <= j < n :: IsDigit(s[j])) && (n < |s| ==> !IsDigit(s[n]))
    ensures DigitRunFrom(s, from) == n
  {
  }

  lemma {:induction false} DigitsShift(s: string, from: nat, d: string, n: nat)
    requires n <= |d| && from + |d| <= |s| && forall j | 0 <= j < |d| :: s[from + j] == d[j] && IsDigit(d[j])
    requires forall j | from <= j < from + |d| :: IsDigit(s[j])
    ensures DigitsValue(s, from, from + n) == DigitsValue(d, 0, n)
  {
    if n > 0 {
      DigitsShift(s, from, d, n - 1);
      assert s[from + (n - 1)] == d[n - 1];
    }
  }

  /** Blanks up to `w`, a sign up to `from`, the digits `d`, and behind them no digit. */
  ghost predicate IsNumeral(s: string, w: nat, from: nat, d: string) {
    && w <= from <= w + 1 && from + |d| <= |s|
    && (forall j | 0 <= j < w :: IsSpace(s[j]))
    && (w < from ==> s[w] == '-' || s[w] == '+')
    && (w == from && w < |s| ==> !IsSpace(s[w]) && s[w] != '-' && s[w] != '+')
    && (forall j | 0 <= j < |d| :: s[from + j] == d[j] && IsDigit(d[j]))
    && (from + |d| < |s| ==> !IsDigit(s[from + |d|]))
  }

  lemma {:induction false} NumeralIsRead(s: string, w: nat, from: nat, d: string)
    requires IsNumeral(s, w, from, d)
    ensures d == "" ==> Strtol(s) == (0, 0)
    ensures d != "" ==> Strtol(s).1 == from + |d|
    ensures d != "" ==> Strtol(s).0 == (if w < from && s[w] == '-' then -1 else 1) * DigitsValue(d, 0, |d|)
  {
    hide SpaceRunFrom, DigitRunFrom, DigitsValue;
    SpacesEnd(s, w);
    forall j | from <= j < from + |d|
      ensures IsDigit(s[j])
    {
      assert s[from + (j - from)] == d[j - from];
    }
    DigitsEnd(s, from, from + |d|);
    DigitsShift(s, from, d, |d|);
  }

  /** Behind blanks a sign and digits are read as far as the digits go; without digits there is no number. */
  lemma {:induction false} NumberIsRead(s: string, blanks: string, sign: string, d: string, rest: string)
    requires s == blanks + (sign + (d + rest)) && (forall c | c in blanks :: IsSpace(c)) && sign in ["", "-", "+"]
    requires (forall c | c in d :: IsDigit(c)) && (rest != "" ==> !IsDigit(rest[0]))
    requires d == "" && rest != "" ==> !IsSpace(rest[0]) && rest[0] != '-' && rest[0] != '+'
    ensures d == "" ==> Strtol(s) == (0, 0)
    ensures d != "" ==> Strtol(s).1 == |blanks| + |sign| + |d|
    ensures d != "" ==> Strtol(s).0 == (if sign == "-" then -1 else 1) * DigitsValue(d, 0, |d|)
  {
    hide Strtol, DigitsValue;
    SignedIs(s, blanks, sign, d, rest);
    NumeralIsRead(s, |blanks|, |blanks| + |sign|, d);
  }

  lemma SignedIs(s: string, blanks: string, sign: string, d: string, rest: string)
    requires s == blanks + (sign + (d + rest)) && (forall c | c in blanks :: IsSpace(c)) && sign in ["", "-", "+"]
    requires (forall c | c in d :: IsDigit(c)) && (rest != "" ==> !IsDigit(rest[0]))
    requires d == "" && rest != "" ==> !IsSpace(rest[0]) && rest[0] != '-' && rest[0] != '+'
    ensures IsNumeral(s, |blanks|, |blanks| + |sign|, d)
    ensures |blanks| < |blanks| + |sign| && s[|blanks|] == '-' <==> sign == "-"
  {
    var inner, tail := d + rest, sign + (d + rest);
    assert forall j | 0 <= j < |tail| :: s[|blanks| + j] == tail[j];
    assert forall j | 0 <= j < |inner| :: s[|blanks| + |sign| + j] == inner[j];
    assert inner != "" ==> s[|blanks| + |sign| + 0] == inner[0] == if d != "" then d[0] else rest[0];
    assert d != "" ==> d[0] in d;
  }

  // ----- reading -----

  /** What strtol takes for a number at the beginning of `s`. */
  predicate HasNumber(s: string, n: int) {
    Strtol(s).1 > 0 && Strtol(s).0 == n
  }

  /** A kernel's file name is read exactly when it is the namespace, a type of at most 31 characters without a dot, a
      version of at most 15 without a dash, and a number; these are what is read, whatever stands behind. */
  lemma KernelNameIsRead(b: Build, name: string, id: Ident)
    ensures ParseKernelName(b, name) == Some(id) <==>
            && 1 <= |id.ktype| <= 31 && '.' !in id.ktype && 1 <= |id.version| <= 15 && '-' !in id.version
            && exists rest :: HasNumber(rest, id.release) &&
                              name == b.namespace + "." + id.ktype + "." + id.version + "-" + rest
  {
    if ParseKernelName(b, name) == Some(id) {
      var rest := NameParts(b, name, id);
    }
    forall rest | 1 <= |id.ktype| <= 31 && '.' !in id.ktype && 1 <= |id.version| <= 15 && '-' !in id.version &&
                  HasNumber(rest, id.release) && name == b.namespace + "." + id.ktype + "." + id.version + "-" + rest
      ensures ParseKernelName(b, name) == Some(id)
    {
      PartsAreRead(b, name, id, rest);
    }
  }

  lemma NameParts(b: Build, name: string, id: Ident) returns (rest: string)
    requires ParseKernelName(b, name) == Some(id)
    ensures 1 <= |id.ktype| <= 31 && '.' !in id.ktype && 1 <= |id.version| <= 15 && '-' !in id.version
    ensures HasNumber(rest, id.release) && name == b.namespace + "." + id.ktype + "." + id.version + "-" + rest
  {
    hide Strtol, IndexOf;
    var s := name[|b.namespace| + 1..];
    var i := IndexOf(s, '.');
    var t := s[i + 1..];
    var j := IndexOf(t, '-');
    rest := t[j + 1..];
    assert name == (b.namespace + ".") + s;
    SplitAt(s, '.');
    SplitAt(t, '-');
    Nested(b.namespace, id.ktype, id.version, rest);
  }

  lemma SplitAt(s: string, c: char)
    requires IndexOf(s, c) < |s|
    ensures s == s[..IndexOf(s, c)] + [c] + s[IndexOf(s, c) + 1..] && c !in s[..IndexOf(s, c)]
  {
  }

  lemma Nested(namespace: string, ktype: string, version: string, rest: string)
    ensures (namespace + ".") + (ktype + "." + (version + "-" + rest))
            == namespace + "." + ktype + "." + version + "-" + rest
  {
  }

  lemma PartsAreRead(b: Build, name: string, id: Ident, rest: string)
    requires 1 <= |id.ktype| <= 31 && '.' !in id.ktype && 1 <= |id.version| <= 15 && '-' !in id.version
    requires HasNumber(rest, id.release) && name == b.namespace + "." + id.ktype + "." + id.version + "-" + rest
    ensures ParseKernelName(b, name) == Some(id)
  {
    hide Strtol, IndexOf;
    var t := id.version + "-" + rest;
    var s := id.ktype + "." + t;
    Nested(b.namespace, id.ktype, id.version, rest);
    HeadAndTail(b.namespace + ".", s);
    IndexOfIs(id.version, '-', rest);
    assert t[..|id.version|] == id.version && t[|id.version| + 1..] == rest;
    IndexOfIs(id.ktype, '.', t);
    assert s[..|id.ktype|] == id.ktype && s[|id.ktype| + 1..] == t;
  }

  /** A uname is read exactly when it is a version of at most 30 characters, a dash, at most 29 characters that begin
      with a number, a dot, and a type of at most 30 characters; the number is cut to 64 bits and then to 16. */
  lemma UnameIsRead(u: string, id: Ident)
    ensures ParseUname(u) == Some(id) <==>
            && 1 <= |id.version| <= 30 && '-' !in id.version && 1 <= |id.ktype| <= 30
            && exists number: string, n: int ::
                 && 1 <= |number| <= 29 && '.' !in number && HasNumber(number, n) && id.release == Int16(ToLong(n))
                 && u == id.version + "-" + number + "." + id.ktype
  {
    if ParseUname(u) == Some(id) {
      var number, n := UnameParts(u, id);
    }
    forall number: string, n: int |
      1 <= |id.version| <= 30 && '-' !in id.version && 1 <= |id.ktype| <= 30 && 1 <= |number| <= 29 &&
      '.' !in number && HasNumber(number, n) && id.release == Int16(ToLong(n)) &&
      u == id.version + "-" + number + "." + id.ktype
      ensures ParseUname(u) == Some(id)
    {
      UnamePartsAreRead(u, id, number, n);
    }
  }

  lemma UnameParts(u: string, id: Ident) returns (number: string, n: int)
    requires ParseUname(u) == Some(id)
    ensures 1 <= |id.version| <= 30 && '-' !in id.version && 1 <= |id.ktype| <= 30
    ensures 1 <= |number| <= 29 && '.' !in number && HasNumber(number, n) && id.release == Int16(ToLong(n))
    ensures u == id.version + "-" + number + "." + id.ktype
  {
    hide Strtol, IndexOf, Int16, ToLong;
    var s := u[IndexOf(u, '-') + 1..];
    number := s[..IndexOf(s, '.')];
    n := Strtol(number).0;
    SplitAt(u, '-');
    SplitAt(s, '.');
    assert id.version + "-" + (number + "." + id.ktype) == id.version + "-" + number + "." + id.ktype;
  }

  lemma UnamePartsAreRead(u: string, id: Ident, number: string, n: int)
    requires 1 <= |id.version| <= 30 && '-' !in id.version && 1 <= |id.ktype| <= 30
    requires 1 <= |number| <= 29 && '.' !in number && HasNumber(number, n) && id.release == Int16(ToLong(n))
    requires u == id.version + "-" + number + "." + id.ktype
    ensures ParseUname(u) == Some(id)
  {
    hide Strtol, Int16, ToLong, IndexOf;
    var s := number + "." + id.ktype;
    assert u == id.version + "-" + s;
    IndexOfIs(id.version, '-', s);
    assert u[..|id.version|] == id.version && u[|id.version| + 1..] == s;
    IndexOfIs(number, '.', id.ktype);
    assert s[..|number|] == number && s[|number| + 1..] == id.ktype;
  }

  /** The name of a loader entry is read exactly when it is something of the prefix's length and a dash's, whatever it
      is, then a type of at most 31 characters, a dash, a version of at most 15 characters, a dash, and some text;
      neither version nor text holds a dash. The number the text begins with, 0 if it begins with none, is the release;
      it must be a long that is not negative. */
  lemma EntryNameIsRead(b: Build, s: string, id: Ident)
    ensures ParseEntry(b, s) == Some(id) <==>
            && 1 <= |id.ktype| <= 31 && 1 <= |id.version| <= 15 && '-' !in id.version && 0 <= id.release <= LONG_MAX
            && exists prefix: string, rest: string ::
                 && |prefix| == |b.vendor| + 1 && '-' !in rest && rest != "" && Strtol(rest).0 == id.release
                 && s == prefix + id.ktype + "-" + id.version + "-" + rest
  {
    if ParseEntry(b, s) == Some(id) {
      var prefix, rest := EntryParts(b, s, id);
      ReleaseIs(rest);
    }
    forall prefix: string, rest: string |
      1 <= |id.ktype| <= 31 && 1 <= |id.version| <= 15 && '-' !in id.version && 0 <= id.release <= LONG_MAX &&
      |prefix| == |b.vendor| + 1 && '-' !in rest && rest != "" && Strtol(rest).0 == id.release &&
      s == prefix + id.ktype + "-" + id.version + "-" + rest
      ensures ParseEntry(b, s) == Some(id)
    {
      ReleaseIs(rest);
      EntryPartsAreRead(b, s, id, prefix, rest);
    }
  }

  lemma ReleaseIs(rest: string)
    ensures ReleaseOf(rest) >= 0 ==> ReleaseOf(rest) == Strtol(rest).0 <= LONG_MAX
    ensures 0 <= Strtol(rest).0 <= LONG_MAX ==> ReleaseOf(rest) == Strtol(rest).0
  {
    hide Strtol;
  }

  lemma EntryParts(b: Build, s: string, id: Ident) returns (prefix: string, rest: string)
    requires ParseEntry(b, s) == Some(id)
    ensures 1 <= |id.ktype| <= 31 && 1 <= |id.version| <= 15 && '-' !in id.version && 0 <= id.release
    ensures |prefix| == |b.vendor| + 1 && '-' !in rest && rest != "" && ReleaseOf(rest) == id.release
    ensures s == prefix + id.ktype + "-" + id.version + "-" + rest
  {
    hide ReleaseOf, LastDash;
    var d1 := LastDash(s, |s|);
    var d2 := LastDash(s, d1);
    prefix, rest := s[..|b.vendor| + 1], s[d1 + 1..];
    assert s == s[..d1] + "-" + rest;
    assert s[..d1] == s[..d2] + "-" + id.version;
    assert s[..d2] == prefix + id.ktype;
    assert forall j | 0 <= j < |rest| :: rest[j] == s[d1 + 1 + j];
  }

  lemma EntryPartsAreRead(b: Build, s: string, id: Ident, prefix: string, rest: string)
    requires 1 <= |id.ktype| <= 31 && 1 <= |id.version| <= 15 && '-' !in id.version && 0 <= id.release
    requires |prefix| == |b.vendor| + 1 && '-' !in rest && rest != "" && ReleaseOf(rest) == id.release
    requires s == prefix + id.ktype + "-" + id.version + "-" + rest
    ensures ParseEntry(b, s) == Some(id)
  {
    hide ReleaseOf, LastDash;
    var front := prefix + id.ktype;
    EntryFields(s, front, id.version, rest);
    assert s[|prefix|..|front|] == id.ktype;
    ParsedAt(b, s, |front| + 1 + |id.version|, |front|, id);
  }

  /** In whatever text: the default is what stands behind the first "default ", up to the end of its line; without one
      there is none. */
  lemma DefaultIsRead(before: string, entry: string, tail: string)
    requires '\n' !in entry && Find(before + HDR + entry + tail, HDR) == Some(|before|)
    requires tail == "" || tail[0] == '\n'
    ensures DefaultEntry(before + HDR + entry + tail) == Some(entry)
    ensures forall conf :: DefaultEntry(conf) == None <==> !Occurs(conf, "default ")
  {
    var rest := entry + tail;
    var conf := before + HDR + entry + tail;
    assert conf == (before + HDR) + rest && conf[|before| + |HDR|..] == rest;
    if tail == "" {
      assert rest == entry && rest[..|entry|] == entry;
      assert IndexOf(entry, '\n') == |entry|;
    } else {
      assert rest == entry + ['\n'] + tail[1..];
      IndexOfIs(entry, '\n', tail[1..]);
      assert rest[..|entry|] == entry;
    }
  }
}
