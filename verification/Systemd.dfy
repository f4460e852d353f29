/** The systemd-class boot loader: the text of a boot entry, and loader.conf written and read back. */
module Systemd {
  import opened Text
  import opened Util
  import opened Names
  import opened Freestanding

  datatype Config = Config(
    osName: string,
    kernelDir: string,              // the kernel directory as seen from the ESP
    partUuid: Option<string>,
    uuid: string,
    luksUuid: Option<string>,
    btrfsSub: Option<string>,
    keymap: Option<string>,
    font: Option<string>,
    timeout: int,
    consoleMode: Option<string>)

  // ----- boot entries -----

  function InitrdLine(c: Config, name: string): string {
    "initrd " + c.kernelDir + "/" + name + "\n"
  }

  function InitrdLines(c: Config, names: seq<string>): string {
    if names == [] then "" else InitrdLines(c, names[..|names| - 1]) + InitrdLine(c, names[|names| - 1])
  }

  function Optional(tag: string, value: Option<string>): string {
    if value.Some? then tag + value.value + " " else ""
  }

  function RootId(c: Config): string {
    if c.partUuid.Some? then c.partUuid.value else c.uuid
  }

  function RootPart(c: Config): string {
    "root=" + (if c.partUuid.Some? then "PARTUUID=" else "UUID=") + RootId(c) + " "
  }

  function FrontArgs(c: Config): string {
    RootPart(c) + Optional("rd.luks.uuid=", c.luksUuid) + Optional("rootflags=subvol=", c.btrfsSub)
  }

  /** The arguments that tell the kernel its root; a space follows each. */
  function RootArgs(c: Config): string {
    FrontArgs(c)
    + Optional("rd.vconsole.keymap=", c.keymap)
    + Optional("rd.vconsole.font=", c.font)
  }

  function Options(c: Config): string {
    "options " + RootArgs(c)
  }

  function Title(c: Config, target: string): string {
    "title " + c.osName + "\n" + "linux " + c.kernelDir + "/" + target + "\n"
  }

  /** The entry of the kernel installed as `target`, with its initrds in this order. */
  function EntryText(c: Config, target: string, initrds: seq<string>, cmdline: string): string {
    Title(c, target) + InitrdLines(c, initrds) + Options(c) + cmdline + "\n"
  }

  /** The part of sd_class_install_kernel that writes the entry; `keys` is the order the hash map is
      walked in. */
  method ComposeEntry(c: Config, target: string, m: Overlay, keys: seq<string>, ucode: Option<string>,
                      own: Option<string>, extras: seq<string>, cmdline: string) returns (text: string)
    ensures text == EntryText(c, target, EntryInitrds(m, keys, ucode, own, extras), cmdline)
  {
    var lines := "";
    ghost var listed: seq<string> := [];
    if ucode.Some? {
      lines := lines + InitrdLine(c, ucode.value);
      listed := AddLine(c, lines, listed, ucode.value);
    }
    if own.Some? {
      lines := lines + InitrdLine(c, own.value);
      listed := AddLine(c, lines, listed, own.value);
    }
    ghost var head := listed;
    assert head == OptSeq(ucode) + OptSeq(own);
    for i := 0 to |extras|
      invariant lines == InitrdLines(c, listed)
      invariant ExtrasFrom(listed, extras, i) == ExtrasFrom(head, extras, 0)
    {
      lines := lines + InitrdLine(c, extras[i]);
      listed := AddLine(c, lines, listed, extras[i]);
    }
    ghost var most := listed;
    for i := 0 to |keys|
      invariant lines == InitrdLines(c, listed)
      invariant KeysFrom(listed, m, keys, i, ucode) == KeysFrom(most, m, keys, 0, ucode)
    {
      if IsUnmasked(m, keys[i]) && ucode != Some(keys[i]) {
        lines := lines + InitrdLine(c, keys[i]);
        listed := AddLine(c, lines, listed, keys[i]);
      }
    }
    ExtrasFromIs(head, extras, 0);
    KeysFromIs(most, m, keys, 0, ucode);
    assert extras[0..] == extras && keys[0..] == keys;
    Grouped(OptSeq(ucode), OptSeq(own), extras, Unmasked(m, keys, ucode));
    text := Title(c, target) + lines + Options(c) + cmdline + "\n";
  }

  function ExtrasFrom(listed: seq<string>, extras: seq<string>, i: nat): seq<string>
    requires i <= |extras|
    decreases |extras| - i
  {
    if i == |extras| then listed else ExtrasFrom(listed + [extras[i]], extras, i + 1)
  }

  lemma {:induction false} ExtrasFromIs(listed: seq<string>, extras: seq<string>, i: nat)
    requires i <= |extras|
    ensures ExtrasFrom(listed, extras, i) == listed + extras[i..]
    decreases |extras| - i
  {
    if i < |extras| {
      ExtrasFromIs(listed + [extras[i]], extras, i + 1);
      assert listed + [extras[i]] + extras[i + 1..] == listed + extras[i..];
    }
  }

  function KeysFrom(listed: seq<string>, m: Overlay, keys: seq<string>, i: nat, ucode: Option<string>): seq<string>
    requires i <= |keys|
    decreases |keys| - i
  {
    if i == |keys| then listed
    else
      KeysFrom(if IsUnmasked(m, keys[i]) && ucode != Some(keys[i]) then listed + [keys[i]] else listed,
               m, keys, i + 1, ucode)
  }

  lemma {:induction false} KeysFromIs(listed: seq<string>, m: Overlay, keys: seq<string>, i: nat, ucode: Option<string>)
    requires i <= |keys|
    ensures KeysFrom(listed, m, keys, i, ucode) == listed + Unmasked(m, keys[i..], ucode)
    decreases |keys| - i
  {
    if i < |keys| {
      assert keys[i..][0] == keys[i] && keys[i..][1..] == keys[i + 1..];
      if IsUnmasked(m, keys[i]) && ucode != Some(keys[i]) {
        KeysFromIs(listed + [keys[i]], m, keys, i + 1, ucode);
        assert listed + [keys[i]] + Unmasked(m, keys[i + 1..], ucode)
               == listed + ([keys[i]] + Unmasked(m, keys[i + 1..], ucode));
      } else {
        KeysFromIs(listed, m, keys, i + 1, ucode);
      }
    }
  }

  lemma Grouped<T>(a: seq<T>, b: seq<T>, c: seq<T>, d: seq<T>)
    ensures a + b + c + d == a + (b + (c + d))
  {
  }

  lemma AddLine(c: Config, lines: string, listed: seq<string>, name: string) returns (longer: seq<string>)
    requires lines == InitrdLines(c, listed) + InitrdLine(c, name)
    ensures longer == listed + [name] && lines == InitrdLines(c, longer)
  {
    longer := listed + [name];
    assert longer[..|longer| - 1] == listed;
  }

  // ----- loader.conf -----

  const HDR: string := "default "

  function TimeoutLine(c: Config): string {
    if c.timeout > 0 then "timeout " + PrintInt(c.timeout) + "\n" else ""
  }

  function ConsoleLine(c: Config): string {
    if c.consoleMode.Some? then "console-mode " + c.consoleMode.value + "\n" else ""
  }

  /** What sd_class_set_default_kernel writes for a kernel. */
  function LoaderText(b: Build, c: Config, id: Ident): string {
    HDR + EntryName(b, id) + "\n" + TimeoutLine(c) + ConsoleLine(c)
  }

  /** strtol with its errno: -1 on overflow. */
  function ReleaseOf(s: string): int {
    var r := Strtol(s).0;
    if r > LONG_MAX || r < -LONG_MAX - 1 then -1 else r
  }

  /** The last dash before `n`, not counting the first character; 0 when there is none. */
  function LastDash(s: string, n: nat): (d: nat)
    requires n <= |s|
    ensures d == 0 || (d < n && s[d] == '-')
    ensures forall j | d < j < n && 0 < j :: s[j] != '-'
  {
    if n <= 1 then 0 else if s[n - 1] == '-' then n - 1 else LastDash(s, n - 1)
  }

  /** What lies behind the prefix and its dash, when it fits the type's buffer. */
  function TypeOf(b: Build, s: string, d2: nat): string
    requires d2 <= |s|
  {
    var pln := |b.vendor| + 1;
    if pln >= d2 || d2 - pln > 31 then "" else s[pln..d2]
  }

  /** What lies between the dashes, when it fits the version's buffer. */
  function VersionOf(s: string, d1: nat, d2: nat): string
    requires d2 < d1 <= |s|
  {
    if d1 - d2 - 1 > 15 then "" else s[d2 + 1..d1]
  }

  /** What the backwards walk makes of an entry name: release behind the last dash, version behind the
      one before, type behind the prefix's length. */
  function ParseEntry(b: Build, s: string): Option<Ident> {
    var d1 := LastDash(s, |s|);
    if d1 == 0 || d1 + 1 == |s| then None
    else
      var d2 := LastDash(s, d1);
      if d2 < 2 || d2 + 1 == d1 then None
      else
        var id := Ident(TypeOf(b, s, d2), VersionOf(s, d1, d2), ReleaseOf(s[d1 + 1..]));
        if id.ktype == "" || id.version == "" || id.release < 0 then None else Some(id)
  }

  /** The text between the first "default " and the end of that line. */
  function DefaultEntry(conf: string): Option<string> {
    match Find(conf, HDR)
    case None => None
    case Some(i) =>
      var rest := conf[i + |HDR|..];
      Some(rest[..IndexOf(rest, '\n')])
  }

  function ParseLoader(b: Build, conf: string): Option<string> {
    match DefaultEntry(conf)
    case None => None
    case Some(s) =>
      var id := ParseEntry(b, s);
      if id.None? then None else Some(KernelName(b, id.value))
  }

  /** parse_kernel_from_loader, walking the buffer backwards and cutting it at each dash. */
  method ParseKernelFromLoader(b: Build, conf: array<char>, ghost len: nat) returns (kernel: Option<string>)
    requires CString(conf, 0, len)
    modifies conf
    ensures kernel == ParseLoader(b, old(conf[..len]))
  {
    var n := StrLen(conf, 0, len);
    var text := conf[..n];
    assert forall i | 0 <= i <= n :: conf[i..n] == text[i..];
    var hdr := Find(text, HDR);
    if hdr.None? {
      return None;
    }
    var id := ParseLine(b, conf, n, hdr.value + |HDR|);
    kernel := if id.None? then None else Some(KernelName(b, id.value));
  }

  /** The entry name that starts at `start`; the space in front of it becomes the dash the walk may look at. */
  method ParseLine(b: Build, conf: array<char>, n: nat, start: nat) returns (id: Option<Ident>)
    requires CString(conf, 0, n) && 0 < start <= n
    modifies conf
    ensures id == var rest := old(conf[start..n]); ParseEntry(b, rest[..IndexOf(rest, '\n')])
  {
    ghost var rest := conf[start..n];
    var e := IndexOf(conf[start..n], '\n');
    conf[start - 1] := '-';
    conf[start + e] := NUL;
    id := WalkBack(b, conf, start, e, rest[..e]);
  }

  /** The buffer holds `s[lo..hi]` at its place behind `start`. */
  ghost predicate BufferHolds(conf: array<char>, start: nat, s: string, lo: nat, hi: nat)
    reads conf
  {
    && hi <= |s| && start + hi <= conf.Length
    && forall p | start + lo <= p < start + hi :: conf[p] == s[p - start]
  }

  method ReadRelease(conf: array<char>, start: nat, ghost s: string, at: nat) returns (release: int)
    requires at <= |s| && NulFree(s) && BufferHolds(conf, start, s, at, |s|) && CString(conf, start + at, |s| - at)
    ensures release == ReleaseOf(s[at..])
  {
    var ln := StrLen(conf, start + at, |s| - at);
    release := ReleaseOf(conf[start + at..start + at + ln]);
    assert conf[start + at..start + at + ln] == s[at..];
  }

  method ReadVersion(conf: array<char>, start: nat, ghost s: string, ghost d1: nat, d2: nat) returns (version: string)
    requires d2 < d1 <= |s| && BufferHolds(conf, start, s, d2 + 1, d1) && CString(conf, start + d2 + 1, d1 - d2 - 1)
    ensures version == VersionOf(s, d1, d2)
  {
    var ln := StrLen(conf, start + d2 + 1, d1 - d2 - 1);
    version := "";
    if ln <= 15 {
      version := conf[start + d2 + 1..start + d2 + 1 + ln];
      assert version == s[d2 + 1..d1];
    }
  }

  method ReadType(b: Build, conf: array<char>, start: nat, ghost s: string, ghost d2: nat) returns (ktype: string)
    requires d2 <= |s| && BufferHolds(conf, start, s, 0, d2) && CString(conf, start, d2)
    ensures ktype == TypeOf(b, s, d2)
  {
    var ln := StrLen(conf, start, d2);
    var pln := |b.vendor| + 1;
    if pln >= ln || ln - pln > 31 {
      return "";
    }
    ktype := conf[start + pln..start + ln];
    assert ktype == s[pln..d2];
  }

  /** What the walk knows about `s` when it is about to look at character `c`. */
  ghost predicate Walked(s: string, field: nat, c: nat, d1: nat, d2: nat, version: string, release: int) {
    match field
    case 0 => c <= |s| && (forall j | c < j < |s| && 0 < j :: s[j] != '-')
    case 1 => FirstCut(s, d1, release) && c < d1 && (forall j | c < j < d1 && 0 < j :: s[j] != '-')
    case _ => FirstCut(s, d1, release) && SecondCut(s, d1, d2, version) && c == d2 - 1
  }

  ghost predicate FirstCut(s: string, d1: nat, release: int) {
    0 < d1 && d1 + 1 < |s| && d1 == LastDash(s, |s|) && release == ReleaseOf(s[d1 + 1..])
  }

  ghost predicate SecondCut(s: string, d1: nat, d2: nat, version: string)
    requires d1 <= |s|
  {
    0 < d2 && d2 + 1 < d1 && d2 == LastDash(s, d1) && version == VersionOf(s, d1, d2)
  }

  /** Where the walk has cut the string short. */
  function CutAt(s: string, field: nat, d1: nat, d2: nat): nat {
    if field == 0 then |s| else if field == 1 then d1 else d2
  }

  /** The switch at a dash: the first one met is in front of the release, the second of the version. */
  method TakeField(conf: array<char>, start: nat, ghost s: string, field: nat, c: nat, ghost cut: nat,
                   version: string, release: int)
    returns (version': string, release': int)
    requires field < 2 && c + 1 < cut <= |s| && NulFree(s) && BufferHolds(conf, start, s, c + 1, cut)
    requires start + cut < conf.Length && conf[start + cut] == NUL
    requires field == 0 ==> cut == |s|
    ensures field == 0 ==> release' == ReleaseOf(s[c + 1..]) && version' == version
    ensures field == 1 ==> version' == VersionOf(s, cut, c) && release' == release
  {
    version', release' := version, release;
    if field == 0 {
      release' := ReadRelease(conf, start, s, c + 1);
    } else {
      version' := ReadVersion(conf, start, s, cut, c);
    }
  }

  lemma WalkCuts(s: string, field: nat, c: nat, d1: nat, d2: nat, version: string, release: int, version': string,
                 release': int)
    requires field < 2 && Walked(s, field, c, d1, d2, version, release)
    requires 0 < c && c + 1 < CutAt(s, field, d1, d2) && s[c] == '-'
    requires field == 0 ==> release' == ReleaseOf(s[c + 1..]) && version' == version
    requires field == 1 ==> version' == VersionOf(s, d1, c) && release' == release
    ensures field == 0 ==> Walked(s, 1, c - 1, c, d2, version', release')
    ensures field == 1 ==> Walked(s, 2, c - 1, d1, c, version', release')
  {
    LastDashIs(s, CutAt(s, field, d1, d2), c);
  }

  /** The walk over the entry name `s`, which the buffer holds at `start`, NUL-terminated. */
  method WalkBack(b: Build, conf: array<char>, start: nat, e: nat, ghost s: string) returns (id: Option<Ident>)
    requires CString(conf, start, e) && |s| == e && NulFree(s) && BufferHolds(conf, start, s, 0, e)
    modifies conf
    ensures id == ParseEntry(b, s)
  {
    var ktype, version, release := "", "", -1;
    var field, c := 0, e;
    ghost var d1, d2 := 0, 0;
    while c > 0
      invariant 0 <= c <= CutAt(s, field, d1, d2) <= e && 0 <= field <= 2
      invariant start + e < conf.Length && conf[start + CutAt(s, field, d1, d2)] == NUL
      invariant BufferHolds(conf, start, s, 0, CutAt(s, field, d1, d2))
      invariant Walked(s, field, c, d1, d2, version, release)
      invariant field < 2 ==> version == ""
      decreases c
    {
      if field == 2 {
        ktype := ReadType(b, conf, start, s, d2);
        WalkEnds(b, s, d1, d2, version, release);
        break;
      }
      if conf[start + c] == '-' {
        if conf[start + c + 1] == NUL {
          WalkFails(b, s, field, c, d1, d2, version, release);
          break;
        }
        var version', release' := TakeField(conf, start, s, field, c, CutAt(s, field, d1, d2), version, release);
        WalkCuts(s, field, c, d1, d2, version, release, version', release');
        version, release := version', release';
        d1, d2 := if field == 0 then c else d1, if field == 0 then d2 else c;
        conf[start + c] := NUL;
        field := field + 1;
      }
      c := c - 1;
    }
    if c == 0 {
      WalkFails(b, s, field, c, d1, d2, version, release);
    }
    if ktype == "" || version == "" || release < 0 {
      return None;
    }
    id := Some(Ident(ktype, version, release));
  }

  /** The walk that runs out of characters, or meets a dash with nothing behind it, finds nothing. */
  lemma WalkFails(b: Build, s: string, field: nat, c: nat, d1: nat, d2: nat, version: string, release: int)
    requires field <= 2 && Walked(s, field, c, d1, d2, version, release)
    requires c == 0 || (field < 2 && c + 1 == CutAt(s, field, d1, d2) && s[c] == '-')
    ensures ParseEntry(b, s) == None
  {
    if c == 0 {
      if field < 2 {
        NoDash(s, CutAt(s, field, d1, d2));
      }
    } else {
      LastDashIs(s, CutAt(s, field, d1, d2), c);
    }
  }

  lemma WalkEnds(b: Build, s: string, d1: nat, d2: nat, version: string, release: int)
    requires FirstCut(s, d1, release) && SecondCut(s, d1, d2, version) && d2 >= 2
    ensures var ktype := TypeOf(b, s, d2);
            ParseEntry(b, s)
            == if ktype == "" || version == "" || release < 0 then None else Some(Ident(ktype, version, release))
  {
  }

  lemma {:induction false} NoDash(s: string, n: nat)
    requires n <= |s| && forall j | 0 < j < n :: s[j] != '-'
    ensures LastDash(s, n) == 0
  {
  }

  lemma {:induction false} LastDashIs(s: string, n: nat, d: nat)
    requires 0 < d < n <= |s| && s[d] == '-'
    requires forall j | d < j < n :: s[j] != '-'
    ensures LastDash(s, n) == d
  {
  }

  /** A name field of a loader entry that fits the reader's buffers. */
  predicate Fits(id: Ident) {
    && 1 <= |id.ktype| <= 31
    && 1 <= |id.version| <= 15 && '-' !in id.version
    && 0 <= id.release <= LONG_MAX
  }

  lemma {:induction false} EntryFields(s: string, a: string, v: string, d: string)
    requires s == a + "-" + v + "-" + d && a != "" && '-' !in v && '-' !in d
    ensures |s| == |a| + 1 + |v| + 1 + |d| && HasPrefix(s, a)
    ensures LastDash(s, |s|) == |a| + 1 + |v| && LastDash(s, |a| + 1 + |v|) == |a|
    ensures s[|a| + 1..|a| + 1 + |v|] == v && s[|a| + 1 + |v| + 1..] == d
  {
    var d1 := |a| + 1 + |v|;
    assert forall j | d1 < j < |s| :: s[j] == d[j - d1 - 1];
    assert forall j | |a| < j < d1 :: s[j] == v[j - |a| - 1];
    LastDashIs(s, |s|, d1);
    LastDashIs(s, d1, |a|);
  }

  lemma TypeReadsBack(b: Build, s: string, ktype: string)
    requires 1 <= |ktype| <= 31
    requires HasPrefix(s, b.vendor + "-" + ktype)
    ensures TypeOf(b, s, |b.vendor| + 1 + |ktype|) == ktype
  {
    var a := b.vendor + "-" + ktype;
    assert s[|b.vendor| + 1..|a|] == s[..|a|][|b.vendor| + 1..];
  }

  lemma {:induction false} ReleaseReadsBack(n: nat)
    requires n <= LONG_MAX
    ensures ReleaseOf(Decimal(n) + ".conf") == n
    ensures '-' !in Decimal(n) + ".conf"
  {
    StrtolReadsBack(n, ".conf");
  }

  /** Where the dashes are tells what is parsed. */
  lemma {:induction false} ParsedAt(b: Build, s: string, d1: nat, d2: nat, id: Ident)
    requires 2 <= d2 && d2 + 1 < d1 && d1 + 1 < |s| && LastDash(s, |s|) == d1 && LastDash(s, d1) == d2
    requires TypeOf(b, s, d2) == id.ktype != "" && VersionOf(s, d1, d2) == id.version != ""
    requires ReleaseOf(s[d1 + 1..]) == id.release >= 0
    ensures ParseEntry(b, s) == Some(id)
  {
  }

  lemma {:induction false} PiecesReadBack(b: Build, id: Ident, s: string)
    requires Fits(id)
    requires var d2 := |b.vendor| + 1 + |id.ktype|;
             var d1 := d2 + 1 + |id.version|;
             && d1 + 1 < |s| && LastDash(s, |s|) == d1 && LastDash(s, d1) == d2
             && HasPrefix(s, b.vendor + "-" + id.ktype)
             && s[d2 + 1..d1] == id.version && ReleaseOf(s[d1 + 1..]) == id.release
    ensures ParseEntry(b, s) == Some(id)
  {
    var d2 := |b.vendor| + 1 + |id.ktype|;
    TypeReadsBack(b, s, id.ktype);
    ParsedAt(b, s, d2 + 1 + |id.version|, d2, id);
  }

  lemma EntryNameFields(b: Build, id: Ident)
    requires id.release >= 0
    ensures EntryName(b, id) == (b.vendor + "-" + id.ktype) + "-" + id.version + "-" + (Decimal(id.release) + ".conf")
  {
  }

  /** An entry name gives back its kernel, for any vendor prefix and even a type with dashes. */
  lemma EntryReadsBack(b: Build, id: Ident)
    requires Fits(id)
    ensures ParseEntry(b, EntryName(b, id)) == Some(id)
  {
    var s := EntryName(b, id);
    ReleaseReadsBack(id.release);
    EntryNameFields(b, id);
    EntryFields(s, b.vendor + "-" + id.ktype, id.version, Decimal(id.release) + ".conf");
    PiecesReadBack(b, id, s);
  }

  /** The first line of the file is found, whatever follows it. */
  lemma DefaultEntryIs(entry: string, tail: string)
    requires '\n' !in entry
    ensures DefaultEntry(HDR + entry + "\n" + tail) == Some(entry)
  {
    var conf := HDR + entry + "\n" + tail;
    assert conf == HDR + (entry + "\n" + tail);
    assert OccursAt(conf, HDR, 0);
    assert conf[|HDR|..] == entry + ['\n'] + tail;
    IndexOfIs(entry, '\n', tail);
    assert (entry + ['\n'] + tail)[..|entry|] == entry;
  }

  lemma EntryOnOneLine(b: Build, id: Ident)
    requires '\n' !in b.vendor && '\n' !in id.ktype && '\n' !in id.version && id.release >= 0
    ensures '\n' !in EntryName(b, id)
  {
  }

  /** loader.conf as written names the kernel that was made the default, whatever the timeout and
      console-mode lines behind it. */
  lemma LoaderReadsBack(b: Build, c: Config, id: Ident)
    requires Fits(id)
    requires '\n' !in b.vendor && '\n' !in id.ktype && '\n' !in id.version
    ensures ParseLoader(b, LoaderText(b, c, id)) == Some(KernelName(b, id))
  {
    hide ParseEntry, EntryName, KernelName, TimeoutLine, ConsoleLine, DefaultEntry;
    EntryReadsBack(b, id);
    EntryOnOneLine(b, id);
    var entry, tail := EntryName(b, id), TimeoutLine(c) + ConsoleLine(c);
    assert LoaderText(b, c, id) == HDR + entry + "\n" + tail;
    DefaultEntryIs(entry, tail);
  }
}
