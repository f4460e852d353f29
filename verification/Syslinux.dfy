/** The syslinux-class boot loaders: the queue of kernels, syslinux.cfg written from it, and the default read
    back from the file. */
module Syslinux {
  import opened Text
  import opened Disks
  import opened Names
  import opened Freestanding
  import opened CommandLine
  import opened Systemd
  import opened Kernels
  import opened Installs
  import opened TextLines

  const DEFAULT: string := "DEFAULT "

  // ----- what is written -----

  /** The names, each behind a comma. */
  function Commas(names: seq<string>): string {
    if names == [] then "" else Commas(names[..|names| - 1]) + ("," + names[|names| - 1])
  }

  function AppendLine(c: Config, cmdline: string): string {
    "APPEND " + RootArgs(c) + cmdline
  }

  /** What the writer needs besides the queue. */
  datatype Site = Site(build: Build, config: Config, overlay: Overlay, keys: seq<string>, ucode: Option<string>)

  function InitrdsOf(t: Site, k: Kernel): seq<string> {
    EntryInitrds(t.overlay, t.keys, t.ucode, TargetInitrd(t.build, k), [])
  }

  predicate IsChosen(d: Option<Kernel>, k: Kernel) {
    d.Some? && IsSystemKernel(MetaIdent(d.value))(k)
  }

  function InitrdList(t: Site, k: Kernel): seq<string> {
    var list := Commas(InitrdsOf(t, k));
    if list == "" then [] else ["  INITRD " + list[1..]]
  }

  function DefaultLine(d: Option<Kernel>, k: Kernel): seq<string> {
    if IsChosen(d, k) then [DEFAULT + k.bpath] else []
  }

  function Stanza(t: Site, d: Option<Kernel>, k: Kernel): seq<string> {
    DefaultLine(d, k) + AfterDefault(t, k)
  }

  function AfterDefault(t: Site, k: Kernel): seq<string> {
    ["LABEL " + k.bpath, "  KERNEL " + k.bpath] + (InitrdList(t, k) + [AppendLine(t.config, k.cmdline)])
  }

  function TimeoutLines(t: Site, d: Option<Kernel>): seq<string> {
    if d.None? then ["TIMEOUT 100"]
    else if t.config.timeout > 0 then ["TIMEOUT " + PrintInt(t.config.timeout)]
    else []
  }

  function Stanzas(t: Site, d: Option<Kernel>, queue: seq<Kernel>): seq<seq<string>> {
    seq(|queue|, i requires 0 <= i < |queue| => Stanza(t, d, queue[i]))
  }

  /** The head, then the first `n` stanzas. */
  function Flat(head: seq<string>, stanzas: seq<seq<string>>, n: nat): seq<string>
    requires n <= |stanzas|
  {
    if n == 0 then head else Flat(head, stanzas, n - 1) + stanzas[n - 1]
  }

  function Lines(t: Site, d: Option<Kernel>, queue: seq<Kernel>): seq<string> {
    Flat(TimeoutLines(t, d), Stanzas(t, d, queue), |queue|)
  }

  function ConfigText(t: Site, d: Option<Kernel>, queue: seq<Kernel>): string {
    Unlines(Lines(t, d, queue))
  }

  // ----- what is read -----

  /** The first line from `from` on that contains "DEFAULT ": what stands behind it. */
  function DefaultFrom(text: string, from: nat): Option<string>
    requires from <= |text|
    decreases |text| - from
  {
    if from == |text| then None
    else
      var line := text[from..LineEnd(text, from)];
      match Find(line, DEFAULT)
      case Some(i) => Some(Chomp(line[i + |DEFAULT|..]))
      case None => DefaultFrom(text, LineEnd(text, from))
  }

  /** What stands behind an occurrence, up to the end of its line. */
  function Behind(text: string, i: nat): string
    requires i + |DEFAULT| <= |text|
  {
    text[i + |DEFAULT|..IndexFrom(text, '\n', i + |DEFAULT|)]
  }

  lemma OccursInPart(s: string, from: nat, end: nat, i: int)
    requires from <= end <= |s|
    ensures OccursAt(s[from..end], DEFAULT, i) <==> 0 <= i && from + i + 8 <= end && OccursAt(s, DEFAULT, from + i)
  {
    if 0 <= i && from + i + 8 <= end {
      SliceSlice(s, from, end, i, i + 8);
    }
  }

  lemma SliceSlice(s: string, from: nat, end: nat, lo: nat, hi: nat)
    requires from <= end <= |s| && lo <= hi <= end - from
    ensures s[from..end][lo..hi] == s[from + lo..from + hi]
  {
    var a, b := s[from..end][lo..hi], s[from + lo..from + hi];
    forall k | 0 <= k < hi - lo
      ensures a[k] == b[k]
    {
      assert a[k] == s[from..end][lo + k] == s[from + (lo + k)] == b[k];
    }
  }

  lemma NoNewlineInside(s: string, i: int, j: int)
    requires OccursAt(s, DEFAULT, i) && i <= j < i + 8
    ensures s[j] != '\n'
  {
    assert s[j] == s[i..i + 8][j - i] == DEFAULT[j - i];
  }

  lemma {:induction false} FindFromIs(s: string, from: nat, i: nat)
    requires from <= i && OccursAt(s, DEFAULT, i) && forall j | from <= j < i :: !OccursAt(s, DEFAULT, j)
    ensures FindFrom(s, DEFAULT, from) == Some(i)
  {
  }

  lemma {:induction false} IndexFromIs(text: string, from: nat, e: nat)
    requires from <= e <= |text| && (forall j | from <= j < e :: text[j] != '\n') && (e < |text| ==> text[e] == '\n')
    ensures IndexFrom(text, '\n', from) == e
  {
  }

  /** No occurrence reaches over the end of a line. */
  lemma InLine(text: string, from: nat, i: int)
    requires from < |text|
    ensures var end := LineEnd(text, from);
            OccursAt(text[from..end], DEFAULT, i) <==> 0 <= i && from + i < end && OccursAt(text, DEFAULT, from + i)
  {
    var end := LineEnd(text, from);
    OccursInPart(text, from, end, i);
    if 0 <= i && from + i < end < from + i + 8 && OccursAt(text, DEFAULT, from + i) {
      NoNewlineInside(text, from + i, end - 1);
    }
  }

  lemma {:induction false} SearchSkips(text: string, from: nat, end: nat)
    requires from <= end <= |text| && forall i | from <= i < end :: !OccursAt(text, DEFAULT, i)
    ensures FindFrom(text, DEFAULT, from) == FindFrom(text, DEFAULT, end)
    decreases end - from
  {
    if from < end {
      SearchSkips(text, from + 1, end);
    }
  }

  /** `line` is the line of `text` between `from` and `end`. */
  predicate IsLine(text: string, from: nat, end: nat, line: string) {
    from < |text| && end == LineEnd(text, from) && line == text[from..end]
  }

  /** The occurrences in a line are those of the text that start there. */
  ghost predicate Window(text: string, from: nat, end: nat, line: string) {
    forall j :: OccursAt(line, DEFAULT, j) <==> 0 <= j && from + j < end && OccursAt(text, DEFAULT, from + j)
  }

  lemma LineIsWindow(text: string, from: nat, end: nat, line: string)
    requires IsLine(text, from, end, line)
    ensures Window(text, from, end, line)
  {
    forall j
      ensures OccursAt(line, DEFAULT, j) <==> 0 <= j && from + j < end && OccursAt(text, DEFAULT, from + j)
    {
      InLine(text, from, j);
    }
  }

  /** Where nothing is found in a line, the search goes on behind it. */
  lemma {:induction false} WindowEmpty(text: string, from: nat, end: nat, line: string)
    requires from <= end <= |text| && Window(text, from, end, line) && Find(line, DEFAULT) == None
    ensures FindFrom(text, DEFAULT, from) == FindFrom(text, DEFAULT, end)
  {
    forall j | from <= j < end
      ensures !OccursAt(text, DEFAULT, j)
    {
      assert from + (j - from) == j && !OccursAt(line, DEFAULT, j - from);
    }
    SearchSkips(text, from, end);
  }

  lemma {:induction false} FoundShifted(text: string, from: nat, end: nat, line: string, i: nat)
    requires Find(line, DEFAULT) == Some(i) && Window(text, from, end, line)
    ensures FindFrom(text, DEFAULT, from) == Some(from + i)
  {
    assert OccursAt(line, DEFAULT, i);
    forall j | from <= j < from + i
      ensures !OccursAt(text, DEFAULT, j)
    {
      assert from + (j - from) == j && !OccursAt(line, DEFAULT, j - from);
    }
    FindFromIs(text, from, from + i);
  }

  lemma {:induction false} EndsInLine(text: string, from: nat, i: nat)
    requires from < |text| && OccursAt(text[from..LineEnd(text, from)], DEFAULT, i)
    ensures from + i + 8 <= IndexFrom(text, '\n', from)
  {
    OccursInPart(text, from, LineEnd(text, from), i);
    NoNewlineInside(text, from + i, from + i + 7);
  }

  lemma {:induction false} ChompedLine(text: string, from: nat, i: nat)
    requires from < |text| && from + i + 8 <= IndexFrom(text, '\n', from)
    ensures Chomp(text[from..LineEnd(text, from)][i + 8..]) == Behind(text, from + i)
  {
    var end, e := LineEnd(text, from), IndexFrom(text, '\n', from);
    IndexFromIs(text, from + i + 8, e);
    assert text[from..end][i + 8..] == text[from + i + 8..end];
    assert text[from + i + 8..e] == text[from + i + 8..end][..e - (from + i + 8)];
  }

  /** What the search finds from `from` on, and what stands behind it. */
  function FirstBehind(text: string, from: nat): Option<string> {
    match FindFrom(text, DEFAULT, from)
    case None => None
    case Some(i) => Some(Behind(text, i))
  }

  /** The loop over the lines yields what stands behind the first "DEFAULT " of the file. */
  lemma {:induction false} ReadsFirst(text: string, from: nat)
    requires from <= |text|
    ensures DefaultFrom(text, from) == FirstBehind(text, from)
    decreases |text| - from
  {
    if from < |text| {
      var end := LineEnd(text, from);
      ReadsFirst(text, end);
      ReadsLine(text, from, end, text[from..end]);
    }
  }

  /** One turn of that loop. */
  lemma ReadsLine(text: string, from: nat, end: nat, line: string)
    requires IsLine(text, from, end, line)
    ensures FirstBehind(text, from) == match Find(line, DEFAULT)
                                       case None => FirstBehind(text, end)
                                       case Some(i) => Some(Chomp(line[i + |DEFAULT|..]))
  {
    LineIsWindow(text, from, end, line);
    if Find(line, DEFAULT).None? {
      WindowEmpty(text, from, end, line);
    } else {
      BehindInLine(text, from, end, line, Find(line, DEFAULT).value);
    }
  }

  lemma BehindInLine(text: string, from: nat, end: nat, line: string, i: nat)
    requires IsLine(text, from, end, line) && Window(text, from, end, line) && Find(line, DEFAULT) == Some(i)
    ensures FirstBehind(text, from) == Some(Chomp(line[i + |DEFAULT|..]))
  {
    FoundShifted(text, from, end, line, i);
    EndsInLine(text, from, i);
    ChompedLine(text, from, i);
  }

  /** Empty, or made of lines. */
  predicate Ended(a: string) {
    a == "" || a[|a| - 1] == '\n'
  }

  /** What the reader finds in whole lines comes before what it finds behind them. */
  lemma {:induction false} ReadsConcat(a: string, b: string)
    requires Ended(a)
    ensures DefaultFrom(a + b, 0) == if DefaultFrom(a, 0).Some? then DefaultFrom(a, 0) else DefaultFrom(b, 0)
  {
    ReadsFirst(a, 0);
    ReadsFirst(b, 0);
    ReadsFirst(a + b, 0);
    FoundConcat(a, b);
  }

  lemma FoundConcat(a: string, b: string)
    requires Ended(a)
    ensures FirstBehind(a + b, 0) == if FirstBehind(a, 0).Some? then FirstBehind(a, 0) else FirstBehind(b, 0)
  {
    if Find(a, DEFAULT).Some? {
      FoundInFront(a, b, Find(a, DEFAULT).value);
    } else if Find(b, DEFAULT).Some? {
      FoundBehind(a, b, Find(b, DEFAULT).value);
    } else {
      FoundNowhere(a, b);
    }
  }

  lemma FoundInFront(a: string, b: string, i: nat)
    requires Ended(a) && Find(a, DEFAULT) == Some(i)
    ensures FirstBehind(a + b, 0) == FirstBehind(a, 0)
  {
    forall j | 0 <= j <= i
      ensures OccursAt(a + b, DEFAULT, j) <==> OccursAt(a, DEFAULT, j)
    {
      OccursInFront(a, b, j);
    }
    FindFromIs(a + b, 0, i);
    FindFromIs(a, 0, i);
    BehindInFront(a, b, i);
  }

  lemma OccursInFront(a: string, b: string, j: int)
    requires j + |DEFAULT| <= |a|
    ensures OccursAt(a + b, DEFAULT, j) <==> OccursAt(a, DEFAULT, j)
  {
    assert (a + b)[0..|a|] == a;
    OccursInPart(a + b, 0, |a|, j);
  }

  lemma BehindInFront(a: string, b: string, i: nat)
    requires Ended(a) && OccursAt(a, DEFAULT, i)
    ensures Behind(a + b, i) == Behind(a, i)
  {
    var s := a + b;
    NoNewlineInside(a, i, i + 7);
    var e := IndexFrom(a, '\n', i + 8);
    IndexFromIs(s, i + 8, e);
    assert s[i + 8..e] == a[i + 8..e];
  }

  /** Where `b` stands behind lines that contain nothing, its occurrences are all there are. */
  lemma OnlyBehind(a: string, b: string)
    requires Ended(a) && !Occurs(a, DEFAULT)
    ensures Window(a + b, |a|, |a + b|, b)
    ensures forall j | OccursAt(a + b, DEFAULT, j) :: j >= |a|
  {
    forall j
      ensures OccursAt(b, DEFAULT, j) <==> 0 <= j && |a| + j < |a + b| && OccursAt(a + b, DEFAULT, |a| + j)
    {
      OccursBehind(a, b, j);
    }
    NoneInFront(a, b);
  }

  lemma FoundBehind(a: string, b: string, i: nat)
    requires Ended(a) && Find(a, DEFAULT) == None && Find(b, DEFAULT) == Some(i)
    ensures FirstBehind(a + b, 0) == FirstBehind(b, 0)
  {
    hide FindFrom, IndexFrom, Behind;
    OnlyBehind(a, b);
    SearchShifts(a + b, |a|, b, i);
    BehindShifts(a, b, i);
  }

  lemma {:induction false} SearchShifts(s: string, n: nat, b: string, i: nat)
    requires Window(s, n, |s|, b) && Find(b, DEFAULT) == Some(i)
    requires n <= |s| && forall j | OccursAt(s, DEFAULT, j) :: j >= n
    ensures FindFrom(s, DEFAULT, 0) == Some(n + i)
  {
    FoundShifted(s, n, |s|, b, i);
    SearchSkips(s, 0, n);
  }

  lemma FoundNowhere(a: string, b: string)
    requires Ended(a) && Find(a, DEFAULT) == None && Find(b, DEFAULT) == None
    ensures FirstBehind(a + b, 0) == None
  {
    OnlyBehind(a, b);
    NotShifted(a + b, |a|, b);
  }

  lemma {:induction false} NotShifted(s: string, n: nat, b: string)
    requires Window(s, n, |s|, b)
    requires Find(b, DEFAULT) == None && forall j | OccursAt(s, DEFAULT, j) :: j >= n
    ensures FindFrom(s, DEFAULT, 0) == None
  {
    forall j
      ensures !OccursAt(s, DEFAULT, j)
    {
      assert n + (j - n) == j && !OccursAt(b, DEFAULT, j - n);
    }
  }

  lemma OccursBehind(a: string, b: string, j: int)
    ensures OccursAt(b, DEFAULT, j) <==> 0 <= j && |a| + j < |a + b| && OccursAt(a + b, DEFAULT, |a| + j)
  {
    var s := a + b;
    assert s[|a|..|s|] == b;
    OccursInPart(s, |a|, |s|, j);
  }

  /** Lines without an occurrence begin none. */
  lemma NoneInFront(a: string, b: string)
    requires Ended(a) && !Occurs(a, DEFAULT)
    ensures forall j | OccursAt(a + b, DEFAULT, j) :: j >= |a|
  {
    forall j | OccursAt(a + b, DEFAULT, j)
      ensures j >= |a|
    {
      OccursInParts(a, b, j);
    }
  }

  lemma BehindShifts(a: string, b: string, i: nat)
    requires i + 8 <= |b|
    ensures Behind(a + b, |a| + i) == Behind(b, i)
  {
    var s, n, e := a + b, |a|, IndexFrom(b, '\n', i + 8);
    forall j | n <= j < |s|
      ensures s[j] == b[j - n]
    {
    }
    IndexFromIs(s, n + i + 8, n + e);
    assert s[n..] == b;
    SliceSlice(s, n, |s|, i + 8, e);
  }

  // ----- which lines contain "DEFAULT " -----

  /** An occurrence that starts in front of `b` reaches into `b`, unless it lies within `a`. */
  lemma OccursInParts(a: string, b: string, i: int)
    requires OccursAt(a + b, DEFAULT, i)
    ensures || OccursAt(a, DEFAULT, i)
            || OccursAt(b, DEFAULT, i - |a|)
            || (i < |a| && a[|a| - 1] in "DEFAULT")
  {
    var s := a + b;
    if i + 8 <= |a| {
      assert s[i..i + 8] == a[i..i + 8];
    } else if i >= |a| {
      assert s[i..i + 8] == b[i - |a|..i - |a| + 8];
    } else {
      var k := |a| - 1 - i;
      assert a[|a| - 1] == s[i + k] == s[i..i + 8][k] == DEFAULT[k];
      assert DEFAULT[..7] == "DEFAULT" && DEFAULT[..7][k] == DEFAULT[k];
    }
  }

  /** What ends in a character that is not in "DEFAULT" cannot begin an occurrence. */
  predicate Closed(a: string) {
    a == "" || a[|a| - 1] !in "DEFAULT"
  }

  lemma OccursSplit(a: string, b: string)
    requires Closed(a)
    ensures Occurs(a + b, DEFAULT) <==> Occurs(a, DEFAULT) || Occurs(b, DEFAULT)
  {
    if Occurs(a + b, DEFAULT) {
      var i :| OccursAt(a + b, DEFAULT, i);
      OccursInParts(a, b, i);
    }
    if Occurs(a, DEFAULT) {
      var i :| OccursAt(a, DEFAULT, i);
      assert (a + b)[i..i + 8] == a[i..i + 8] && OccursAt(a + b, DEFAULT, i);
    }
    if Occurs(b, DEFAULT) {
      var i :| OccursAt(b, DEFAULT, i);
      assert (a + b)[|a| + i..|a| + i + 8] == b[i..i + 8] && OccursAt(a + b, DEFAULT, |a| + i);
    }
  }

  lemma AtOccurrence(a: string, i: int)
    requires OccursAt(a, DEFAULT, i)
    ensures a[i] == 'D' && a[i + 7] == ' '
  {
    assert a[i] == a[i..i + 8][0] && a[i + 7] == a[i..i + 8][7];
  }

  lemma NoSpaceNoOccurrence(a: string)
    requires ' ' !in a || |a| < 8
    ensures !Occurs(a, DEFAULT)
  {
    forall i | OccursAt(a, DEFAULT, i)
      ensures false
    {
      AtOccurrence(a, i);
    }
  }

  /** A literal of nine characters that begins with two blanks, or of eight that does not begin with 'D'. */
  lemma ShortLiteral(a: string)
    requires (|a| == 9 && a[0] == ' ' && a[1] == ' ') || (|a| == 8 && a[0] != 'D')
    ensures !Occurs(a, DEFAULT)
  {
    forall i | OccursAt(a, DEFAULT, i)
      ensures false
    {
      AtOccurrence(a, i);
    }
  }

  /** Behind a space, "DEFAULT" at the end of a field is as bad as "DEFAULT " inside it. */
  lemma SpaceBehind(f: string)
    ensures Occurs(f + " ", DEFAULT) <==> Occurs(f, DEFAULT) || HasSuffix(f, "DEFAULT")
  {
    var s := f + " ";
    if HasSuffix(f, "DEFAULT") {
      assert s[|f| - 7..|f| - 7 + 8] == f[|f| - 7..] + " " == DEFAULT;
      assert OccursAt(s, DEFAULT, |f| - 7);
    }
    if Occurs(f, DEFAULT) {
      var i :| OccursAt(f, DEFAULT, i);
      assert s[i..i + 8] == f[i..i + 8] && OccursAt(s, DEFAULT, i);
    }
    if Occurs(s, DEFAULT) && !Occurs(f, DEFAULT) {
      var i :| OccursAt(s, DEFAULT, i);
      assert i + 8 <= |f| ==> s[i..i + 8] == f[i..i + 8] && OccursAt(f, DEFAULT, i);
      assert f[|f| - 7..] == s[i..i + 8][..7] == DEFAULT[..7] == "DEFAULT";
    }
  }

  ghost predicate CleanField(f: string) {
    !Occurs(f, DEFAULT) && !HasSuffix(f, "DEFAULT")
  }

  ghost predicate CleanOption(f: Option<string>) {
    f.Some? ==> CleanField(f.value)
  }

  /** A field behind its tag, with the space that follows. */
  lemma TaggedField(tag: string, f: string)
    requires ' ' !in tag && Closed(tag)
    ensures Occurs(tag + f + " ", DEFAULT) <==> !CleanField(f)
    ensures Closed(tag + f + " ")
  {
    NoSpaceNoOccurrence(tag);
    OccursSplit(tag, f + " ");
    SpaceBehind(f);
    assert tag + (f + " ") == tag + f + " ";
  }

  lemma OptionalField(tag: string, f: Option<string>)
    requires ' ' !in tag && Closed(tag)
    ensures Occurs(Optional(tag, f), DEFAULT) <==> !CleanOption(f)
    ensures Closed(Optional(tag, f))
  {
    NoSpaceNoOccurrence("");
    if f.Some? {
      TaggedField(tag, f.value);
    }
  }

  /** No field of the root arguments contains "DEFAULT " or ends in "DEFAULT". */
  ghost predicate CleanArgs(c: Config) {
    && CleanField(RootId(c)) && CleanOption(c.luksUuid) && CleanOption(c.btrfsSub)
    && CleanOption(c.keymap) && CleanOption(c.font)
  }

  lemma OccursInThree(a: string, b: string, c: string)
    requires Closed(a) && Closed(b) && Closed(c)
    ensures Occurs(a + b + c, DEFAULT) <==> Occurs(a, DEFAULT) || Occurs(b, DEFAULT) || Occurs(c, DEFAULT)
    ensures Closed(a + b + c)
  {
    OccursSplit(a, b);
    OccursSplit(a + b, c);
  }

  lemma RootPartClean(c: Config)
    ensures Occurs(RootPart(c), DEFAULT) <==> !CleanField(RootId(c))
    ensures Closed(RootPart(c))
  {
    TaggedField("root=" + (if c.partUuid.Some? then "PARTUUID=" else "UUID="), RootId(c));
  }

  lemma FrontArgsClean(c: Config)
    ensures Occurs(FrontArgs(c), DEFAULT) <==>
            !(CleanField(RootId(c)) && CleanOption(c.luksUuid) && CleanOption(c.btrfsSub))
    ensures Closed(FrontArgs(c))
  {
    RootPartClean(c);
    OptionalField("rd.luks.uuid=", c.luksUuid);
    OptionalField("rootflags=subvol=", c.btrfsSub);
    OccursInThree(RootPart(c), Optional("rd.luks.uuid=", c.luksUuid), Optional("rootflags=subvol=", c.btrfsSub));
  }

  lemma RootArgsClean(c: Config)
    ensures Occurs(RootArgs(c), DEFAULT) <==> !CleanArgs(c)
    ensures Closed(RootArgs(c))
  {
    FrontArgsClean(c);
    OptionalField("rd.vconsole.keymap=", c.keymap);
    OptionalField("rd.vconsole.font=", c.font);
    OccursInThree(FrontArgs(c), Optional("rd.vconsole.keymap=", c.keymap), Optional("rd.vconsole.font=", c.font));
  }

  /** The APPEND line hides the default exactly when a field or the command line contains "DEFAULT ", or a
      field that a space follows ends in "DEFAULT". */
  lemma AppendHides(c: Config, cmdline: string)
    ensures Occurs(AppendLine(c, cmdline), DEFAULT) <==> !CleanArgs(c) || Occurs(cmdline, DEFAULT)
  {
    RootArgsClean(c);
    NoSpaceNoOccurrence("APPEND ");
    OccursSplit("APPEND ", RootArgs(c));
    OccursSplit("APPEND " + RootArgs(c), cmdline);
  }

  // ----- what the lines of a kernel contain -----

  lemma SameFind(a: string, b: string)
    requires forall i :: OccursAt(a, DEFAULT, i) <==> OccursAt(b, DEFAULT, i)
    ensures Find(a, DEFAULT) == Find(b, DEFAULT)
  {
    var x, y := Find(a, DEFAULT), Find(b, DEFAULT);
    if x.Some? {
      assert OccursAt(b, DEFAULT, x.value);
    }
    if y.Some? {
      assert OccursAt(a, DEFAULT, y.value);
    }
  }

  lemma SameSearch(a: string, c: char)
    requires c != ' '
    ensures Find(a + [c], DEFAULT) == Find(a, DEFAULT)
  {
    forall i
      ensures OccursAt(a + [c], DEFAULT, i) <==> OccursAt(a, DEFAULT, i)
    {
      SpareChar(a, c, i);
    }
    SameFind(a + [c], a);
  }

  /** What is no space completes no occurrence. */
  lemma CharBehind(a: string, c: char)
    requires c != ' '
    ensures Occurs(a + [c], DEFAULT) <==> Occurs(a, DEFAULT)
  {
    SameSearch(a, c);
  }

  lemma SpareChar(a: string, c: char, i: int)
    requires c != ' '
    ensures OccursAt(a + [c], DEFAULT, i) <==> OccursAt(a, DEFAULT, i)
  {
    var s := a + [c];
    if OccursAt(s, DEFAULT, i) {
      AtOccurrence(s, i);
    }
    if 0 <= i && i + 8 <= |a| {
      assert s[i..i + 8] == a[i..i + 8];
    }
  }

  ghost predicate OccursIn(lines: seq<string>) {
    exists line :: line in lines && Occurs(line, DEFAULT)
  }

  lemma OccursInMore(lines: seq<string>, line: string)
    ensures OccursIn(lines + [line]) <==> OccursIn(lines) || Occurs(line, DEFAULT)
  {
    assert line in lines + [line] && forall l | l in lines :: l in lines + [line];
  }

  lemma OccursInBoth(a: seq<string>, b: seq<string>)
    ensures OccursIn(a + b) <==> OccursIn(a) || OccursIn(b)
  {
    assert forall l :: l in a + b <==> l in a || l in b;
  }

  lemma {:induction false} OccursInText(lines: seq<string>)
    ensures Occurs(Unlines(lines), DEFAULT) <==> OccursIn(lines)
    ensures Ended(Unlines(lines))
  {
    if lines == [] {
      NoSpaceNoOccurrence("");
    } else {
      var before, last := lines[..|lines| - 1], lines[|lines| - 1];
      OccursInText(before);
      OccursSplit(Unlines(before), last + "\n");
      CharBehind(last, '\n');
      OccursInMore(before, last);
      assert before + [last] == lines;
    }
  }

  lemma {:induction false} OccursInList(names: seq<string>)
    ensures Occurs(Commas(names), DEFAULT) <==> OccursIn(names)
  {
    if names == [] {
      NoSpaceNoOccurrence("");
    } else {
      var before, last := names[..|names| - 1], names[|names| - 1];
      OccursInList(before);
      CharBehind(Commas(before), ',');
      OccursSplit(Commas(before) + ",", last);
      OccursInMore(before, last);
      assert before + [last] == names && Commas(names) == Commas(before) + "," + last;
    }
  }

  /** A literal that is clean, and behind which nothing is completed. */
  lemma Labelled(tag: string, f: string)
    requires !Occurs(tag, DEFAULT) && Closed(tag)
    ensures Occurs(tag + f, DEFAULT) <==> Occurs(f, DEFAULT)
  {
    OccursSplit(tag, f);
  }

  lemma OccursInInitrds(t: Site, k: Kernel)
    ensures OccursIn(InitrdList(t, k)) <==> OccursIn(InitrdsOf(t, k))
  {
    var list := Commas(InitrdsOf(t, k));
    OccursInList(InitrdsOf(t, k));
    if list == "" {
      NoSpaceNoOccurrence("");
    } else {
      CommasStart(InitrdsOf(t, k));
      assert list == "," + list[1..];
      NoSpaceNoOccurrence(",");
      Labelled(",", list[1..]);
      ShortLiteral("  INITRD ");
      Labelled("  INITRD ", list[1..]);
      assert InitrdList(t, k)[0] == "  INITRD " + list[1..];
    }
  }

  lemma {:induction false} CommasStart(names: seq<string>)
    ensures Commas(names) == "" || Commas(names)[0] == ','
  {
    if names != [] {
      CommasStart(names[..|names| - 1]);
    }
  }

  lemma OccursInLabels(path: string)
    ensures OccursIn(["LABEL " + path, "  KERNEL " + path]) <==> Occurs(path, DEFAULT)
  {
    NoSpaceNoOccurrence("LABEL ");
    Labelled("LABEL ", path);
    ShortLiteral("  KERNEL ");
    Labelled("  KERNEL ", path);
    assert "LABEL " + path in ["LABEL " + path, "  KERNEL " + path];
  }

  /** The lines between the DEFAULT and the APPEND line. */
  function MiddleLines(t: Site, k: Kernel): seq<string> {
    ["LABEL " + k.bpath, "  KERNEL " + k.bpath] + InitrdList(t, k)
  }

  lemma OccursInMiddle(t: Site, k: Kernel)
    ensures OccursIn(MiddleLines(t, k)) <==> Occurs(k.bpath, DEFAULT) || OccursIn(InitrdsOf(t, k))
  {
    OccursInLabels(k.bpath);
    OccursInInitrds(t, k);
    OccursInBoth(["LABEL " + k.bpath, "  KERNEL " + k.bpath], InitrdList(t, k));
  }

  /** The kernel is the default, or its path, one of its initrds, a root field or its command line contains
      "DEFAULT ", or a root field ends in "DEFAULT". */
  ghost predicate Decides(t: Site, d: Option<Kernel>, k: Kernel) {
    || IsChosen(d, k) || Occurs(k.bpath, DEFAULT) || OccursIn(InitrdsOf(t, k))
    || !CleanArgs(t.config) || Occurs(k.cmdline, DEFAULT)
  }

  lemma OccursInStanza(t: Site, d: Option<Kernel>, k: Kernel)
    ensures OccursIn(Stanza(t, d, k)) <==> Decides(t, d, k)
  {
    var first, middle, last := DefaultLine(d, k), MiddleLines(t, k), AppendLine(t.config, k.cmdline);
    AppendHides(t.config, k.cmdline);
    OccursInMiddle(t, k);
    OccursInDefault(d, k);
    OccursInBoth(first, middle);
    OccursInMore(first + middle, last);
    assert Stanza(t, d, k) == first + middle + [last];
  }

  lemma OccursInDefault(d: Option<Kernel>, k: Kernel)
    ensures OccursIn(DefaultLine(d, k)) <==> IsChosen(d, k)
  {
    if IsChosen(d, k) {
      var line := DEFAULT + k.bpath;
      assert line[..8] == DEFAULT && OccursAt(line, DEFAULT, 0) && line in DefaultLine(d, k);
    }
  }

  lemma TimeoutClean(t: Site, d: Option<Kernel>)
    ensures !OccursIn(TimeoutLines(t, d))
  {
    ShortLiteral("TIMEOUT ");
    NoSpaceNoOccurrence("100");
    Labelled("TIMEOUT ", "100");
    assert "TIMEOUT " + "100" == "TIMEOUT 100";
    NoSpaceNoOccurrence(PrintInt(t.config.timeout));
    Labelled("TIMEOUT ", PrintInt(t.config.timeout));
  }

  // ----- what a kernel yields -----

  /** What the reader makes of lines. */
  function ReadLines(lines: seq<string>): Option<string> {
    DefaultFrom(Unlines(lines), 0)
  }

  lemma SomethingRead(lines: seq<string>)
    ensures ReadLines(lines).Some? <==> OccursIn(lines)
  {
    OccursInText(lines);
    ReadsFirst(Unlines(lines), 0);
  }

  lemma NothingRead(lines: seq<string>)
    requires !OccursIn(lines)
    ensures ReadLines(lines) == None
  {
    SomethingRead(lines);
  }

  /** What the reader makes of a kernel's lines. */
  function Yield(t: Site, d: Option<Kernel>, k: Kernel): Option<string> {
    ReadLines(Stanza(t, d, k))
  }

  lemma YieldsWhen(t: Site, d: Option<Kernel>, k: Kernel)
    ensures Yield(t, d, k).Some? <==> Decides(t, d, k)
  {
    SomethingRead(Stanza(t, d, k));
    OccursInStanza(t, d, k);
  }

  /** A line that begins with "DEFAULT " yields the rest, up to a newline. */
  lemma {:induction false} DefaultReads(path: string, rest: string)
    ensures DefaultFrom(DEFAULT + (path + ['\n'] + rest), 0) == Some(path) <==> '\n' !in path
  {
    var behind := path + ['\n'] + rest;
    var text := DEFAULT + behind;
    assert text[..8] == DEFAULT && text[8..] == behind;
    FindFromIs(text, 0, 0);
    ReadsFirst(text, 0);
    assert forall j | 8 <= j < |text| :: text[j] == behind[j - 8];
    if '\n' !in path {
      IndexFromIs(text, 8, 8 + |path|);
      assert text[8..8 + |path|] == path;
    } else {
      assert '\n' !in Behind(text, 0);
    }
  }

  lemma DefaultGrouped(path: string, rest: string)
    ensures DEFAULT + path + "\n" + rest == DEFAULT + (path + ['\n'] + rest)
  {
  }

  /** The default yields its path unless that has a newline. */
  lemma ChosenYields(t: Site, d: Option<Kernel>, k: Kernel)
    requires IsChosen(d, k)
    ensures Yield(t, d, k) == Some(k.bpath) <==> '\n' !in k.bpath
  {
    var rest := Unlines(AfterDefault(t, k));
    UnlinesConcat(DefaultLine(d, k), AfterDefault(t, k));
    UnlinesOne(DEFAULT + k.bpath);
    DefaultGrouped(k.bpath, rest);
    DefaultReads(k.bpath, rest);
  }

  /** What the reader makes of an APPEND line. */
  function HiddenBy(c: Config, cmdline: string): Option<string> {
    ReadLines([AppendLine(c, cmdline)])
  }

  /** A kernel that is not the default, and whose path and initrds are clean, yields what its APPEND line
      hides. */
  lemma AppendYields(t: Site, d: Option<Kernel>, k: Kernel)
    requires !IsChosen(d, k) && !Occurs(k.bpath, DEFAULT) && !OccursIn(InitrdsOf(t, k))
    ensures Yield(t, d, k) == HiddenBy(t.config, k.cmdline)
  {
    var middle, last := MiddleLines(t, k), AppendLine(t.config, k.cmdline);
    OccursInMiddle(t, k);
    NothingRead(middle);
    LinesReadConcat(middle, [last]);
    assert Stanza(t, d, k) == middle + [last];
  }

  // ----- the round trip -----

  /** The first of the `n` that is there. */
  function FirstSome(paths: seq<Option<string>>, n: nat): Option<string>
    requires n <= |paths|
  {
    if n == 0 then None else if FirstSome(paths, n - 1).Some? then FirstSome(paths, n - 1) else paths[n - 1]
  }

  /** What each kernel's DEFAULT line, if it has one, says. */
  function PathsOf(d: Option<Kernel>, queue: seq<Kernel>): seq<Option<string>> {
    seq(|queue|, i requires 0 <= i < |queue| => if IsChosen(d, queue[i]) then Some(queue[i].bpath) else None)
  }

  /** The path of the first kernel in the queue that matches. */
  function ChosenPath(d: Option<Kernel>, queue: seq<Kernel>): Option<string> {
    FirstSome(PathsOf(d, queue), |queue|)
  }

  lemma {:induction false} FirstSomeIsFirst(paths: seq<Option<string>>, n: nat)
    requires n <= |paths|
    ensures FirstSome(paths, n).None? <==> forall j | 0 <= j < n :: paths[j].None?
    ensures forall i | 0 <= i < n && paths[i].Some? && (forall j | 0 <= j < i :: paths[j].None?) ::
              FirstSome(paths, n) == paths[i]
  {
    if n > 0 {
      FirstSomeIsFirst(paths, n - 1);
    }
  }

  /** A kernel matches the default when type, version and the stored release are the same; the first one that does is
      the one meant. */
  lemma ChosenIsFirst(d: Option<Kernel>, queue: seq<Kernel>)
    ensures forall k | k in queue ::
              IsChosen(d, k) <==> d.Some? && k.id.ktype == d.value.id.ktype && k.id.version == d.value.id.version &&
                                  k.release == d.value.release
    ensures ChosenPath(d, queue).None? <==> forall j | 0 <= j < |queue| :: !IsChosen(d, queue[j])
    ensures forall i | 0 <= i < |queue| && IsChosen(d, queue[i]) && (forall j | 0 <= j < i :: !IsChosen(d, queue[j])) ::
              ChosenPath(d, queue) == Some(queue[i].bpath)
  {
    var paths := PathsOf(d, queue);
    FirstSomeIsFirst(paths, |queue|);
    assert forall j | 0 <= j < |queue| :: IsChosen(d, queue[j]) <==> paths[j].Some?;
  }

  function YieldsOf(t: Site, d: Option<Kernel>, queue: seq<Kernel>): seq<Option<string>> {
    seq(|queue|, i requires 0 <= i < |queue| => Yield(t, d, queue[i]))
  }

  /** `read` yields what it yields on the first part that yields anything. */
  ghost predicate Splits(read: seq<string> -> Option<string>) {
    forall a, b :: read(a + b) == if read(a).Some? then read(a) else read(b)
  }

  lemma {:induction false} FlatReads(read: seq<string> -> Option<string>, head: seq<string>,
                                     stanzas: seq<seq<string>>, found: seq<Option<string>>, n: nat)
    requires n <= |stanzas| == |found| && Splits(read) && read(head) == None
    requires forall i | 0 <= i < |stanzas| :: read(stanzas[i]) == found[i]
    ensures read(Flat(head, stanzas, n)) == FirstSome(found, n)
  {
    if n > 0 {
      FlatReads(read, head, stanzas, found, n - 1);
    }
  }

  lemma ReadSplits()
    ensures Splits(ReadLines)
  {
    forall a, b
      ensures ReadLines(a + b) == if ReadLines(a).Some? then ReadLines(a) else ReadLines(b)
    {
      LinesReadConcat(a, b);
    }
  }

  lemma LinesReadConcat(a: seq<string>, b: seq<string>)
    ensures ReadLines(a + b) == if ReadLines(a).Some? then ReadLines(a) else ReadLines(b)
  {
    UnlinesConcat(a, b);
    OccursInText(a);
    ReadsConcat(Unlines(a), Unlines(b));
  }

  /** What is read is what the first kernel yields whose lines yield anything. */
  lemma {:induction false} ConfigReads(t: Site, d: Option<Kernel>, queue: seq<Kernel>)
    ensures DefaultFrom(ConfigText(t, d, queue), 0) == FirstSome(YieldsOf(t, d, queue), |queue|)
  {
    TimeoutClean(t, d);
    NothingRead(TimeoutLines(t, d));
    ReadSplits();
    FlatReads(ReadLines, TimeoutLines(t, d), Stanzas(t, d, queue), YieldsOf(t, d, queue), |queue|);
  }

  ghost predicate DecidesFirst(t: Site, d: Option<Kernel>, queue: seq<Kernel>, i: int)
    requires 0 <= i < |queue|
  {
    Decides(t, d, queue[i]) && forall j | 0 <= j < i :: !Decides(t, d, queue[j])
  }

  /** What the deciding kernel yields is what is found first. */
  lemma {:induction false} FirstDecides(t: Site, d: Option<Kernel>, queue: seq<Kernel>)
    ensures forall i | 0 <= i < |queue| && DecidesFirst(t, d, queue, i) ::
              FirstSome(YieldsOf(t, d, queue), |queue|) == Yield(t, d, queue[i])
    ensures (forall i | 0 <= i < |queue| :: !Decides(t, d, queue[i])) <==>
            FirstSome(YieldsOf(t, d, queue), |queue|) == None
  {
    forall i | 0 <= i < |queue|
      ensures YieldsOf(t, d, queue)[i].Some? <==> Decides(t, d, queue[i])
    {
      YieldsWhen(t, d, queue[i]);
    }
    FirstSomeIsFirst(YieldsOf(t, d, queue), |queue|);
  }

  lemma {:induction false} SomeDecides(t: Site, d: Option<Kernel>, queue: seq<Kernel>, n: nat) returns (i: nat)
    requires n <= |queue|
    ensures i <= n && (i < n ==> DecidesFirst(t, d, queue, i))
    ensures i == n ==> forall j | 0 <= j < n :: !Decides(t, d, queue[j])
  {
    if n == 0 {
      i := 0;
    } else {
      i := SomeDecides(t, d, queue, n - 1);
      if i == n - 1 && !Decides(t, d, queue[i]) {
        i := n;
      }
    }
  }

  /** The kernel whose lines decide is the default, under a path on one line; or it is not, and what its lines
      yield happens to be the right answer. */
  ghost predicate DecidesWell(t: Site, d: Option<Kernel>, queue: seq<Kernel>, k: Kernel) {
    if IsChosen(d, k) then '\n' !in k.bpath else ChosenPath(d, queue) == Yield(t, d, k)
  }

  /** Whatever the fields contain: reading back the file written for a queue yields the path of the first kernel
      that matches the default, or nothing when none does, exactly when the first kernel that decides anything
      decides well. */
  lemma ConfigReadsBack(t: Site, d: Option<Kernel>, queue: seq<Kernel>)
    ensures DefaultFrom(ConfigText(t, d, queue), 0) == ChosenPath(d, queue) <==>
            forall i | 0 <= i < |queue| && DecidesFirst(t, d, queue, i) :: DecidesWell(t, d, queue, queue[i])
  {
    ConfigReads(t, d, queue);
    FirstDecides(t, d, queue);
    ChosenIsFirst(d, queue);
    var i := SomeDecides(t, d, queue, |queue|);
    forall j | 0 <= j < |queue| && DecidesFirst(t, d, queue, j)
      ensures j == i
    {
    }
    if i < |queue| && IsChosen(d, queue[i]) {
      ChosenYields(t, d, queue[i]);
      assert forall j | 0 <= j < i :: !Decides(t, d, queue[j]) && !IsChosen(d, queue[j]);
    }
  }

  /** When no kernel matches, nothing is read back exactly when no field of any kernel gets in the way. */
  lemma UnmatchedReadsBack(t: Site, d: Option<Kernel>, queue: seq<Kernel>)
    requires forall j | 0 <= j < |queue| :: !IsChosen(d, queue[j])
    ensures DefaultFrom(ConfigText(t, d, queue), 0) == None <==>
            forall j | 0 <= j < |queue| :: !Decides(t, d, queue[j])
  {
    ConfigReads(t, d, queue);
    FirstDecides(t, d, queue);
  }

  /** Neither the path, nor an initrd, nor the command line contains "DEFAULT ", and the path has no newline. */
  ghost predicate Legible(t: Site, k: Kernel) {
    && '\n' !in k.bpath
    && !Occurs(k.bpath, DEFAULT) && !OccursIn(InitrdsOf(t, k)) && !Occurs(k.cmdline, DEFAULT)
  }

  /** When only root fields can get in the way, the file is read back exactly when the queue is empty, its first
      kernel is the default, no root field contains "DEFAULT " or ends in "DEFAULT", or what stands behind the
      first kernel's "DEFAULT " happens to be the right answer. */
  lemma FieldsReadBack(t: Site, d: Option<Kernel>, queue: seq<Kernel>)
    requires forall j | 0 <= j < |queue| :: Legible(t, queue[j])
    ensures DefaultFrom(ConfigText(t, d, queue), 0) == ChosenPath(d, queue) <==>
            || queue == [] || IsChosen(d, queue[0]) || CleanArgs(t.config)
            || ChosenPath(d, queue) == HiddenBy(t.config, queue[0].cmdline)
  {
    ConfigReadsBack(t, d, queue);
    if queue != [] && !IsChosen(d, queue[0]) && !CleanArgs(t.config) {
      assert DecidesFirst(t, d, queue, 0);
      AppendYields(t, d, queue[0]);
      assert forall i | 0 <= i < |queue| && DecidesFirst(t, d, queue, i) :: i == 0;
    }
  }

  /** With a keymap called "DEFAULT", and a first kernel that is not the default, the reader takes the end of that
      kernel's line for the default. */
  lemma KeymapHidesDefault(t: Site, d: Option<Kernel>, queue: seq<Kernel>)
    requires queue != [] && !IsChosen(d, queue[0]) && Legible(t, queue[0]) && queue[0].cmdline == ""
    requires t.config.keymap == Some("DEFAULT") && t.config.font == None
    requires CleanField(RootId(t.config)) && CleanOption(t.config.luksUuid) && CleanOption(t.config.btrfsSub)
    ensures DefaultFrom(ConfigText(t, d, queue), 0) == Some("")
  {
    KeymapYields(t.config);
    AppendYields(t, d, queue[0]);
    FirstYields(t, d, queue);
  }

  lemma FirstYields(t: Site, d: Option<Kernel>, queue: seq<Kernel>)
    requires queue != [] && Yield(t, d, queue[0]).Some?
    ensures DefaultFrom(ConfigText(t, d, queue), 0) == Yield(t, d, queue[0])
  {
    ConfigReads(t, d, queue);
    FirstSomeIsFirst(YieldsOf(t, d, queue), |queue|);
    assert YieldsOf(t, d, queue)[0] == Yield(t, d, queue[0]);
  }

  lemma KeymapYields(c: Config)
    requires c.keymap == Some("DEFAULT") && c.font == None && CleanField(RootId(c)) && CleanOption(c.luksUuid)
    requires CleanOption(c.btrfsSub)
    ensures HiddenBy(c, "") == Some("")
  {
    KeymapLine(c);
    LineYields(AppendLine(c, ""));
  }

  lemma LineYields(line: string)
    requires |line| >= 8 && Find(line, DEFAULT) == Some(|line| - 8)
    ensures ReadLines([line]) == Some("")
  {
    var s := line + "\n";
    UnlinesOne(line);
    SameSearch(line, '\n');
    ReadsFirst(s, 0);
    NothingBehind(s, |line| - 8);
  }

  lemma NothingBehind(s: string, i: nat)
    requires i + |DEFAULT| < |s| && s[i + |DEFAULT|] == '\n'
    ensures Behind(s, i) == ""
  {
    IndexFromIs(s, i + |DEFAULT|, i + |DEFAULT|);
  }

  lemma FindAtEnd(a: string)
    requires Closed(a) && !Occurs(a, DEFAULT)
    ensures Find(a + DEFAULT, DEFAULT) == Some(|a|)
  {
    var s := a + DEFAULT;
    assert s[|a|..|a| + 8] == DEFAULT && OccursAt(s, DEFAULT, |a|);
    forall i | OccursAt(s, DEFAULT, i)
      ensures i >= |a|
    {
      OccursInParts(a, DEFAULT, i);
    }
  }

  lemma KeymapLine(c: Config)
    requires c.keymap == Some("DEFAULT") && c.font == None && CleanField(RootId(c)) && CleanOption(c.luksUuid)
    requires CleanOption(c.btrfsSub)
    ensures var line := AppendLine(c, ""); Find(line, DEFAULT) == Some(|line| - 8)
  {
    var front := FrontArgs(c);
    FrontArgsClean(c);
    NoSpaceNoOccurrence("APPEND ");
    NoSpaceNoOccurrence("rd.vconsole.keymap=");
    OccursInThree("APPEND ", front, "rd.vconsole.keymap=");
    FindAtEnd("APPEND " + front + "rd.vconsole.keymap=");
    KeymapLineIs(c);
  }

  lemma KeymapLineIs(c: Config)
    requires c.keymap == Some("DEFAULT") && c.font == None
    ensures AppendLine(c, "") == "APPEND " + FrontArgs(c) + "rd.vconsole.keymap=" + DEFAULT
  {
    var front := FrontArgs(c);
    assert "rd.vconsole.keymap=" + "DEFAULT" + " " == "rd.vconsole.keymap=" + DEFAULT;
    assert RootArgs(c) == front + ("rd.vconsole.keymap=" + DEFAULT) + "";
  }

  // ----- the writer and the reader -----

  lemma AddName(paths: string, listed: seq<string>, name: string) returns (longer: seq<string>)
    requires paths == Commas(listed) + ("," + name)
    ensures longer == listed + [name] && paths == Commas(longer)
  {
    longer := listed + [name];
    assert longer[..|longer| - 1] == listed;
  }

  /** The list of initrds, each behind a comma. */
  method ComposeInitrds(t: Site, own: Option<string>) returns (paths: string)
    ensures paths == Commas(EntryInitrds(t.overlay, t.keys, t.ucode, own, []))
  {
    paths := "";
    ghost var listed: seq<string> := [];
    if t.ucode.Some? {
      paths := paths + ("," + t.ucode.value);
      listed := AddName(paths, listed, t.ucode.value);
    }
    if own.Some? {
      paths := paths + ("," + own.value);
      listed := AddName(paths, listed, own.value);
    }
    ghost var head := listed;
    for i := 0 to |t.keys|
      invariant paths == Commas(listed)
      invariant KeysFrom(listed, t.overlay, t.keys, i, t.ucode) == KeysFrom(head, t.overlay, t.keys, 0, t.ucode)
    {
      if IsUnmasked(t.overlay, t.keys[i]) && t.ucode != Some(t.keys[i]) {
        paths := paths + ("," + t.keys[i]);
        listed := AddName(paths, listed, t.keys[i]);
      }
    }
    KeysFromIs(head, t.overlay, t.keys, 0, t.ucode);
    assert t.keys[0..] == t.keys && head == OptSeq(t.ucode) + OptSeq(own);
    Grouped(OptSeq(t.ucode), OptSeq(own), [], Unmasked(t.overlay, t.keys, t.ucode));
    assert head + [] == head;
  }

  lemma UnlinesTwo(b: string, c: string)
    ensures Unlines([b, c]) == (b + "\n") + (c + "\n")
  {
    UnlinesOne(b);
    UnlinesMore([b], c);
    assert [b] + [c] == [b, c];
  }

  lemma Regroup(a: string, b: string, c: string, d: string, e: string)
    ensures a + ((b + c) + (d + e)) == a + b + c + d + e
  {
  }

  lemma {:induction false} UnlinesFour(a: seq<string>, b: string, c: string, d: seq<string>, e: string)
    ensures Unlines(a + ([b, c] + (d + [e]))) == Unlines(a) + (b + "\n") + (c + "\n") + Unlines(d) + (e + "\n")
  {
    UnlinesTwo(b, c);
    UnlinesMore(d, e);
    UnlinesConcat([b, c], d + [e]);
    UnlinesConcat(a, [b, c] + (d + [e]));
    Regroup(Unlines(a), b + "\n", c + "\n", Unlines(d), e + "\n");
  }

  method ComposeInitrdLine(t: Site, k: Kernel) returns (text: string)
    ensures text == Unlines(InitrdList(t, k))
  {
    text := "";
    var initrds := ComposeInitrds(t, TargetInitrd(t.build, k));
    if initrds != "" {
      text := "  INITRD " + initrds[1..] + "\n";
      UnlinesOne("  INITRD " + initrds[1..]);
    }
  }

  method ComposeDefaultLine(d: Option<Kernel>, k: Kernel) returns (text: string)
    ensures text == Unlines(DefaultLine(d, k))
  {
    text := "";
    if IsChosen(d, k) {
      text := DEFAULT + k.bpath + "\n";
      UnlinesOne(DEFAULT + k.bpath);
    }
  }

  /** One turn of the writer's loop over the queue. */
  method ComposeStanza(t: Site, d: Option<Kernel>, k: Kernel) returns (text: string)
    ensures text == Unlines(Stanza(t, d, k))
  {
    var first := ComposeDefaultLine(d, k);
    var initrds := ComposeInitrdLine(t, k);
    var name, kernel, append := "LABEL " + k.bpath, "  KERNEL " + k.bpath, AppendLine(t.config, k.cmdline);
    text := first + (name + "\n") + (kernel + "\n") + initrds + (append + "\n");
    UnlinesFour(DefaultLine(d, k), name, kernel, InitrdList(t, k), append);
  }

  method ComposeConfig(t: Site, d: Option<Kernel>, queue: seq<Kernel>) returns (text: string)
    ensures text == ConfigText(t, d, queue)
  {
    text := "";
    if d.None? {
      text := "TIMEOUT 100\n";
      UnlinesOne("TIMEOUT 100");
    } else if t.config.timeout > 0 {
      text := "TIMEOUT " + PrintInt(t.config.timeout) + "\n";
      UnlinesOne("TIMEOUT " + PrintInt(t.config.timeout));
    }
    ghost var head, stanzas := TimeoutLines(t, d), Stanzas(t, d, queue);
    for i := 0 to |queue|
      invariant text == Unlines(Flat(head, stanzas, i))
    {
      var more := ComposeStanza(t, d, queue[i]);
      UnlinesConcat(Flat(head, stanzas, i), stanzas[i]);
      text := text + more;
    }
  }

  predicate DistinctPaths(queue: seq<Kernel>) {
    forall i, j | 0 <= i < j < |queue| :: queue[i].bpath != queue[j].bpath
  }

  const SYSLINUX_CFG: Path := Path(EspRoot, "syslinux.cfg")

  class Context {
    const disk: Disk
    var queue: seq<Kernel>

    constructor (disk: Disk, queue: seq<Kernel>)
      ensures this.disk == disk && this.queue == queue
    {
      this.disk := disk;
      this.queue := queue;
    }

    /** syslinux_common_install_kernel: a source path is queued once. */
    method InstallKernel(k: Kernel)
      modifies this
      ensures queue == if exists i :: 0 <= i < |old(queue)| && old(queue)[i].bpath == k.bpath then old(queue)
                       else old(queue) + [k]
      ensures old(DistinctPaths(queue)) ==> DistinctPaths(queue)
    {
      for i := 0 to |queue|
        invariant forall j | 0 <= j < i :: queue[j].bpath != k.bpath
        invariant queue == old(queue)
      {
        if queue[i].bpath == k.bpath {
          return;
        }
      }
      queue := queue + [k];
    }

    /** syslinux_common_set_default_kernel */
    method SetDefaultKernel(t: Site, d: Option<Kernel>) returns (ok: bool)
      requires disk.Valid()
      modifies disk
      ensures disk.Valid() && Evolves(old(disk.history), disk.history, iset{SYSLINUX_CFG})
      ensures ok ==> SYSLINUX_CFG in disk.files && disk.files[SYSLINUX_CFG] == ConfigText(t, d, queue)
      ensures disk.faults == old(disk.faults) ==> ok
    {
      var text := ComposeConfig(t, d, queue);
      if SYSLINUX_CFG in disk.files && disk.files[SYSLINUX_CFG] == text {
        return true;
      }
      ok := disk.FileSetText(SYSLINUX_CFG, text);
    }

    /** syslinux_common_get_default_kernel */
    method GetDefaultKernel() returns (r: Option<string>)
      ensures r == if SYSLINUX_CFG in disk.files then DefaultFrom(disk.files[SYSLINUX_CFG], 0) else None
    {
      if SYSLINUX_CFG !in disk.files {
        return None;
      }
      var text := disk.files[SYSLINUX_CFG];
      var pos := 0;
      while pos < |text|
        invariant pos <= |text| && DefaultFrom(text, pos) == DefaultFrom(text, 0)
      {
        var next := LineEnd(text, pos);
        var line := text[pos..next];
        var tk := Find(line, DEFAULT);
        if tk.Some? {
          return Some(Chomp(line[tk.value + |DEFAULT|..]));
        }
        pos := next;
      }
      return None;
    }

    /** Written and read back: the queued kernel the default was set to. */
    method SetAndGet(t: Site, d: Option<Kernel>) returns (ok: bool, r: Option<string>)
      requires disk.Valid()
      modifies disk
      ensures disk.Valid() && (disk.faults == old(disk.faults) ==> ok)
      ensures ok ==> (r == ChosenPath(d, queue) <==>
                      forall i | 0 <= i < |queue| && DecidesFirst(t, d, queue, i) ::
                        DecidesWell(t, d, queue, queue[i]))
    {
      ok := SetDefaultKernel(t, d);
      r := GetDefaultKernel();
      ConfigReadsBack(t, d, queue);
    }
  }
}
