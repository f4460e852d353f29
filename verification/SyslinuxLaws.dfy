/** The lines of syslinux.cfg: what stands in the stanza of a kernel, and the list of its initrds. */
module SyslinuxLaws {
  import opened Text
  import opened Names
  import opened Freestanding
  import opened Systemd
  import opened TextLines
  import opened Entries
  import opened Kernels
  import opened Installs
  import opened Syslinux

  // ----- a list behind commas -----

  /** The pieces between commas. */
  function Pieces(s: string): seq<string>
    decreases |s|
  {
    var i := IndexOf(s, ',');
    if i == |s| then [s] else [s[..i]] + Pieces(s[i + 1..])
  }

  lemma {:induction false} CommasFront(names: seq<string>)
    requires names != []
    ensures Commas(names) == "," + names[0] + Commas(names[1..])
  {
    var n := |names| - 1;
    if n == 0 {
      assert Commas(names[..0]) == "" && Commas(names[1..]) == "";
    } else {
      CommasFront(names[..n]);
      assert names[1..][..n - 1] == names[..n][1..];
      assert "," + names[0] + Commas(names[1..][..n - 1]) + ("," + names[n])
             == "," + names[0] + (Commas(names[1..][..n - 1]) + ("," + names[n]));
    }
  }

  lemma {:induction false} LastPiece(a: string)
    requires ',' !in a
    ensures Pieces(a) == [a]
  {
  }

  lemma {:induction false} FirstPiece(a: string, b: string)
    requires ',' !in a
    ensures Pieces(a + "," + b) == [a] + Pieces(b)
  {
    var s := a + "," + b;
    IndexOfIs(a, ',', b);
    assert s[..|a|] == a && s[|a| + 1..] == b;
  }

  /** A list of names without commas is read back from what is written of it. */
  lemma {:induction false} PiecesReadBack(names: seq<string>)
    requires names != [] && forall n | n in names :: ',' !in n
    ensures Commas(names) != "" && Pieces(Commas(names)[1..]) == names
  {
    hide Pieces, Commas;
    var a, rest := names[0], names[1..];
    CommasFront(names);
    assert Commas(names)[1..] == a + Commas(rest);
    if rest == [] {
      NoCommas();
      assert a + "" == a;
      LastPiece(a);
    } else {
      PiecesReadBack(rest);
      CommasStart(rest);
      assert a + Commas(rest) == a + "," + Commas(rest)[1..];
      FirstPiece(a, Commas(rest)[1..]);
    }
  }

  lemma NoCommas()
    ensures Commas([]) == ""
  {
  }

  // ----- a stanza -----

  /** The lines from `p` on are the stanza of the kernel: its label and its image, which are one path; one line of
      initrds unless there are none; and the line of options. In front of it stands the default line if it is the
      default. */
  ghost predicate IsStanza(t: Site, d: Option<Kernel>, k: Kernel, lines: seq<string>, p: nat) {
    var initrds := Syslinux.InitrdsOf(t, k);
    var last := if initrds == [] then p + 2 else p + 3;
    && last < |lines|
    && (IsChosen(d, k) ==> p > 0 && lines[p - 1] == "DEFAULT " + k.bpath)
    && lines[p] == "LABEL " + k.bpath
    && lines[p + 1] == "  KERNEL " + k.bpath
    && (initrds != [] ==> HasPrefix(lines[p + 2], "  INITRD ") && Pieces(lines[p + 2][9..]) == initrds)
    && lines[last] == "APPEND " + (RootArgs(t.config) + k.cmdline)
  }

  ghost predicate HasPlainInitrds(t: Site, k: Kernel) {
    forall n | n in Syslinux.InitrdsOf(t, k) :: ',' !in n
  }

  lemma InitrdListIs(t: Site, k: Kernel)
    requires HasPlainInitrds(t, k)
    ensures var initrds := Syslinux.InitrdsOf(t, k);
            if initrds == [] then InitrdList(t, k) == []
            else
              && |InitrdList(t, k)| == 1 && HasPrefix(InitrdList(t, k)[0], "  INITRD ")
              && Pieces(InitrdList(t, k)[0][9..]) == initrds
  {
    var initrds := Syslinux.InitrdsOf(t, k);
    if initrds == [] {
      NoCommas();
    } else {
      PiecesReadBack(initrds);
      Tagged("  INITRD ", Commas(initrds)[1..]);
    }
  }

  lemma Tagged(tag: string, value: string)
    ensures HasPrefix(tag + value, tag) && (tag + value)[|tag|..] == value
  {
  }

  lemma StanzaParts(t: Site, d: Option<Kernel>, k: Kernel)
    requires HasPlainInitrds(t, k)
    ensures IsStanza(t, d, k, Stanza(t, d, k), |DefaultLine(d, k)|)
  {
    hide Syslinux.InitrdsOf, RootArgs, Pieces, InitrdList;
    InitrdListIs(t, k);
    assert AppendLine(t.config, k.cmdline) == "APPEND " + (RootArgs(t.config) + k.cmdline);
  }

  lemma {:induction false} FlatAt(head: seq<string>, stanzas: seq<seq<string>>, n: nat, i: nat) returns (p: nat)
    requires i < n <= |stanzas|
    ensures p + |stanzas[i]| <= |Flat(head, stanzas, n)|
    ensures forall j | 0 <= j < |stanzas[i]| :: Flat(head, stanzas, n)[p + j] == stanzas[i][j]
  {
    if i == n - 1 {
      p := |Flat(head, stanzas, n - 1)|;
    } else {
      p := FlatAt(head, stanzas, n - 1, i);
    }
  }

  lemma StanzaMoved(t: Site, d: Option<Kernel>, k: Kernel, stanza: seq<string>, q: nat, lines: seq<string>, p: nat)
    requires IsStanza(t, d, k, stanza, q) && p + |stanza| <= |lines|
    requires forall j | 0 <= j < |stanza| :: lines[p + j] == stanza[j]
    ensures IsStanza(t, d, k, lines, p + q)
  {
    hide Syslinux.InitrdsOf, RootArgs, Pieces;
    assert lines[p + q] == stanza[q] && lines[p + (q + 1)] == stanza[q + 1] && lines[p + (q + 2)] == stanza[q + 2];
    assert q > 0 ==> lines[p + (q - 1)] == stanza[q - 1];
    assert q + 3 < |stanza| ==> lines[p + (q + 3)] == stanza[q + 3];
  }

  /** Whoever reads the file line by line finds the stanza of every queued kernel. */
  lemma StanzaIsRead(t: Site, d: Option<Kernel>, queue: seq<Kernel>, i: nat) returns (p: nat)
    requires i < |queue| && OneLineEach(Lines(t, d, queue)) && HasPlainInitrds(t, queue[i])
    ensures IsStanza(t, d, queue[i], LinesFrom(ConfigText(t, d, queue), 0), p)
  {
    hide Syslinux.InitrdsOf, RootArgs, Pieces, LinesFrom;
    var stanzas := Stanzas(t, d, queue);
    UnlinesReadsBack(Lines(t, d, queue));
    StanzaParts(t, d, queue[i]);
    var q := FlatAt(TimeoutLines(t, d), stanzas, |queue|, i);
    StanzaMoved(t, d, queue[i], stanzas[i], |DefaultLine(d, queue[i])|, Lines(t, d, queue), q);
    p := q + |DefaultLine(d, queue[i])|;
  }

  /** The list of initrds starts with the microcode, if there is one; directly behind it comes the kernel's own, be it
      the user's or the system's; behind that come unmasked freestanding ones, each once, and no other. */
  lemma InitrdsAre(t: Site, k: Kernel)
    requires t.ucode.Some? ==> IsUnmasked(t.overlay, t.ucode.value)
    ensures var all, first := Syslinux.InitrdsOf(t, k), if t.ucode.Some? then 1 else 0;
            && (t.ucode.Some? ==> all != [] && all[0] == t.ucode.value)
            && (k.hasInitrd || k.hasUserInitrd ==> first < |all| && all[first] == InitrdName(t.build, k.id))
            && (forall j | 0 <= j < |all| && all[j] != InitrdName(t.build, k.id) :: IsUnmasked(t.overlay, all[j]))
  {
    EntryOrder(t.overlay, t.keys, t.ucode, TargetInitrd(t.build, k), []);
  }

  // ----- the whole file -----

  lemma {:induction false} NoneRead(lines: seq<string>, key: string, n: nat)
    requires n <= |lines| && forall j | 0 <= j < n :: !HasPrefix(lines[j], key + " ")
    ensures ValuesOf(lines, key, n) == []
  {
    if n > 0 {
      NoneRead(lines, key, n - 1);
    }
  }

  lemma NotLabel(line: string)
    requires line != "" && line[0] != 'L'
    ensures !HasPrefix(line, "LABEL" + " ")
  {
    if |line| >= 6 {
      assert line[..6][0] == line[0];
    }
  }

  lemma StanzaLabel(t: Site, d: Option<Kernel>, k: Kernel)
    ensures ValuesOf(Stanza(t, d, k), "LABEL", |Stanza(t, d, k)|) == [k.bpath]
  {
    hide ValuesOf;
    var first, rest := DefaultLine(d, k), BehindLabel(t, k);
    assert Stanza(t, d, k) == first + (["LABEL " + k.bpath] + rest);
    OthersOnly(first);
    OthersOnly(rest);
    AroundLabel(first, k.bpath, rest);
  }

  function BehindLabel(t: Site, k: Kernel): (r: seq<string>)
    ensures forall j | 0 <= j < |r| :: r[j] != "" && r[j][0] != 'L'
  {
    ["  KERNEL " + k.bpath] + (InitrdList(t, k) + [AppendLine(t.config, k.cmdline)])
  }

  lemma {:induction false} AroundLabel(first: seq<string>, path: string, rest: seq<string>)
    requires ValuesOf(first, "LABEL", |first|) == [] && ValuesOf(rest, "LABEL", |rest|) == []
    ensures var lines := first + (["LABEL " + path] + rest); ValuesOf(lines, "LABEL", |lines|) == [path]
  {
    OneRead("LABEL", "LABEL", path);
    assert "LABEL" + " " + path == "LABEL " + path;
    hide ValuesOf;
    ValuesConcat(["LABEL " + path], rest, "LABEL", |rest|);
    ValuesConcat(first, ["LABEL " + path] + rest, "LABEL", 1 + |rest|);
  }

  lemma {:induction false} OthersOnly(lines: seq<string>)
    requires forall j | 0 <= j < |lines| :: lines[j] != "" && lines[j][0] != 'L'
    ensures ValuesOf(lines, "LABEL", |lines|) == []
  {
    forall j | 0 <= j < |lines|
      ensures !HasPrefix(lines[j], "LABEL" + " ")
    {
      NotLabel(lines[j]);
    }
    NoneRead(lines, "LABEL", |lines|);
  }

  lemma {:induction false} FlatLabels(head: seq<string>, stanzas: seq<seq<string>>, paths: seq<string>, n: nat)
    requires n <= |stanzas| == |paths| && ValuesOf(head, "LABEL", |head|) == []
    requires forall i | 0 <= i < |stanzas| :: ValuesOf(stanzas[i], "LABEL", |stanzas[i]|) == [paths[i]]
    ensures ValuesOf(Flat(head, stanzas, n), "LABEL", |Flat(head, stanzas, n)|) == paths[..n]
  {
    hide ValuesOf;
    if n > 0 {
      FlatLabels(head, stanzas, paths, n - 1);
      ValuesConcat(Flat(head, stanzas, n - 1), stanzas[n - 1], "LABEL", |stanzas[n - 1]|);
    }
  }

  /** The labels of the file are the paths of the queued kernels, in order; and the timeout stands first: 100 without a
      default, else the configured one if it is positive. */
  lemma LabelsAreRead(t: Site, d: Option<Kernel>, queue: seq<Kernel>)
    requires OneLineEach(Lines(t, d, queue))
    ensures Read(ConfigText(t, d, queue), "LABEL") == seq(|queue|, i requires 0 <= i < |queue| => queue[i].bpath)
    ensures var lines := LinesFrom(ConfigText(t, d, queue), 0);
            && (d.None? ==> lines != [] && lines[0] == "TIMEOUT 100")
            && (d.Some? && t.config.timeout > 0 ==> lines != [] && lines[0] == "TIMEOUT " + PrintInt(t.config.timeout))
  {
    hide LinesFrom, ValuesOf;
    UnlinesReadsBack(Lines(t, d, queue));
    var paths := seq(|queue|, i requires 0 <= i < |queue| => queue[i].bpath);
    forall i | 0 <= i < |queue|
      ensures ValuesOf(Stanzas(t, d, queue)[i], "LABEL", |Stanzas(t, d, queue)[i]|) == [paths[i]]
    {
      StanzaLabel(t, d, queue[i]);
    }
    OthersOnly(TimeoutLines(t, d));
    FlatLabels(TimeoutLines(t, d), Stanzas(t, d, queue), paths, |queue|);
    assert paths[..|queue|] == paths;
    FlatStarts(TimeoutLines(t, d), Stanzas(t, d, queue), |queue|);
  }

  lemma {:induction false} FlatStarts(head: seq<string>, stanzas: seq<seq<string>>, n: nat)
    requires n <= |stanzas|
    ensures head <= Flat(head, stanzas, n)
  {
    if n > 0 {
      FlatStarts(head, stanzas, n - 1);
    }
  }
}
