/** What is found of a kernel and how its command line comes about, said of files and words. */
module KernelLaws {
  import opened Text
  import opened Disks
  import opened Names
  import opened Util
  import opened WordList
  import opened CommandLine
  import opened CmdlineLaws
  import opened Kernels

  // ----- the command line -----

  /** The kernel's own command line, a space and the global one. */
  function Merged(s: Settings, text: string): string {
    FullCmdline(s.(removals := []), text)
  }

  /** The removals apply to the merged command line, one file after the other. */
  lemma RemovedAfterMerging(s: Settings, text: string)
    ensures FullCmdline(s, text) == RemovedFiles(Merged(s, text), s.removals)
    ensures Merged(s, text) ==
            match s.globalCmdline case None => Parsed(text) case Some(rest) => Parsed(text) + " " + rest
  {
  }

  lemma {:induction false} StrippedWords(t: string)
    ensures Words(RStripped(t)) == Words(t)
  {
    var q := SplitEnd(t);
    OnlySpaces(q);
    WordsConcat(RStripped(t), q);
  }

  /** With one removal file of one clean line, wherever the line first matches, in the kernel's own command line or in
      the global one: exactly the words of the line go, if and only if the match starts a word. */
  lemma {:induction false} OneRemovalTakes(s: Settings, text: string, line: string, before: string, after: string)
    requires s.removals == [Some(line)] && Clean(line)
    requires RStripped(Merged(s, text)) == before + line + after && CutsBetween(before, line, after)
    ensures FullCmdline(s, text) == before + if after == "" then "" else after[1..]
    ensures && Words(Merged(s, text)) == Words(before) + Words(line) + Words(after)
            && Words(FullCmdline(s, text)) == Words(before) + Words(after)
            <==> Separated(before)
  {
    StrippedWords(Merged(s, text));
    OneRemoval(Merged(s, text), line, before, after);
    RemovalTakesWholeWords(before, line, after);
    RemovedBetween(before, line, after);
  }

  /** A removal reaches the global command line: of "quiet" and a global "splash", removing "splash" leaves "quiet". */
  lemma RemovalReachesGlobal(s: Settings)
    requires s.globalCmdline == Some("splash") && s.removals == [Some("splash")]
    ensures FullCmdline(s, "quiet") == "quiet "
  {
    hide *;
    CleanWords();
    CleanParsesToItself("quiet");
    RemovedAfterMerging(s, "quiet");
    assert Merged(s, "quiet") == "quiet" + " " + "splash" == "quiet splash";
    SplashIsFound("quiet splash");
    OneRemovalTakes(s, "quiet", "splash", "quiet ", "");
  }

  lemma CleanWords()
    ensures Clean("quiet") && Clean("splash")
  {
  }

  lemma SplashIsFound(m: string)
    requires m == "quiet splash"
    ensures RStripped(m) == m == "quiet " + "splash" + "" && CutsBetween("quiet ", "splash", "")
  {
    RStrippedIs(m, |m|);
    assert m[..|m|] == m;
    forall j | 0 <= j < 6
      ensures !OccursAt(m, "splash", j)
    {
      assert m[j..j + 6][0] == m[j] != 's';
    }
    assert m[6..6 + 6] == "splash";
    FindIs(m, "splash", 6);
  }

  // ----- what is found -----

  /** A canonical name is that of a kernel exactly when its file is not empty and the kernel has a command line
      file. */
  lemma FoundExactly(s: Settings, f: Files, id: Ident)
    requires Canonical(id)
    ensures (exists k :: k in KernelsOn(s, f) && k.bpath == KernelName(s.build, id)) <==>
            && Path(KernelDir, KernelName(s.build, id)) in f && f[Path(KernelDir, KernelName(s.build, id))] != ""
            && Path(KernelDir, CmdlineName(id)) in f
  {
    var name := KernelName(s.build, id);
    KernelNameReadsBack(s.build, id);
    if Path(KernelDir, name) in f && f[Path(KernelDir, name)] != "" && Path(KernelDir, CmdlineName(id)) in f {
      FoundAs(s, f, name);
    }
    forall k | k in KernelsOn(s, f) && k.bpath == name
      ensures Path(KernelDir, CmdlineName(id)) in f
    {
      FoundIs(s, f, k);
    }
  }

  /** What is recorded of a kernel: its identity is what its name says, its release that number as 16 bits hold it, and
      each flag tells whether a file of its own is there. */
  lemma FoundWith(s: Settings, f: Files, k: Kernel)
    requires k in KernelsOn(s, f)
    ensures ParseKernelName(s.build, k.bpath) == Some(k.id)
    ensures -0x8000 <= k.release < 0x8000 && (k.id.release - k.release) % 0x1_0000 == 0
    ensures Path(KernelDir, CmdlineName(k.id)) in f
    ensures k.cmdline == FullCmdline(s, f[Path(KernelDir, CmdlineName(k.id))])
    ensures k.boots <==> Path(MarkerDir, MarkerName(k.id.(release := k.release))) in f
    ensures k.hasHeaders <==> Path(HeaderDir, HeadersName(k.id)) in f
    ensures k.hasConfig <==> Path(KernelDir, ConfigName(k.id)) in f
    ensures k.hasSystemMap <==> Path(KernelDir, SystemMapName(k.id)) in f
    ensures k.hasVmlinux <==> Path(KernelDir, VmlinuxName(k.id)) in f
    ensures k.hasInitrd <==> Path(KernelDir, InitrdName(s.build, k.id)) in f
    ensures k.hasUserInitrd <==> Path(UserInitrdDir, InitrdName(s.build, k.id)) in f
  {
    hide FullCmdline, ParseKernelName, Int16, Uname, KernelName, ModulesOf;
    FoundIs(s, f, k);
  }

  /** A kernel has the modules of its own name; only without them, those that /usr does not yet hold; only without
      either, those of the older naming. */
  lemma FoundModules(s: Settings, f: Files, k: Kernel)
    requires k in KernelsOn(s, f)
    ensures var own := Path(ModuleDir, Uname(k.id)) in f;
            var before := s.build.usrModules && Path(OldModuleDir, Uname(k.id)) in f;
            var older := Path(ModuleDir, UntypedName(k.id)) in f;
            && (k.modules.Typed? <==> own)
            && (k.modules.TypedBeforeUsr? <==> !own && before)
            && (k.modules.Untyped? <==> !own && !before && older)
            && (k.modules.NoModules? <==> !own && !before && !older)
    ensures ModulePath(k).Some? ==> ModulePath(k).value in f
    ensures ModulePath(k).None? ==> forall p | p in f && p.area == ModuleDir :: p.name != Uname(k.id)
  {
    FoundIs(s, f, k);
  }

  // ----- the running kernel -----

  /** A kernel that the uname names in full is running if there is one; else one of its type and release; and else
      none is known. */
  lemma RunningIs(ks: seq<Kernel>, sys: Option<Ident>)
    ensures var r := RunningOf(ks, sys);
            match sys
            case None => r == None
            case Some(u) =>
              if exists k :: k in ks && k.id.ktype == u.ktype && k.id.version == u.version && k.release == u.release
              then
                && r.Some? && r.value in ks && r.value.id.ktype == u.ktype
                && r.value.id.version == u.version && r.value.release == u.release
              else if exists k :: k in ks && k.id.ktype == u.ktype && k.release == u.release
              then r.Some? && r.value in ks && r.value.id.ktype == u.ktype && r.value.release == u.release
              else r == None
  {
    if sys.Some? {
      FirstIff(ks, IsSystemKernel(sys.value));
      FirstIff(ks, HasTypeAndRelease(sys.value));
      var u := sys.value;
      assert forall k :: IsSystemKernel(u)(k) <==>
                         k.id.ktype == u.ktype && k.id.version == u.version && k.release == u.release;
      assert forall k :: HasTypeAndRelease(u)(k) <==> k.id.ktype == u.ktype && k.release == u.release;
    }
  }

  lemma FirstIff(ks: seq<Kernel>, p: Kernel -> bool)
    ensures First(ks, p).Some? <==> exists k :: k in ks && p(k)
  {
  }
}
