/** What a boot loader finds in the entry of an installed kernel. */
module EntryLaws {
  import opened Text
  import opened Disks
  import opened Names
  import opened WordList
  import opened CmdlineLaws
  import opened TextLines
  import opened Freestanding
  import opened Systemd
  import opened Entries
  import opened Kernels
  import opened Installs

  function InitrdsOf(e: Env, files: Files, k: Kernel): seq<string> {
    EntryInitrds(e.overlay, e.keys, e.ucode, TargetInitrd(e.build, k), ExtraInitrds(e, files, k))
  }

  /** No value the entry holds breaks its line. */
  ghost predicate IsOneLined(e: Env, files: Files, k: Kernel) {
    OneLineEach(EntryLines(e.config, "kernel-" + k.bpath, InitrdsOf(e, files, k), k.cmdline))
  }

  // ----- initrds -----

  lemma {:induction false} LocatedAt(c: Config, names: seq<string>)
    ensures |Located(c, names)| == |names|
    ensures forall i | 0 <= i < |names| :: Located(c, names)[i] == c.kernelDir + "/" + names[i]
  {
    if names != [] {
      LocatedAt(c, names[..|names| - 1]);
    }
  }

  lemma SameName(dir: string, a: string, b: string)
    requires dir + "/" + a == dir + "/" + b
    ensures a == b
  {
    assert a == (dir + "/" + a)[|dir| + 1..] && b == (dir + "/" + b)[|dir| + 1..];
  }

  lemma {:induction false} LocatedIff(c: Config, names: seq<string>, name: string)
    ensures c.kernelDir + "/" + name in Located(c, names) <==> name in names
  {
    LocatedAt(c, names);
    var l := Located(c, names);
    if name in names {
      var i :| 0 <= i < |names| && names[i] == name;
      assert l[i] == c.kernelDir + "/" + name;
    }
    if c.kernelDir + "/" + name in l {
      var i :| 0 <= i < |l| && l[i] == c.kernelDir + "/" + name;
      SameName(c.kernelDir, name, names[i]);
    }
  }

  lemma EntryReads(e: Env, files: Files, k: Kernel)
    requires EntryWritten(e, files, k) && IsOneLined(e, files, k)
    ensures var text := files[EntryPath(e.build, k)];
            && Read(text, "title") == [e.config.osName]
            && Read(text, "linux") == [e.config.kernelDir + "/" + ("kernel-" + k.bpath)]
            && Read(text, "initrd") == Located(e.config, InitrdsOf(e, files, k))
            && Read(text, "options") == [RootArgs(e.config) + k.cmdline]
  {
    hide Read, Located, RootArgs, EntryInitrds, ExtraInitrds;
    EntryIsRead(e.config, "kernel-" + k.bpath, InitrdsOf(e, files, k), k.cmdline);
  }

  /** The entry names the kernel's copy and its command line; first of its initrds is the microcode, if there is one,
      and directly behind it comes the kernel's own, be it the user's or the system's. */
  lemma OwnInitrdIsRead(e: Env, files: Files, k: Kernel)
    requires EntryWritten(e, files, k) && IsOneLined(e, files, k)
    ensures var text, dir := files[EntryPath(e.build, k)], e.config.kernelDir;
            var initrds, first := Read(text, "initrd"), if e.ucode.Some? then 1 else 0;
            && Read(text, "linux") == [dir + "/" + ("kernel-" + k.bpath)]
            && Read(text, "options") == [RootArgs(e.config) + k.cmdline]
            && (e.ucode.Some? ==> initrds != [] && initrds[0] == dir + "/" + e.ucode.value)
            && (k.hasInitrd || k.hasUserInitrd ==>
                  first < |initrds| && initrds[first] == dir + "/" + InitrdName(e.build, k.id))
  {
    hide Read, Located, RootArgs, EntryInitrds, ExtraInitrds, InitrdName;
    EntryReads(e, files, k);
    LocatedAt(e.config, InitrdsOf(e, files, k));
    EntryOrder(e.overlay, e.keys, e.ucode, TargetInitrd(e.build, k), ExtraInitrds(e, files, k));
  }

  /** An initrd of the ESP is named exactly when it is the kernel's own, extends the name of the kernel's own beside a
      system initrd, or is freestanding and not masked. */
  lemma InitrdIsRead(e: Env, files: Files, k: Kernel, name: string)
    requires EntryWritten(e, files, k) && IsOneLined(e, files, k) && Lists(e.keys, e.overlay.Keys)
    requires (forall q :: Lists(e.order(q), q)) && (e.ucode.Some? ==> IsUnmasked(e.overlay, e.ucode.value))
    ensures var own := InitrdName(e.build, k.id);
            e.config.kernelDir + "/" + name in Read(files[EntryPath(e.build, k)], "initrd") <==>
            || ((k.hasInitrd || k.hasUserInitrd) && name == own)
            || (k.hasInitrd && Path(KernelDir, name) in files && HasPrefix(name, own + "."))
            || IsUnmasked(e.overlay, name)
  {
    hide Read, Located, RootArgs, InitrdName;
    EntryReads(e, files, k);
    LocatedIff(e.config, InitrdsOf(e, files, k), name);
    UnmaskedIff(e.overlay, e.keys, e.ucode, name);
    assert name in GlobNames(files, KernelDir, InitrdName(e.build, k.id)) <==>
           Path(KernelDir, name) in files && HasPrefix(name, InitrdName(e.build, k.id) + ".");
  }

  lemma {:induction false} UnmaskedIff(m: Overlay, keys: seq<string>, written: Option<string>, name: string)
    ensures name in Unmasked(m, keys, written) <==> name in keys && IsUnmasked(m, name) && written != Some(name)
  {
    if keys != [] {
      UnmaskedIff(m, keys[1..], written, name);
    }
  }

  // ----- options -----

  /** A value that is one word behind its tag. */
  predicate HasNoBlank(s: string) {
    forall c | c in s :: !IsSpace(c)
  }

  predicate HasNoBlanks(c: Config) {
    && HasNoBlank(c.uuid)
    && forall v | v in [c.partUuid, c.luksUuid, c.btrfsSub, c.keymap, c.font] :: v.Some? ==> HasNoBlank(v.value)
  }

  function Tagged(tag: string, value: Option<string>): seq<string> {
    if value.Some? then [tag + value.value] else []
  }

  lemma {:induction false} WordThen(w: string, rest: string)
    requires w != "" && HasNoBlank(w)
    ensures Words(w + " " + rest) == [w] + Words(rest)
  {
    OneWord(w);
    WordsConcat(w, " " + rest);
    assert w + " " + rest == w + (" " + rest);
    assert (" " + rest)[1..] == rest;
  }

  lemma {:induction false} OptionalThen(tag: string, value: Option<string>, rest: string)
    requires tag != "" && HasNoBlank(tag) && (value.Some? ==> HasNoBlank(value.value))
    ensures Words(Optional(tag, value) + rest) == Tagged(tag, value) + Words(rest)
  {
    hide Words;
    if value.Some? {
      WordThen(tag + value.value, rest);
    } else {
      assert "" + rest == rest;
    }
  }

  lemma {:induction false} RootThen(c: Config, rest: string)
    requires HasNoBlanks(c)
    ensures Words(RootPart(c) + rest) == RootWord(c) + Words(rest)
  {
    hide Words;
    if c.partUuid.Some? {
      assert c.partUuid in [c.partUuid, c.luksUuid, c.btrfsSub, c.keymap, c.font];
      assert RootPart(c) == "root=PARTUUID=" + c.partUuid.value + " ";
      WordThen("root=PARTUUID=" + c.partUuid.value, rest);
    } else {
      assert RootPart(c) == "root=UUID=" + c.uuid + " ";
      WordThen("root=UUID=" + c.uuid, rest);
    }
  }

  function RootWord(c: Config): seq<string> {
    if c.partUuid.Some? then ["root=PARTUUID=" + c.partUuid.value] else ["root=UUID=" + c.uuid]
  }

  lemma Regroup6<T>(a: seq<T>, b: seq<T>, c: seq<T>, d: seq<T>, e: seq<T>, f: seq<T>)
    ensures a + b + c + d + e + f == a + (b + (c + (d + (e + f))))
  {
  }

  /** The words on the line of options: the root by its partition's UUID if that is known, else by its file system's;
      then what is configured of the encryption, the subvolume, the keymap and the font; then the words of the
      kernel's command line. */
  lemma {:induction false} OptionWords(c: Config, cmdline: string)
    requires HasNoBlanks(c)
    ensures Words(RootArgs(c) + cmdline) ==
            (if c.partUuid.Some? then ["root=PARTUUID=" + c.partUuid.value] else ["root=UUID=" + c.uuid])
            + Tagged("rd.luks.uuid=", c.luksUuid) + Tagged("rootflags=subvol=", c.btrfsSub)
            + Tagged("rd.vconsole.keymap=", c.keymap) + Tagged("rd.vconsole.font=", c.font)
            + Words(cmdline)
  {
    hide Words, RootPart, Optional, Tagged;
    var luks, sub := Optional("rd.luks.uuid=", c.luksUuid), Optional("rootflags=subvol=", c.btrfsSub);
    var keymap, font := Optional("rd.vconsole.keymap=", c.keymap), Optional("rd.vconsole.font=", c.font);
    assert forall v | v in [c.partUuid, c.luksUuid, c.btrfsSub, c.keymap, c.font] :: v.Some? ==> HasNoBlank(v.value);
    RootThen(c, luks + (sub + (keymap + (font + cmdline))));
    OptionalThen("rd.luks.uuid=", c.luksUuid, sub + (keymap + (font + cmdline)));
    OptionalThen("rootflags=subvol=", c.btrfsSub, keymap + (font + cmdline));
    OptionalThen("rd.vconsole.keymap=", c.keymap, font + cmdline);
    OptionalThen("rd.vconsole.font=", c.font, cmdline);
    Regroup6(RootPart(c), luks, sub, keymap, font, cmdline);
    Regroup6(RootWord(c), Tagged("rd.luks.uuid=", c.luksUuid), Tagged("rootflags=subvol=", c.btrfsSub),
             Tagged("rd.vconsole.keymap=", c.keymap), Tagged("rd.vconsole.font=", c.font), Words(cmdline));
  }

  // ----- loader.conf -----

  function TimeoutLines(timeout: int): seq<string> {
    if timeout > 0 then ["timeout " + PrintInt(timeout)] else []
  }

  lemma TimeoutIs(c: Config)
    ensures TimeoutLine(c) == Unlines(TimeoutLines(c.timeout)) && OneLineEach(TimeoutLines(c.timeout))
  {
    if c.timeout > 0 {
      UnlinesOne("timeout " + PrintInt(c.timeout));
    }
  }

  lemma ConsoleIs(c: Config)
    ensures ConsoleLine(c) == Unlines(Tagged("console-mode ", c.consoleMode))
  {
    if c.consoleMode.Some? {
      UnlinesOne("console-mode " + c.consoleMode.value);
    }
  }

  /** The lines of loader.conf: the default entry; the timeout if it is positive; the console mode if it is set. */
  lemma LoaderLines(b: Build, c: Config, id: Ident)
    requires '\n' !in EntryName(b, id) && (c.consoleMode.Some? ==> '\n' !in c.consoleMode.value)
    ensures LinesFrom(LoaderText(b, c, id), 0) ==
            ["default " + EntryName(b, id)] + TimeoutLines(c.timeout) + Tagged("console-mode ", c.consoleMode)
  {
    hide LinesFrom, EntryName, TimeoutLine, ConsoleLine, TimeoutLines, Unlines;
    var first, more := ["default " + EntryName(b, id)], TimeoutLines(c.timeout);
    UnlinesOne("default " + EntryName(b, id));
    TimeoutIs(c);
    ConsoleIs(c);
    UnlinesConcat(first, more);
    UnlinesConcat(first + more, Tagged("console-mode ", c.consoleMode));
    UnlinesReadsBack(first + more + Tagged("console-mode ", c.consoleMode));
  }
}
