/** Boot entries as the boot loader reads them: one key and value a line. */
module Entries {
  import opened Text
  import opened Systemd
  import opened TextLines

  /** The values of the lines that carry a key, in order. */
  function ValuesOf(lines: seq<string>, key: string, n: nat): seq<string>
    requires n <= |lines|
  {
    if n == 0 then []
    else
      var before, line := ValuesOf(lines, key, n - 1), lines[n - 1];
      if HasPrefix(line, key + " ") then before + [line[|key| + 1..]] else before
  }

  function Read(text: string, key: string): seq<string> {
    var lines := LinesFrom(text, 0);
    ValuesOf(lines, key, |lines|)
  }

  /** The names as they stand in the entry. */
  function Located(c: Config, names: seq<string>): seq<string> {
    if names == [] then [] else Located(c, names[..|names| - 1]) + [c.kernelDir + "/" + names[|names| - 1]]
  }

  function Keyed(key: string, values: seq<string>): seq<string> {
    if values == [] then [] else Keyed(key, values[..|values| - 1]) + [key + " " + values[|values| - 1]]
  }

  function EntryLines(c: Config, target: string, initrds: seq<string>, cmdline: string): seq<string> {
    ["title " + c.osName, "linux " + (c.kernelDir + "/" + target)]
    + (Keyed("initrd", Located(c, initrds)) + ["options " + (RootArgs(c) + cmdline)])
  }

  lemma {:induction false} InitrdLinesAre(c: Config, names: seq<string>)
    ensures InitrdLines(c, names) == Unlines(Keyed("initrd", Located(c, names)))
  {
    if names != [] {
      var before := names[..|names| - 1];
      var located, value := Located(c, before), c.kernelDir + "/" + names[|names| - 1];
      InitrdLinesAre(c, before);
      assert (located + [value])[..|located|] == located;
      UnlinesMore(Keyed("initrd", located), "initrd " + value);
      assert InitrdLine(c, names[|names| - 1]) == "initrd " + value + "\n";
    }
  }

  lemma TitleIs(c: Config, target: string)
    ensures Title(c, target) == Unlines(["title " + c.osName, "linux " + (c.kernelDir + "/" + target)])
  {
    var a, b := "title " + c.osName, "linux " + (c.kernelDir + "/" + target);
    UnlinesOne(a);
    UnlinesMore([a], b);
    assert [a] + [b] == [a, b];
  }

  lemma Regrouped(title: string, initrds: string, tag: string, args: string, cmdline: string)
    ensures title + initrds + (tag + args) + cmdline + "\n" == title + (initrds + (tag + (args + cmdline) + "\n"))
  {
  }

  /** The entry's text, line by line. */
  lemma EntryTextIs(c: Config, target: string, initrds: seq<string>, cmdline: string)
    ensures EntryText(c, target, initrds, cmdline) == Unlines(EntryLines(c, target, initrds, cmdline))
  {
    var middle, last := Keyed("initrd", Located(c, initrds)), "options " + (RootArgs(c) + cmdline);
    TitleIs(c, target);
    InitrdLinesAre(c, initrds);
    UnlinesMore(middle, last);
    UnlinesConcat(["title " + c.osName, "linux " + (c.kernelDir + "/" + target)], middle + [last]);
    Regrouped(Title(c, target), InitrdLines(c, initrds), "options ", RootArgs(c), cmdline);
  }

  // ----- reading -----

  lemma {:induction false} ValuesConcat(a: seq<string>, b: seq<string>, key: string, n: nat)
    requires n <= |b|
    ensures ValuesOf(a + b, key, |a| + n) == ValuesOf(a, key, |a|) + ValuesOf(b, key, n)
  {
    if n > 0 {
      ValuesConcat(a, b, key, n - 1);
      assert (a + b)[|a| + n - 1] == b[n - 1];
    } else {
      ValuesPrefix(a, b, key, |a|);
    }
  }

  lemma {:induction false} ValuesPrefix(a: seq<string>, b: seq<string>, key: string, n: nat)
    requires n <= |a|
    ensures ValuesOf(a + b, key, n) == ValuesOf(a, key, n)
  {
    if n > 0 {
      ValuesPrefix(a, b, key, n - 1);
    }
  }

  lemma KeyMatches(key: string, value: string)
    ensures HasPrefix(key + " " + value, key + " ") && (key + " " + value)[|key| + 1..] == value
  {
  }

  lemma {:induction false} KeyedRead(key: string, values: seq<string>)
    ensures ValuesOf(Keyed(key, values), key, |Keyed(key, values)|) == values
  {
    if values != [] {
      var before, value := values[..|values| - 1], values[|values| - 1];
      var lines := Keyed(key, before);
      KeyedRead(key, before);
      KeyMatches(key, value);
      ValuesPrefix(lines, [key + " " + value], key, |lines|);
    }
  }

  /** The two keys differ where both have a character. */
  ghost predicate Differ(k: string, l: string) {
    Diverge(k + " ", l + " ")
  }

  lemma OtherKey(key: string, other: string, value: string)
    requires Differ(key, other)
    ensures !HasPrefix(other + " " + value, key + " ")
  {
    var k, l, s := key + " ", other + " ", other + " " + value;
    var i :| 0 <= i < |k| && i < |l| && k[i] != l[i];
    assert s[i] == l[i];
    assert |k| <= |s| ==> s[..|k|][i] == s[i];
  }

  lemma {:induction false} OthersRead(key: string, other: string, values: seq<string>)
    requires Differ(key, other)
    ensures ValuesOf(Keyed(other, values), key, |Keyed(other, values)|) == []
  {
    if values != [] {
      var before, value := values[..|values| - 1], values[|values| - 1];
      var lines := Keyed(other, before);
      OthersRead(key, other, before);
      OtherKey(key, other, value);
      ValuesPrefix(lines, [other + " " + value], key, |lines|);
    }
  }

  lemma LineKeysDiffer(k: string, l: string)
    requires k in {"title", "linux", "initrd", "options"} && l in {"title", "linux", "initrd", "options"}
    ensures k == l || Differ(k, l)
  {
    if k != l {
      assert k[0] != l[0];
      assert (k + " ")[0] != (l + " ")[0];
    }
  }

  /** One line of one key. */
  function OnlyIf(yes: bool, value: string): seq<string> {
    if yes then [value] else []
  }

  lemma {:induction false} OneRead(key: string, other: string, value: string)
    requires key == other || Differ(key, other)
    ensures ValuesOf([other + " " + value], key, 1) == OnlyIf(key == other, value)
  {
    if key == other {
      KeyMatches(key, value);
      assert ValuesOf([other + " " + value], key, 0) == [];
    } else {
      OtherKey(key, other, value);
    }
  }

  lemma {:induction false} ManyRead(key: string, other: string, values: seq<string>)
    requires key == other || Differ(key, other)
    ensures ValuesOf(Keyed(other, values), key, |Keyed(other, values)|) == if key == other then values else []
  {
    if key == other {
      KeyedRead(key, values);
    } else {
      OthersRead(key, other, values);
    }
  }

  lemma {:induction false} HeadRead(key: string, title: string, linux: string)
    requires key in {"title", "linux", "initrd", "options"}
    ensures ValuesOf(["title " + title, "linux " + linux], key, 2) ==
            OnlyIf(key == "title", title) + OnlyIf(key == "linux", linux)
  {
    var a, b := ["title " + title], ["linux " + linux];
    LineKeysDiffer(key, "title");
    LineKeysDiffer(key, "linux");
    OneRead(key, "title", title);
    OneRead(key, "linux", linux);
    ValuesConcat(a, b, key, 1);
    assert a + b == ["title " + title, "linux " + linux];
  }

  lemma {:induction false} TailRead(key: string, initrds: seq<string>, options: string)
    requires key in {"title", "linux", "initrd", "options"}
    ensures var lines := Keyed("initrd", initrds) + ["options " + options];
            ValuesOf(lines, key, |lines|) ==
              (if key == "initrd" then initrds else []) + OnlyIf(key == "options", options)
  {
    LineKeysDiffer(key, "initrd");
    LineKeysDiffer(key, "options");
    ManyRead(key, "initrd", initrds);
    OneRead(key, "options", options);
    ValuesConcat(Keyed("initrd", initrds), ["options " + options], key, 1);
  }

  /** What a key yields on lines made of four parts. */
  lemma {:induction false} FourParts(key: string, title: string, linux: string, initrds: seq<string>, options: string)
    requires key in {"title", "linux", "initrd", "options"}
    ensures var lines := ["title " + title, "linux " + linux] + (Keyed("initrd", initrds) + ["options " + options]);
            ValuesOf(lines, key, |lines|)
            == OnlyIf(key == "title", title) + OnlyIf(key == "linux", linux)
               + ((if key == "initrd" then initrds else []) + OnlyIf(key == "options", options))
  {
    var head, tail := ["title " + title, "linux " + linux], Keyed("initrd", initrds) + ["options " + options];
    HeadRead(key, title, linux);
    TailRead(key, initrds, options);
    ValuesConcat(head, tail, key, |tail|);
  }

  /** A loader that reads the entry finds one title, one kernel, the installed one, the initrds in the order
      given and no other, and one line of options that ends in the command line. */
  lemma {:induction false} EntryIsRead(c: Config, target: string, initrds: seq<string>, cmdline: string)
    requires OneLineEach(EntryLines(c, target, initrds, cmdline))
    ensures var text := EntryText(c, target, initrds, cmdline);
            && Read(text, "title") == [c.osName]
            && Read(text, "linux") == [c.kernelDir + "/" + target]
            && Read(text, "initrd") == Located(c, initrds)
            && Read(text, "options") == [RootArgs(c) + cmdline]
  {
    var lines, text := EntryLines(c, target, initrds, cmdline), EntryText(c, target, initrds, cmdline);
    EntryTextIs(c, target, initrds, cmdline);
    UnlinesReadsBack(lines);
    FourParts("title", c.osName, c.kernelDir + "/" + target, Located(c, initrds), RootArgs(c) + cmdline);
    FourParts("linux", c.osName, c.kernelDir + "/" + target, Located(c, initrds), RootArgs(c) + cmdline);
    FourParts("initrd", c.osName, c.kernelDir + "/" + target, Located(c, initrds), RootArgs(c) + cmdline);
    FourParts("options", c.osName, c.kernelDir + "/" + target, Located(c, initrds), RootArgs(c) + cmdline);
  }
}
