/** What parsing, merging and removing mean, said of lines and files instead of the loops. */
module CmdlineLaws {
  import opened Text
  import opened Util
  import opened WordList
  import opened CommandLine

  // ----- every line counts -----

  predicate Blank(s: string) {
    forall c | c in s :: IsSpace(c)
  }

  /** `b` stands in `s` from `n` on. */
  ghost predicate StandsAt(s: string, n: nat, b: string) {
    |s| == n + |b| && forall k | 0 <= k < |b| :: s[n + k] == b[k]
  }

  lemma SameSlice(s: string, n: nat, b: string, lo: nat, hi: nat)
    requires StandsAt(s, n, b) && lo <= hi <= |b|
    ensures s[n + lo..n + hi] == b[lo..hi]
  {
    var x, y := s[n + lo..n + hi], b[lo..hi];
    forall k | 0 <= k < hi - lo
      ensures x[k] == y[k]
    {
      assert s[n + (lo + k)] == b[lo + k];
    }
  }

  lemma {:induction false} NewlineIs(s: string, from: nat, e: nat)
    requires from <= e <= |s| && (forall j | from <= j < e :: s[j] != '\n') && (e < |s| ==> s[e] == '\n')
    ensures IndexFrom(s, '\n', from) == e
  {
  }

  lemma EndShifts(s: string, n: nat, b: string, i: nat)
    requires StandsAt(s, n, b) && i < |b|
    ensures LineEnd(s, n + i) == n + LineEnd(b, i)
  {
    var e := IndexFrom(b, '\n', i);
    forall j | n + i <= j < n + e
      ensures s[j] != '\n'
    {
      assert s[n + (j - n)] == b[j - n];
    }
    assert e < |b| ==> s[n + e] == b[e];
    NewlineIs(s, n + i, n + e);
  }

  lemma SameText(s: string, i: nat, t: string, j: nat)
    requires i < |s| && j < |t| && Chomp(s[i..LineEnd(s, i)]) == Chomp(t[j..LineEnd(t, j)])
    ensures TextAt(s, i) == TextAt(t, j)
  {
  }

  lemma ShiftedLine(s: string, n: nat, b: string, i: nat)
    requires StandsAt(s, n, b) && i < |b|
    ensures LineEnd(s, n + i) == n + LineEnd(b, i) && TextAt(s, n + i) == TextAt(b, i)
  {
    EndShifts(s, n, b, i);
    SameSlice(s, n, b, i, LineEnd(b, i));
    SameText(s, n + i, b, i);
  }

  /** One turn of the line loop. */
  lemma {:induction false} UsefulStep(s: string, i: nat)
    requires i < |s|
    ensures UsefulLines(s, i) == OptLine(TextAt(s, i)) + UsefulLines(s, LineEnd(s, i))
  {
    assert [] + UsefulLines(s, LineEnd(s, i)) == UsefulLines(s, LineEnd(s, i));
  }

  function OptLine(t: Option<string>): seq<string> {
    if t.Some? then [t.value] else []
  }

  lemma {:induction false} UsefulShift(s: string, n: nat, b: string, i: nat)
    requires StandsAt(s, n, b) && i <= |b|
    ensures UsefulLines(s, n + i) == UsefulLines(b, i)
    decreases |b| - i
  {
    hide UsefulLines, TextAt;
    if i == |b| {
      NoMore(s);
      NoMore(b);
    } else {
      ShiftedLine(s, n, b, i);
      UsefulStep(s, n + i);
      UsefulStep(b, i);
      UsefulShift(s, n, b, LineEnd(b, i));
    }
  }

  lemma {:induction false} NoMore(s: string)
    ensures UsefulLines(s, |s|) == []
  {
  }

  /** `s` begins with `a` and a newline. */
  ghost predicate Begins(s: string, a: string) {
    |a| < |s| && s[|a|] == '\n' && forall k | 0 <= k < |a| :: s[k] == a[k]
  }

  /** The lines of a text that begins with `a` and a newline are those of `a`, and then the others. */
  lemma {:induction false} UsefulSplit(s: string, a: string, i: nat)
    requires Begins(s, a) && i <= |a|
    ensures UsefulLines(s, i) == UsefulLines(a, i) + UsefulLines(s, |a| + 1)
    decreases |a| - i
  {
    hide UsefulLines, TextAt;
    if i == |a| {
      SplitEmpty(s, a);
    } else {
      var last := NextLine(s, a, i);
      if last {
        OneMore(s, a, i);
      } else {
        UsefulSplit(s, a, LineEnd(a, i));
        SplitInner(s, a, i, UsefulLines(s, |a| + 1));
      }
    }
  }

  /** The two texts have the same next line; only in `s` it ends in a newline if it is the last of `a`. */
  lemma NextLine(s: string, a: string, i: nat) returns (last: bool)
    requires Begins(s, a) && i < |a|
    ensures TextAt(s, i) == TextAt(a, i)
    ensures if last then LineEnd(s, i) == |a| + 1 && LineEnd(a, i) == |a| else LineEnd(s, i) == LineEnd(a, i)
  {
    last := IndexFrom(a, '\n', i) == |a|;
    if last {
      LastLine(s, a, i);
    } else {
      InnerLine(s, a, i);
    }
  }

  lemma {:induction false} SplitEmpty(s: string, a: string)
    requires Begins(s, a)
    ensures UsefulLines(s, |a|) == UsefulLines(a, |a|) + UsefulLines(s, |a| + 1)
  {
    hide UsefulLines, TextAt;
    EmptyLine(s, |a|);
    UsefulStep(s, |a|);
    NoMore(a);
  }

  lemma {:induction false} OneMore(s: string, a: string, i: nat)
    requires i < |s| && i < |a| && LineEnd(a, i) == |a| && TextAt(s, i) == TextAt(a, i)
    ensures UsefulLines(s, i) == UsefulLines(a, i) + UsefulLines(s, LineEnd(s, i))
  {
    hide UsefulLines, TextAt;
    UsefulStep(s, i);
    UsefulStep(a, i);
    NoMore(a);
  }

  lemma {:induction false} SplitInner(s: string, a: string, i: nat, rest: seq<string>)
    requires i < |s| && i < |a| && LineEnd(s, i) == LineEnd(a, i) && TextAt(s, i) == TextAt(a, i)
    requires UsefulLines(s, LineEnd(a, i)) == UsefulLines(a, LineEnd(a, i)) + rest
    ensures UsefulLines(s, i) == UsefulLines(a, i) + rest
  {
    hide UsefulLines, TextAt;
    UsefulStep(s, i);
    UsefulStep(a, i);
    Reassociated(OptLine(TextAt(a, i)), UsefulLines(a, LineEnd(a, i)), rest);
  }

  lemma Reassociated<T>(x: seq<T>, y: seq<T>, z: seq<T>)
    ensures x + (y + z) == (x + y) + z
  {
  }

  lemma EmptyLine(s: string, i: nat)
    requires i < |s| && s[i] == '\n'
    ensures LineEnd(s, i) == i + 1 && TextAt(s, i) == None
  {
    NewlineIs(s, i, i);
    assert s[i..i + 1] == "\n" && Chomp("\n") == "";
    assert Useful("") == None;
  }

  lemma {:induction false} InnerLine(s: string, a: string, i: nat)
    requires Begins(s, a) && i < |a| && IndexFrom(a, '\n', i) < |a|
    ensures LineEnd(s, i) == LineEnd(a, i) && TextAt(s, i) == TextAt(a, i)
  {
    var e := IndexFrom(a, '\n', i);
    NewlineIs(s, i, e);
    assert s[i..e + 1] == a[i..e + 1];
    SameText(s, i, a, i);
  }

  /** What is left of `a` without a newline is one line. */
  lemma {:induction false} LastLine(s: string, a: string, i: nat)
    requires Begins(s, a) && i < |a| && IndexFrom(a, '\n', i) == |a|
    ensures LineEnd(s, i) == |a| + 1 && LineEnd(a, i) == |a| && TextAt(s, i) == TextAt(a, i)
  {
    NewlineIs(s, i, |a|);
    assert s[i..|a| + 1] == a[i..] + "\n";
    assert (a[i..] + "\n")[..|a| - i] == a[i..];
    assert a[i..|a|] == a[i..] && a[i..][|a| - i - 1] == a[|a| - 1] != '\n';
    SameText(s, i, a, i);
  }

  /** The lines of two texts with a newline between them are the lines of both. */
  lemma {:induction false} UsefulConcat(a: string, b: string)
    ensures UsefulLines(a + "\n" + b, 0) == UsefulLines(a, 0) + UsefulLines(b, 0)
  {
    TwoTexts(a, b, a + "\n" + b);
    BothLines(a, b, a + "\n" + b);
  }

  lemma TwoTexts(a: string, b: string, s: string)
    requires s == a + "\n" + b
    ensures Begins(s, a) && StandsAt(s, |a| + 1, b)
  {
  }

  lemma {:induction false} BothLines(a: string, b: string, s: string)
    requires Begins(s, a) && StandsAt(s, |a| + 1, b)
    ensures UsefulLines(s, 0) == UsefulLines(a, 0) + UsefulLines(b, 0)
  {
    UsefulSplit(s, a, 0);
    UsefulShift(s, |a| + 1, b, 0);
  }

  lemma {:induction false} JoinConcat(x: seq<string>, y: seq<string>)
    ensures Join(x + y) == if x == [] then Join(y) else if y == [] then Join(x) else Join(x) + " " + Join(y)
  {
    if x == [] {
      assert x + y == y;
    } else if y == [] {
      assert x + y == x;
    } else {
      JoinConcat(x[1..], y);
      assert (x + y)[0] == x[0] && (x + y)[1..] == x[1..] + y;
      if |x| > 1 {
        assert x[0] + " " + (Join(x[1..]) + " " + Join(y)) == (x[0] + " " + Join(x[1..])) + " " + Join(y);
      }
    }
  }

  /** Parsing two files, one behind the other, is parsing both. */
  lemma ParsedConcat(a: string, b: string)
    ensures Parsed(a + "\n" + b) ==
            if Parsed(a) == "" then Parsed(b) else if Parsed(b) == "" then Parsed(a) else Parsed(a) + " " + Parsed(b)
  {
    UsefulConcat(a, b);
    JoinConcat(UsefulLines(a, 0), UsefulLines(b, 0));
    EmptyWhen(a);
    EmptyWhen(b);
  }

  lemma ThreeLines()
    ensures Parsed("one\ntwo\nthree\n") == "one two three"
  {
    hide *;
    CleanNumbers();
    CleanParsesToItself("one");
    CleanParsesToItself("two");
    CleanParsesToItself("three");
    ParsedConcat("three", "");
    ParsedConcat("two", "three\n");
    ParsedConcat("one", "two\nthree\n");
    assert "three" + "\n" + "" == "three\n" && "two" + "\n" + "three\n" == "two\nthree\n";
    assert "one" + "\n" + "two\nthree\n" == "one\ntwo\nthree\n";
  }

  lemma CleanNumbers()
    ensures Clean("one") && Clean("two") && Clean("three") && Parsed("") == ""
  {
  }

  lemma {:induction false} EmptyWhen(a: string)
    ensures Parsed(a) == "" <==> UsefulLines(a, 0) == []
  {
    if UsefulLines(a, 0) != [] {
      UsefulLinesAreClean(a, 0);
      JoinIsClean(UsefulLines(a, 0));
    }
  }

  // ----- one line -----

  /** The first character that is not blank is '#'. */
  predicate IsComment(l: string) {
    exists i :: 0 <= i < |l| && l[i] == '#' && Blank(l[..i])
  }

  /** A comment counts for nothing; of any other line what is left are the characters between outer blanks. */
  lemma ParsedLine(l: string) returns (p: string, q: string)
    requires '\n' !in l
    ensures Blank(p) && Blank(q)
    ensures if IsComment(l) then Parsed(l) == "" else l == p + Parsed(l) + q
    ensures Parsed(l) != "" ==> !IsSpace(Parsed(l)[0]) && !IsSpace(Parsed(l)[|Parsed(l)| - 1])
  {
    hide Parsed, RStripped, SpaceRun;
    OneLineOnly(l);
    CommentIs(l);
    p, q := SplitBlanks(l);
  }

  lemma SplitBlanks(l: string) returns (p: string, q: string)
    ensures Blank(p) && Blank(q) && l == p + RStripped(l[SpaceRun(l)..]) + q
  {
    hide RStripped, SpaceRun;
    var n := SpaceRun(l);
    var t := l[n..];
    p := l[..n];
    q := SplitEnd(t);
    assert forall j | 0 <= j < n :: p[j] == l[j];
    assert l == p + t;
  }

  lemma SplitEnd(t: string) returns (q: string)
    ensures Blank(q) && t == RStripped(t) + q
  {
    var m := StrippedLength(t, |t|);
    q := t[m..];
    assert forall j | 0 <= j < |q| :: q[j] == t[m + j];
  }

  lemma OneLineOnly(l: string)
    requires '\n' !in l
    ensures Parsed(l) == match Useful(l) case None => "" case Some(t) => t
  {
    if l == "" {
      assert Useful("") == None;
    } else {
      NewlineIs(l, 0, |l|);
      assert l[0..|l|] == l && Chomp(l) == l;
      assert UsefulLines(l, |l|) == [];
    }
  }

  lemma CommentIs(l: string)
    ensures IsComment(l) <==> SpaceRun(l) < |l| && l[SpaceRun(l)] == '#'
  {
    var n := SpaceRun(l);
    if IsComment(l) {
      var i :| 0 <= i < |l| && l[i] == '#' && Blank(l[..i]);
      assert forall j | 0 <= j < i :: IsSpace(l[..i][j]) && l[j] == l[..i][j];
      assert i == n;
    }
    if n < |l| && l[n] == '#' {
      assert Blank(l[..n]);
    }
  }

  /** The words between blanks. */
  lemma {:induction false} OneWord(w: string)
    requires w != "" && forall c | c in w :: !IsSpace(c)
    ensures Words(w) == [w]
  {
    if |w| > 1 {
      OneWord(w[1..]);
      assert [w[0]] + w[1..] == w;
    } else {
      assert w == [w[0]] && w[1..] == "";
    }
  }

  // ----- removals -----

  lemma {:induction false} RemovedConcat(out: string, x: seq<string>, y: seq<string>)
    ensures RemovedLines(out, x + y) == RemovedLines(RemovedLines(out, x), y)
    decreases |x|
  {
    if x == [] {
      assert x + y == y;
    } else {
      RemovedStep(out, x);
      RemovedStep(out, x + y);
      assert (x + y)[1..] == x[1..] + y;
      RemovedConcat(Removed(out, x[0]), x[1..], y);
    }
  }

  lemma {:induction false} RemovedStep(out: string, lines: seq<string>)
    requires lines != []
    ensures RemovedLines(out, lines) == RemovedLines(Removed(out, lines[0]), lines[1..])
  {
  }

  /** Removing what two files say, one behind the other, is removing what both say, in this order. */
  lemma {:induction false} RemovalsConcat(out: string, a: string, b: string)
    ensures RemovedLines(out, UsefulLines(a + "\n" + b, 0))
            == RemovedLines(RemovedLines(out, UsefulLines(a, 0)), UsefulLines(b, 0))
  {
    UsefulConcat(a, b);
    RemovedConcat(out, UsefulLines(a, 0), UsefulLines(b, 0));
  }

  /** One line removes its text. */
  lemma {:induction false} RemovalLine(out: string, l: string)
    requires '\n' !in l
    ensures RemovedLines(out, UsefulLines(l, 0)) == if Parsed(l) == "" then out else Removed(out, Parsed(l))
  {
    OneLineOnly(l);
    if l != "" {
      NewlineIs(l, 0, |l|);
      assert l[0..|l|] == l && Chomp(l) == l && UsefulLines(l, |l|) == [];
      assert Useful(l).Some? ==> RemovedLines(Removed(out, Useful(l).value), []) == Removed(out, Useful(l).value);
    }
  }

  /** What does not occur, or goes on in something else than a space, stays. */
  lemma RemovedElse(out: string, line: string)
    ensures !Occurs(out, line) ==> Removed(out, line) == out
    ensures forall before, after |
              out == before + line + after && Find(out, line) == Some(|before|) && after != "" && after[0] != ' ' ::
              Removed(out, line) == out
  {
    forall before, after |
      out == before + line + after && Find(out, line) == Some(|before|) && after != "" && after[0] != ' '
      ensures Removed(out, line) == out
    {
      assert out[|before| + |line|] == after[0];
    }
  }

  /** Files are applied one after the other. */
  lemma {:induction false} FilesConcat(b: Held, x: seq<Option<string>>, y: seq<Option<string>>)
    ensures AfterFiles(b, x + y) == AfterFiles(AfterFiles(b, x), y)
    decreases |x|
  {
    if x == [] {
      assert x + y == y;
    } else {
      FilesConcat(AfterFile(b, x[0]), x[1..], y);
      assert (x + y)[0] == x[0] && (x + y)[1..] == x[1..] + y;
    }
  }

  /** A removal file of one line: with trailing blanks gone, the line is cut out of what is left. */
  lemma OneRemoval(out: string, line: string, before: string, after: string)
    requires Clean(line) && RStripped(out) == before + line + after && CutsBetween(before, line, after)
    ensures RemovedFiles(out, [Some(line)]) == before + if after == "" then "" else after[1..]
  {
    CleanParsesToItself(line);
    RemovalLine(RStripped(out), line);
    RemovedBetween(before, line, after);
    assert [Some(line)][1..] == [];
    assert AfterFiles(AfterFile(Held(out, true), Some(line)), []) == AfterFile(Held(out, true), Some(line));
  }

  // ----- merging -----

  /** What one file contributes. */
  function TargetWords(t: Target): seq<string> {
    match t
    case Readable(c) => Words(Parsed(c))
    case DevNull => []
    case Broken => []
  }

  /** A vendor file of whose name there is a local one that leads somewhere. */
  ghost predicate IsOverridden(f: ConfFile, local: seq<ConfFile>) {
    exists g :: g in local && g.name == f.name && !g.target.Broken?
  }

  lemma {:induction false} AllWordsAre(files: seq<ConfFile>, checkMasked: bool, local: seq<ConfFile>,
                                       parts: seq<seq<string>>)
    requires |parts| == |files|
    requires forall i | 0 <= i < |files| ::
               parts[i] == if checkMasked && IsOverridden(files[i], local) then [] else TargetWords(files[i].target)
    ensures WordsOfAll(files, checkMasked, local) == Concat(parts)
  {
    if files != [] {
      AllWordsAre(files[1..], checkMasked, local, parts[1..]);
      assert Masked(files[0], checkMasked, local) ==> parts[0] == [];
    }
  }

  /** The merged words: those of the vendor files that no local file of the same name replaces, those of the local
      `cmdline`, those of the local files; each file's in order, and none of a link to /dev/null. */
  lemma {:induction false} MergedIs(vendor: seq<ConfFile>, cmdline: Target, local: seq<ConfFile>,
                                    v: seq<seq<string>>, l: seq<seq<string>>)
    requires |v| == |vendor| && |l| == |local|
    requires forall i | 0 <= i < |vendor| ::
               v[i] == if IsOverridden(vendor[i], local) then [] else TargetWords(vendor[i].target)
    requires forall i | 0 <= i < |local| :: l[i] == TargetWords(local[i].target)
    ensures MergedWords(vendor, cmdline, local) == Concat(v) + TargetWords(cmdline) + Concat(l)
  {
    AllWordsAre(vendor, true, local, v);
    AllWordsAre(local, false, local, l);
  }
}
