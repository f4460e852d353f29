/** Texts made of lines. */
module TextLines {
  import opened CommandLine

  function Unlines(lines: seq<string>): string {
    if lines == [] then "" else Unlines(lines[..|lines| - 1]) + (lines[|lines| - 1] + "\n")
  }

  ghost predicate OneLineEach(lines: seq<string>) {
    forall j | 0 <= j < |lines| :: '\n' !in lines[j]
  }

  lemma {:induction false} UnlinesConcat(a: seq<string>, b: seq<string>)
    ensures Unlines(a + b) == Unlines(a) + Unlines(b)
  {
    if b == [] {
      assert a + b == a;
    } else {
      var c := a + b;
      assert c[..|c| - 1] == a + b[..|b| - 1] && c[|c| - 1] == b[|b| - 1];
      UnlinesConcat(a, b[..|b| - 1]);
      var x, y, z := Unlines(a), Unlines(b[..|b| - 1]), b[|b| - 1] + "\n";
      assert (x + y) + z == x + (y + z);
    }
  }

  lemma {:induction false} UnlinesMore(lines: seq<string>, line: string)
    ensures Unlines(lines + [line]) == Unlines(lines) + (line + "\n")
  {
    assert (lines + [line])[..|lines|] == lines;
  }

  lemma UnlinesOne(line: string)
    ensures Unlines([line]) == line + "\n"
  {
    UnlinesMore([], line);
    assert [] + [line] == [line];
  }

  // ----- reading lines back -----

  /** Where line `i` starts. */
  function Offset(lines: seq<string>, i: nat): nat
    requires i <= |lines|
  {
    |Unlines(lines[..i])|
  }

  lemma {:induction false} OffsetFits(lines: seq<string>, i: nat)
    requires i < |lines|
    ensures Offset(lines, i + 1) == Offset(lines, i) + |lines[i]| + 1 <= |Unlines(lines)|
    ensures Unlines(lines)[Offset(lines, i)..Offset(lines, i + 1)] == lines[i] + "\n"
  {
    var a, b := lines[..i + 1], lines[i + 1..];
    assert lines == a + b && a == lines[..i] + [lines[i]];
    UnlinesConcat(a, b);
    UnlinesMore(lines[..i], lines[i]);
  }

  lemma LineEndIs(text: string, from: nat, line: string)
    requires '\n' !in line && from + |line| < |text| && text[from..from + |line| + 1] == line + "\n"
    ensures LineEnd(text, from) == from + |line| + 1
  {
    var part := text[from..from + |line| + 1];
    assert forall j | from <= j < from + |line| :: text[j] == part[j - from] && part[j - from] == line[j - from];
    assert text[from + |line|] == part[|line|] == '\n';
  }

  /** From `at` on the text consists of the lines from `i` on. */
  ghost predicate LinesAt(text: string, lines: seq<string>, i: nat, at: nat)
    requires i <= |lines| && at <= |text|
    decreases |lines| - i
  {
    if i == |lines| then at == |text|
    else
      var next := at + |lines[i]| + 1;
      next <= |text| && text[at..next] == lines[i] + "\n" && LinesAt(text, lines, i + 1, next)
  }

  lemma {:induction false} LinesAreThere(lines: seq<string>, i: nat)
    requires i <= |lines|
    ensures Offset(lines, i) <= |Unlines(lines)| && LinesAt(Unlines(lines), lines, i, Offset(lines, i))
    decreases |lines| - i
  {
    if i == |lines| {
      assert lines[..i] == lines;
    } else {
      LinesAreThere(lines, i + 1);
      OffsetFits(lines, i);
    }
  }

  /** The lines getline yields from `from` on, without their newlines. */
  function LinesFrom(text: string, from: nat): seq<string>
    requires from <= |text|
    decreases |text| - from
  {
    if from == |text| then [] else [Chomp(text[from..LineEnd(text, from)])] + LinesFrom(text, LineEnd(text, from))
  }

  lemma {:induction false} LinesReadBack(text: string, lines: seq<string>, i: nat, at: nat)
    requires i <= |lines| && at <= |text| && LinesAt(text, lines, i, at) && OneLineEach(lines)
    ensures LinesFrom(text, at) == lines[i..]
    decreases |lines| - i
  {
    if i < |lines| {
      var line := lines[i];
      LineEndIs(text, at, line);
      LinesReadBack(text, lines, i + 1, at + |line| + 1);
      assert Chomp(line + "\n") == line;
      assert lines[i..] == [line] + lines[i + 1..];
    }
  }

  /** A text written line by line is read back line by line. */
  lemma {:induction false} UnlinesReadsBack(lines: seq<string>)
    requires OneLineEach(lines)
    ensures LinesFrom(Unlines(lines), 0) == lines
  {
    LinesAreThere(lines, 0);
    assert lines[..0] == [] && lines[0..] == lines;
    LinesReadBack(Unlines(lines), lines, 0, 0);
  }
}
