/** Kernel command lines: reading one file, merging the vendor and local files, and cutting removals out
    of the result in place. */
module CommandLine {
  import opened Text
  import opened WordList
  import opened Util

  // ----- what the code is to compute -----

  /** Where the line at `from` ends: behind its newline, or at the end. */
  function LineEnd(s: string, from: nat): (end: nat)
    requires from < |s|
    ensures from < end <= |s|
  {
    var i := IndexFrom(s, '\n', from);
    if i == |s| then i else i + 1
  }

  /** A line without its newline. */
  function Chomp(line: string): string {
    if line != "" && line[|line| - 1] == '\n' then line[..|line| - 1] else line
  }

  /** What a line contributes: nothing when blank or a comment, else its text without outer blanks. */
  function Useful(line: string): (r: Option<string>)
    ensures r.Some? ==> r.value != "" && !IsSpace(r.value[0]) && !IsSpace(r.value[|r.value| - 1])
  {
    var l := line[SpaceRun(line)..];
    if l != "" && l[0] == '#' then None
    else
      var t := RStripped(l);
      if t == "" then None else Some(t)
  }

  /** The useful text of the lines getline yields from `from` on. */
  function UsefulLines(s: string, from: nat): seq<string>
    requires from <= |s|
    decreases |s| - from
  {
    if from == |s| then []
    else
      var rest := UsefulLines(s, LineEnd(s, from));
      match TextAt(s, from)
      case None => rest
      case Some(text) => [text] + rest
  }

  function Join(lines: seq<string>): string {
    if lines == [] then ""
    else if |lines| == 1 then lines[0]
    else lines[0] + " " + Join(lines[1..])
  }

  /** The command line a file stands for. */
  function Parsed(content: string): string {
    Join(UsefulLines(content, 0))
  }

  /** How much goes for a match of `len` characters at `i`: the space behind it too, or nothing when
      something else than a space or the end follows. */
  function CutSize(out: string, i: nat, len: nat): (n: nat)
    requires i + len <= |out|
    ensures i + n <= |out|
  {
    if i + len == |out| then len else if out[i + len] == ' ' then len + 1 else 0
  }

  /** `out` after one removal line: its first occurrence is cut. */
  function Removed(out: string, line: string): string {
    match Find(out, line)
    case None => out
    case Some(i) =>
      var n := CutSize(out, i, |line|);
      if n == 0 then out else out[..i] + out[i + n..]
  }

  function RemovedLines(out: string, lines: seq<string>): string
    decreases |lines|
  {
    if lines == [] then out else RemovedLines(Removed(out, lines[0]), lines[1..])
  }

  /** The command line in its buffer, and whether the length that is kept beside it is right. It is too large
      from the moment a file cannot be opened that was to strip trailing blanks. */
  datatype Held = Held(text: string, tight: bool)

  /** What one removal file makes of it, absent when it cannot be opened. */
  function AfterFile(b: Held, file: Option<string>): Held {
    var text := if b.tight then RStripped(b.text) else b.text;
    match file
    case None => Held(text, b.tight && text == b.text)
    case Some(content) => Held(RemovedLines(text, UsefulLines(content, 0)), b.tight)
  }

  function AfterFiles(b: Held, files: seq<Option<string>>): Held
    decreases |files|
  {
    if files == [] then b else AfterFiles(AfterFile(b, files[0]), files[1..])
  }

  /** `out` after the given removal files. */
  function RemovedFiles(out: string, files: seq<Option<string>>): string {
    AfterFiles(Held(out, true), files).text
  }

  // ----- one file -----

  /** The memory stream a command line is collected in. */
  class MemStream {
    var data: string
    /** Whether a write has failed. */
    ghost var failed: bool

    constructor ()
      ensures data == "" && !failed
    {
      data := "";
      failed := false;
    }

    /** fwrite(3): a failing write may leave some of the text. */
    method Write(s: string) returns (ok: bool)
      modifies this
      ensures ok ==> data == old(data) + s && failed == old(failed)
      ensures !ok ==> failed && old(data) <= data <= old(data) + s
    {
      var n: nat :| n <= |s|;
      ok := n == |s|;
      data := data + s[..n];
      failed := failed || !ok;
      assert s[..|s|] == s;
    }
  }

  /** getline: the next line with its newline, in a fresh NUL-terminated buffer. */
  method GetLine(content: string, pos: nat) returns (buf: array<char>, r: nat)
    requires pos < |content| && NulFree(content)
    ensures fresh(buf) && r == LineEnd(content, pos) - pos && buf.Length == r + 1
    ensures CString(buf, 0, r)
    ensures buf[..r] == content[pos..LineEnd(content, pos)]
  {
    r := LineEnd(content, pos) - pos;
    buf := new char[r + 1];
    forall j | 0 <= j < r {
      buf[j] := content[pos + j];
    }
    buf[r] := NUL;
  }

  /** The steps both line loops share: drop the newline, skip blanks, skip comments, strip the end. */
  method CleanLine(buf: array<char>, read: nat, ghost raw: string) returns (l: nat, n: nat)
    requires 1 <= read && buf.Length == read + 1 && CString(buf, 0, read) && buf[..read] == raw
    modifies buf
    ensures CString(buf, l, n)
    ensures Useful(Chomp(raw)) == if n == 0 then None else Some(buf[l..l + n])
  {
    var r := read;
    if buf[r - 1] == '\n' {
      buf[r - 1] := NUL;
      r := r - 1;
    }
    assert buf[..r] == Chomp(raw);
    l, n := TrimLine(buf, r, Chomp(raw));
  }

  method TrimLine(buf: array<char>, r: nat, ghost line: string) returns (l: nat, n: nat)
    requires CString(buf, 0, r) && buf[..r] == line
    modifies buf
    ensures CString(buf, l, n)
    ensures Useful(line) == if n == 0 then None else Some(buf[l..l + n])
  {
    if r < 1 {
      UsefulIs(line, 0, "");
      return 0, 0;
    }
    l := SkipBlanks(buf, r);
    assert forall j | 0 <= j < r :: line[j] == buf[j];
    if buf[l] == '#' {
      UsefulIs(line, l, RStripped(line[l..]));
      return r, 0;
    }
    assert buf[l..l + (r - l)] == line[l..];
    n := RStrip(buf, l, r - l);
    UsefulIs(line, l, buf[l..l + n]);
  }

  /** Skips the starting whitespace. */
  method SkipBlanks(buf: array<char>, r: nat) returns (l: nat)
    requires CString(buf, 0, r)
    ensures l <= r && forall j | 0 <= j < l :: IsSpace(buf[j])
    ensures !IsSpace(buf[l])
  {
    l := 0;
    while IsSpace(buf[l])
      invariant l <= r
      invariant forall j | 0 <= j < l :: IsSpace(buf[j])
      decreases r - l
    {
      l := l + 1;
      if buf[l] == NUL {
        break;
      }
    }
  }

  lemma UsefulIs(line: string, l: nat, text: string)
    requires l <= |line|
    requires forall j | 0 <= j < l :: IsSpace(line[j])
    requires l < |line| ==> !IsSpace(line[l])
    requires text == RStripped(line[l..])
    ensures Useful(line) == if (l < |line| && line[l] == '#') || text == "" then None else Some(text)
  {
    SpaceRunIs(line, l);
  }

  lemma SpaceRunIs(s: string, n: nat)
    requires n <= |s|
    requires forall j | 0 <= j < n :: IsSpace(s[j])
    requires n < |s| ==> !IsSpace(s[n])
    ensures SpaceRun(s) == n
  {
  }

  /** The useful text of the line at `pos`. */
  function TextAt(content: string, pos: nat): (r: Option<string>)
    requires pos < |content|
    ensures r.Some? ==> r.value != "" && !IsSpace(r.value[0]) && !IsSpace(r.value[|r.value| - 1])
  {
    Useful(Chomp(content[pos..LineEnd(content, pos)]))
  }

  /** One turn of either line loop: the useful text of the next line, empty when it has none. */
  method NextText(content: string, pos: nat) returns (next: nat, text: string)
    requires pos < |content| && NulFree(content)
    ensures next == LineEnd(content, pos)
    ensures TextAt(content, pos) == if text == "" then None else Some(text)
    ensures NulFree(text)
  {
    var buf, r, l, n;
    buf, r := GetLine(content, pos);
    l, n := CleanLine(buf, r, content[pos..LineEnd(content, pos)]);
    next := pos + r;
    text := buf[l..l + n];
  }

  /** cbm_parse_cmdline_file_internal. A file that cannot be opened counts as zero bytes; a failing write ends
      the loop, and leaves a beginning of what would have been written. */
  method ParseFile(file: Option<string>, out: MemStream) returns (nbytes: int)
    requires file.Some? ==> NulFree(file.value)
    modifies out
    ensures nbytes >= 0 ==>
              && out.data == old(out.data) + (if file.Some? then Parsed(file.value) else "")
              && nbytes == |out.data| - |old(out.data)| && out.failed == old(out.failed)
    ensures nbytes < 0 ==>
              && nbytes == -1 && out.failed && file.Some?
              && old(out.data) <= out.data <= old(out.data) + Parsed(file.value)
  {
    nbytes := 0;
    if file.None? {
      assert out.data + "" == out.data;
      return;
    }
    var content := file.value;
    var pos, hadContent := 0, false;
    ghost var data0: string, written: string := out.data, "";
    WrittenIsJoined("", content, 0);
    while pos < |content|
      invariant pos <= |content|
      invariant out.data == data0 + written && nbytes == |written| && out.failed == old(out.failed)
      invariant WrittenFrom(written, content, pos) == WrittenFrom("", content, 0)
      invariant hadContent <==> written != ""
    {
      var next, text := NextText(content, pos);
      if text != "" {
        WrittenGrows(Extended(written, text), content, next);
        var n := WriteText(out, text, hadContent, data0, written, WrittenFrom("", content, 0));
        if n < 0 {
          return -1;
        }
        nbytes := nbytes + n;
        hadContent := true;
        written := Extended(written, text);
      }
      pos := next;
    }
  }

  /** Writes one line's text, behind a space unless it is the first. */
  method WriteText(out: MemStream, text: string, hadContent: bool, ghost before: string, ghost written: string,
                   ghost goal: string)
    returns (n: int)
    requires out.data == before + written && (hadContent <==> written != "") && Extended(written, text) <= goal
    modifies out
    ensures n >= 0 ==>
              && out.data == before + Extended(written, text) && out.failed == old(out.failed)
              && n == |Extended(written, text)| - |written|
    ensures n < 0 ==> n == -1 && out.failed && before <= out.data <= before + goal
  {
    n := 0;
    Appended(before, written, text);
    PrefixBehind(before, Extended(written, text), goal);
    if hadContent {
      var spaced := out.Write(" ");
      PrefixOfPrefix(out.data, before + written + " ", before + goal);
      if !spaced {
        return -1;
      }
      n := 1;
    }
    var ok := out.Write(text);
    PrefixOfPrefix(out.data, before + Extended(written, text), before + goal);
    n := if ok then n + |text| else -1;
  }

  lemma PrefixBehind(a: string, b: string, c: string)
    requires b <= c
    ensures a + b <= a + c
  {
  }

  lemma PrefixOfPrefix(a: string, b: string, c: string)
    requires a <= b <= c
    ensures a <= c
  {
  }

  /** What was written stays. */
  lemma {:induction false} WrittenGrows(written: string, content: string, pos: nat)
    requires pos <= |content|
    ensures written <= WrittenFrom(written, content, pos)
    decreases |content| - pos
  {
    if pos < |content| {
      var next := LineEnd(content, pos);
      match TextAt(content, pos)
      case None =>
        WrittenGrows(written, content, next);
      case Some(text) =>
        WrittenGrows(Extended(written, text), content, next);
    }
  }

  /** What the file loop has written at the end, when it had written `written` at `pos`. */
  function WrittenFrom(written: string, content: string, pos: nat): string
    requires pos <= |content|
    decreases |content| - pos
  {
    if pos == |content| then written
    else
      match TextAt(content, pos)
      case None => WrittenFrom(written, content, LineEnd(content, pos))
      case Some(text) =>
        WrittenFrom(Extended(written, text), content, LineEnd(content, pos))
  }

  function Extended(written: string, text: string): string {
    if written == "" then text else written + " " + text
  }

  lemma Appended(before: string, written: string, text: string)
    ensures before + Extended(written, text)
            == if written == "" then before + written + text else before + written + " " + text
  {
    if written != "" {
      assert before + (written + " " + text) == before + written + " " + text;
    }
  }

  lemma {:induction false} WrittenIsJoined(written: string, content: string, pos: nat)
    requires pos <= |content|
    ensures WrittenFrom(written, content, pos)
            == if written == "" then Join(UsefulLines(content, pos)) else Join([written] + UsefulLines(content, pos))
    decreases |content| - pos
  {
    if pos == |content| {
      assert [written] + [] == [written];
    } else if TextAt(content, pos).None? {
      WrittenIsJoined(written, content, LineEnd(content, pos));
    } else {
      var text, next := TextAt(content, pos).value, LineEnd(content, pos);
      WrittenIsJoined(Extended(written, text), content, next);
      if written != "" {
        JoinTwo(written, text, UsefulLines(content, next));
      }
    }
  }

  lemma {:induction false} JoinTwo(a: string, b: string, rest: seq<string>)
    ensures Join([a + " " + b] + rest) == Join([a] + ([b] + rest))
  {
    var l, m := [a] + ([b] + rest), [b] + rest;
    assert l[1..] == m && m[1..] == rest && ([a + " " + b] + rest)[1..] == rest;
    if rest != [] {
      assert a + " " + b + " " + Join(rest) == a + " " + (b + " " + Join(rest));
    }
  }

  // ----- removals, in place -----

  /** `t` begins with `s`; behind it may stand a NUL and, behind that, blanks and other NULs. */
  ghost predicate IsLoose(t: string, s: string) {
    && s <= t && NulFree(s) && (|s| < |t| ==> t[|s|] == NUL)
    && forall j | |s| < j < |t| :: t[j] == NUL || IsSpace(t[j])
  }

  /** The buffer holds the C string `s`; `n` is its length or more. */
  ghost predicate Loose(a: array<char>, n: nat, s: string)
    reads a
  {
    n < a.Length && a[n] == NUL && IsLoose(a[..n], s)
  }

  /** A useful line is found in the string only. */
  lemma FindLoose(t: string, s: string, line: string)
    requires IsLoose(t, s) && line != "" && NulFree(line) && !IsSpace(line[0])
    ensures Find(t, line) == Find(s, line)
  {
    forall i
      ensures OccursAt(t, line, i) <==> OccursAt(s, line, i)
    {
      OccursLoose(t, s, line, i);
    }
  }

  lemma OccursLoose(t: string, s: string, line: string, i: int)
    requires IsLoose(t, s) && line != "" && NulFree(line) && !IsSpace(line[0])
    ensures OccursAt(t, line, i) <==> OccursAt(s, line, i)
  {
    if 0 <= i && i + |line| <= |t| {
      if i + |line| <= |s| {
        assert t[i..i + |line|] == s[i..i + |line|];
      } else if i <= |s| {
        assert t[i..i + |line|][|s| - i] == NUL && line[|s| - i] != NUL;
      } else {
        assert t[i..i + |line|][0] == t[i];
      }
    }
  }

  /** One removal line: the memmem/memmove step on the first `nbytes` characters of the buffer. */
  method CutFirst(out: array<char>, nbytes: nat, line: string, ghost s: string) returns (n: nat)
    requires Loose(out, nbytes, s) && line != "" && NulFree(line) && !IsSpace(line[0])
    modifies out
    ensures n <= nbytes && Loose(out, n, Removed(s, line)) && nbytes - n == |s| - |Removed(s, line)|
  {
    FindLoose(out[..nbytes], s, line);
    var m := Find(out[..nbytes], line);
    if m.None? {
      return nbytes;
    }
    var i, sz := m.value, |line|;
    RemovedAt(s, line, i);
    assert out[i + sz] == if i + sz < |s| then s[i + sz] else NUL;
    if out[i + sz] != NUL && out[i + sz] != ' ' {
      return nbytes;
    }
    n := CutMatch(out, nbytes, i, sz, s);
  }

  lemma RemovedAt(s: string, line: string, i: nat)
    requires Find(s, line) == Some(i)
    ensures i + |line| <= |s| && Removed(s, line) == s[..i] + s[i + CutSize(s, i, |line|)..]
    ensures CutSize(s, i, |line|) == 0 ==> Removed(s, line) == s
  {
    assert s[..i] + s[i..] == s;
  }

  /** Cuts a match that a space or the end follows. */
  method CutMatch(out: array<char>, nbytes: nat, i: nat, len: nat, ghost s: string) returns (n: nat)
    requires Loose(out, nbytes, s) && 0 < len && i + len <= |s| && (out[i + len] == ' ' || out[i + len] == NUL)
    modifies out
    ensures nbytes - n == CutSize(s, i, len) && Loose(out, n, s[..i] + s[i + CutSize(s, i, len)..])
  {
    assert i + len < |s| ==> out[i + len] == s[i + len];
    ghost var t := out[..nbytes];
    var sz := len;
    if sz == nbytes {
      out[i] := NUL;
    } else {
      if out[i + sz] == ' ' {
        sz := sz + 1;
      }
      Splice(out, nbytes, i, sz);
    }
    n := nbytes - sz;
    SplicedIsLoose(t, s, i, sz);
    assert out[..n] == t[..i] + t[i + sz..];
  }

  lemma SplicedIsLoose(t: string, s: string, i: nat, sz: nat)
    requires IsLoose(t, s) && i + sz <= |s|
    ensures IsLoose(t[..i] + t[i + sz..], s[..i] + s[i + sz..])
  {
    var t1, s1 := t[..i] + t[i + sz..], s[..i] + s[i + sz..];
    assert forall j | i <= j < |t1| :: t1[j] == t[j + sz];
    assert t1[..|s1|] == s1;
  }

  /** Moves what follows `sz` characters at `i` down over them, and ends the string there. */
  method Splice(out: array<char>, nbytes: nat, i: nat, sz: nat)
    requires i + sz <= nbytes < out.Length
    modifies out
    ensures out[nbytes - sz] == NUL
    ensures out[..nbytes - sz] == old(out[..nbytes])[..i] + old(out[..nbytes])[i + sz..]
  {
    ghost var t := out[..nbytes];
    var restLen := (nbytes - sz) - i;
    forall k | 0 <= k < restLen {
      out[i + k] := out[i + sz + k];
    }
    out[i + restLen] := NUL;
    assert forall j | 0 <= j < i :: out[j] == t[j];
    assert forall j | i <= j < i + restLen :: out[j] == t[j + sz];
    assert out[i..i + restLen] == t[i + sz..];
    assert out[..i + restLen] == out[..i] + out[i..i + restLen];
  }

  /** The rstrip at the start of a removal file: it strips the string only when the length is right. */
  method StripBuffer(out: array<char>, buflen: nat, ghost b: Held) returns (nbytes: nat)
    requires Loose(out, buflen, b.text) && (b.tight <==> |b.text| == buflen)
    modifies out
    ensures nbytes <= buflen && Loose(out, nbytes, AfterFile(b, Some("")).text)
    ensures b.tight <==> |AfterFile(b, Some("")).text| == nbytes
    ensures Loose(out, buflen, AfterFile(b, Some("")).text)
  {
    ghost var t := out[..buflen];
    nbytes := RStrip(out, 0, buflen);
    assert out[0..0 + nbytes] == out[..nbytes] && old(out[0..0 + buflen]) == t;
    StrippedIsLoose(t, b.text);
    ghost var text := AfterFile(b, Some("")).text;
    assert forall j | nbytes <= j < buflen :: IsSpace(t[j]);
    assert forall j | 0 <= j < buflen && j != nbytes :: out[..buflen][j] == t[j];
  }

  lemma StrippedIsLoose(t: string, s: string)
    requires IsLoose(t, s)
    ensures |s| < |t| ==> |s| < |RStripped(t)| && IsLoose(RStripped(t), s)
    ensures |s| == |t| ==> t == s && IsLoose(RStripped(t), RStripped(s))
    ensures forall j | |RStripped(t)| <= j < |t| :: IsSpace(t[j])
  {
  }

  /** cbm_parse_cmdline_file_removal_internal */
  method RemoveFile(file: Option<string>, out: array<char>, buflen: nat, ghost b: Held) returns (r: int)
    requires file.Some? ==> NulFree(file.value)
    requires Loose(out, buflen, b.text) && (b.tight <==> |b.text| == buflen)
    modifies out
    ensures (r < 0 <==> file.None?) && r <= buflen
    ensures var len := if r < 0 then buflen else r;
            var after := AfterFile(b, file);
            Loose(out, len, after.text) && (after.tight <==> |after.text| == len)
  {
    var nbytes := StripBuffer(out, buflen, b);
    ghost var start := if b.tight then RStripped(b.text) else b.text;
    if file.None? {
      return -1;
    }
    RemovedFromIsFold(start, file.value, 0);
    r := RemoveLines(file.value, out, nbytes, start);
  }

  /** The line loop of a removal file. */
  method RemoveLines(content: string, out: array<char>, buflen: nat, ghost start: string) returns (nbytes: nat)
    requires NulFree(content) && Loose(out, buflen, start)
    modifies out
    ensures nbytes <= buflen && Loose(out, nbytes, RemovedFrom(start, content, 0))
    ensures buflen - nbytes == |start| - |RemovedFrom(start, content, 0)|
  {
    nbytes := buflen;
    var pos := 0;
    ghost var s := start;
    while pos < |content|
      invariant pos <= |content| && nbytes <= buflen
      invariant Loose(out, nbytes, s) && buflen - nbytes == |start| - |s|
      invariant RemovedFrom(s, content, pos) == RemovedFrom(start, content, 0)
    {
      ghost var s0 := s;
      s := match TextAt(content, pos) case None => s case Some(text) => Removed(s, text);
      pos, nbytes := RemoveLine(content, pos, out, nbytes, s0);
    }
  }

  /** One turn of that loop. */
  method RemoveLine(content: string, pos: nat, out: array<char>, nbytes: nat, ghost s: string)
    returns (next: nat, n: nat)
    requires NulFree(content) && pos < |content| && Loose(out, nbytes, s)
    modifies out
    ensures next == LineEnd(content, pos)
    ensures var after := match TextAt(content, pos) case None => s case Some(text) => Removed(s, text);
            n <= nbytes && Loose(out, n, after) && nbytes - n == |s| - |after|
  {
    var text;
    next, text := NextText(content, pos);
    n := nbytes;
    if text != "" {
      n := CutFirst(out, nbytes, text, s);
    }
  }

  /** The buffer at the end of the removal loop, when it held `out` at `pos`. */
  function RemovedFrom(out: string, content: string, pos: nat): string
    requires pos <= |content|
    decreases |content| - pos
  {
    if pos == |content| then out
    else
      match TextAt(content, pos)
      case None => RemovedFrom(out, content, LineEnd(content, pos))
      case Some(text) => RemovedFrom(Removed(out, text), content, LineEnd(content, pos))
  }

  lemma {:induction false} RemovedFromIsFold(out: string, content: string, pos: nat)
    requires pos <= |content|
    ensures RemovedFrom(out, content, pos) == RemovedLines(out, UsefulLines(content, pos))
    decreases |content| - pos
  {
    if pos < |content| {
      var next := LineEnd(content, pos);
      match TextAt(content, pos)
      case None =>
        RemovedFromIsFold(out, content, next);
      case Some(text) =>
        RemovedFromIsFold(Removed(out, text), content, next);
        var lines := UsefulLines(content, pos);
        assert lines[0] == text && lines[1..] == UsefulLines(content, next);
    }
  }

  /** cbm_parse_cmdline_removal_files_directory. The terminator never leaves the buffer; files that cannot be
      opened leave a length that is too large, and the string is what is found in front of the first NUL. */
  method RemoveFiles(files: seq<Option<string>>, buffer: array<char>, ghost len: nat) returns (sz: nat)
    requires CString(buffer, 0, len)
    requires forall f | f in files && f.Some? :: NulFree(f.value)
    modifies buffer
    ensures sz <= len && Loose(buffer, sz, RemovedFiles(old(buffer[..len]), files))
    ensures AfterFiles(Held(old(buffer[..len]), true), files).tight <==> sz == |RemovedFiles(old(buffer[..len]), files)|
    ensures (forall f | f in files :: f.Some?) ==>
              CString(buffer, 0, sz) && buffer[..sz] == RemovedFiles(old(buffer[..len]), files)
  {
    sz := StrLen(buffer, 0, len);
    ghost var b := Held(buffer[..sz], true);
    ghost var goal := AfterFiles(b, files);
    for i := 0 to |files|
      invariant sz <= len && Loose(buffer, sz, b.text) && (b.tight <==> |b.text| == sz)
      invariant AfterFiles(b, files[i..]) == goal
    {
      assert files[i..][0] == files[i] && files[i..][1..] == files[i + 1..];
      var r := RemoveFile(files[i], buffer, sz, b);
      b := AfterFile(b, files[i]);
      if r < 0 {
        continue;
      }
      sz := r;
    }
    ReadableStayTight(old(buffer[..len]), files);
    TightIsExact(buffer, sz, goal.text);
  }

  lemma TightIsExact(a: array<char>, n: nat, s: string)
    requires Loose(a, n, s)
    ensures n == |s| ==> CString(a, 0, n) && a[..n] == s
  {
  }

  // ----- merging -----

  /** What a configuration file's path leads to. */
  datatype Target = Broken | DevNull | Readable(content: string)

  datatype ConfFile = ConfFile(name: string, target: Target)

  predicate NulFreeTarget(t: Target) {
    t.Readable? ==> NulFree(t.content)
  }

  function ContentOf(t: Target): Option<string> {
    match t
    case Broken => None
    case DevNull => Some("")
    case Readable(c) => Some(c)
  }

  /** The words a file adds. */
  function WordsOf(t: Target): seq<string> {
    if t.Readable? then Words(Parsed(t.content)) else []
  }

  /** A vendor file is masked by any local file of its name; a local file by linking to /dev/null. */
  predicate Masked(f: ConfFile, checkMasked: bool, local: seq<ConfFile>) {
    if checkMasked then exists g | g in local :: g.name == f.name && !g.target.Broken? else f.target.DevNull?
  }

  function WordsOfAll(files: seq<ConfFile>, checkMasked: bool, local: seq<ConfFile>): seq<string> {
    if files == [] then []
    else
      var rest := WordsOfAll(files[1..], checkMasked, local);
      if Masked(files[0], checkMasked, local) then rest else WordsOf(files[0].target) + rest
  }

  /** The words of the merged command line. */
  function MergedWords(vendor: seq<ConfFile>, cmdline: Target, local: seq<ConfFile>): seq<string> {
    WordsOfAll(vendor, true, local) + WordsOf(cmdline) + WordsOfAll(local, false, local)
  }

  /** Whatever is written next will not join the last word. */
  predicate Separated(s: string) {
    s == "" || IsSpace(s[|s| - 1])
  }

  /** ParseFile, seen through the words it adds behind separated text. */
  method ParseWords(t: Target, out: MemStream) returns (nbytes: int)
    requires NulFreeTarget(t)
    requires Separated(out.data)
    modifies out
    ensures nbytes >= 0 ==> Words(out.data) == Words(old(out.data)) + WordsOf(t) && out.failed == old(out.failed)
    ensures nbytes == 0 ==> Separated(out.data)
    ensures nbytes < 0 ==> out.failed
  {
    ghost var before := out.data;
    nbytes := ParseFile(ContentOf(t), out);
    if nbytes < 0 {
      return;
    }
    assert Parsed("") == "";
    ghost var written := if t.Readable? then Parsed(t.content) else "";
    assert out.data == before + written;
    WordsConcat(before, written);
    assert nbytes == 0 ==> before + written == before;
  }

  lemma {:induction false} WordsOfSpace(before: string)
    ensures Words(before + " ") == Words(before) && Separated(before + " ")
  {
    WordsConcat(before, " ");
    assert Words(" ") == [];
  }

  /** cbm_parse_cmdline_files_directory: negative exactly when a write failed. */
  method ParseDirectory(files: seq<ConfFile>, local: seq<ConfFile>, bumpStart: bool, checkMasked: bool, out: MemStream)
    returns (ret: int)
    requires forall f | f in files :: NulFreeTarget(f.target)
    requires (bumpStart || Separated(out.data)) && !out.failed
    modifies out
    ensures out.failed <==> ret < 0
    ensures ret >= 0 ==> Words(out.data) == Words(old(out.data)) + WordsOfAll(files, checkMasked, local)
    ensures ret == 0 ==> Separated(out.data) || (bumpStart && out.data == old(out.data))
  {
    var bump, trueIndex := bumpStart, 0;
    ghost var words0 := Words(out.data);
    WordsFromIsAll(words0, files, 0, checkMasked, local);
    assert files[0..] == files;
    for i := 0 to |files|
      invariant WordsFrom(Words(out.data), files, i, checkMasked, local) ==
                WordsFrom(words0, files, 0, checkMasked, local)
      invariant trueIndex > 0 || Separated(out.data) || (bump && out.data == old(out.data))
      invariant trueIndex >= 0 && !out.failed
      invariant bump ==> bumpStart
    {
      var f := files[i];
      assert NulFreeTarget(f.target);
      if Masked(f, checkMasked, local) {
        continue;
      }
      if trueIndex > 0 || bump {
        WordsOfSpace(out.data);
        var ok := out.Write(" ");
        if !ok {
          return -1;
        }
        bump := false;
      }
      var r := ParseWords(f.target, out);
      if r < 0 {
        return -1;
      } else if r > 0 {
        trueIndex := trueIndex + 1;
      }
    }
    ret := trueIndex;
  }

  /** The words at the end of the file loop, when they were `words` before file `i`. */
  function WordsFrom(words: seq<string>, files: seq<ConfFile>, i: nat, checkMasked: bool,
                     local: seq<ConfFile>): seq<string>
    requires i <= |files|
    decreases |files| - i
  {
    if i == |files| then words
    else if Masked(files[i], checkMasked, local) then WordsFrom(words, files, i + 1, checkMasked, local)
    else WordsFrom(words + WordsOf(files[i].target), files, i + 1, checkMasked, local)
  }

  lemma {:induction false} WordsFromIsAll(words: seq<string>, files: seq<ConfFile>, i: nat, checkMasked: bool,
                                          local: seq<ConfFile>)
    requires i <= |files|
    ensures WordsFrom(words, files, i, checkMasked, local) == words + WordsOfAll(files[i..], checkMasked, local)
    decreases |files| - i
  {
    if i == |files| {
      assert words + [] == words;
    } else {
      assert files[i..][0] == files[i] && files[i..][1..] == files[i + 1..];
      var own, rest := WordsOf(files[i].target), WordsOfAll(files[i + 1..], checkMasked, local);
      if Masked(files[i], checkMasked, local) {
        WordsFromIsAll(words, files, i + 1, checkMasked, local);
      } else {
        WordsFromIsAll(words + own, files, i + 1, checkMasked, local);
        assert words + own + rest == words + (own + rest);
      }
    }
  }

  /** cbm_parse_cmdline_files, on a fresh stream: no two files' words are ever joined, whatever files are empty;
      nothing is returned exactly when a write failed. */
  method MergeFiles(vendor: seq<ConfFile>, cmdline: Target, local: seq<ConfFile>, out: MemStream)
    returns (merged: Option<string>)
    requires forall f | f in vendor + local :: NulFreeTarget(f.target)
    requires NulFreeTarget(cmdline) && out.data == "" && !out.failed
    modifies out
    ensures merged.None? <==> out.failed
    ensures merged.Some? ==> Words(merged.value) == MergedWords(vendor, cmdline, local)
  {
    var n := ParseDirectory(vendor, local, false, true, out);
    if n < 0 {
      return None;
    }
    var bumpStart := n >= 1;
    ghost var vendorWords := Words(out.data);
    assert vendorWords == WordsOfAll(vendor, true, local);
    if !cmdline.Broken? {
      if bumpStart {
        WordsOfSpace(out.data);
        var ok := out.Write(" ");
        if !ok {
          return None;
        }
      }
      var r := ParseWords(cmdline, out);
      if r < 0 {
        return None;
      } else if r > 0 {
        bumpStart := true;
      }
    }
    assert Words(out.data) == vendorWords + WordsOf(cmdline);
    n := ParseDirectory(local, local, bumpStart, false, out);
    merged := if n < 0 then None else Some(out.data);
  }

  // ----- what the results mean -----

  /** Lines the file loop can have written. */
  predicate Clean(line: string) {
    line != "" && '\n' !in line && line[0] != '#' && !IsSpace(line[0]) && !IsSpace(line[|line| - 1])
  }

  lemma UsefulIsClean(line: string)
    requires '\n' !in line && Useful(line).Some?
    ensures Clean(Useful(line).value)
  {
    var l := line[SpaceRun(line)..];
    var t := RStripped(l);
    assert t[0] == l[0];
    assert forall c | c in t :: c in l;
  }

  lemma {:induction false} UsefulLinesAreClean(s: string, from: nat)
    requires from <= |s|
    ensures forall u | u in UsefulLines(s, from) :: Clean(u)
    decreases |s| - from
  {
    if from < |s| {
      UsefulLinesAreClean(s, LineEnd(s, from));
      var line := Chomp(s[from..LineEnd(s, from)]);
      if Useful(line).Some? {
        UsefulIsClean(line);
      }
    }
  }

  lemma {:induction false} JoinIsClean(lines: seq<string>)
    requires lines != [] && forall l | l in lines :: Clean(l)
    ensures Clean(Join(lines)) && Join(lines)[0] == lines[0][0]
  {
    if |lines| > 1 {
      JoinIsClean(lines[1..]);
      var rest := Join(lines[1..]);
      var j := Join(lines);
      assert j == lines[0] + (" " + rest);
      assert j[|j| - 1] == rest[|rest| - 1] && j[0] == lines[0][0];
      assert Clean(lines[0]);
    }
  }

  lemma CleanParsesToItself(s: string)
    requires Clean(s)
    ensures Parsed(s) == s
  {
    assert LineEnd(s, 0) == |s| && s[0..|s|] == s;
    assert Chomp(s) == s;
    SpaceRunIs(s, 0);
    assert s[0..] == s;
    RStrippedIs(s, |s|);
    assert s[..|s|] == s;
    assert Useful(s) == Some(s);
    assert UsefulLines(s, 0) == [s] + UsefulLines(s, |s|) == [s];
  }

  /** Parsing what was parsed changes nothing: blanks, comments and line breaks are gone. */
  lemma ParsedTwice(content: string)
    ensures Parsed(Parsed(content)) == Parsed(content)
    ensures Parsed(content) != "" ==> Clean(Parsed(content))
  {
    var u := UsefulLines(content, 0);
    if u == [] {
      assert Parsed(content) == "" && Parsed("") == "";
    } else {
      UsefulLinesAreClean(content, 0);
      JoinIsClean(u);
      CleanParsesToItself(Parsed(content));
    }
  }

  /** The words of a file are the words of its useful lines, in order. */
  lemma {:induction false} WordsOfJoin(lines: seq<string>)
    ensures Words(Join(lines)) == Concat(seq(|lines|, i requires 0 <= i < |lines| => Words(lines[i])))
  {
    var parts := seq(|lines|, i requires 0 <= i < |lines| => Words(lines[i]));
    if |lines| == 1 {
      assert parts == [Words(lines[0])];
      assert Concat(parts) == Words(lines[0]) + Concat(parts[1..]);
    } else if |lines| > 1 {
      WordsOfJoin(lines[1..]);
      assert parts[1..] == seq(|lines[1..]|, i requires 0 <= i < |lines[1..]| => Words(lines[1..][i]));
      var rest := Join(lines[1..]);
      assert Join(lines) == lines[0] + (" " + rest);
      WordsConcat(lines[0], " " + rest);
      assert (" " + rest)[1..] == rest;
    }
  }

  /** Exactly the words of `line` disappear, from one place, and the others keep their order. */
  predicate TakesWholeWords(before: string, line: string, after: string, result: string) {
    && Words(before + line + after) == Words(before) + Words(line) + Words(after)
    && Words(result) == Words(before) + Words(after)
  }

  /** The first match of the line stands between `before` and `after`, and is cut. */
  predicate CutsBetween(before: string, line: string, after: string) {
    Find(before + line + after, line) == Some(|before|) && (after == "" || after[0] == ' ')
  }

  /** A removal takes whole words exactly when its match starts a word. In the middle of a word it
      instead cuts the word and joins what is left to the next one. */
  lemma RemovalTakesWholeWords(before: string, line: string, after: string)
    requires line != "" && !IsSpace(line[0]) && CutsBetween(before, line, after)
    ensures TakesWholeWords(before, line, after, Removed(before + line + after, line)) <==> Separated(before)
  {
    WordsAround(before, line, after);
    RemovedBetween(before, line, after);
    if Separated(before) {
      WordsLeft(before, after);
    }
  }

  /** Gluing text between two others keeps all words exactly when it does not continue a word. */
  lemma {:induction false} WordsAround(before: string, line: string, after: string)
    requires line != "" && !IsSpace(line[0]) && Unfused(line, after)
    ensures Words(before + line + after) == Words(before) + Words(line) + Words(after) <==> Separated(before)
  {
    WordsConcat(line, after);
    assert before + line + after == before + (line + after);
    if Separated(before) {
      WordsConcat(before, line + after);
      assert Words(before) + (Words(line) + Words(after)) == Words(before) + Words(line) + Words(after);
    } else {
      WordsFuse(before, line + after);
    }
  }

  lemma RemovedBetween(before: string, line: string, after: string)
    requires CutsBetween(before, line, after)
    ensures Removed(before + line + after, line) == before + (if after == "" then "" else after[1..])
  {
    var out := before + line + after;
    var end := |before| + |line|;
    assert out[..|before|] == before;
    if after == "" {
      assert out[end..] == "";
    } else {
      assert out[end] == after[0] && out[end + 1..] == after[1..];
    }
  }

  lemma {:induction false} WordsLeft(before: string, after: string)
    requires Separated(before) && (after == "" || after[0] == ' ')
    ensures Words(before + (if after == "" then "" else after[1..])) == Words(before) + Words(after)
  {
    var rest := if after == "" then "" else after[1..];
    assert Words(after) == Words(rest);
    WordsConcat(before, rest);
  }

  /** A removal file that cannot be opened takes no word; and it leaves all as it is exactly when no blanks are to
      be stripped. */
  lemma UnreadableTakesNothing(b: Held)
    ensures Words(AfterFile(b, None).text) == Words(b.text)
    ensures AfterFile(b, None) == b <==> !b.tight || RStripped(b.text) == b.text
  {
    var s := b.text;
    var m := StrippedLength(s, |s|);
    assert s[..m] + s[m..] == s && s[m..] == s[m..|s|];
    OnlySpaces(s[m..]);
    WordsConcat(s[..m], s[m..]);
  }

  /** With files that all open the length stays right. */
  lemma {:induction false} ReadableStayTight(out: string, files: seq<Option<string>>)
    ensures (forall f | f in files :: f.Some?) ==> AfterFiles(Held(out, true), files).tight
    decreases |files|
  {
    if files != [] && forall f | f in files :: f.Some? {
      assert files[0] in files;
      ReadableStayTight(AfterFile(Held(out, true), files[0]).text, files[1..]);
    }
  }

  lemma FindIs(s: string, p: string, i: nat)
    requires OccursAt(s, p, i) && forall j | 0 <= j < i :: !OccursAt(s, p, j)
    ensures Find(s, p) == Some(i)
  {
  }

  /** Removing "quiet" from "noquiet splash" leaves one word that was in neither. */
  lemma RemovalInsideAWord()
    ensures Removed("noquiet splash", "quiet") == "nosplash"
  {
    var s, p := "noquiet splash", "quiet";
    assert s == "no" + p + " splash";
    assert s[0..5][0] == 'n' && s[1..6][0] == 'o' && p[0] == 'q';
    assert s[2..7] == p;
    FindIs(s, p, 2);
    RemovedBetween("no", p, " splash");
  }
}
