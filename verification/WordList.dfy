/** The words of a kernel command line, and how they survive gluing strings together. */
module WordList {
  import opened Text

  function Words(s: string): (ws: seq<string>)
    ensures s != "" && !IsSpace(s[0]) ==> ws != []
  {
    if s == "" then []
    else
      var rest := Words(s[1..]);
      if IsSpace(s[0]) then rest
      else if |s| == 1 || IsSpace(s[1]) then [[s[0]]] + rest
      else [[s[0]] + rest[0]] + rest[1..]
  }

  /** Text can be glued here without joining two words. */
  predicate Unfused(a: string, b: string) {
    a == "" || b == "" || IsSpace(a[|a| - 1]) || IsSpace(b[0])
  }

  lemma {:induction false} WordsConcat(a: string, b: string)
    requires Unfused(a, b)
    ensures Words(a + b) == Words(a) + Words(b)
  {
    if a == "" {
      assert a + b == b;
    } else if b == "" {
      assert a + b == a;
    } else {
      WordsConcat(a[1..], b);
      assert (a + b)[1..] == a[1..] + b;
      if |a| == 1 {
        assert a[1..] == "" && (a + b)[1] == b[0];
      } else {
        assert (a + b)[1] == a[1];
      }
    }
  }

  /** Gluing a word end to a word start makes one word of two. */
  lemma {:induction false} WordsFuse(a: string, b: string)
    requires !Unfused(a, b)
    ensures |Words(a + b)| == |Words(a)| + |Words(b)| - 1
  {
    assert (a + b)[1..] == a[1..] + b;
    if |a| == 1 {
      assert a[1..] == "" && a[1..] + b == b && (a + b)[1] == b[0];
    } else {
      WordsFuse(a[1..], b);
      assert (a + b)[1] == a[1];
    }
  }

  lemma {:induction false} OnlySpaces(s: string)
    requires forall c | c in s :: IsSpace(c)
    ensures Words(s) == []
  {
    if s != "" {
      OnlySpaces(s[1..]);
    }
  }

  function Concat(parts: seq<seq<string>>): seq<string> {
    if parts == [] then [] else parts[0] + Concat(parts[1..])
  }
}
