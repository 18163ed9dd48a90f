/**
 * Text read line by line: str.split('\n') and what joining with a newline
 * does to the resulting lines.
 */
module Lines {
  predicate NoNewline(s: string)
  {
    '\n' !in s
  }

  /** s.split('\n'): the pieces between newlines; a text without one is a single line. */
  function SplitLines(s: string): (r: seq<string>)
    ensures |r| >= 1
  {
    if s == [] then [[]]
    else
      var rest := SplitLines(s[1..]);
      if s[0] == '\n' then [[]] + rest else [[s[0]] + rest[0]] + rest[1..]
  }

  lemma NoNewlineCat(a: string, b: string)
    requires NoNewline(a) && NoNewline(b)
    ensures NoNewline(a + b)
  {
    forall i | 0 <= i < |a + b|
      ensures (a + b)[i] != '\n'
    {
      if i < |a| {
        assert (a + b)[i] == a[i];
      } else {
        assert (a + b)[i] == b[i - |a|];
      }
    }
  }

  lemma JoinAssoc(a: string, b: string, c: string)
    ensures a + (b + "\n" + c) == a + b + "\n" + c
  {
  }

  /** A text without a newline is one line. */
  lemma {:induction false} SplitSingle(s: string)
    requires NoNewline(s)
    ensures SplitLines(s) == [s]
  {
    if s != [] {
      SplitSingle(s[1..]);
      assert [s[0]] + s[1..] == s;
    }
  }

  /** SplitLines on a text that starts with c and goes on with t. */
  lemma SplitCons(s: string, c: char, t: string)
    requires s != [] && s[0] == c && s[1..] == t
    ensures c == '\n' ==> SplitLines(s) == [[]] + SplitLines(t)
    ensures c != '\n' ==> SplitLines(s) == [[c] + SplitLines(t)[0]] + SplitLines(t)[1..]
  {
  }

  /** Extending the first of several lines commutes with appending more lines. */
  lemma ExtendFirst(c: char, a: seq<string>, b: seq<string>)
    requires |a| >= 1
    ensures [[c] + (a + b)[0]] + (a + b)[1..] == ([[c] + a[0]] + a[1..]) + b
  {
    assert (a + b)[0] == a[0];
    assert (a + b)[1..] == a[1..] + b;
  }

  /** Joining two texts with a newline joins their lines. */
  lemma {:induction false} SplitJoin(x: string, y: string)
    ensures SplitLines(x + "\n" + y) == SplitLines(x) + SplitLines(y)
  {
    var s := x + "\n" + y;
    if x == [] {
      assert s[0] == '\n' && s[1..] == y;
      SplitCons(s, '\n', y);
      assert SplitLines(x) == [[]];
    } else {
      var c := x[0];
      var t := x[1..] + "\n" + y;
      assert s[0] == c && s[1..] == t;
      SplitJoin(x[1..], y);
      var a := SplitLines(x[1..]);
      var b := SplitLines(y);
      SplitCons(s, c, t);
      SplitCons(x, c, x[1..]);
      if c == '\n' {
        assert [[]] + (a + b) == ([[]] + a) + b;
      } else {
        ExtendFirst(c, a, b);
      }
    }
  }

  /** The lines, each preceded by a newline. */
  function NewlineJoined(lines: seq<string>): string
  {
    if lines == [] then [] else NewlineJoined(lines[..|lines| - 1]) + "\n" + lines[|lines| - 1]
  }

  /** Lines without newlines, joined after a text, come back as lines of their own. */
  lemma {:induction false} JoinedLines(old_: string, lines: seq<string>)
    requires forall k :: 0 <= k < |lines| ==> NoNewline(lines[k])
    ensures SplitLines(old_ + NewlineJoined(lines)) == SplitLines(old_) + lines
    decreases |lines|
  {
    if lines == [] {
      assert old_ + NewlineJoined(lines) == old_;
    } else {
      var front := lines[..|lines| - 1];
      var line := lines[|lines| - 1];
      JoinedLines(old_, front);
      var t := old_ + NewlineJoined(front);
      JoinAssoc(old_, NewlineJoined(front), line);
      SplitJoin(t, line);
      SplitSingle(line);
      assert lines == front + [line];
    }
  }

  lemma OneLine(a: string)
    ensures NewlineJoined([a]) == "\n" + a
  {
    assert [a][..0] == [];
    assert NewlineJoined([a]) == [] + "\n" + a;
    assert [] + "\n" + a == "\n" + a;
  }

  lemma TwoLines(a: string, b: string)
    ensures NewlineJoined([a, b]) == "\n" + a + "\n" + b
  {
    assert [a, b][..1] == [a];
    OneLine(a);
  }

  lemma ThreeLines(a: string, b: string, c: string)
    ensures NewlineJoined([a, b, c]) == "\n" + a + "\n" + b + "\n" + c
  {
    assert [a, b, c][..2] == [a, b];
    TwoLines(a, b);
  }
}
