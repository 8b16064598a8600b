// CRLF-terminated text: joining lines into one string, and splitting a
// string back into its lines.
module TextLines {

  /** The Windows line terminator every emitted line ends with. */
  const CRLF: string := "\r\n"

  /** A line that holds no line feed, so a reader sees it as one line. */
  predicate SingleLine(l: string) {
    '\n' !in l
  }

  /** Each line followed by CRLF, in order. */
  function Unlines(ls: seq<string>): string {
    if ls == [] then "" else ls[0] + CRLF + Unlines(ls[1..])
  }

  /** Joining is a homomorphism: the text of two runs of lines is the two texts side by side. */
  lemma {:induction false} UnlinesAppend(a: seq<string>, b: seq<string>)
    ensures Unlines(a + b) == Unlines(a) + Unlines(b)
  {
    if a == [] {
      assert a + b == b;
    } else {
      UnlinesAppend(a[1..], b);
      assert (a + b)[0] == a[0] && (a + b)[1..] == a[1..] + b;
      calc {
        Unlines(a + b);
        a[0] + CRLF + Unlines(a[1..] + b);
        a[0] + CRLF + (Unlines(a[1..]) + Unlines(b));
        { AppendAssoc(a[0] + CRLF, Unlines(a[1..]), Unlines(b)); }
        Unlines(a) + Unlines(b);
      }
    }
  }

  lemma UnlinesOne(x: string)
    ensures Unlines([x]) == x + CRLF
  {
    assert Unlines([x]) == x + CRLF + Unlines([]);
  }

  lemma UnlinesTwo(x: string, y: string)
    ensures Unlines([x, y]) == (x + CRLF) + (y + CRLF)
  {
    assert [x, y][1..] == [y];
    UnlinesOne(y);
  }

  lemma AppendEmpty(x: string)
    ensures x + "" == x
  {
  }

  lemma AppendAssoc(x: string, y: string, z: string)
    ensures x + (y + z) == (x + y) + z
  {
  }

  /** The strings side by side, in order, with nothing between them. */
  function Concat(ss: seq<string>): string {
    if ss == [] then "" else Concat(ss[..|ss| - 1]) + ss[|ss| - 1]
  }

  lemma {:induction false} ConcatAppend(a: seq<string>, b: seq<string>)
    ensures Concat(a + b) == Concat(a) + Concat(b)
  {
    if b == [] {
      assert a + b == a;
    } else {
      var c, init, last := a + b, b[..|b| - 1], b[|b| - 1];
      ConcatAppend(a, init);
      assert c[..|c| - 1] == a + init && c[|c| - 1] == last;
      calc {
        Concat(c);
        Concat(a + init) + last;
        (Concat(a) + Concat(init)) + last;
        { AppendAssoc(Concat(a), Concat(init), last); }
        Concat(a) + (Concat(init) + last);
        Concat(a) + Concat(b);
      }
    }
  }

  /** Index of the first line feed in `s`, or |s| when there is none. */
  function IndexOfLF(s: string): (k: nat)
    ensures k <= |s|
    ensures k < |s| ==> s[k] == '\n'
    ensures forall j :: 0 <= j < k ==> s[j] != '\n'
  {
    if s == [] then 0
    else if s[0] == '\n' then 0
    else 1 + IndexOfLF(s[1..])
  }

  /** `l` without one trailing carriage return, if it has one. */
  function DropCR(l: string): (r: string)
    ensures l == r || l == r + "\r"
  {
    if |l| > 0 && l[|l| - 1] == '\r' then l[..|l| - 1] else l
  }

  /** The lines of `s`: split at each line feed, dropping the CR before it;
      a trailing piece without a terminator is the last line. */
  function SplitLines(s: string): seq<string>
    decreases |s|
  {
    if s == [] then []
    else
      var k := IndexOfLF(s);
      if k == |s| then [s] else [DropCR(s[..k])] + SplitLines(s[k + 1..])
  }

  /** In a single-line line followed by CRLF, the first line feed is the terminator's. */
  lemma IndexAfterLine(l: string, rest: string)
    requires SingleLine(l)
    ensures IndexOfLF(l + CRLF + rest) == |l| + 1
  {
    var s := l + CRLF + rest;
    assert s[|l| + 1] == '\n';
    forall j | 0 <= j <= |l| ensures s[j] != '\n' {
      if j < |l| {
        assert s[j] == l[j];
      }
    }
  }

  /** Splitting a single-line line followed by CRLF yields that line, then the rest's lines. */
  lemma SplitFirst(l: string, rest: string)
    requires SingleLine(l)
    ensures SplitLines(l + CRLF + rest) == [l] + SplitLines(rest)
  {
    var s := l + CRLF + rest;
    IndexAfterLine(l, rest);
    assert s[..|l| + 1] == l + "\r";
    assert DropCR(l + "\r") == l;
    assert s[|l| + 2..] == rest;
  }

  /** Splitting the joined text of single-line lines gives those lines back. */
  lemma {:induction false} SplitUnlines(ls: seq<string>)
    requires forall k :: 0 <= k < |ls| ==> SingleLine(ls[k])
    ensures SplitLines(Unlines(ls)) == ls
  {
    if ls != [] {
      var rest := Unlines(ls[1..]);
      assert Unlines(ls) == ls[0] + CRLF + rest;
      SplitFirst(ls[0], rest);
      SplitUnlines(ls[1..]);
      assert ls == [ls[0]] + ls[1..];
    }
  }
}
