// The issue tree (issue -> variants -> differences) and the plain-text
// report the "Copy Issue Tree" command builds from a selection of issues.
module IssueTree {
  import opened TextLines
  import Decimal

  /** One detected deviation of a variant: the entity name and its altered value. */
  datatype Difference = Difference(name: string, altered: string)

  /** One variant (a "test") of an issue, with its differences in order. */
  datatype Variant = Variant(diffs: seq<Difference>)

  /** An issue: its path in the application tree and its variants in order. */
  datatype Issue = Issue(path: string, variants: seq<Variant>)

  /** The kinds of line a report holds. */
  datatype Line =
    | HeaderLine(count: nat)      // "<count> issue(s) will be copied to the clipboard"
    | PathLine(path: string)      // an issue's path, not indented
    | NameLine(name: string)      // an entity name, one tab deep
    | AlteredLine(altered: string) // an altered value, two tabs deep

  const HeaderSuffix: string := " issue(s) will be copied to the clipboard"

  /** The text of a line, without its terminator. */
  function Render(l: Line): string {
    match l
    case HeaderLine(n) => Decimal.NatToDecimal(n) + HeaderSuffix
    case PathLine(p) => p
    case NameLine(name) => "\t" + name
    case AlteredLine(a) => "\t\t" + a
  }

  /** The texts of a run of lines. */
  function Texts(ls: seq<Line>): seq<string> {
    seq(|ls|, k requires 0 <= k < |ls| => Render(ls[k]))
  }

  lemma TextsAppend(a: seq<Line>, b: seq<Line>)
    ensures Texts(a + b) == Texts(a) + Texts(b)
  {
    assert forall k :: 0 <= k < |a + b| ==> Texts(a + b)[k] == (Texts(a) + Texts(b))[k];
  }

  /** Every difference of the variants, in variant order and then difference order. */
  function AllDiffs(vs: seq<Variant>): seq<Difference> {
    if vs == [] then [] else AllDiffs(vs[..|vs| - 1]) + vs[|vs| - 1].diffs
  }

  /** Flattening runs of variants side by side gives their flattenings side by side. */
  lemma {:induction false} AllDiffsAppend(a: seq<Variant>, b: seq<Variant>)
    ensures AllDiffs(a + b) == AllDiffs(a) + AllDiffs(b)
  {
    if b == [] {
      assert a + b == a;
    } else {
      var c, init, last := a + b, b[..|b| - 1], b[|b| - 1];
      AllDiffsAppend(a, init);
      assert c[..|c| - 1] == a + init && c[|c| - 1] == last;
      calc {
        AllDiffs(c);
        AllDiffs(a + init) + last.diffs;
        (AllDiffs(a) + AllDiffs(init)) + last.diffs;
        AllDiffs(a) + (AllDiffs(init) + last.diffs);
        AllDiffs(a) + AllDiffs(b);
      }
    }
  }

  /** An issue has no difference at all exactly when every one of its variants has none. */
  lemma {:induction false} AllDiffsEmpty(vs: seq<Variant>)
    ensures AllDiffs(vs) == [] <==> forall k :: 0 <= k < |vs| ==> vs[k].diffs == []
  {
    if vs != [] {
      AllDiffsEmpty(vs[..|vs| - 1]);
      assert forall k :: 0 <= k < |vs| - 1 ==> vs[..|vs| - 1][k] == vs[k];
    }
  }

  /** The entity-name line: only for the first difference, if there is one. */
  function NameLines(ds: seq<Difference>): seq<Line> {
    if ds == [] then [] else [NameLine(ds[0].name)]
  }

  /** One altered-value line per difference, in order. */
  function AlteredLines(ds: seq<Difference>): seq<Line> {
    seq(|ds|, j requires 0 <= j < |ds| => AlteredLine(ds[j].altered))
  }

  /** The lines of an issue block whose path is `path` and whose differences are `ds`. */
  function LinesOf(path: string, ds: seq<Difference>): seq<Line> {
    [PathLine(path)] + NameLines(ds) + AlteredLines(ds)
  }

  /** One more difference adds its altered line, and a name line only if it is the first. */
  lemma LinesOfSnoc(path: string, ds: seq<Difference>, d: Difference)
    ensures LinesOf(path, ds + [d])
         == LinesOf(path, ds) + ((if ds == [] then [NameLine(d.name)] else []) + [AlteredLine(d.altered)])
  {
    assert AlteredLines(ds + [d]) == AlteredLines(ds) + [AlteredLine(d.altered)];
    if ds != [] {
      assert (ds + [d])[0] == ds[0];
    }
  }

  /** The lines of one issue's block. */
  function BlockLines(issue: Issue): seq<Line> {
    LinesOf(issue.path, AllDiffs(issue.variants))
  }

  /** The block text as the builder accumulates it once the differences `ds`
      have been visited: the path line, then per difference its name line if
      it is the first one, and its altered line. */
  function Accumulated(path: string, ds: seq<Difference>): string
    decreases |ds|
  {
    if ds == [] then path + CRLF
    else
      var init, d := ds[..|ds| - 1], ds[|ds| - 1];
      var named := if init == [] then Accumulated(path, init) + ("\t" + d.name + CRLF) else Accumulated(path, init);
      named + ("\t\t" + d.altered + CRLF)
  }

  /** Accumulating difference by difference, with the name written only while
      none has been written yet, builds exactly the lines of the block. */
  lemma {:induction false} AccumulatedIsLines(path: string, ds: seq<Difference>)
    ensures Accumulated(path, ds) == Unlines(Texts(LinesOf(path, ds)))
  {
    if ds == [] {
      assert Texts(LinesOf(path, [])) == [path];
      assert Unlines([path]) == path + CRLF + Unlines([]);
    } else {
      var init, d := ds[..|ds| - 1], ds[|ds| - 1];
      assert ds == init + [d];
      AccumulatedIsLines(path, init);
      LinesOfSnoc(path, init, d);
      var extra := (if init == [] then [NameLine(d.name)] else []) + [AlteredLine(d.altered)];
      LinesOfSnoc(path, init, d);
      TextsAppend(LinesOf(path, init), extra);
      UnlinesAppend(Texts(LinesOf(path, init)), Texts(extra));
      var before := Accumulated(path, init);
      var altered := "\t\t" + d.altered;
      if init == [] {
        var name := "\t" + d.name;
        assert Texts(extra) == [name, altered];
        UnlinesTwo(name, altered);
        calc {
          Unlines(Texts(LinesOf(path, ds)));
          Unlines(Texts(LinesOf(path, init)) + Texts(extra));
          before + Unlines(Texts(extra));
          before + ((name + CRLF) + (altered + CRLF));
          { AppendAssoc(before, name + CRLF, altered + CRLF); }
          (before + (name + CRLF)) + (altered + CRLF);
          Accumulated(path, ds);
        }
      } else {
        assert Texts(extra) == [altered];
        UnlinesOne(altered);
      }
    }
  }

  /** One issue's block of text, as the builder accumulates it over every
      difference of the issue. */
  function Block(issue: Issue): string {
    Accumulated(issue.path, AllDiffs(issue.variants))
  }

  /** The block is the issue's lines, each followed by CRLF. */
  lemma BlockIsLines(issue: Issue)
    ensures Block(issue) == Unlines(Texts(BlockLines(issue)))
  {
    AccumulatedIsLines(issue.path, AllDiffs(issue.variants));
  }

  /** Number of entity-name lines in `ls`. */
  function NameCount(ls: seq<Line>): nat {
    if ls == [] then 0 else (if ls[0].NameLine? then 1 else 0) + NameCount(ls[1..])
  }

  lemma {:induction false} NameCountAppend(a: seq<Line>, b: seq<Line>)
    ensures NameCount(a + b) == NameCount(a) + NameCount(b)
  {
    if a == [] {
      assert a + b == b;
    } else {
      NameCountAppend(a[1..], b);
      assert (a + b)[1..] == a[1..] + b;
    }
  }

  lemma {:induction false} NoNameInAltered(ds: seq<Difference>)
    ensures NameCount(AlteredLines(ds)) == 0
  {
    if ds != [] {
      NoNameInAltered(ds[1..]);
      assert AlteredLines(ds)[1..] == AlteredLines(ds[1..]);
    }
  }

  /** The shape of an issue block: the path line once and first; then the
      entity-name line exactly when the issue has a difference, carrying the
      first difference's name and coming before every altered line; then one
      altered line per difference, in variant order and then difference order.
      A block of N differences has 1 + (N > 0 ? 1 : 0) + N lines. */
  lemma BlockShape(issue: Issue)
    ensures var ls, ds := BlockLines(issue), AllDiffs(issue.variants);
      var named := if ds == [] then 0 else 1;
      && |ls| == 1 + named + |ds|
      && ls[0] == PathLine(issue.path)
      && (forall k :: 0 < k < |ls| ==> !ls[k].PathLine? && !ls[k].HeaderLine?)
      && NameCount(ls) == named
      && (forall k :: 0 <= k < |ls| && ls[k].NameLine? ==> k == 1 && ls[k].name == ds[0].name)
      && (forall k :: 0 <= k < |ls| && ls[k].AlteredLine? ==> k > named)
      && (forall j :: 0 <= j < |ds| ==> ls[1 + named + j] == AlteredLine(ds[j].altered))
  {
    var ds := AllDiffs(issue.variants);
    NoNameInAltered(ds);
    NameCountAppend([PathLine(issue.path)] + NameLines(ds), AlteredLines(ds));
    NameCountAppend([PathLine(issue.path)], NameLines(ds));
  }

  /** An issue without differences (no variants, or only empty ones) yields
      exactly its path and a line break. */
  lemma BlockWithoutDifferences(issue: Issue)
    requires forall k :: 0 <= k < |issue.variants| ==> issue.variants[k].diffs == []
    ensures Block(issue) == issue.path + CRLF
  {
    AllDiffsEmpty(issue.variants);
  }

  /** The block of each issue, in input order. */
  function BlockTexts(issues: seq<Issue>): seq<string> {
    seq(|issues|, k requires 0 <= k < |issues| => Block(issues[k]))
  }

  /** The blocks of a run of issues, side by side in input order. */
  function Blocks(issues: seq<Issue>): string {
    Concat(BlockTexts(issues))
  }

  /** No sorting, filtering or separator: the blocks of two runs are the two texts side by side. */
  lemma BlocksAppend(a: seq<Issue>, b: seq<Issue>)
    ensures Blocks(a + b) == Blocks(a) + Blocks(b)
  {
    assert BlockTexts(a + b) == BlockTexts(a) + BlockTexts(b);
    ConcatAppend(BlockTexts(a), BlockTexts(b));
  }

  /** The lines of all blocks, in input order. */
  function AllBlockLines(issues: seq<Issue>): seq<Line> {
    if issues == [] then [] else AllBlockLines(issues[..|issues| - 1]) + BlockLines(issues[|issues| - 1])
  }

  lemma {:induction false} BlocksAreLines(issues: seq<Issue>)
    ensures Blocks(issues) == Unlines(Texts(AllBlockLines(issues)))
  {
    if issues != [] {
      var init, last := issues[..|issues| - 1], issues[|issues| - 1];
      BlocksAreLines(init);
      assert BlockTexts(issues)[..|issues| - 1] == BlockTexts(init);
      assert Blocks(issues) == Blocks(init) + Block(last);
      BlockIsLines(last);
      TextsAppend(AllBlockLines(init), BlockLines(last));
      UnlinesAppend(Texts(AllBlockLines(init)), Texts(BlockLines(last)));
    }
  }

  /** The header line's text. */
  function Header(count: nat): string {
    Render(HeaderLine(count))
  }

  /** The whole report: the count header, then every issue's block in input order. */
  function Report(issues: seq<Issue>): string {
    Header(|issues|) + CRLF + Blocks(issues)
  }

  /** The lines of the whole report. */
  function ReportLines(issues: seq<Issue>): seq<Line> {
    [HeaderLine(|issues|)] + AllBlockLines(issues)
  }

  /** The report opens with the count header, and the number it shows reads
      back as the number of issues in the selection. */
  lemma ReportHeader(issues: seq<Issue>)
    ensures var h := Decimal.NatToDecimal(|issues|);
      && Report(issues)[..|h| + |HeaderSuffix| + 2] == h + HeaderSuffix + CRLF
      && Decimal.DecimalValue(h) == |issues|
  {
    Decimal.DecimalRoundTrip(|issues|);
  }

  /** The report is the join of its lines. */
  lemma ReportIsLines(issues: seq<Issue>)
    ensures Report(issues) == Unlines(Texts(ReportLines(issues)))
  {
    BlocksAreLines(issues);
    TextsAppend([HeaderLine(|issues|)], AllBlockLines(issues));
    UnlinesAppend(Texts([HeaderLine(|issues|)]), Texts(AllBlockLines(issues)));
  }

  /** Every field the block writes is free of line feeds: the path, the
      first difference's name and every altered value. Later names are never
      written, so they may hold anything. */
  predicate SingleLineIssue(issue: Issue) {
    var ds := AllDiffs(issue.variants);
    && SingleLine(issue.path)
    && (|ds| > 0 ==> SingleLine(ds[0].name))
    && forall k :: 0 <= k < |ds| ==> SingleLine(ds[k].altered)
  }

  lemma BlockSingleLine(issue: Issue)
    requires SingleLineIssue(issue)
    ensures forall l :: l in BlockLines(issue) ==> SingleLine(Render(l))
  {
    var ds := AllDiffs(issue.variants);
    var ls := BlockLines(issue);
    forall l | l in ls ensures SingleLine(Render(l)) {
      var k :| 0 <= k < |ls| && ls[k] == l;
      if k > |NameLines(ds)| {
        assert l == AlteredLines(ds)[k - 1 - |NameLines(ds)|];
      }
    }
  }

  lemma {:induction false} AllBlockLinesSingleLine(issues: seq<Issue>)
    requires forall i :: i in issues ==> SingleLineIssue(i)
    ensures forall l :: l in AllBlockLines(issues) ==> SingleLine(Render(l))
  {
    if issues != [] {
      AllBlockLinesSingleLine(issues[..|issues| - 1]);
      BlockSingleLine(issues[|issues| - 1]);
    }
  }

  /** When no written field holds a line feed, splitting the report at its line breaks
      gives back exactly the header line followed by every block's lines, in
      order: so the report has 1 + sum(1 + (N > 0 ? 1 : 0) + N) lines. */
  lemma ReportSplit(issues: seq<Issue>)
    requires forall i :: i in issues ==> SingleLineIssue(i)
    ensures SplitLines(Report(issues)) == Texts(ReportLines(issues))
  {
    ReportIsLines(issues);
    AllBlockLinesSingleLine(issues);
    var ts := Texts(ReportLines(issues));
    var h := Decimal.NatToDecimal(|issues|);
    assert '\n' !in h by {
      assert Decimal.IsDigits(h);
    }
    assert SingleLine(ts[0]);
    forall k | 0 <= k < |ts| ensures SingleLine(ts[k]) {
      if k > 0 {
        assert ReportLines(issues)[k] in AllBlockLines(issues);
      }
    }
    SplitUnlines(ts);
  }

  /** An empty selection yields only the "0 issue(s) will be copied to the clipboard" line. */
  lemma ReportOfNoIssues()
    ensures Report([]) == "0" + HeaderSuffix + CRLF
  {
    assert Decimal.NatToDecimal(0) == "0";
    assert BlockTexts([]) == [];
  }

  /** Worked example: the second difference's name ("Header") is not written,
      because a name was already written for this issue. */
  lemma SecondNameSuppressed()
    ensures Block(Issue("Root/Login", [Variant([Difference("Cookie", "abc"), Difference("Header", "xyz")])]))
         == Unlines(["Root/Login", "\tCookie", "\t\tabc", "\t\txyz"])
  {
    var issue := Issue("Root/Login", [Variant([Difference("Cookie", "abc"), Difference("Header", "xyz")])]);
    assert AllDiffs(issue.variants) == [Difference("Cookie", "abc"), Difference("Header", "xyz")] by {
      assert issue.variants[..0] == [];
    }
    var ds := AllDiffs(issue.variants);
    assert AlteredLines(ds) == [AlteredLine("abc"), AlteredLine("xyz")];
    assert BlockLines(issue) == [PathLine("Root/Login"), NameLine("Cookie"), AlteredLine("abc"), AlteredLine("xyz")];
    ExampleTexts(BlockLines(issue));
    BlockIsLines(issue);
  }

  lemma ExampleTexts(ls: seq<Line>)
    requires ls == [PathLine("Root/Login"), NameLine("Cookie"), AlteredLine("abc"), AlteredLine("xyz")]
    ensures Texts(ls) == ["Root/Login", "\tCookie", "\t\tabc", "\t\txyz"]
  {
    var ts := Texts(ls);
    assert ts[1] == "\t" + "Cookie" == "\tCookie";
    assert ts[2] == "\t\t" + "abc" == "\t\tabc";
    assert ts[3] == "\t\t" + "xyz" == "\t\txyz";
  }
}
