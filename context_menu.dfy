// The "Copy Issue Tree" context-menu extension: the per-issue block builder
// and the action that composes the report and keeps it for the clipboard.
module IssueVariantTree {
  import opened TextLines
  import opened IssueTree
  import Decimal

  datatype Option<T> = None | Some(value: T)

  class ContextMenu {
    /** The report handed to the clipboard writer; None until the first copy. */
    var clipboardObject: Option<string>

    constructor ()
      ensures clipboardObject == None
    {
      clipboardObject := None;
    }

    /** Builds one issue's block: the path line, the name of the first
        difference met in any variant (once, guarded by `entityWritten`),
        and every difference's altered value. Reads and changes no field. */
    method IssueTreeOutput(issue: Issue) returns (s: string)
      ensures s == Block(issue)
    {
      var vs := issue.variants;
      s := issue.path + CRLF;
      var entityWritten := false;
      ghost var seen: seq<Difference> := [];
      var vi := 0;
      while vi < |vs|
        invariant 0 <= vi <= |vs|
        invariant seen == AllDiffs(vs[..vi])
        invariant s == Accumulated(issue.path, seen)
        invariant entityWritten == (|seen| > 0)
      {
        var diffs := vs[vi].diffs;
        AllDiffsSnoc(vs, vi);
        ghost var before := seen;
        var di := 0;
        while di < |diffs|
          invariant 0 <= di <= |diffs|
          invariant seen == before + diffs[..di]
          invariant s == Accumulated(issue.path, seen)
          invariant entityWritten == (|seen| > 0)
        {
          var d := diffs[di];
          AccumulatedSnoc(issue.path, seen, d);
          if !entityWritten {
            s := s + ("\t" + d.name + CRLF);
            entityWritten := true;
          }
          s := s + ("\t\t" + d.altered + CRLF);
          PrefixSnoc(before, diffs, di);
          seen := seen + [d];
          di := di + 1;
        }
        assert diffs[..di] == diffs;
        vi := vi + 1;
      }
      assert vs[..vi] == vs;
    }

    /** The menu action. With no selection it does nothing; otherwise it
        writes the count header, appends each issue's block in selection
        order and keeps the result in `clipboardObject`. */
    method DelegateContextMenuAction(issues: Option<seq<Issue>>)
      modifies this
      ensures issues.None? ==> clipboardObject == old(clipboardObject)
      ensures issues.Some? ==> clipboardObject == Some(Report(issues.value))
    {
      if issues.Some? {
        var selection := issues.value;
        var clip := Decimal.NatToDecimal(|selection|) + HeaderSuffix + CRLF;
        var i := 0;
        assert BlockTexts(selection[..0]) == [];
        assert clip == Header(|selection|) + CRLF + Blocks(selection[..0]) by {
          assert Blocks(selection[..0]) == "";
          AppendEmpty(Header(|selection|) + CRLF);
        }
        while i < |selection|
          invariant 0 <= i <= |selection|
          invariant clip == Header(|selection|) + CRLF + Blocks(selection[..i])
        {
          var block := IssueTreeOutput(selection[i]);
          BlocksSnoc(selection, i);
          AppendAssoc(Header(|selection|) + CRLF, Blocks(selection[..i]), block);
          clip := clip + block;
          i := i + 1;
        }
        assert selection[..i] == selection;
        clipboardObject := Some(clip);
      }
    }
  }

  /** Visiting one more difference appends its name line only while nothing
      has been visited, then its altered line. */
  lemma AccumulatedSnoc(path: string, done: seq<Difference>, d: Difference)
    ensures Accumulated(path, done + [d])
         == (if |done| == 0 then Accumulated(path, done) + ("\t" + d.name + CRLF) else Accumulated(path, done))
            + ("\t\t" + d.altered + CRLF)
  {
    assert (done + [d])[..|done|] == done;
  }

  lemma PrefixSnoc(before: seq<Difference>, diffs: seq<Difference>, di: nat)
    requires di < |diffs|
    ensures before + diffs[..di + 1] == (before + diffs[..di]) + [diffs[di]]
  {
    assert diffs[..di + 1] == diffs[..di] + [diffs[di]];
  }

  /** The differences of one more variant follow those already seen. */
  lemma AllDiffsSnoc(vs: seq<Variant>, vi: nat)
    requires vi < |vs|
    ensures AllDiffs(vs[..vi + 1]) == AllDiffs(vs[..vi]) + vs[vi].diffs
  {
    assert vs[..vi + 1][..vi] == vs[..vi];
  }

  /** One more issue appends its block and nothing else. */
  lemma BlocksSnoc(issues: seq<Issue>, i: nat)
    requires i < |issues|
    ensures Blocks(issues[..i + 1]) == Blocks(issues[..i]) + Block(issues[i])
  {
    assert BlockTexts(issues[..i + 1]) == BlockTexts(issues[..i]) + [Block(issues[i])];
  }
}
