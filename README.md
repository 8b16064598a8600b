# Issue Variant Tree: the "Copy Issue Tree" serialiser

A model of the core of the IssueVariantTree extension for the AppScan
scanner GUI. When the user picks "Copy Issue Tree" on a selection of issues,
the extension writes a plain-text report and hands it to the clipboard:

```
<n> issue(s) will be copied to the clipboard\r\n
<issue path>\r\n
\t<name of the first difference of the issue>\r\n
\t\t<altered value of a difference>\r\n      (one per difference)
...next issue...
```

Each issue is a tree: the issue owns variants (AppScan "tests"), and each
variant owns differences, each with a `Name` and an `Altered` value. The
block builder `issueTreeOutput` walks that tree with nested loops. A flag,
`entityWritten`, makes sure that only one name line is written per issue:
the name of the first difference found in any variant. Every later name is
dropped, even one from another variant or one that differs from the first.
The model keeps this rule exactly as the code has it.

Files and modules:

- `issue_tree.dfy`, module `IssueTree`: the `Difference`, `Variant` and
  `Issue` datatypes. A `Line` datatype names the four kinds of report line.
  The specification functions are `Accumulated`, `Block` and `Report`, which
  follow how the text is built, and `BlockLines` and `ReportLines`, which
  describe the same text as a list of lines. The lemmas relate the two views
  and prove the block and report properties.
- `context_menu.dfy`, module `IssueVariantTree`: the class `ContextMenu`. Its
  field `clipboardObject` holds the report. Its methods `IssueTreeOutput` and
  `DelegateContextMenuAction` mirror the source loops (`s +=`, `clip +=`, the
  `entityWritten` flag). Each is proved equal to the specification functions.
- `text_lines.dfy`, module `TextLines`: joins lines with CRLF (`Unlines`) and
  splits text back into lines (`SplitLines`). The round trip is proved for
  lines that hold no line feed.
- `decimal.dfy`, module `Decimal`: writes the issue count in decimal. Reading
  the digits back gives the count.

The C# field `clipboardObject` has type `Object` and starts out null. The
model gives it the type `Option<string>`, which is `None` until the first
copy. A null `args.issues` is modelled as `None` for the selection.

## Model

| member | source | states |
|---|---|---|
| `IssueVariantTree.ContextMenu.IssueTreeOutput` | trunk/ContextMenu.cs:125-142 | The nested loops with the `entityWritten` flag return exactly `Block(issue)`. So the result depends only on the issue. The method has no `modifies` clause, so it changes no field. |
| `IssueVariantTree.ContextMenu.DelegateContextMenuAction` | trunk/ContextMenu.cs:94-109 | With no selection, `clipboardObject` is unchanged. Otherwise it becomes `Some(Report(issues))`: the count header, then every block in selection order. |
| `IssueVariantTree.ContextMenu.constructor` | trunk/ContextMenu.cs:33 | `clipboardObject` starts out empty (null in the source). |
| `IssueVariantTree.AccumulatedSnoc` | trunk/ContextMenu.cs:133-138 | Loop-step helper of `IssueTreeOutput`: it unfolds `Accumulated` at one more difference, so the inner loop body can be matched to it. The behaviour it describes (the name line only while no difference was seen, then the altered line) is stated about the line view by `LinesOfSnoc`. |
| `IssueTree.AccumulatedIsLines` | trunk/ContextMenu.cs:127-141 | Building the text difference by difference with the once-only name gives exactly the lines path, then the first name if any, then every altered value, each ended by CRLF. |
| `IssueTree.BlockIsLines` | trunk/ContextMenu.cs:125-142 | An issue's block is its `BlockLines`, each line followed by CRLF. |
| `IssueTree.BlockShape` | trunk/ContextMenu.cs:127-139 | The path line comes first and appears once. There is one name line exactly when the issue has a difference. It is line 1, carries the first difference's name and comes before every altered line. Then come N altered lines, in variant order and then difference order. So the block has 1 + (N > 0 ? 1 : 0) + N lines. |
| `IssueTree.LinesOfSnoc` | trunk/ContextMenu.cs:133-138 | A further difference adds a name line only if it is the first difference, and always adds its altered line. |
| `IssueTree.AllDiffsEmpty` | trunk/ContextMenu.cs:129-131 | An issue has no difference in the traversal exactly when every one of its variants has none. Both directions are proved. |
| `IssueTree.AllDiffsAppend` | trunk/ContextMenu.cs:129-131 | The traversal visits variants in order: the differences of two runs of variants are the two sequences side by side. |
| `IssueTree.BlockWithoutDifferences` | trunk/ContextMenu.cs:127-141 | An issue with no variants, or with only empty variants, yields exactly `path + "\r\n"`. |
| `IssueTree.SecondNameSuppressed` | trunk/ContextMenu.cs:133-138 | Path "Root/Login" with differences Cookie/abc and Header/xyz gives the lines "Root/Login", "\tCookie", "\t\tabc" and "\t\txyz". The name "Header" is not written. |
| `IssueTree.BlocksAppend` | trunk/ContextMenu.cs:100-101 | The blocks are joined in input order with no separator, sorting or filtering. The blocks of a + b are the blocks of a followed by the blocks of b. |
| `IssueTree.BlocksAreLines` | trunk/ContextMenu.cs:100-101 | The joined blocks are the lines of every issue, in input order, each followed by CRLF. |
| `IssueTree.ReportHeader` | trunk/ContextMenu.cs:98 | The report starts with `<count> + " issue(s) will be copied to the clipboard\r\n"`. The decimal count reads back as the number of issues in the selection. |
| `IssueTree.ReportIsLines` | trunk/ContextMenu.cs:98-101 | The report is the header line followed by every block's lines, each followed by CRLF. |
| `IssueTree.ReportSplit` | trunk/ContextMenu.cs:98-101 | If no written field (the path, the first difference's name, any altered value) holds a line feed, splitting the report at its line breaks gives exactly the header line and then each block's lines, in order. |
| `IssueTree.ReportOfNoIssues` | trunk/ContextMenu.cs:98-102 | An empty selection yields only `"0 issue(s) will be copied to the clipboard\r\n"`. |
| `Decimal.NatToDecimal` | trunk/ContextMenu.cs:98 | The count is written with at least one decimal digit and no leading zero. |
| `Decimal.DecimalRoundTrip` | trunk/ContextMenu.cs:98 | Parsing the written count gives back the count. |
| `TextLines.SplitUnlines` | trunk/ContextMenu.cs:127-138 | Lines that hold no line feed, each ended by CRLF, split back into the same lines. |

## Left out

- `Load`, `InitGuiHooks`, `RegisterGuiHooks` and `CreateIssueContextMenuItems` (trunk/ContextMenu.cs:48-83) are left out. They register the menu item through the AppScan extension API and compute nothing.
- `writeToClipboard` and the STA thread that runs it (trunk/ContextMenu.cs:104-107, 115-118) are left out. They are Windows Forms clipboard I/O and threading. The model ends at the assignment to `clipboardObject`. The code has no retry, so the model has none.
- `GetUpdateData` and the version, version-range and download-URI fields (trunk/ContextMenu.cs:27-29, 155-158) are left out. They are fixed metadata for the host's update check.
- A null `Path`, `Name` or `Altered` string is concatenated in C# as the empty string, so it yields the same text as the model's `""`. What throws a NullReferenceException in the C# is a null `AppTreeNode` (trunk/ContextMenu.cs:127), a null `Variants` collection (:129), a null variant or a null `Differences` collection (:131), a null difference (:133-138) and a null element of `args.issues` (:100-101). The model's datatypes and sequences hold no null, so these exceptions are not modelled.
- `Decimal.NatToDecimal`: only the plain decimal digits of `Int32.ToString` are modelled. Culture-specific number formatting is not modelled. `ICollection.Count` is unbounded here, with no 32-bit limit.
- `IssueTree.ReportSplit` and `TextLines.SplitUnlines` assume that no written field holds a line feed. A written field with a line feed would read as extra lines. Names after the first are never written, so they are not constrained. The statements about the string itself (`BlockIsLines`, `ReportIsLines`) and about the line structure (`BlockShape`) hold without this assumption.
- Issues, variants and differences are modelled as immutable values read in order. Any change made to the AppScan objects while the loop runs is not modelled.
