# HTML fragment generators

A Dafny model of the three HTML builders in `src/services/html_generator.py`.
They build the body of the reply e-mail that answers a request: `html_mail` in the same file wraps the fragment they return.

- `html_table(dataframe, note, format)` renders a table description. The description is a "single" table of plain rows or a "group" table. In a group table one bold label cell spans all rows of each group.
- `html_msg(msg, status, bold_all)` renders the one-paragraph reply to a request.
- `html_tree(path, sub_dirs)` renders a heading and an ASCII drawing of a directory's entries, one level deep.

`html_table` and `html_tree` grow a string with `+=` in loops. `html_msg` has no loop; it is straight-line code with two conditional `+=`, modelled as the pure function `HtmlMessage.HtmlMsg`. The model follows that form:

- Every loop is a Dafny `method` with a `while` or `for` loop and invariants, and so is each builder made of loops (`HtmlTable.RenderTable`, `HtmlTree.RenderTree`).
- Each method is proved to return exactly the value of a specification function.
- Lemmas state, in closed form, what that value contains.

The files are:

- `html_text.dfy` (module `HtmlText`): in-order concatenation `FlatMap`, which is the shape of every `+=` loop. It also holds Python's `str` of a non-negative integer, used for `rowspan`, and generic sequence lemmas.
- `html_table.dfy` (module `HtmlTable`): the table description as a datatype, the body rows as a sequence of `Row(odd, last, cells)`, the markup of each piece, and the renderer loop by loop.
- `html_table_facts.dfy` (module `HtmlTableFacts`): facts about the rendered table. They cover the note and header prefix, striping, the `last-row` marker, the label column and row counts.
- `html_msg.dfy` (module `HtmlMessage`): the message paragraph and a parser that reads it back.
- `html_tree.dfy` (module `HtmlTree`): path normalisation, `os.path.join`, the drawing loop, and a reader that splits the drawing back into lines.

Behaviour the model keeps from the code:

- A group with several members never marks its first row `last-row`. The last-row rule on lines 57 and 71 still marks exactly the final physical row of the table (`HtmlTableFacts.GroupLastRow`).
- The one exception is a last group with no members. That case is allowed when there are at most one column, because `range(n_col - 1)` is then empty. Such a group emits only its label row, with `rowspan="0"`, and then no row is marked `last-row`.
- The code accepts group tables with zero or one column and renders them without data cells. The model follows the code here: `LabelledWidth` is `n_col - 1`, or 0 when there are no columns. It does not require the two or more columns that a grouped table would need to make sense.
- The fallback `'This device/'` on line 115 can never be chosen, because the shown path is never empty. `HtmlTree.TreeLinesShape` proves that the first line of the drawing is always the shown path.

## Model

| member | source | states |
|---|---|---|
| HtmlTable.RenderTable | src/services/html_generator.py:4-79 | the returned fragment is exactly the note paragraph, the header and the HTML of the body rows the table kind calls for (`TableHtml`) |
| HtmlTable.RenderHeader | src/services/html_generator.py:23-28 | the `<table class=...>` tag, then the first-row `<tr>` with one `<th>` per column in order |
| HtmlTable.RenderRowOpen | src/services/html_generator.py:34-39 | the row opening carries `odd-row ` and `last-row ` as the two flags require |
| HtmlTable.RenderCells | src/services/html_generator.py:41-42 | the cell loop emits one `<td>` per value of the first n values, in order |
| HtmlTable.RenderSingleBody | src/services/html_generator.py:30-43 | the single-table loop emits the HTML of the row sequence `SingleBody` |
| HtmlTable.RenderFirstRow | src/services/html_generator.py:53-64 | a group's first row is the label cell with its rowspan, then the first member's data cells |
| HtmlTable.RenderLaterRows | src/services/html_generator.py:66-77 | the inner loop from member 1 emits one row per further member, in order |
| HtmlTable.RenderGroupBody | src/services/html_generator.py:45-77 | the group loop emits the HTML of the row sequence `GroupBody` |
| HtmlTable.RowClassMarkers | src/services/html_generator.py:34-39 | the class names `odd-row` exactly when the row is odd and ends with `last-row ` exactly when it is last (both directions) |
| HtmlTableFacts.TablePrefix | src/services/html_generator.py:12-28 | the fragment starts with the note paragraph and then the header; it opens with the note exactly when the note is non-empty; without body rows, or for an unknown kind, it is the note and header alone |
| HtmlTableFacts.TableEndsWithRow | src/services/html_generator.py:25-79 | every fragment ends with `</tr>` (the header or the last body row); no `</table>` is emitted |
| HtmlTableFacts.SingleTableShape | src/services/html_generator.py:30-43 | a single table has one row per data row; row i is odd iff i is odd and last iff i is n-1, and carries the first n_col values of data row i in order |
| HtmlTableFacts.SingleHasNoLabel | src/services/html_generator.py:30-43 | a single table has no label cell |
| HtmlTableFacts.FirstRowCells | src/services/html_generator.py:61-63 | a group's first row is the label cell spanning the member count, then n_col-1 data cells from member 0 |
| HtmlTableFacts.MemberRowCells | src/services/html_generator.py:75-76 | every later member row holds that member's first n_col-1 values in order |
| HtmlTableFacts.GroupBlockRows | src/services/html_generator.py:53-77 | group i emits max(members, 1) rows: the first row, then one row per member j >= 1 |
| HtmlTableFacts.GroupBlockMarkers | src/services/html_generator.py:54-72 | every row of group i is odd iff i is odd; the first row is last iff the group is the last one and has one member; member row j is last iff the group is last and j is its last member |
| HtmlTableFacts.GroupBodyAt | src/services/html_generator.py:45-77 | physical row k of the body is the matching row of group i when k falls in that group's range of rows |
| HtmlTableFacts.GroupStriping | src/services/html_generator.py:55-72 | every physical row of group i, wherever it falls in the body, is striped iff i is odd |
| HtmlTableFacts.NoLastRowBeforeLastGroup | src/services/html_generator.py:57-72 | no row of any group before the last one is marked last |
| HtmlTableFacts.GroupLastRow | src/services/html_generator.py:57-72 | a body row is marked last iff it is the final physical row and the last group has members |
| HtmlTableFacts.GroupRowTotal | src/services/html_generator.py:48-77 | when every group has a member, the body has as many rows as there are members in all groups |
| HtmlTableFacts.GroupLabelColumn | src/services/html_generator.py:61 | the body holds exactly one label cell per group, in group order, and its span is that group's member count |
| HtmlText.DecimalRoundTrip | src/services/html_generator.py:61 | the `rowspan` digits read back as the member count |
| HtmlMessage.MessageClass | src/services/html_generator.py:88-95 | the class value; its meaning is stated by `MessageClassRoundTrip` |
| HtmlMessage.MessageClassRoundTrip | src/services/html_generator.py:88-95 | the class value determines both inputs: it is parsed back as `bold ` exactly when bold_all, followed by `ok` for a true status, `error` for a false one and nothing at all without a status; it holds no double quote |
| HtmlMessage.MessageText | src/services/html_generator.py:87-94 | the text starts with the message and is the message plus ` Please try again later.` iff the status is False; otherwise it is the message |
| HtmlMessage.HtmlMsg | src/services/html_generator.py:82-98 | `html_msg`: reading the paragraph back gives exactly the class value and the text that were put in |
| HtmlMessage.FrameRoundTrip | src/services/html_generator.py:97 | any quote-free class value and any text are recovered from the paragraph built around them |
| HtmlMessage.DoneExample | src/services/html_generator.py:82-98 | `html_msg("Done", True)` has class `ok` and the text `Done` |
| HtmlMessage.FailedExample | src/services/html_generator.py:82-98 | `html_msg("Failed", False, True)` has classes `bold error` and its text ends with the retry hint |
| HtmlTree.RenderTree | src/services/html_generator.py:101-128 | the returned fragment is the heading for the shown path, then the ascii paragraph holding the drawing (`TreeHtml`) |
| HtmlTree.RenderAscii | src/services/html_generator.py:115-124 | the drawing loop builds the shown path followed by one line per entry, joined by newlines |
| HtmlTree.Slashes | src/services/html_generator.py:108 | same length, and every backslash, and nothing else, is replaced by a slash |
| HtmlTree.NoBackslash | src/services/html_generator.py:108 | after the replacement no backslash is left |
| HtmlTree.ShownPathRules | src/services/html_generator.py:106-111 | the shown path is never empty and has no backslash; it is the normalised path (or `this device`) with `/` appended iff that path is a directory, and unchanged otherwise |
| HtmlTree.JoinPathRules | src/services/html_generator.py:120 | `os.path.join` ends with the name; an absolute name replaces the directory; otherwise it is the name for an empty directory, directory + name when the directory ends with `/`, and directory + `/` + name when it does not |
| HtmlTree.TreeLinesAt | src/services/html_generator.py:115-124 | after n iterations the drawing has n+1 lines: the shown path, then the line of entry k-1 at line k |
| HtmlTree.TreeLinesShape | src/services/html_generator.py:115-124 | the first line is always the shown path, so the `This device/` fallback is never used; line k is entry k-1 |
| HtmlTree.EntryRules | src/services/html_generator.py:119-124 | an entry starts with `└──` iff it is the last one and with `├──` iff it is not; then a space, then the name with `/` appended iff the joined path is a directory |
| HtmlTree.EmptyTree | src/services/html_generator.py:113-126 | without entries the ascii paragraph holds the shown path alone |
| HtmlTree.TreeReadsBack | src/services/html_generator.py:115-126 | when neither the path nor any name holds a newline, splitting the drawing at its newlines gives back exactly its lines |
| HtmlTree.LinesRoundTrip | src/services/html_generator.py:124 | joining newline-free lines with `\n` and splitting again is the identity |
| HtmlTree.TmpExample | src/services/html_generator.py:101-124 | for the directory `/tmp` holding files `a` and `b`, the drawing is `/tmp/`, `├── a`, `└── b` |

## Left out

- `html_mail` (lines 130-283 of the same file) returns a fixed e-mail template with two values inserted: the request (line 270) and the fragment built by the functions above (line 276). It is not part of this model.
- `os.path.isdir` asks the file system, so it is the parameter `isDir` of the tree functions.
- `os.path.join` is modelled as the POSIX join of two components. The Windows join is not modelled.
- Table cells, column names, group names and the note are strings that the f-strings insert unchanged. Python's `str()` of arbitrary values is not modelled; neither is HTML escaping, which the source does not do either.
- Inputs for which the source raises `IndexError` (a data row shorter than the column count, a group without members when values of its first member are read) are excluded by the preconditions `WellFormed`, `RowsFit` and `GroupFits`. A missing dictionary key (`KeyError`) is not modelled: the table description is a datatype.
- The table `type` is the datatype `Body`. Every value other than `single` and `group` is the case `Other`, and for it only the note and header are emitted.
- `status` in `html_msg` is `None`, `True` or `False`. Other truthy or falsy Python values are not modelled.
- Python's default arguments (`note=''`, `format='center'`, `status=None`, `bold_all=False`) are not modelled: every argument is passed explicitly.
