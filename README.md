# Quod Libet source-hygiene checks, modelled in Dafny

`tests/test_source.py` holds an enumerator of Quod Libet's Python source
files and two checks run over every file it yields. This project models all
three:

- **`iter_py_paths`** (module `SourceWalk`, `walk.dfy`). It walks the tree
  and prunes hidden directory names from `dirnames` in place. It skips the
  `build`, `dist`, `docs`, `dev-utils` and `quodlibet/packages` subtrees
  and yields `os.path.join(dirpath, f)` for every `f` ending in `.py`. The
  walk itself is an input: the `(dirpath, dirnames, filenames)` entries
  that `os.walk` produces.
- **`TestLicense`** (module `License`, `license.dfy`). It reads the leading
  block of `#` comment lines, strips each one, removes the leading `#` and
  space characters, and removes all whitespace from the result. The file
  passes when one of the two whitespace-free licence texts (GPL-2.0-or-later
  and MIT) occurs in the result.
- **`TestStockIcons`** (module `StockIcons`, `icons.dfy`). For the two
  patterns `(Gtk\.STOCK_[_A-Z]*)` and `["'](gtk-[\-a-z]*)`, only the
  leftmost match is examined, and its capture must be in the white list.
  The white list is the `gtk_` setting keys with `_` turned into `-`, plus
  five fixed names.

Module `Text` (`text.dfy`) holds the shared helpers:
`startswith`/`endswith`, the substring test `needle in hay`, and
`b"".join`.

Bytes are modelled as `string`, one character per byte. File contents and
the toolkit's property names are parameters.

The hidden-directory pruning follows the code, not the stated intent.
`dirnames.remove(dirname)` runs inside `for dirname in dirnames`, so the
name right after a removed one is never looked at. `ListIterPrune` models
that loop with Python's list-iterator semantics: an index that advances
while the list shrinks, and `remove` deleting the first occurrence.
`IterPyPaths` and `PruneHidden` keep this as-written behaviour. The
corrected pruning, `PruneAllHidden`, appears under "## Findings". The
intent behind the loop, that hidden directories and everything below them
are never walked, is not what the code does; the model follows the code.
Because the walk is an input, the yielded paths do not depend on which
pruning is used; only the returned `dirnames` lists do.

## Model

| member | source | states |
|---|---|---|
| Text.Contains | tests/test_source.py:95 | `needle in hay` holds iff the needle occurs contiguously at some index |
| SourceWalk.JoinRelative | tests/test_source.py:28-32 | `os.path.join(a, b)` with a relative `b` extends `a`, inserts a separator when `a` lacks one, and ends like `b` |
| SourceWalk.SkipRootsShape | tests/test_source.py:27-33 | there are five skip roots, and none is empty or ends with `os.sep`, whatever the root |
| SourceWalk.IsSkipped | tests/test_source.py:38-39 | a directory is skipped iff some skip root equals it or is a prefix of it followed by `os.sep` |
| SourceWalk.CoversIffBelow | tests/test_source.py:38 | the per-root test holds iff the root is a path prefix of the directory ending at a separator or at the end |
| SourceWalk.SkippedIffBelowRoot | tests/test_source.py:38-40 | a directory is skipped iff it lies at or below some skip root |
| SourceWalk.SiblingNotCovered | tests/test_source.py:38 | a sibling whose name merely extends a root's name (`build` vs `buildx`) is not covered by that root |
| SourceWalk.SubtreeSkipped | tests/test_source.py:27-40 | every subdirectory of a skipped directory is skipped as well |
| SourceWalk.Visible | tests/test_source.py:36 | the names kept by "drop every name starting with `.`" are all visible |
| SourceWalk.VisibleAppend | tests/test_source.py:35-37 | dropping hidden names distributes over concatenation |
| SourceWalk.IndexOf | tests/test_source.py:37 | `list.remove` finds the first occurrence of the name |
| SourceWalk.RemoveFirstCount | tests/test_source.py:37 | `list.remove` takes exactly one copy of the name out of the multiset of names |
| SourceWalk.RemoveHiddenKeepsVisible | tests/test_source.py:36-37 | removing a hidden name leaves the visible names, in order, unchanged |
| SourceWalk.ListIterPruneKeepsVisible | tests/test_source.py:35-37 | the pruning loop removes only names (the result is a sub-multiset) and keeps every visible name in order |
| SourceWalk.ListIterPruneSubseq | tests/test_source.py:35-37 | the surviving `dirnames` is a subsequence of the original |
| SourceWalk.ListIterPruneDistinct | tests/test_source.py:35-37 | on distinct names, the loop from a given position keeps the part already passed and prunes the rest by skipping each removed name's successor |
| SourceWalk.PruneSkipsNext | tests/test_source.py:35-37 | on distinct names, the pruning loop equals "remove a hidden name and never examine the next one" |
| SourceWalk.PruneHidden | tests/test_source.py:35-37 | the loop with an advancing index over a shrinking list leaves exactly the list-iterator result |
| SourceWalk.SecondHiddenSurvives | tests/test_source.py:35-37 | `[".a", ".b", "c"]` is pruned to `[".b", "c"]`: a hidden name right after a removed one survives |
| SourceWalk.PruneAllHidden | tests/test_source.py:35-37 | the corrected loop keeps exactly the visible names, in order, and no hidden name |
| SourceWalk.PyFilesMembers | tests/test_source.py:42-44 | a path is yielded for a directory iff it is that directory joined with one of its file names ending in `.py` |
| SourceWalk.PyPathsMembers | tests/test_source.py:34-44 | a path is yielded iff it is a `.py` file of some walk entry that is not skipped, so no file of a skipped directory is yielded |
| SourceWalk.YieldPyFiles | tests/test_source.py:42-44 | the inner loop yields the directory's `.py` files in order |
| SourceWalk.PrunedListsAt | tests/test_source.py:34-37 | entry `k` of the pruned lists is the pruning loop applied to walk entry `k`'s `dirnames` |
| SourceWalk.IterPyPaths | tests/test_source.py:21-44 | `iter_py_paths` yields exactly the `.py` paths outside the five skip roots, and leaves each walk entry's `dirnames` as the pruning loop does |
| License.LeadLen | tests/test_source.py:91 | the count of leading characters in a set is maximal: all of them are in the set and the next character is not |
| License.TrailLen | tests/test_source.py:88 | the count of trailing characters in a set is maximal |
| License.Strip | tests/test_source.py:88 | a stripped line neither starts nor ends with whitespace |
| License.StripCutsOnlySpace | tests/test_source.py:88 | stripping removes only whitespace, and only from the two ends |
| License.LineLen | tests/test_source.py:87 | a line runs up to and including the first newline, or to the end of the data |
| License.Lines | tests/test_source.py:87 | iterating a binary file gives non-empty lines, each without an inner newline, and each but the last ending in a newline |
| License.LinesRoundTrip | tests/test_source.py:87 | joining the lines gives the file back |
| License.CommentBlockLen | tests/test_source.py:87-90 | the header block is the longest prefix of lines that start with `#` once stripped |
| License.HeaderIgnoresRest | tests/test_source.py:87-91 | nothing at or after the first non-comment line affects the header |
| License.NoLeadingCommentEmptyHeader | tests/test_source.py:85-90 | a file whose first line is not a comment has an empty header |
| License.ExtractHeader | tests/test_source.py:85-91 | the loop with an early `break` builds the stripped comment bodies of the leading block, each followed by a newline |
| License.RemoveWs | tests/test_source.py:82 | whitespace removal leaves no whitespace and never lengthens |
| License.RemoveWsAppend | tests/test_source.py:82 | whitespace removal distributes over concatenation |
| License.RemoveWsFixed | tests/test_source.py:82 | a string without whitespace is left unchanged |
| License.RemoveWsAllSpace | tests/test_source.py:82 | a string of whitespace only becomes empty |
| License.RemoveWsNonEmpty | tests/test_source.py:82 | a string with a non-whitespace character stays non-empty |
| License.WordLen | tests/test_source.py:82 | a word is a maximal run of non-whitespace characters |
| License.SplitWs | tests/test_source.py:82 | `split()` gives non-empty words without whitespace |
| License.JoinSplit | tests/test_source.py:82 | `"".join(s.split())` is the string with every whitespace character removed |
| License.Normalize | tests/test_source.py:82 | normalising gives the whitespace-free string |
| License.NormalizeIdempotent | tests/test_source.py:82 | normalising twice is normalising once |
| License.NormalizeAll | tests/test_source.py:82 | each template in `ALLOWED` is the corresponding raw text without whitespace |
| License.AllowedWellFormed | tests/test_source.py:57-82 | there are two templates, and each is non-empty and free of whitespace |
| License.BodiesSnoc | tests/test_source.py:91 | one more comment line appends its stripped body and a newline to the header |
| License.CheckLicense | tests/test_source.py:84-95 | the check passes iff some whitespace-free template occurs contiguously in the whitespace-free header |
| License.TestLicenseIsCompliant | tests/test_source.py:84-95 | the same equivalence for the GPL and MIT templates |
| License.NoLeadingCommentFails | tests/test_source.py:85-95 | a file that does not open with a comment line fails the check |
| StockIcons.FindFrom | tests/test_source.py:124 | the search finds the leftmost match at or after the start, or reports that there is none |
| StockIcons.RunEnd | tests/test_source.py:102-103 | `[_A-Z]*` and `[\-a-z]*` consume a maximal run of their class |
| StockIcons.RunIsCapture | tests/test_source.py:102-103 | the text from the literal to the end of the run is a capture: the literal, then a maximal run |
| StockIcons.Search | tests/test_source.py:124-126 | there is no capture iff the pattern matches nowhere; otherwise the capture is the one at the leftmost match |
| StockIcons.CaptureUnique | tests/test_source.py:102-103 | at a given position the capture is unique, because the run is greedy |
| StockIcons.QuotedCaptureHasNoQuote | tests/test_source.py:103 | the capture of the quoted pattern never contains a quote character |
| StockIcons.FirstQuotedNameDecides | tests/test_source.py:124-127 | only the first quoted name is examined, whatever text follows it |
| StockIcons.Hyphenated | tests/test_source.py:108 | `replace("_", "-")` keeps the length, turns every `_` into `-` and changes no other character |
| StockIcons.DerivedWhite | tests/test_source.py:108-110 | the derived white list has no more entries than there are property names |
| StockIcons.DerivedWhiteMembers | tests/test_source.py:108-110 | a name is derived iff it is a `gtk_` property name with `_` turned into `-` |
| StockIcons.WhiteMembers | tests/test_source.py:108-116 | a name is white iff it is a fixed name or a derived one |
| StockIcons.DerivedWhiteShape | tests/test_source.py:108-110 | every derived entry starts with `gtk-` and holds no `_` |
| StockIcons.WhiteShape | tests/test_source.py:108-116 | every white name starts with `gtk-` |
| StockIcons.StockConstantNeverWhite | tests/test_source.py:102-116 | a `Gtk.STOCK_` capture is never white, so a file that is not exempt and uses one fails |
| StockIcons.TestIconsUsed | tests/test_source.py:118-127 | exempt paths pass; otherwise the test fails iff some pattern's leftmost capture is not white, and it reports the capture of the first such pattern |

## Left out

- `os.walk` is not modelled. Its output is an input sequence of entries. The descent into the pruned `dirnames` is not modelled either: `IterPyPaths` returns each entry's pruned list, and the walk order that would follow from it is not derived.
- File reading (`open`, `read`), `get_module_dir` and the choice of root are I/O. The file contents and the root are parameters.
- `prettify_path` (`os.path.relpath`, `splitext`) only names test cases, so it is not modelled.
- The pytest fixtures and parametrisation are test-runner plumbing and are not modelled.
- `Gtk.Settings.get_default().props` is a foreign runtime call. The property names are a parameter.
- The `re` engine is not modelled. Only the two fixed patterns are, as leftmost scanners.
- License.NormalizeAll: `str.split()` also treats `\x1c`-`\x1f`, `\x85`, `\xa0` and other Unicode spaces as whitespace, but the model removes only the six ASCII whitespace characters. The two fixed licence texts are ASCII with only spaces and newlines, so `TestLicenseIsCompliant` is unaffected. For a general `raw`, `CheckLicense` assumes ASCII text.
- UTF-8 decoding is not modelled. A byte is a character, and a decoding failure (an uncaught exception in the test) is not modelled.
- `os.sep` is `/`, and `os.path.join` is the POSIX two-argument form. The three-argument join is written as two nested joins.
- `assert` failures are modelled as a verdict (`ok == false`, `Fail(group)`), not as exceptions.

## Findings

| source | as written | input that shows it | evidently intended | confidence | as-written member | corrected member |
|---|---|---|---|---|---|---|
| tests/test_source.py:35-37 | `dirnames.remove(dirname)` inside `for dirname in dirnames` shifts the list under the iterator, so the name after each removed one is never examined | `dirnames == [".a", ".b", "c"]` leaves `[".b", "c"]`, and the walk descends into `.b` | prune every name starting with `.` | not executed | SourceWalk.SecondHiddenSurvives | SourceWalk.PruneAllHidden |
