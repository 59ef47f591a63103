# minigrep in Dafny

A model of the library of `minigrep`, a command-line tool that prints the lines of a
file that contain a query string. The library has two pieces of logic, and both are
modelled here:

- `Config::new`, which checks the command-line arguments (program name, query, file
  name) and builds a `Config`, or fails with "Not enough arguments";
- `search`, which splits the contents of the file into lines with Rust's `str::lines`
  and keeps, in order, every line that contains the query as a contiguous substring.

The project has three modules:

- `substring.dfy` (module `Substring`) models `str::contains`. `Contains` is the
  executable test. `OccursAt` is the index-based definition that `ContainsIff` ties it to.
- `linesplit.dfy` (module `LineSplit`) models `str::lines`. `SplitTerminator` cuts the
  text at each `'\n'`, and a final `'\n'` does not start an empty line. `Lines` then
  drops one trailing `'\r'` from each piece. `Terminate`, which writes each line
  followed by `'\n'`, is the inverse partner. The round trip is proved in both
  directions, for `SplitTerminator` on every text and for `Lines` on every text
  whose pieces do not end in `'\r'`. `TerminateCRLF` writes each line followed by
  `"\r\n"`, and `Lines` is proved to give back exactly those lines, whatever they
  end with: `"\r\n"` line endings are accepted.
- `minigrep.dfy` (module `Minigrep`) models `Config::new` as `Config.New` and `search`
  as the method `Search`. `Search` has the same loop as the source, pushing each
  matching line onto `result`. It is proved against the specification function
  `Matching`, the ordered filter of a list of lines. The lemmas about `Matching` state
  what the source promises: soundness, completeness, order, and the empty-query,
  empty-contents and no-match cases. They also cover the two unit tests for
  `Config::new` and the unit test for `search`.

`search` returns borrowed slices of `contents`. Here the result holds the line values
themselves, which are equal to the lines of `contents`.

## Model

| member | source | states |
|---|---|---|
| `Minigrep.Config.New` | src/lib.rs:10-19 | fails exactly when there are fewer than three arguments, and then with "Not enough arguments"; otherwise the query is `args[1]` and the file name `args[2]` |
| `Minigrep.NewIgnoresExtraArguments` | src/lib.rs:15-18 | with at least three arguments, extra arguments after them do not change the configuration |
| `Minigrep.NewRejectsTwoArguments` | src/lib.rs:48-56 | two arguments give the "Not enough arguments" error |
| `Minigrep.NewAcceptsThreeArguments` | src/lib.rs:59-67 | `["program", "query", "filename"]` gives query `"query"` and file name `"filename"` |
| `Minigrep.Search` | src/lib.rs:33-42 | the result is exactly the lines of `contents` that contain `query`, in their original order; each returned line is a line of `contents`, contains `query` and holds no `'\n'`; no matching line is missed; the result is no longer than the list of lines; no input fails |
| `Minigrep.Matching` | src/lib.rs:34-41 | the ordered filter is no longer than its input, and every kept line comes from the input and contains the query |
| `Minigrep.MatchingComplete` | src/lib.rs:36-39 | every line that contains the query is kept |
| `Minigrep.MatchingAppend` | src/lib.rs:36-40 | filtering distributes over concatenation, so kept lines stay in scan order |
| `Minigrep.MatchingSingle` | src/lib.rs:37-39 | a single line is kept exactly when it contains the query |
| `Minigrep.MatchingAll` | src/lib.rs:36-39 | when every line contains the query, all lines are returned unchanged and in order |
| `Minigrep.MatchingNone` | src/lib.rs:36-39 | when no line contains the query, the result is empty |
| `Minigrep.MatchingThree` | src/lib.rs:36-39 | from three lines, exactly those containing the query are kept, in order |
| `Minigrep.SearchEmptyQuery` | src/lib.rs:37 | the empty query returns every line of the contents, in order |
| `Minigrep.SearchEmptyContents` | src/lib.rs:33-41 | empty contents give an empty result |
| `Minigrep.SearchAbsentQuery` | src/lib.rs:36-41 | a query that no line contains gives an empty result |
| `Minigrep.ExampleOuterLinesLackQuery` | src/lib.rs:72-76 | "Rust:" and "Pick three." do not contain "duct" |
| `Minigrep.ExampleMiddleLineHasQuery` | src/lib.rs:72-76 | "safe, fast, productive." contains "duct" |
| `Minigrep.SearchOneResult` | src/lib.rs:71-79 | searching "duct" in the three-line example gives exactly `["safe, fast, productive."]` |
| `LineSplit.LineEnd` | src/lib.rs:36 | the index of the first `'\n'`, or the length when there is none: no `'\n'` comes before it, and there is a `'\n'` at it unless it is the end |
| `LineSplit.LineEndIs` | src/lib.rs:36 | the first-newline index is the only index with those properties |
| `LineSplit.SplitTerminator` | src/lib.rs:36 | no piece holds a `'\n'`; the text has no pieces exactly when it is empty |
| `LineSplit.TerminateCons` | src/lib.rs:36 | writing a first line and then the rest puts that line and a `'\n'` before the rest |
| `LineSplit.TerminateSplitTerminator` | src/lib.rs:36 | writing each piece followed by `'\n'` gives back the text, plus a `'\n'` when the text did not end with one |
| `LineSplit.SplitTerminatorTerminate` | src/lib.rs:36 | splitting undoes writing lines that hold no `'\n'`, each followed by `'\n'` |
| `LineSplit.SplitTerminatorFinalNewline` | src/lib.rs:36 | adding a final `'\n'` to a text that lacks one does not add a piece |
| `LineSplit.SplitTerminatorChars` | src/lib.rs:36 | a character absent from the text is absent from every piece |
| `LineSplit.StripCR` | src/lib.rs:36 | the line is a prefix of the piece at most one character shorter, and it differs from the piece exactly when the piece ends in `'\r'` |
| `LineSplit.Lines` | src/lib.rs:36 | there is one line per piece, no line holds a `'\n'`, and the empty text has no lines |
| `LineSplit.LinesFinalNewline` | src/lib.rs:36 | the final line ending is optional: a text and the same text with a `'\n'` added have the same lines |
| `LineSplit.LinesWithoutCR` | src/lib.rs:36 | when no piece ends in `'\r'`, the lines are exactly the pieces |
| `LineSplit.TerminateLines` | src/lib.rs:36 | for a text whose pieces do not end in `'\r'`, writing its lines each followed by `'\n'` gives back the text, plus a `'\n'` when it did not end with one |
| `LineSplit.NoCRPieces` | src/lib.rs:36 | a text with no `'\r'` has no piece ending in `'\r'`, so the round trip above applies to it |
| `LineSplit.SplitTerminatorTerminateCRLF` | src/lib.rs:36 | splitting a text of lines each followed by `"\r\n"` at `'\n'` gives each line followed by `'\r'` |
| `LineSplit.LinesTerminateCRLF` | src/lib.rs:36 | the lines of a text of lines with no `'\n'`, each followed by `"\r\n"`, are exactly those lines, including lines that themselves end in `'\r'` |
| `LineSplit.LinesTerminate` | src/lib.rs:36 | the lines of a text built from lines with no `'\n'` and no trailing `'\r'` are those lines |
| `LineSplit.TerminateThree` | src/lib.rs:73-76 | three lines written out are the three lines joined by `'\n'` with a final `'\n'` |
| `LineSplit.ThreeLines` | src/lib.rs:73-76 | a text of three lines, the last one unterminated, has exactly those three lines |
| `Substring.Contains` | src/lib.rs:37 | the empty query is contained in every string, and a contained query is no longer than the string |
| `Substring.ContainsIff` | src/lib.rs:37 | `Contains(s, q)` holds exactly when `q` occurs in `s` at some index, in both directions |
| `Substring.NotContainedWithoutFirst` | src/lib.rs:37 | a non-empty query whose first character is absent from the string is not contained in it |

## Left out

- `run` (src/lib.rs:22-31) is not modelled. It reads the file with `fs::read_to_string` and prints each result line with `println!`. Its only logic is passing on the read error, and it has no counterpart here.
- Borrowing and lifetimes are not modelled. The returned `Vec<&str>` of slices into `contents` is modelled as a sequence of line values, so the model does not say that the slices point into `contents`.
- UTF-8 encoding is not modelled. Strings are sequences of characters, and only `'\n'` and `'\r'` are treated specially.
- There is no case-insensitive search. The library shown has only the exact search and no `CASE_INSENSITIVE` setting.
- Line splitting follows `str::lines` as it behaved before Rust 1.77. In that version one trailing `'\r'` is removed from every piece, including a final piece with no `'\n'` after it. From Rust 1.77 on, a bare `'\r'` at the very end of the text is kept. The two versions give different results only for a text whose last character is that bare `'\r'`.
- The search method works out all lines of `contents` before its loop, while the source walks the lazy `lines()` iterator. The lines visited and the result are the same.
