# git-remote-cvs and fetch-pack core, modelled in Dafny

This project models two parts of an early git tree: the CVS helper library
`git_remote_cvs/cvs.py` used by the CVS remote helper, and the self-contained
decisions of `builtin-fetch-pack.c`. It states and proves their properties.

From `cvs.py` it models:

- **CVS numbers** (`CVSNum`, module `CvsNumbers`). It covers normalisation of the
  "magic branch" 0 component, revision/branch classification and `branch()`.
  It also covers `parent()`, `follows()` (a loop over parents, proved against
  the history relation), `on_branch()` and `disjoint()` (a loop over the
  shared components, proved against a divergence predicate). The self-tests in
  `test_basic`, `test_follows` and `test_disjoint` are proved as lemmas
  (module `CvsNumExamples`). The history facts sit in module `CvsHistory`.
- **CVS states** (`CVSState`, module `CvsStates`). This is a mutable class
  holding the `path -> number` map and the memoised hash text. It covers
  `add`, `replace`, `remove`, `copy`, the text form `__str__`, the memoised
  `__hash__` and `load_data`. It proves that loading a state's own text
  into an empty state yields the state back. This holds when no path
  contains a newline or starts with white space (`LoadablePath`), and no
  number has a second-to-last 0 (`LoadableNum`).
- **CVS dates** (`CVSDate`, module `CvsDates`). It covers parsing the two date
  layouts, timezone-offset arithmetic, `tz_str`, `__str__`, `diff` and the
  ordering. It proves that `tz_str` reads back and that a printed date parses
  back with its offset applied. It also proves, for all inputs of the same
  shape, the `test_basic` facts that do not depend on the calendar:
  - a zoned date and the UTC date of the same instant have `diff` 0, and
    differ exactly when the offset is not 0;
  - two dates with the same offset are as far apart, in both directions,
    as their clock readings;
  - a date is true exactly when its reading or its offset is non-zero.

  The printed texts the self-test compares depend on `strftime`, which is
  a parameter here.
- **The `cvs rlog` parser** (module `CvsLog`). It covers
  `CVSLogParser.cleanup_path` and the line-by-line state machine of
  `CVSRevLister`. The state machine is a class whose `Call` method is proved
  against a pure step function. Its invariants are: every file seen is filed
  once, revisions are filed under their own number, and nothing filed is ever
  lost. The line loop of `CVSLogParser.run` is included, together with
  `finish()`.
- **`fetch_revs`** (module `CvsFetch`). It covers the choice of the `-r`
  range and the check that the log described exactly the file asked for.

From `builtin-fetch-pack.c` (module `FetchPack`) it models:

- `remove_duplicates`, an in-place compaction of an array, proved against a
  specification function.
- The unpack-limit precedence of `fetch_pack_setup` and the configuration
  callback.
- The `--keep`/`-k` handling in the option loop of `cmd_fetch_pack`.
- The keep-versus-unpack decision and the child argument list of `get_pack`.

Python's string built-ins (`split`, `join`, `strip`, `rsplit`, `count`,
`int()`, `str(int)`, string ordering) are defined once, in module `PyStr`.
`Option` and `Result` are in module `Wrappers`. A Python `assert` on log or
note data, and a raised exception, become a `Failure` value. An `assert` that
guards against a caller's misuse, such as `CVSState.add` on a path already
present, becomes a precondition.

## Model

| member | source | states |
|---|---|---|
| CvsNumbers.Decompose | git_remote_cvs/cvs.py:76-96 | Succeeds exactly when there is a component and the last one is not 0. It then keeps the last component, and drops at most one component, the second-to-last 0. |
| CvsNumbers.Compose | git_remote_cvs/cvs.py:99-107 | Succeeds exactly when the last component is not 0. |
| CvsNumbers.ParseDecimals | git_remote_cvs/cvs.py:89 | Reading back the decimal texts of the components gives the components. |
| CvsNumbers.TextRoundTrip | git_remote_cvs/cvs.py:88-107 | Splitting the dotted text of components at `.` and reading each part gives the components back. |
| CvsNumbers.FromComponents | git_remote_cvs/cvs.py:109-112 | `from_components(c)` succeeds exactly when the last component is not 0, and equals decomposing `c` directly. |
| CvsNumbers.ComposeRoundTrip | git_remote_cvs/cvs.py:99-112 | For components whose last two are non-zero, `from_components` gives the number with exactly those components. Its text is `compose(c)`, and that text reads back to the number. |
| CvsNumbers.TextOfNumberReadsBack | git_remote_cvs/cvs.py:144-154 | The text of a number reads back as the same number if and only if its second-to-last component is not 0. |
| CvsNumbers.TextHasNo | git_remote_cvs/cvs.py:150-154 | The text of a number contains only digits and dots. |
| CvsNumbers.FromText | git_remote_cvs/cvs.py:144-146 | `CVSNum(s)` gives a valid number (at least one component, the last not 0) or an error. The empty text is the `NoComponents` error. Every number's own text reads back (TextOfNumberReadsBack). |
| CvsNumbers.MagicBranchZero | git_remote_cvs/cvs.py:92-93 | A second-to-last 0 is dropped: `p.0.x` and `p.x` decompose alike. |
| CvsNumbers.TrailingZeroRejected | git_remote_cvs/cvs.py:94-95 | A last component 0 is rejected. |
| CvsNumbers.NormalisationNotIdempotent | git_remote_cvs/cvs.py:88-96 | `1.0.0.1` normalises to `1.0.1`, whose own text normalises further to `1.1`. |
| CvsNumbers.DecomposeClassifies | git_remote_cvs/cvs.py:175-181 | For component lists whose only 0 is a magic-branch 0, the result has no 0. It is a revision exactly when the length is even and the second-to-last component is not 0, and a branch otherwise. |
| CvsNumbers.RevOrBranch | git_remote_cvs/cvs.py:175-181 | Every number is a branch exactly when it is not a revision. |
| CvsNumbers.CvsNum.IsBranch | git_remote_cvs/cvs.py:175-181 | For a number with at least one component, `is_branch` holds exactly when `is_rev` does not. |
| CvsNumbers.Branch | git_remote_cvs/cvs.py:187-198 | A branch is its own branch. A revision's branch drops its last component and is a branch. |
| CvsNumbers.Parent | git_remote_cvs/cvs.py:200-226 | A parent is strictly earlier: it is shorter, or has the same length and a smaller last component. |
| CvsNumbers.CvsNum.OnBranch | git_remote_cvs/cvs.py:243-250 | A branch is on itself. The only error is the one raised while computing the branch's parent. What the answer means is proved in OnBranchMeaning. |
| CvsNumbers.FirstRev | git_remote_cvs/cvs.py:126-129 | A branch's first revision appends component 1 and is a revision. |
| CvsNumbers.FirstRevFromComponents | git_remote_cvs/cvs.py:126-129 | `from_components(c + (1,))` is that first revision. |
| CvsHistory.ParentOfBranch | git_remote_cvs/cvs.py:216-217 | The parent of a branch is its branch point (the branch without its last component). |
| CvsHistory.ParentOfLaterRev | git_remote_cvs/cvs.py:218-226 | The parent of revision `b.k` with `k > 1` is `b.(k-1)`. |
| CvsHistory.ParentOfFirstRev | git_remote_cvs/cvs.py:222-226 | The parent of a branch's first revision `p.x.1` is the branch point `p`. |
| CvsHistory.ParentOfCanonical | git_remote_cvs/cvs.py:200-226 | `parent()` never fails on a number without 0 components, and its result has none either. It returns None exactly for single components and for `x.1`. |
| CvsHistory.InHistoryOf | git_remote_cvs/cvs.py:62-69 | The ancestry the class comment describes: `m` agrees with `n` before its own last component, and that component is not past `n`'s. Every number is in its own history. |
| CvsHistory.ReachesByParents | git_remote_cvs/cvs.py:236-241 | When the parent walk meets `target`, the target is a valid number no longer than the start, since parents never grow. ReachesIffInHistory proves it reaches exactly the numbers in the start's history. |
| CvsHistory.HistoryThroughBranchPoint | git_remote_cvs/cvs.py:62-69 | A revision is in a branch's history exactly when it is in the history of the branch point. |
| CvsHistory.HistoryThroughPreviousRev | git_remote_cvs/cvs.py:62-69 | Another revision is in the history of `b.k` (`k > 1`) exactly when it is in the history of `b.(k-1)`. |
| CvsHistory.HistoryThroughFirstRev | git_remote_cvs/cvs.py:62-69 | Another revision is in the history of `p.x.1` exactly when it is in the history of `p`. |
| CvsHistory.ReachesStep | git_remote_cvs/cvs.py:236-241 | Walking the parents from a number other than the target is walking them from its parent. |
| CvsHistory.ReachesIffInHistory | git_remote_cvs/cvs.py:228-241 | Walking the parents reaches a revision exactly when that revision lies in the history described by the class documentation. |
| CvsHistory.Follows | git_remote_cvs/cvs.py:228-241 | The loop returns the result of the parent walk. For numbers without 0 components this is membership in the history. |
| CvsHistory.AsRev | git_remote_cvs/cvs.py:126-129 | A branch is replaced by its first revision and a revision is kept; the result is valid. |
| CvsHistory.AsRevCanonical | git_remote_cvs/cvs.py:126-129 | That replacement of a number without 0 components is a revision without 0 components. |
| CvsHistory.Diverge | git_remote_cvs/cvs.py:130-141 | The verdict once the shorter revision is first. Two numbers it separates are different. |
| CvsHistory.Disjoint | git_remote_cvs/cvs.py:115-141 | `disjoint(a, b)`: a number is never disjoint from itself. DisjointMeaning proves that it holds exactly when neither number is in the other's history. |
| CvsHistory.CheckDiverge | git_remote_cvs/cvs.py:130-141 | The comparison loop returns whether the shorter number diverges from the longer one. |
| CvsHistory.CheckDisjoint | git_remote_cvs/cvs.py:115-141 | `disjoint` returns the disjointness predicate. |
| CvsHistory.DisjointMeaning | git_remote_cvs/cvs.py:116-125 | Two numbers are disjoint exactly when neither one's (first) revision is in the history of the other's. |
| CvsHistory.DisjointSymmetric | git_remote_cvs/cvs.py:326-328 | Disjointness does not depend on the order of the arguments. |
| CvsHistory.DisjointIffNeitherFollows | git_remote_cvs/cvs.py:115-141 | For numbers without 0 components, disjoint exactly when neither first revision `follows` the other. |
| CvsHistory.OnBranchMeaning | git_remote_cvs/cvs.py:243-250 | A revision is on a branch exactly when the branch is its own or the revision is the branch point. |
| CvsHistory.FirstRevBeforeRevsOnBranch | git_remote_cvs/cvs.py:62-69 | A branch's first revision is in the history of every revision on it. |
| CvsHistory.BranchPointBeforeFirstRev | git_remote_cvs/cvs.py:62-69 | A branch point is in the history of the branch's first revision. |
| CvsHistory.OnBranchNotDisjoint | git_remote_cvs/cvs.py:243-250 | A revision on a branch is never disjoint from it. |
| CvsNumExamples.TextExample | git_remote_cvs/cvs.py:267 | `from_components([1, 2, 4, 6])` succeeds and prints as "1.2.4.6". |
| CvsNumExamples.ParseExample | git_remote_cvs/cvs.py:263-268 | `from_components([1, 2, 4, 6])` equals `CVSNum("1.2.4.6")`. Its `components()` (the field `c`) are 1, 2, 4, 6, and its `len` is 4. |
| CvsNumExamples.ClassifyExamples | git_remote_cvs/cvs.py:260-263 | "1.2.4" and "1" read as branches, and "1.2" and "1.2.4.6" as revisions. |
| CvsNumExamples.MagicBranchText | git_remote_cvs/cvs.py:259 | The components of `1.2.0.4` join as "1.2.0.4". |
| CvsNumExamples.MagicBranchComponents | git_remote_cvs/cvs.py:259 | `[1, 2, 0, 4]` normalises to `1.2.4`. |
| CvsNumExamples.MagicBranchExample | git_remote_cvs/cvs.py:259 | "1.2.0.4" reads as `1.2.4`. |
| CvsNumExamples.BranchExamples | git_remote_cvs/cvs.py:269-272 | The four `branch()` self-test cases. |
| CvsNumExamples.ParentExamplesRevs | git_remote_cvs/cvs.py:273-274 | The revision-parent self-test cases. |
| CvsNumExamples.ParentExamplesTrunk | git_remote_cvs/cvs.py:275-278 | The trunk and branch-parent self-test cases. |
| CvsNumExamples.ParentExamplesNone | git_remote_cvs/cvs.py:276-280 | `1.1`, `2.1`, `1` and `2` have no parent. |
| CvsNumExamples.FollowsExamplesTrunk | git_remote_cvs/cvs.py:284-285 | `1.2.4.6` follows `1.1` and `1.2`. |
| CvsNumExamples.FollowsExamplesBranch | git_remote_cvs/cvs.py:286-290 | `1.2.4.6` follows `1.2.4.1` and `1.2.4.5`. |
| CvsNumExamples.FollowsExamplesMiddle | git_remote_cvs/cvs.py:287-288 | `1.2.4.6` follows `1.2.4.2` and `1.2.4.3`. |
| CvsNumExamples.FollowsExamplesLate | git_remote_cvs/cvs.py:289-291 | `1.2.4.6` follows `1.2.4.4` and itself. |
| CvsNumExamples.FollowsExamplesNot | git_remote_cvs/cvs.py:292-293 | `1.2.4.6` does not follow `1.2.4.7` or `1.3`. |
| CvsNumExamples.FollowsExampleBackwards | git_remote_cvs/cvs.py:294 | `1.1` does not follow `1.2.4.6`. |
| CvsNumExamples.DisjointTable1 | git_remote_cvs/cvs.py:299-300 | Rows of the disjointness table, both argument orders. |
| CvsNumExamples.DisjointTable2 | git_remote_cvs/cvs.py:301-302 | Rows of the disjointness table, both argument orders. |
| CvsNumExamples.DisjointTable3 | git_remote_cvs/cvs.py:303-304 | Rows of the disjointness table, both argument orders. |
| CvsNumExamples.DisjointTable4 | git_remote_cvs/cvs.py:305-306 | Rows of the disjointness table, both argument orders. |
| CvsNumExamples.DisjointTable5 | git_remote_cvs/cvs.py:307-308 | Rows of the disjointness table, both argument orders. |
| CvsNumExamples.DisjointTable6 | git_remote_cvs/cvs.py:309-310 | Rows of the disjointness table, both argument orders. |
| CvsNumExamples.DisjointTable7 | git_remote_cvs/cvs.py:311-312 | Rows of the disjointness table, both argument orders. |
| CvsNumExamples.DisjointTable8 | git_remote_cvs/cvs.py:313-314 | Rows of the disjointness table, both argument orders. |
| CvsNumExamples.DisjointTable9 | git_remote_cvs/cvs.py:315-316 | Rows of the disjointness table, both argument orders. |
| CvsNumExamples.DisjointTable10 | git_remote_cvs/cvs.py:317-318 | Rows of the disjointness table, both argument orders. |
| CvsNumExamples.DisjointTable11 | git_remote_cvs/cvs.py:319-320 | Rows of the disjointness table, both argument orders. |
| CvsNumExamples.DisjointTable12 | git_remote_cvs/cvs.py:321-322 | Rows of the disjointness table, both argument orders. |
| CvsNumExamples.DisjointTable13 | git_remote_cvs/cvs.py:323-324 | Rows of the disjointness table, both argument orders. |
| CvsStates.MinKey | git_remote_cvs/cvs.py:370 | Every non-empty set of paths has a least one in string order. |
| CvsStates.SortedPaths | git_remote_cvs/cvs.py:370 | `sorted(self)` lists every path exactly once, in increasing order. |
| CvsStates.ParseLine | git_remote_cvs/cvs.py:417-422 | A line is skipped exactly when it is blank after stripping. Otherwise it yields a path and a valid number, or an error. |
| CvsStates.ParseEntry | git_remote_cvs/cvs.py:421-422 | A rendered `path:num` line parses back to that path and number. |
| CvsStates.RenderLines | git_remote_cvs/cvs.py:368-370 | Splitting the text at newlines gives one rendered line per path, in order, then an empty piece. |
| CvsStates.StateText | git_remote_cvs/cvs.py:368-370 | `str(state)` is empty exactly when the state has no entries. |
| CvsStates.StateTextLines | git_remote_cvs/cvs.py:368-370 | The text of a state is one `path:num` line per path, in sorted order, ending with a newline. |
| CvsStates.AddAll | git_remote_cvs/cvs.py:422 | Adding the listed paths one after another gives the old paths plus the listed ones, with the listed numbers. |
| CvsStates.AddAllPaths | git_remote_cvs/cvs.py:422 | Adding every path of a map to the empty state rebuilds the map. |
| CvsStates.LoadEntries | git_remote_cvs/cvs.py:417-422 | Loading well-formed lines adds each entry, counts them, and reports no error. |
| CvsStates.LoadFold | git_remote_cvs/cvs.py:417-422 | The loop over parsed lines keeps every entry it started with, never lowers the count of additions, and leaves a well-formed map. |
| CvsStates.Load | git_remote_cvs/cvs.py:415-423 | Loading a note keeps every entry already present and leaves a well-formed map. LoadStateText proves its round trip. |
| CvsStates.LoadRender | git_remote_cvs/cvs.py:415-423 | Loading rendered lines adds exactly the rendered entries. |
| CvsStates.LoadAllPaths | git_remote_cvs/cvs.py:415-423 | Loading the rendering of all of a state's paths, in any order, gives that state. |
| CvsStates.LoadStateText | git_remote_cvs/cvs.py:415-423 | Loading a state's own text into an empty state gives back the same map. |
| CvsStates.CvsState.constructor | git_remote_cvs/cvs.py:355-358 | A new state is empty with no memoised hash. |
| CvsStates.CvsState.Add | git_remote_cvs/cvs.py:390-394 | Requires the path absent. Maps the path to the number and drops the memoised hash. |
| CvsStates.CvsState.Replace | git_remote_cvs/cvs.py:396-400 | Requires the path present. Maps the path to the number, drops the memo, and keeps the invariant. |
| CvsStates.CvsState.Remove | git_remote_cvs/cvs.py:402-406 | Requires that exact pair. Removes the path, drops the memo, and keeps the invariant. |
| CvsStates.RemoveUndoesAdd | git_remote_cvs/cvs.py:390-406 | Removing what was just added restores the map. |
| CvsStates.ReplaceSameIsIdentity | git_remote_cvs/cvs.py:396-400 | Replacing a number by itself leaves the map unchanged. |
| CvsStates.CvsState.Copy | git_remote_cvs/cvs.py:408-413 | A fresh object with an equal map and the same memo. |
| CvsStates.CvsState.HashText | git_remote_cvs/cvs.py:372-376 | Returns the memo if present, else computes and memoises the state's text. For a consistent state the result is always the state's text. |
| CvsStates.CvsState.LoadData | git_remote_cvs/cvs.py:415-423 | The new map and error are those of loading the note. The memo survives only when nothing was added, so the invariant holds. This is the corrected form. |
| CvsStates.CvsState.LoadLines | git_remote_cvs/cvs.py:417-422 | The loop over the parsed lines adds the entries in order and stops at the first error. The new map and error are those of the fold. The memo survives only when nothing was added. |
| CvsStates.CvsState.LoadOne | git_remote_cvs/cvs.py:418-422 | One line of the loop. A bad line or a path already present stops the load and changes nothing. Otherwise the rest of the fold from the new state gives the same result as the fold from the old state. An added path is new, and adding it clears the memo. |
| CvsStates.LoadFoldStep | git_remote_cvs/cvs.py:418-422 | One step of the fold: a blank line is skipped, and a new path is added and counted before the rest is folded. |
| CvsStates.CvsState.LoadDataAsWritten | git_remote_cvs/cvs.py:415-423 | As written: after a successful load, the memo is the note text itself. |
| CvsStates.LoadSingleLine | git_remote_cvs/cvs.py:415-423 | Loading "a:1.1" gives the state `a -> 1.1`. |
| CvsStates.OneLineIsNotStateText | git_remote_cvs/cvs.py:368-370 | A text without a newline is never the text of a non-empty state. |
| CvsStates.LoadedMemoDiffers | git_remote_cvs/cvs.py:415-423 | For the note "a:1.1" the memoised text differs from the text `__hash__` would hash. |
| CvsDates.CvsDate.FromLocal | git_remote_cvs/cvs.py:496-497 | Subtracting the offset from a local clock gives a date whose local clock is the one read, with the same offset. |
| CvsDates.Compare | git_remote_cvs/cvs.py:524-530 | Orders by timestamp, then by offset. It is 0 exactly on equal dates. |
| CvsDates.Pad2 | git_remote_cvs/cvs.py:505 | `%02d` gives at least two digits, and exactly two below 100. |
| CvsDates.Pad2RoundTrip | git_remote_cvs/cvs.py:486-505 | Two padded digits read back as the number. |
| CvsDates.Pad2OfDigits | git_remote_cvs/cvs.py:486-505 | Any two digits are the padding of their value. |
| CvsDates.ParseTz | git_remote_cvs/cvs.py:486-489 | Succeeds exactly when the offset has at least four characters, characters 1-2 are digits, and what there is of characters 3-4 is digits. So a four-character offset such as `+021` is accepted. |
| CvsDates.ParseTzValue | git_remote_cvs/cvs.py:486-489 | For a sign and four digits, the offset is the hours times 60 plus the minutes, negated after `-`. |
| CvsDates.ShortOffset | git_remote_cvs/cvs.py:486-489 | The four-character offset `+021` is accepted and reads as 121 minutes. |
| CvsDates.CvsDate.TzStr | git_remote_cvs/cvs.py:499-505 | At least five characters: `-` first exactly for a negative offset, otherwise `+`, then digits only. |
| CvsDates.TzStrShape | git_remote_cvs/cvs.py:499-505 | `tz_str` is a sign (`-` exactly for negative offsets) and four digits. |
| CvsDates.TzRoundTrip | git_remote_cvs/cvs.py:486-505 | Reading `tz_str` back gives the offset. |
| CvsDates.TzTextRoundTrip | git_remote_cvs/cvs.py:486-505 | Every offset text other than `-0000` with minutes below 60 is printed back unchanged. |
| CvsDates.NegativeZeroOffset | git_remote_cvs/cvs.py:488-503 | `-0000` reads as 0 and prints as `+0000`. |
| CvsDates.ReadTwoParts | git_remote_cvs/cvs.py:480-482 | A text with two spaces is split at the last one into clock and offset. |
| CvsDates.ParseReadsLocalClock | git_remote_cvs/cvs.py:478-497 | A zoned date parses exactly when its clock and offset read. The offset is kept, and the clock is the UTC time in UTC mode and the local clock otherwise. |
| CvsDates.ParseUtcClock | git_remote_cvs/cvs.py:490-494 | A one-space date is read in the slashed UTC layout with offset 0. |
| CvsDates.ParseRejectsSpaces | git_remote_cvs/cvs.py:480-491 | Any other number of spaces is an error naming the count. |
| CvsDates.ParseAdjusts | git_remote_cvs/cvs.py:495-497 | Outside UTC mode the offset is subtracted from what was read. |
| CvsDates.Parse | git_remote_cvs/cvs.py:459-497 | The constructor fails only for a string other than `"now"`, and then with the error of reading its stripped text. |
| CvsDates.ReadClock | git_remote_cvs/cvs.py:478-494 | Reading succeeds only with one or two spaces, and one space gives offset 0. Any other count is the `BadSpaces` error naming the count. |
| CvsDates.ReadZoned | git_remote_cvs/cvs.py:482-489 | The zoned layout reads exactly when both the clock part and the offset read. The date then holds the calendar's reading and the parsed offset. |
| CvsDates.ReadZonedOwnOffset | git_remote_cvs/cvs.py:482-489 | A clock followed by a date's own `tz_str` reads as that date. |
| CvsDates.Str | git_remote_cvs/cvs.py:507-510 | The printed date ends with its `tz_str`. |
| CvsDates.StrShape | git_remote_cvs/cvs.py:507-510 | The printed date is the formatted clock, a space and `tz_str`, with no surrounding space. |
| CvsDates.StrParsesBack | git_remote_cvs/cvs.py:459-510 | A printed date parses back to itself in UTC mode. Otherwise its offset is applied again. |
| CvsDates.DiffProperties | git_remote_cvs/cvs.py:532-538 | `diff` is antisymmetric, adds up along a chain, and is 0 exactly on equal timestamps. |
| CvsDates.CvsDate.Diff | git_remote_cvs/cvs.py:532-538 | `other.ts + self.diff(other) == self.ts`, the invariant the docstring states for `diff`. |
| CvsDates.PlusTwoHours | git_remote_cvs/cvs.py:547 | "+0200" is 120 minutes. |
| CvsDates.ZonedMatchesUtc | git_remote_cvs/cvs.py:545-554 | A zoned date and the slashed UTC date of the same instant both parse and differ by 0 seconds. They are equal exactly when the offset is 0. |
| CvsDates.SameOffsetDiff | git_remote_cvs/cvs.py:555-560 | Two zoned dates with the same offset whose clock parts read `k` seconds apart have `diff` `k` one way and `-k` the other. They are equal exactly when `k` is 0. |
| CvsDates.ParsedNonZero | git_remote_cvs/cvs.py:520-522 | A parsed string is true exactly when its clock reading or its offset is non-zero, whether or not the reading is moved by the offset. |
| CvsLog.ModulePrefix | git_remote_cvs/cvs.py:786-787 | The prefix exists exactly when the root has a `/`. It starts with `/` and ends with `/` plus the module. |
| CvsLog.PathComponents | git_remote_cvs/cvs.py:793 | The components are non-empty and free of `/`. |
| CvsLog.CleanupPath | git_remote_cvs/cvs.py:784-798 | Succeeds exactly when the root has a `/`, the path starts with the module prefix and ends with `,v`. |
| CvsLog.NonEmptyKeeps | git_remote_cvs/cvs.py:793 | Filtering empty parts keeps parts free of `/`. |
| CvsLog.DropAttic | git_remote_cvs/cvs.py:795-796 | At most one component is removed, and only when the second-to-last is `Attic`. The last component, the file name, is always kept. |
| CvsLog.DropAtticOnlySecondToLast | git_remote_cvs/cvs.py:795-796 | Only a second-to-last `Attic` is removed; otherwise the components are unchanged. |
| CvsLog.CleanedPathSplits | git_remote_cvs/cvs.py:793-798 | The cleaned path splits back into exactly the kept components. |
| CvsLog.SliceMiddle | git_remote_cvs/cvs.py:791 | Cutting the prefix and `,v` leaves the middle. |
| PyStr.SplitRooted | git_remote_cvs/cvs.py:793 | Splitting `/dir/rest` gives an empty piece, the directory, then the pieces of the rest. |
| CvsLog.CleanupOfMiddle | git_remote_cvs/cvs.py:784-798 | The cleaned path is the joined non-empty components of the middle, without the `Attic`. |
| PyStr.NonEmptyCons | git_remote_cvs/cvs.py:793 | Filtering drops a leading empty part and keeps a non-empty one. |
| PyStr.RootedComponents | git_remote_cvs/cvs.py:793 | `/a/b/c` with slash-free non-empty parts has exactly the components `a`, `b`, `c`. |
| PyStr.RootedComponentsTwo | git_remote_cvs/cvs.py:793 | `/a/b` with slash-free non-empty parts has exactly the components `a`, `b`. |
| CvsLog.DeadComponents | git_remote_cvs/cvs.py:793 | `/dir/Attic/file` has the components `dir`, `Attic`, `file`. |
| CvsLog.LiveComponents | git_remote_cvs/cvs.py:793 | `/dir/file` has the components `dir`, `file`. |
| CvsLog.CleanupDead | git_remote_cvs/cvs.py:784-798 | A file in the Attic cleans to `dir/file`. |
| CvsLog.CleanupLive | git_remote_cvs/cvs.py:784-798 | A live file cleans to the same `dir/file`. |
| CvsLog.GrowsByFile | git_remote_cvs/cvs.py:882 | Opening a new file loses nothing filed. |
| CvsLog.GrowsByRevision | git_remote_cvs/cvs.py:894-896 | Filing a new revision loses nothing filed. |
| CvsLog.Commit | git_remote_cvs/cvs.py:892-897 | Filing the current revision keeps the invariant, clears it, and loses nothing. |
| CvsLog.StepBefore | git_remote_cvs/cvs.py:878-887 | A line before the revisions keeps the invariant and loses nothing. |
| CvsLog.OpenFile | git_remote_cvs/cvs.py:880-882 | Opening a file not seen before keeps the invariant and loses nothing filed. |
| CvsLog.SelectedRevs | git_remote_cvs/cvs.py:885-886 | The selected count is read only from a line with a `;`. Anything else is the unpacking error. |
| CvsLog.SelectedRevsOfTotals | git_remote_cvs/cvs.py:885-886 | A line `total revisions: T;\tselected revisions: N`, with no `;` in T, reads N. |
| CvsLog.TotalsLineSetsCount | git_remote_cvs/cvs.py:883-887 | Before the revisions, that totals line fails exactly when there is no current file or its name is empty. Otherwise it sets the declared count to N and moves on to the revisions, changing nothing else. |
| CvsLog.RevisionLineStartsRev | git_remote_cvs/cvs.py:915-916 | In a revision header, `revision N` for a number that reads back from its text starts the revision `CVSRev(cur_file, N)`: no date, no author, no deleted flag and an empty message. Nothing else changes. |
| CvsLog.StepBetween | git_remote_cvs/cvs.py:888-914 | A line between revisions keeps the invariant and loses nothing. |
| CvsLog.StepReading | git_remote_cvs/cvs.py:915-927 | A line inside a revision header keeps the invariant and loses nothing. |
| CvsLog.Step | git_remote_cvs/cvs.py:876-927 | Every successful line keeps the invariant and loses nothing filed. |
| CvsLog.Feed | git_remote_cvs/cvs.py:835-837 | Feeding lines until the first error keeps the invariant. |
| CvsLog.FeedGrows | git_remote_cvs/cvs.py:876-927 | A whole log never loses a filed file or revision. |
| CvsLog.RcsHeaderOpensFile | git_remote_cvs/cvs.py:879-882 | `RCS file:` fails exactly on a file seen before. Otherwise it opens the cleaned file with no revisions. |
| CvsLog.SeparatorStoresRevision | git_remote_cvs/cvs.py:889-897 | A separator fails exactly on a revision number already filed. Otherwise it files the current revision and clears it. |
| CvsLog.EqualsChecksCount | git_remote_cvs/cvs.py:889-907 | The `=` line succeeds exactly when the filed count matches `selected revisions`, and reports both counts otherwise. On success the file is closed. |
| CvsLog.SplitFields | git_remote_cvs/cvs.py:919 | The first three `;` fields are date, author and state. |
| CvsLog.FieldsLineCompletesRevision | git_remote_cvs/cvs.py:919-927 | The fields line succeeds exactly when author and state are labelled. It sets date, author and `deleted` (true exactly for `dead`), and keeps path, number and message. |
| CvsLog.MessageOf | git_remote_cvs/cvs.py:908-914 | The message never has more lines than were fed. |
| CvsLog.MessageLineStep | git_remote_cvs/cvs.py:908-914 | A non-separator line inside a revision appends to its message (or is skipped as a `branches:` line). |
| CvsLog.WithMessage | git_remote_cvs/cvs.py:908-914 | Appending message lines keeps the revision's number. |
| CvsLog.WithMessageStep | git_remote_cvs/cvs.py:908-914 | Appending the first line and then the rest is appending all. |
| CvsLog.MessageLinesAppend | git_remote_cvs/cvs.py:908-914 | Any run of non-separator lines only extends the current revision's message. |
| CvsLog.CvsRevLister.constructor | git_remote_cvs/cvs.py:853-874 | A new lister is in `BeforeRevs` with no file, revision or revisions. |
| CvsLog.CvsRevLister.Call | git_remote_cvs/cvs.py:876-927 | The new fields are the step's result. On an error the fields are unchanged and the error is returned. |
| CvsLog.CvsRevLister.CallBefore | git_remote_cvs/cvs.py:878-887 | Same, for the `BeforeRevs` branch. |
| CvsLog.CvsRevLister.CallRcsFile | git_remote_cvs/cvs.py:879-882 | Same, for an `RCS file: ` line: the cleaned-up path becomes the current file with no revisions, or the step fails and nothing changes. |
| CvsLog.CvsRevLister.CallTotals | git_remote_cvs/cvs.py:883-887 | Same, for the totals line: it records the selected count and moves to `BetweenRevs`, or fails and nothing changes. |
| CvsLog.CvsRevLister.CallBetween | git_remote_cvs/cvs.py:888-914 | Same, for the `BetweenRevs` branch. |
| CvsLog.CvsRevLister.CallSeparator | git_remote_cvs/cvs.py:889-907 | Same, for the two separator lines. |
| CvsLog.CvsRevLister.CallReading | git_remote_cvs/cvs.py:915-927 | Same, for the `ReadingRev` branch. |
| CvsLog.CvsRevLister.Finish | git_remote_cvs/cvs.py:929-931 | Succeeds exactly in `BeforeRevs`; otherwise the error says the log ended early. |
| CvsLog.CvsRevLister.Run | git_remote_cvs/cvs.py:835-841 | Feeding every right-stripped line and then finishing leaves the fields of the pure fold. It returns its error, or the result of `finish`. |
| CvsFetch.RangeSplits | git_remote_cvs/cvs.py:985-991 | The range splits at its first `:`. The lower end is `0` for an initial import, else `from_rev`'s text, which reads back as `from_rev`. The upper end is `to_rev`'s text when both are on one branch, and the symbol otherwise. |
| CvsFetch.IndexOfAfter | git_remote_cvs/cvs.py:991 | The first `:` of `a:b` is right after `a` when `a` has none. |
| CvsFetch.RangeStart | git_remote_cvs/cvs.py:985-986 | The lower end is non-empty and has no `:`, so the range's first `:` separates the two ends. |
| CvsFetch.RangeEnd | git_remote_cvs/cvs.py:985-988 | The upper end is the symbol, or the text of `to_rev`. An initial import always uses the symbol. |
| CvsFetch.RevRange | git_remote_cvs/cvs.py:991 | The `-r` argument has `:` right after the lower end. |
| CvsFetch.SelectFileExactly | git_remote_cvs/cvs.py:992-994 | The revisions are returned exactly when the log described only the file asked for. |
| CvsFetch.SelectFile | git_remote_cvs/cvs.py:992-994 | A result is returned only when the log described one file and it is `path`. The result is that file's revisions. More or fewer files fail the first assertion. |
| FetchPack.Dedup | builtin-fetch-pack.c:625-645 | The compacted heads are no longer than the input and hold exactly its values. |
| FetchPack.RemoveDuplicates | builtin-fetch-pack.c:625-645 | Returns `0 <= dst <= nr_heads`. The first `dst` entries are the compaction of the original. Entries from `dst` on are unchanged. |
| FetchPack.Seen | builtin-fetch-pack.c:633-639 | The inner scan finds the head exactly when it equals a kept one. |
| FetchPack.DedupDistinct | builtin-fetch-pack.c:629-643 | No two kept heads are equal. |
| FetchPack.DedupOfDistinct | builtin-fetch-pack.c:629-643 | Distinct heads are kept as they are. |
| FetchPack.DedupIdempotent | builtin-fetch-pack.c:625-645 | Compacting twice is compacting once. |
| FetchPack.KeepFirst | builtin-fetch-pack.c:629-643 | Front-to-back reference reading: kept heads come from the input and were not seen before. |
| FetchPack.DedupSplits | builtin-fetch-pack.c:629-643 | Compacting `p + q` compacts `p`, then keeps the heads of `q` not met before. |
| FetchPack.DedupSplitsStep | builtin-fetch-pack.c:636-643 | Moving one head from the unscanned part to the scanned part keeps the split form. |
| FetchPack.DedupLast | builtin-fetch-pack.c:636-643 | One source entry is appended exactly when it was not kept before. |
| FetchPack.DedupKeepsFirst | builtin-fetch-pack.c:629-643 | The kept heads are exactly the first occurrences, in their original order. |
| FetchPack.Unsigned | builtin-fetch-pack.c:528 | The mixed comparison converts the limit to unsigned: unchanged when non-negative, plus 2^32 otherwise. |
| FetchPack.LastSetting | builtin-fetch-pack.c:647-657 | A key no configuration entry names keeps its unset value. |
| FetchPack.ChooseLimit | builtin-fetch-pack.c:675-678 | The limit in force is one of the two configured limits or the built-in one. It is non-negative whenever the built-in limit is. |
| FetchPack.LastSettingWins | builtin-fetch-pack.c:647-657 | The last configuration entry for a key wins; with none, the key keeps its initial value. |
| FetchPack.LastSettingExists | builtin-fetch-pack.c:647-657 | Any set value comes from the last entry for the key. |
| FetchPack.ConfiguredLimitPrecedence | builtin-fetch-pack.c:675-678 | A non-negative `transfer.unpacklimit` wins whatever `fetch.unpacklimit` says. Otherwise a non-negative `fetch.unpacklimit` wins. Otherwise the limit is the built-in 100 (line 15). It is never negative. |
| FetchPack.FetchPackState.constructor | builtin-fetch-pack.c:13-15 | Limits start at -1, -1 and 100, with setup not yet done and no keep or lock flag. |
| FetchPack.FetchPackState.ConfigEntry | builtin-fetch-pack.c:647-665 | Each of the two keys sets its own limit and nothing else. |
| FetchPack.FetchPackState.Setup | builtin-fetch-pack.c:669-680 | Runs once: the limits are the last configured values and the limit in force follows the precedence. A second call changes nothing. The limit in force stays non-negative. |
| FetchPack.Options | builtin-fetch-pack.c:692-742 | The options are the leading arguments that start with `-`, up to the first one that does not. |
| FetchPack.OptionsPrefix | builtin-fetch-pack.c:692-742 | The arguments the loop has passed are exactly the leading options seen so far. |
| FetchPack.KeepCount | builtin-fetch-pack.c:708-711 | The count of `--keep` options is at most the number of options, and 0 exactly when none is `--keep` or `-k`. |
| FetchPack.KeepFlags | builtin-fetch-pack.c:708-711 | A keep flag once set stays set. Lock is never set without keep. |
| FetchPack.FetchPackState.ParseOptions | builtin-fetch-pack.c:692-744 | Succeeds exactly when a non-option argument follows only known options; it returns that repository and the heads after it. Otherwise it is a usage error. The keep and lock flags are the fold of the `--keep` options. |
| FetchPack.KeepFlagsCount | builtin-fetch-pack.c:708-711 | One `--keep` sets keep and hands the old keep flag to lock; two or more set both. From the start, keep means at least one and lock at least two. |
| FetchPack.IndexPackWords | builtin-fetch-pack.c:534-550 | `index-pack --stdin` first. Then `-v`, `--fix-thin` and the keep argument, each present exactly when its condition holds. No other word appears and none repeats, so the length is 2 plus one per condition that holds. |
| FetchPack.UnpackWords | builtin-fetch-pack.c:551-555 | `unpack-objects` first, then `-q` exactly when quiet. No other word appears and none repeats. |
| FetchPack.AssembleArgv | builtin-fetch-pack.c:534-557 | The command word first, each optional word exactly under its condition, and the header argument last when there is one. Words of the other command are absent, no word repeats, and the length is one per word added. |
| FetchPack.ChildArg.Text | builtin-fetch-pack.c:538-553 | Every word is non-empty. Only the two command words do not start with `-`. |
| FetchPack.FetchPackState.GetPackArgv | builtin-fetch-pack.c:491-555 | Fails exactly when it needs the header and cannot read it. The pack is kept (`index-pack`) under `--keep`, or when the limit is non-zero and the entry count reaches it; otherwise it is unpacked. The flags are passed under their own conditions. The `--keep=` argument appears when keeping under lock or a non-zero limit. The header argument comes last exactly when it was read. No word repeats, the only keep argument is this process's, and the length is one per word the conditions add. |

## Left out

- Running `cvs`, reading its output, `ProgressIndicator`, `print_members`, `load`/`save`: process and file I/O. `Run` takes the log's lines as a parameter.
- `CVSWorkDir` and `CVSRev.__str__`/`__cmp__`: working-directory and file-system access, and display.
- `time.time()`, `time.strptime` with `calendar.timegm`, and `time.strftime`: the clock is the parameter `now`. The calendar conversion is a parameter function `calendar`, and the clock formatting a parameter `format`. `now` is an integer, where the source uses a float.
- Python's `hash()` values: the memo holds the text that would be hashed, not the hash.
- `int()` accepting signs and surrounding white space: components and counts are plain decimal digit strings.
- `CvsLog.CvsRevLister.Call`: on a failed line the model leaves the lister unchanged. The source may have updated some fields before its assertion fails; the parser is abandoned in both.
- `CvsLog.StepReading`: `split(";", 3)` is modelled by a full split. The three fields it uses are the same.
- `CvsLog.CleanupLive`: stated for a directory not itself named `Attic`. A live file directly under a directory named `Attic` loses that directory, exactly as the source does.
- `CvsNumbers.FromText`: numbers are parsed from decimal digits only. The IndexError of an empty string is kept as `NoComponents`.
- Facts about `parent`, `branch` and history that hold only for numbers without a 0 component are stated under that condition. The source's own normalisation can leave a 0 (`1.0.0.5` normalises to the components 1.0.5, which keep a 0).
- `fetch_revs` with `to_rev` of length 0: a valid number always has a component, so `to_rev` is truthy whenever present.
- `FetchPack.FetchPackState.ConfigEntry`: `git_config_int` parsing and its fatal errors, `repack.usedeltabaseoffset` and the default configuration. The value arrives already as a 32-bit integer.
- `FetchPack.FetchPackState.ParseOptions`: only `--keep`/`-k` changes modelled state. The other known options are accepted without modelling their effect. A usage error is returned instead of exiting.
- `FetchPack.FetchPackState.GetPackArgv`: process id and host name are parameters. The 256-byte `keep_arg` buffer and its truncation, the sideband demultiplexer, `pack_lockfile` and spawning the child are not modelled. The child's arguments are words (`ChildArg`) with a `Text` rendering.
- `FetchPack.RemoveDuplicates`: the heads are compared by value. The C pointers are copied, not the strings, which the model does not distinguish.
- The fetch-pack network protocol, `filter_refs`, shallow handling and commit marking are not part of this model.

## Findings

| source | as written | input that shows it | evidently intended | confidence | as-written member | corrected member |
|---|---|---|---|---|---|---|
| git_remote_cvs/cvs.py:415-423 | `load_data` memoises the hash of the note text itself | the note `a:1.1` (no trailing newline) loads the state `a -> 1.1`, whose text is `a:1.1\n`, so the memo differs from what `__hash__` computes for an equal state built with `add` | the memo is the hash of the state's own text, or is cleared | not executed | CvsStates.CvsState.LoadDataAsWritten, CvsStates.LoadedMemoDiffers | CvsStates.CvsState.LoadData |
