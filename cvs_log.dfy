/** `CVSLogParser.cleanup_path` and `CVSRevLister` of git_remote_cvs/cvs.py:
    the line-driven reader of `cvs rlog` output that files every revision it
    finds under its path and number. The `cvs rlog` process itself is not
    modelled: the log is a sequence of lines. */
module CvsLog {
  import opened Wrappers
  import opened PyStr
  import opened CvsNumbers
  import opened CvsDates

  /** Why reading the log stops: each is an assertion or an exception of the
      reader. */
  datatype LogError =
    | NoSlashInRoot           // `cvs_root.index("/")` raises
    | OutsideModule           // the RCS path does not start with the module prefix
    | NotRcsFile              // the RCS path does not end in `,v`
    | FileSeenTwice           // a file's RCS header appears a second time
    | NoCurrentFile           // `total revisions:` without an RCS header before it
    | BadTotals               // the `total revisions: …; selected revisions: N` line does not unpack
    | DuplicateRevision       // a revision number appears twice in one file
    | CountMismatch(expected: nat, found: nat)  // the file's revision count is off
    | BadRevisionLine         // `revision` without a number
    | BadNumber(numError: NumError)  // the revision number does not decompose
    | BadFields               // the date/author/state line has fewer than four fields
    | NoDate                  // its first field is not `date: …`
    | BadDate(dateError: DateError) // the date does not parse
    | NoRevision              // a date/author/state line with no revision under construction
    | NoAuthor                // its second field is not `author: …`
    | NoState                 // its third field is not `state: …`
    | NotFinished             // `finish()` outside the BeforeRevs state

  // -----------------------------------------------------------------------
  // cleanup_path

  /** `"/".join((cvs_root[cvs_root.index("/"):], cvs_module))`: the
      repository directory of the root followed by the module. */
  function ModulePrefix(root: string, cvsModule: string): (r: Option<string>)
    ensures r.Some? <==> '/' in root
    ensures r.Some? ==> EndsWith(r.value, "/" + cvsModule) && r.value[0] == '/'
  {
    match IndexOf(root, '/')
    case None => None
    case Some(i) =>
      var p := root[i..] + "/" + cvsModule;
      assert p[|p| - |"/" + cvsModule|..] == "/" + cvsModule;
      Some(p)
  }

  /** `del path_comps[-2]` when it is `Attic`. */
  function DropAttic(comps: seq<string>): (r: seq<string>)
    ensures |r| == |comps| || |r| == |comps| - 1
    ensures |comps| > 0 ==> |r| > 0 && r[|r| - 1] == comps[|comps| - 1]
    ensures |r| < |comps| ==> comps[|comps| - 2] == "Attic"
  {
    var n := |comps|;
    if n >= 2 && comps[n - 2] == "Attic" then comps[..n - 2] + [comps[n - 1]] else comps
  }

  /** The non-empty `/`-separated components of the stripped middle part. */
  function PathComponents(mid: string): (r: seq<string>)
    ensures forall i :: 0 <= i < |r| ==> r[i] != "" && '/' !in r[i]
  {
    var parts := Split(Strip(mid), '/');
    NonEmptyKeeps(parts);
    NonEmpty(parts)
  }

  /** `cleanup_path(cvs_path)`: drop the module prefix and the `,v`
      extension, split on `/` dropping empty components, delete an `Attic`
      in the second-to-last place, and join with `/`. */
  function CleanupPath(root: string, cvsModule: string, cvsPath: string): (r: Result<string, LogError>)
    ensures r.Success? <==>
      ModulePrefix(root, cvsModule).Some? &&
      StartsWith(cvsPath, ModulePrefix(root, cvsModule).value) && EndsWith(cvsPath, ",v")
  {
    match ModulePrefix(root, cvsModule)
    case None => Failure(NoSlashInRoot)
    case Some(prefix) =>
      if !StartsWith(cvsPath, prefix) then Failure(OutsideModule)
      else if !EndsWith(cvsPath, ",v") then Failure(NotRcsFile)
      else
        var comps := PathComponents(Slice(cvsPath, |prefix|, -2));
        Success(Join(DropAttic(comps), '/'))
  }

  /** `filter(None, …)` keeps only pieces that were there, in order. */
  lemma {:induction false} NonEmptyKeeps(parts: seq<string>)
    requires forall i :: 0 <= i < |parts| ==> '/' !in parts[i]
    ensures forall i :: 0 <= i < |NonEmpty(parts)| ==> '/' !in NonEmpty(parts)[i]
  {
    if |parts| > 0 {
      NonEmptyKeeps(parts[1..]);
    }
  }

  /** `DropAttic` removes at most the one component in the second-to-last
      place, and only when it is `Attic`; everything else keeps its order. */
  lemma DropAtticOnlySecondToLast(comps: seq<string>)
    ensures var r := DropAttic(comps);
      (r == comps) || (|comps| >= 2 && comps[|comps| - 2] == "Attic" &&
                       |r| == |comps| - 1 && r[..|r| - 1] == comps[..|comps| - 2] &&
                       r[|r| - 1] == comps[|comps| - 1])
    ensures |comps| < 2 || comps[|comps| - 2] != "Attic" ==> DropAttic(comps) == comps
  {
  }

  /** The cleaned path splits back into exactly the kept components: none
      is empty and none holds a `/`. */
  lemma CleanedPathSplits(root: string, cvsModule: string, cvsPath: string)
    requires CleanupPath(root, cvsModule, cvsPath).Success?
    ensures var prefix := ModulePrefix(root, cvsModule).value;
      var comps := DropAttic(PathComponents(Slice(cvsPath, |prefix|, -2)));
      var r := CleanupPath(root, cvsModule, cvsPath).value;
      (comps == [] && r == "") || (comps != [] && Split(r, '/') == comps)
  {
    var prefix := ModulePrefix(root, cvsModule).value;
    var all := PathComponents(Slice(cvsPath, |prefix|, -2));
    var comps := DropAttic(all);
    assert forall i :: 0 <= i < |comps| ==> '/' !in comps[i] by {
      forall i | 0 <= i < |comps|
        ensures '/' !in comps[i]
      {
        var n := |all|;
        if n >= 2 && all[n - 2] == "Attic" && i == |comps| - 1 {
          assert comps[i] == all[n - 1];
        } else if n >= 2 && all[n - 2] == "Attic" {
          assert comps[i] == all[i];
        }
      }
    }
    if comps != [] {
      SplitJoin(comps, '/');
    }
  }

  /** The middle of `prefix + mid + ",v"` is `mid`. */
  lemma SliceMiddle(prefix: string, mid: string)
    ensures Slice(prefix + mid + ",v", |prefix|, -2) == mid
  {
    var p := prefix + mid + ",v";
    assert p[|prefix|..|p| - 2] == mid;
  }

  /** An RCS path is the prefix, a middle part and `,v`: it cleans up to
      the middle part's components. */
  lemma CleanupOfMiddle(root: string, cvsModule: string, mid: string)
    requires '/' in root && Strip(mid) == mid
    ensures var prefix := ModulePrefix(root, cvsModule).value;
      CleanupPath(root, cvsModule, prefix + mid + ",v") == Success(Join(DropAttic(NonEmpty(Split(mid, '/'))), '/'))
  {
    var prefix := ModulePrefix(root, cvsModule).value;
    var p := prefix + mid + ",v";
    SliceMiddle(prefix, mid);
    assert StartsWith(p, prefix) by {
      assert p[..|prefix|] == prefix;
    }
    assert EndsWith(p, ",v") by {
      assert p[|p| - 2..] == ",v";
    }
  }

  /** `/dir/Attic/file` has the components `dir`, `Attic` and `file`. */
  lemma DeadComponents(dir: string, file: string)
    requires dir != "" && file != "" && '/' !in dir && '/' !in file
    ensures NonEmpty(Split("/" + dir + "/Attic/" + file, '/')) == [dir, "Attic", file]
  {
    AtticPath(dir, file);
    RootedComponents(dir, "Attic", file);
  }

  /** The word `Attic` between two slashes. */
  lemma AtticPath(dir: string, file: string)
    ensures "/" + dir + "/Attic/" + file == "/" + dir + "/" + "Attic" + "/" + file
    ensures "Attic" != "" && '/' !in "Attic"
  {
  }

  /** `/dir/file` has the components `dir` and `file`. */
  lemma LiveComponents(dir: string, file: string)
    requires dir != "" && file != "" && '/' !in dir && '/' !in file
    ensures NonEmpty(Split("/" + dir + "/" + file, '/')) == [dir, file]
  {
    RootedComponentsTwo(dir, file);
  }

  /** A dead file's RCS path in the `Attic` cleans up to `dir/file`. */
  lemma CleanupDead(root: string, cvsModule: string, dir: string, file: string)
    requires '/' in root
    requires dir != "" && file != "" && '/' !in dir && '/' !in file && !IsSpace(file[|file| - 1])
    ensures var prefix := ModulePrefix(root, cvsModule).value;
      CleanupPath(root, cvsModule, prefix + ("/" + dir + "/Attic/" + file) + ",v") == Success(dir + "/" + file)
  {
    assert DropAttic([dir, "Attic", file]) == [dir, file];
    assert Join([dir, file], '/') == dir + "/" + file by {
      assert [dir, file][1..] == [file];
    }
    var dead := "/" + dir + "/Attic/" + file;
    assert dead[|dead| - 1] == file[|file| - 1];
    StripUnpadded(dead);
    CleanupOfMiddle(root, cvsModule, dead);
    DeadComponents(dir, file);
  }

  /** A live file's RCS path cleans up to `dir/file`, unless the directory
      is itself named `Attic`. */
  lemma CleanupLive(root: string, cvsModule: string, dir: string, file: string)
    requires '/' in root
    requires dir != "" && dir != "Attic" && file != "" && '/' !in dir && '/' !in file && !IsSpace(file[|file| - 1])
    ensures var prefix := ModulePrefix(root, cvsModule).value;
      CleanupPath(root, cvsModule, prefix + ("/" + dir + "/" + file) + ",v") == Success(dir + "/" + file)
  {
    assert DropAttic([dir, file]) == [dir, file];
    assert Join([dir, file], '/') == dir + "/" + file by {
      assert [dir, file][1..] == [file];
    }
    var live := "/" + dir + "/" + file;
    assert live[|live| - 1] == file[|file| - 1];
    StripUnpadded(live);
    CleanupOfMiddle(root, cvsModule, live);
    LiveComponents(dir, file);
  }

  // -----------------------------------------------------------------------
  // CVSRev and the states of CVSRevLister

  /** A revision number as the lister stores it: one that decomposed. */
  type RevNum = n: CvsNum | n.Valid() witness CvsNum([1])

  /** `CVSRev`: the metadata of one revision; `date` and `deleted` are
      `None` until the date/author/state line has been read. */
  datatype CvsRev = CvsRev(path: string, num: RevNum, date: Option<CvsDate>, author: string,
                           deleted: Option<bool>, message: seq<string>)

  /** The three states of the lister. */
  datatype Phase = BeforeRevs | BetweenRevs | ReadingRev

  /** The fields of a `CVSRevLister` (`state`, `cur_file`,
      `cur_file_numrevs`, `cur_rev` and the two-level `revs` table). */
  datatype Snapshot = Snapshot(phase: Phase, curFile: Option<string>, numRevs: nat,
                               curRev: Option<CvsRev>, revs: map<string, map<CvsNum, CvsRev>>)

  /** What the lister is constructed with, and what the dates it reads
      depend on: the `(cvs_root, cvs_module)` pair, the calendar and the
      clock behind `"now"`. */
  datatype Context = Context(root: string, cvsModule: string, calendar: Calendar, now: int)

  /** The separator between revisions. */
  const Dashes := "----------------------------"

  /** The separator after a file's last revision. */
  const Equals := "============================================================================="

  function Initial(): Snapshot
  {
    Snapshot(BeforeRevs, None, 0, None, map[])
  }

  /** Every revision in the table is filed under its own path and number. */
  predicate Filed(revs: map<string, map<CvsNum, CvsRev>>)
  {
    forall f, n :: f in revs && n in revs[f] ==> revs[f][n].path == f && revs[f][n].num == n
  }

  /** What holds between any two lines: the current file has a table,
      outside BeforeRevs there is a current file, a revision under
      construction belongs to it (and there is none in BeforeRevs), and
      every stored revision is filed correctly. */
  predicate Inv(s: Snapshot)
  {
    (s.curFile.Some? ==> s.curFile.value in s.revs) &&
    (s.phase != BeforeRevs ==> s.curFile.Some?) &&
    (s.phase == BeforeRevs ==> s.curRev.None?) &&
    (s.curRev.Some? ==> s.curFile.Some? && s.curRev.value.path == s.curFile.value) &&
    Filed(s.revs)
  }

  /** `int(line.split(";")[1].split(":")[1].strip())` on a
      `total revisions: T;\tselected revisions: N` line: `None` where an
      unpacking, an index or `int()` fails. */
  function SelectedRevs(line: string): (r: Option<nat>)
    ensures r.Some? ==> ';' in line
  {
    var halves := Split(line, ';');
    if |halves| != 2 then None
    else
      assert ';' in line by {
        if ';' !in line {
          SplitWithoutSep(line, ';');
        }
      }
      var sides := Split(halves[1], ':');
      if |sides| < 2 then None else ParseDecimal(Strip(sides[1]))
  }

  /** `b` keeps every file and every revision of `a`, unchanged. */
  predicate Grows(a: map<string, map<CvsNum, CvsRev>>, b: map<string, map<CvsNum, CvsRev>>)
  {
    (forall f :: f in a ==> f in b) &&
    (forall f, n :: f in a && n in a[f] ==> f in b && n in b[f] && b[f][n] == a[f][n])
  }

  /** A table for a new file keeps everything stored. */
  lemma GrowsByFile(revs: map<string, map<CvsNum, CvsRev>>, f: string)
    requires f !in revs
    ensures Grows(revs, revs[f := map[]])
  {
  }

  /** A new revision of a file keeps everything stored. */
  lemma GrowsByRevision(revs: map<string, map<CvsNum, CvsRev>>, f: string, rev: CvsRev)
    requires f in revs && rev.num !in revs[f]
    ensures Grows(revs, revs[f := revs[f][rev.num := rev]])
  {
  }

  /** Store the revision under construction in the current file's table. */
  function Commit(s: Snapshot): (r: Result<Snapshot, LogError>)
    requires Inv(s) && s.phase == BetweenRevs
    ensures r.Success? ==> Inv(r.value) && r.value.curRev.None?
    ensures r.Success? ==> Grows(s.revs, r.value.revs)
  {
    match s.curRev
    case None => Success(s)
    case Some(rev) =>
      var f := s.curFile.value;
      if rev.num in s.revs[f] then Failure(DuplicateRevision)
      else
        GrowsByRevision(s.revs, f, rev);
        Success(s.(curRev := None, revs := s.revs[f := s.revs[f][rev.num := rev]]))
  }

  /** `__call__(line)` in the BeforeRevs state: an RCS header opens a new
      file, the totals line moves on to BetweenRevs; anything else is
      skipped. */
  function StepBefore(ctx: Context, s: Snapshot, line: string): (r: Result<Snapshot, LogError>)
    requires Inv(s) && s.phase == BeforeRevs
    ensures r.Success? ==> Inv(r.value)
    ensures r.Success? ==> Grows(s.revs, r.value.revs)
  {
    if StartsWith(line, "RCS file: ") then
      match CleanupPath(ctx.root, ctx.cvsModule, line[10..])
      case Failure(e) => Failure(e)
      case Success(f) =>
        if f in s.revs then Failure(FileSeenTwice)
        else Success(OpenFile(s, f))
    else if StartsWith(line, "total revisions: ") then
      if s.curFile.None? || s.curFile.value == "" then Failure(NoCurrentFile)
      else
        match SelectedRevs(line)
        case None => Failure(BadTotals)
        case Some(n) => Success(s.(numRevs := n, phase := BetweenRevs))
    else Success(s)
  }

  /** `self.cur_file = f; self.revs[f] = {}` for a file not seen before. */
  function OpenFile(s: Snapshot, f: string): (r: Snapshot)
    requires Inv(s) && s.phase == BeforeRevs && f !in s.revs
    ensures Inv(r) && Grows(s.revs, r.revs)
  {
    GrowsByFile(s.revs, f);
    s.(curFile := Some(f), revs := s.revs[f := map[]])
  }

  /** `__call__(line)` in the BetweenRevs state: a separator stores the
      revision under construction; the dashes then read the next revision,
      the equals signs check the file's revision count and close the file.
      Inside a revision a `branches:` line of its own number is skipped and
      any other line is a line of its message. */
  function StepBetween(s: Snapshot, line: string): (r: Result<Snapshot, LogError>)
    requires Inv(s) && s.phase == BetweenRevs
    ensures r.Success? ==> Inv(r.value)
    ensures r.Success? ==> Grows(s.revs, r.value.revs)
  {
    if line == Dashes || line == Equals then
      match Commit(s)
      case Failure(e) => Failure(e)
      case Success(c) =>
        if line == Dashes then Success(c.(phase := ReadingRev))
        else
          var found := |c.revs[c.curFile.value]|;
          if found != c.numRevs then Failure(CountMismatch(c.numRevs, found))
          else Success(c.(curFile := None, phase := BeforeRevs))
    else
      match s.curRev
      case None => Success(s)
      case Some(rev) =>
        if StartsWith(line, "branches:  " + rev.num.Text()) && EndsWith(line, ";") then Success(s)
        else Success(s.(curRev := Some(rev.(message := rev.message + [line]))))
  }

  /** `__call__(line)` in the ReadingRev state: a `revision N` line starts a
      revision of the current file; any other line is the
      `date: …; author: …; state: …;` line that completes it. */
  function StepReading(ctx: Context, s: Snapshot, line: string): (r: Result<Snapshot, LogError>)
    requires Inv(s) && s.phase == ReadingRev
    ensures r.Success? ==> Inv(r.value)
    ensures r.Success? ==> Grows(s.revs, r.value.revs)
  {
    if StartsWith(line, "revision ") then
      var words := Words(line);
      if |words| < 2 then Failure(BadRevisionLine)
      else
        match FromText(words[1])
        case Failure(e) => Failure(BadNumber(e))
        case Success(n) => Success(s.(curRev := Some(CvsRev(s.curFile.value, n, None, "", None, []))))
    else
      var fields := Split(line, ';');
      if |fields| < 4 then Failure(BadFields)
      else if !StartsWith(fields[0], "date: ") then Failure(NoDate)
      else
        match Parse(Some(fields[0][6..]), false, ctx.now, ctx.calendar)
        case Failure(e) => Failure(BadDate(e))
        case Success(d) =>
          if s.curRev.None? then Failure(NoRevision)
          else
            var author := Strip(fields[1]);
            var state := Strip(fields[2]);
            if !StartsWith(author, "author: ") then Failure(NoAuthor)
            else if !StartsWith(state, "state: ") then Failure(NoState)
            else
              var rev := s.curRev.value.(date := Some(d), author := author[8..],
                                         deleted := Some(state[7..] == "dead"));
              Success(s.(phase := BetweenRevs, curRev := Some(rev)))
  }

  /** `__call__(line)`: one line of the log, by state. */
  function Step(ctx: Context, s: Snapshot, line: string): (r: Result<Snapshot, LogError>)
    requires Inv(s)
    ensures r.Success? ==> Inv(r.value)
    ensures r.Success? ==> Grows(s.revs, r.value.revs)
  {
    match s.phase
    case BeforeRevs => StepBefore(ctx, s, line)
    case BetweenRevs => StepBetween(s, line)
    case ReadingRev => StepReading(ctx, s, line)
  }

  /** Where feeding lines stops: the state reached and, when a line failed,
      why (the state is then the one before that line). */
  datatype Outcome = Outcome(last: Snapshot, error: Option<LogError>)

  /** Every line in turn, up to the first that fails. */
  function Feed(ctx: Context, s: Snapshot, lines: seq<string>): (o: Outcome)
    requires Inv(s)
    ensures Inv(o.last)
    decreases |lines|
  {
    if |lines| == 0 then Outcome(s, None)
    else
      match Step(ctx, s, lines[0])
      case Failure(e) => Outcome(s, Some(e))
      case Success(t) => Feed(ctx, t, lines[1..])
  }

  /** The lines `run()` hands to `__call__`: each with its trailing
      whitespace stripped. */
  function Stripped(lines: seq<string>): (r: seq<string>)
    ensures |r| == |lines| && forall i :: 0 <= i < |lines| ==> r[i] == RStrip(lines[i])
  {
    seq(|lines|, i requires 0 <= i < |lines| => RStrip(lines[i]))
  }

  // -----------------------------------------------------------------------
  // what a line does

  /** An RCS header opens a table for a file not seen before, and fails on
      a file seen before. */
  lemma RcsHeaderOpensFile(ctx: Context, s: Snapshot, rcsPath: string)
    requires Inv(s) && s.phase == BeforeRevs
    requires CleanupPath(ctx.root, ctx.cvsModule, rcsPath).Success?
    ensures var f := CleanupPath(ctx.root, ctx.cvsModule, rcsPath).value;
      var r := Step(ctx, s, "RCS file: " + rcsPath);
      (f in s.revs <==> r == Failure(FileSeenTwice)) &&
      (r.Success? ==> r.value.curFile == Some(f) && r.value.revs == s.revs[f := map[]] && r.value.phase == BeforeRevs)
  {
    var line := "RCS file: " + rcsPath;
    assert StartsWith(line, "RCS file: ") by {
      assert line[..10] == "RCS file: ";
    }
    assert line[10..] == rcsPath;
  }

  /** A separator stores the revision under construction in the current
      file's table under its number, which must not be there yet. */
  lemma SeparatorStoresRevision(ctx: Context, s: Snapshot, line: string)
    requires Inv(s) && s.phase == BetweenRevs && s.curRev.Some?
    requires line == Dashes || line == Equals
    ensures var f, rev := s.curFile.value, s.curRev.value;
      var r := Step(ctx, s, line);
      (rev.num in s.revs[f] <==> r == Failure(DuplicateRevision)) &&
      (r.Success? ==> rev.num !in s.revs[f] && r.value.curRev.None? &&
                      r.value.revs == s.revs[f := s.revs[f][rev.num := rev]])
  {
  }

  /** The file separator checks that the file's table, with the revision
      under construction stored, holds the declared number of selected
      revisions, and then closes the file. */
  lemma EqualsChecksCount(ctx: Context, s: Snapshot)
    requires Inv(s) && s.phase == BetweenRevs
    requires s.curRev.Some? ==> s.curRev.value.num !in s.revs[s.curFile.value]
    ensures var f := s.curFile.value;
      var stored := |s.revs[f]| + if s.curRev.Some? then 1 else 0;
      var r := Step(ctx, s, Equals);
      (r.Success? <==> stored == s.numRevs) &&
      (r.Failure? ==> r.error == CountMismatch(s.numRevs, stored)) &&
      (r.Success? ==> r.value.phase == BeforeRevs && r.value.curFile.None? && |r.value.revs[f]| == s.numRevs)
  {
    var f := s.curFile.value;
    if s.curRev.Some? {
      var m := s.revs[f];
      var k := s.curRev.value.num;
      assert |m[k := s.curRev.value]| == |m| + 1 by {
        assert m[k := s.curRev.value].Keys == m.Keys + {k};
      }
    }
  }

  /** The totals line `total revisions: T;\tselected revisions: N` reads
      the number N of selected revisions, whatever T is. */
  lemma SelectedRevsOfTotals(t: string, n: nat)
    requires ';' !in t
    ensures SelectedRevs("total revisions: " + t + ";" + "\tselected revisions" + ": " + Decimal(n)) == Some(n)
  {
    NumberAfterLabel("total revisions: " + t, "\tselected revisions", n);
  }

  /** Before the revisions, the totals line needs a current file; it then
      records the declared number of selected revisions and moves on to
      the revisions. */
  lemma TotalsLineSetsCount(ctx: Context, s: Snapshot, t: string, n: nat)
    requires Inv(s) && s.phase == BeforeRevs && ';' !in t
    ensures Step(ctx, s, "total revisions: " + t + ";" + "\tselected revisions" + ": " + Decimal(n)) ==
      if s.curFile.None? || s.curFile.value == "" then Failure(NoCurrentFile)
      else Success(s.(numRevs := n, phase := BetweenRevs))
  {
    var line := "total revisions: " + t + ";" + "\tselected revisions" + ": " + Decimal(n);
    assert !StartsWith(line, "RCS file: ") by {
      assert line[0] == 't';
    }
    assert StartsWith(line, "total revisions: ") by {
      assert line[..17] == "total revisions: ";
    }
    SelectedRevsOfTotals(t, n);
  }

  /** While reading a revision header, `revision N` starts a revision of the
      current file with number N, no date, no author and an empty message,
      for every number that reads back from its own text. */
  lemma RevisionLineStartsRev(ctx: Context, s: Snapshot, n: CvsNum)
    requires Inv(s) && s.phase == ReadingRev
    requires n.Valid() && (|n.c| < 2 || n.c[|n.c| - 2] != 0)
    ensures Step(ctx, s, "revision " + n.Text()) ==
      Success(s.(curRev := Some(CvsRev(s.curFile.value, n, None, "", None, []))))
  {
    var line := "revision " + n.Text();
    assert StartsWith(line, "revision ") by {
      assert line[..9] == "revision ";
    }
    TextIsWord(n);
    RevisionWords(n.Text());
    TextOfNumberReadsBack(n);
  }

  /** `line.split()` of `revision N` is the two words. */
  lemma RevisionWords(text: string)
    requires |text| > 0 && NoSpace(text)
    ensures Words("revision " + text) == ["revision", text]
  {
    RevisionPrefix();
    WordsOfTwo("revision", text);
  }

  /** The prefix `revision ` is the word `revision` and one space. */
  lemma RevisionPrefix()
    ensures NoSpace("revision") && "revision " == "revision" + " "
  {
    var word := "revision";
    forall i | 0 <= i < |word|
      ensures !IsSpace(word[i])
    {
    }
  }

  /** The pieces `date: D`, `A`, `S` of a `date: D;A;S;…` line. */
  lemma SplitFields(d: string, a: string, st: string, rest: string)
    requires ';' !in d && ';' !in a && ';' !in st
    ensures var fields := Split("date: " + d + ";" + a + ";" + st + ";" + rest, ';');
      |fields| >= 4 && fields[0] == "date: " + d && fields[1] == a && fields[2] == st
  {
    var date := "date: " + d;
    assert ';' !in date by {
      assert forall i :: 0 <= i < |date| ==> date[i] == if i < 6 then "date: "[i] else d[i - 6];
    }
    assert date + ";" + a + ";" + st + ";" + rest == date + [';'] + (a + [';'] + (st + [';'] + rest));
    SplitAfterPiece(date, ';', a + [';'] + (st + [';'] + rest));
    SplitAfterPiece(a, ';', st + [';'] + rest);
    SplitAfterPiece(st, ';', rest);
  }

  /** The `date: D;A;S;…` line completes the revision under construction:
      it is read exactly when the author field starts with `author: ` and
      the state field with `state: `, and then the revision is deleted
      exactly when the state is `dead`; its path, number and message stay. */
  lemma FieldsLineCompletesRevision(ctx: Context, s: Snapshot, d: string, a: string, st: string, rest: string)
    requires Inv(s) && s.phase == ReadingRev && s.curRev.Some?
    requires ';' !in d && ';' !in a && ';' !in st
    requires Parse(Some(d), false, ctx.now, ctx.calendar).Success?
    ensures var r := Step(ctx, s, "date: " + d + ";" + a + ";" + st + ";" + rest);
      (r.Success? <==> StartsWith(Strip(a), "author: ") && StartsWith(Strip(st), "state: ")) &&
      (r.Success? ==> r.value.curRev.Some?) &&
      (r.Success? && r.value.curRev.Some? ==>
        var rev, old_rev := r.value.curRev.value, s.curRev.value;
        r.value.phase == BetweenRevs &&
        rev.date == Some(Parse(Some(d), false, ctx.now, ctx.calendar).value) &&
        rev.author == Strip(a)[8..] &&
        (rev.deleted == Some(true) <==> Strip(st)[7..] == "dead") && rev.deleted.Some? &&
        rev.path == old_rev.path && rev.num == old_rev.num && rev.message == old_rev.message)
  {
    var line := "date: " + d + ";" + a + ";" + st + ";" + rest;
    SplitFields(d, a, st, rest);
    assert !StartsWith(line, "revision ") by {
      assert line[0] == 'd';
    }
    var fields := Split(line, ';');
    assert StartsWith(fields[0], "date: ") by {
      assert fields[0][..6] == "date: ";
    }
    assert fields[0][6..] == d;
  }

  /** A `branches:  N…;` line of the revision's own number. */
  predicate BranchesLine(num: RevNum, line: string)
  {
    StartsWith(line, "branches:  " + num.Text()) && EndsWith(line, ";")
  }

  /** The message lines among `lines`: all but the revision's branches lines. */
  function MessageOf(num: RevNum, lines: seq<string>): (r: seq<string>)
    ensures |r| <= |lines|
  {
    if |lines| == 0 then []
    else if BranchesLine(num, lines[0]) then MessageOf(num, lines[1..])
    else [lines[0]] + MessageOf(num, lines[1..])
  }

  /** The revision under construction after one more line inside it: the
      line is dropped when it is the revision's branches line and appended
      to its message otherwise. */
  function WithLine(s: Snapshot, line: string): Snapshot
    requires s.curRev.Some?
  {
    var rev := s.curRev.value;
    if BranchesLine(rev.num, line) then s
    else s.(curRev := Some(rev.(message := rev.message + [line])))
  }

  /** Inside a revision, a line other than a separator is dropped when it
      is the revision's branches line and appended to its message
      otherwise, and reading goes on from there. */
  lemma MessageLineStep(ctx: Context, s: Snapshot, lines: seq<string>)
    requires Inv(s) && s.phase == BetweenRevs && s.curRev.Some?
    requires |lines| > 0 && lines[0] != Dashes && lines[0] != Equals
    ensures Step(ctx, s, lines[0]) == Success(WithLine(s, lines[0]))
    ensures Inv(WithLine(s, lines[0])) && Feed(ctx, s, lines) == Feed(ctx, WithLine(s, lines[0]), lines[1..])
  {
  }

  /** The revision under construction with `lines` read into its message. */
  function WithMessage(s: Snapshot, lines: seq<string>): (r: Snapshot)
    requires s.curRev.Some?
    ensures r.curRev.Some? && r.curRev.value.num == s.curRev.value.num
  {
    var rev := s.curRev.value;
    s.(curRev := Some(rev.(message := rev.message + MessageOf(rev.num, lines))))
  }

  /** One message line, then the rest: the two readings compose. */
  lemma WithMessageStep(s: Snapshot, lines: seq<string>)
    requires s.curRev.Some? && |lines| > 0
    ensures WithMessage(WithLine(s, lines[0]), lines[1..]) == WithMessage(s, lines)
  {
    var rev := s.curRev.value;
    if !BranchesLine(rev.num, lines[0]) {
      assert rev.message + [lines[0]] + MessageOf(rev.num, lines[1..]) == rev.message + MessageOf(rev.num, lines);
    }
  }

  /** Inside a revision, lines up to the next separator are appended to its
      message in order, except its own branches lines, which are dropped;
      nothing else changes. */
  lemma {:induction false} MessageLinesAppend(ctx: Context, s: Snapshot, lines: seq<string>)
    requires Inv(s) && s.phase == BetweenRevs && s.curRev.Some?
    requires forall i :: 0 <= i < |lines| ==> lines[i] != Dashes && lines[i] != Equals
    ensures Feed(ctx, s, lines) == Outcome(WithMessage(s, lines), None)
    decreases |lines|
  {
    if |lines| == 0 {
      var rev := s.curRev.value;
      assert rev.(message := rev.message + []) == rev;
      assert s.(curRev := Some(rev)) == s;
    } else {
      MessageLineStep(ctx, s, lines);
      MessageLinesAppend(ctx, WithLine(s, lines[0]), lines[1..]);
      WithMessageStep(s, lines);
    }
  }

  /** No log removes or rewrites a stored revision: the table only grows. */
  lemma {:induction false} FeedGrows(ctx: Context, s: Snapshot, lines: seq<string>)
    requires Inv(s)
    ensures Grows(s.revs, Feed(ctx, s, lines).last.revs)
    decreases |lines|
  {
    if |lines| > 0 && Step(ctx, s, lines[0]).Success? {
      FeedGrows(ctx, Step(ctx, s, lines[0]).value, lines[1..]);
    }
  }

  // -----------------------------------------------------------------------
  // the lister object

  /** `CVSRevLister`: the state of the log reader, one line at a time. A
      line that fails leaves the object as it was (the reader is abandoned
      after a failed assertion). */
  class CvsRevLister {
    const ctx: Context
    var phase: Phase
    var curFile: Option<string>
    var numRevs: nat
    var curRev: Option<CvsRev>
    var revs: map<string, map<CvsNum, CvsRev>>

    function Snap(): Snapshot
      reads this
    {
      Snapshot(phase, curFile, numRevs, curRev, revs)
    }

    predicate Valid()
      reads this
    {
      Inv(Snap())
    }

    /** `__init__`: BeforeRevs, no current file or revision, no revisions. */
    constructor(ctx: Context)
      ensures this.ctx == ctx && Snap() == Initial() && Valid()
    {
      this.ctx := ctx;
      phase := BeforeRevs;
      curFile := None;
      numRevs := 0;
      curRev := None;
      revs := map[];
    }

    /** `__call__(line)`. */
    method Call(line: string) returns (r: Result<(), LogError>)
      requires Valid()
      modifies this
      ensures Valid()
      ensures match Step(ctx, old(Snap()), line)
        case Success(t) => r.Success? && Snap() == t
        case Failure(e) => r == Failure(e) && Snap() == old(Snap())
    {
      if phase == BeforeRevs {
        r := CallBefore(line);
      } else if phase == BetweenRevs {
        r := CallBetween(line);
      } else {
        r := CallReading(line);
      }
    }

    /** `__call__(line)` in the BeforeRevs state. */
    method CallBefore(line: string) returns (r: Result<(), LogError>)
      requires Valid() && phase == BeforeRevs
      modifies this
      ensures Valid()
      ensures match StepBefore(ctx, old(Snap()), line)
        case Success(t) => r.Success? && Snap() == t
        case Failure(e) => r == Failure(e) && Snap() == old(Snap())
    {
      if StartsWith(line, "RCS file: ") {
        r := CallRcsFile(line);
      } else if StartsWith(line, "total revisions: ") {
        r := CallTotals(line);
      } else {
        r := Success(());
      }
    }

    /** An `RCS file: ` line opens the next file. */
    method CallRcsFile(line: string) returns (r: Result<(), LogError>)
      requires Valid() && phase == BeforeRevs && StartsWith(line, "RCS file: ")
      modifies this
      ensures Valid()
      ensures match StepBefore(ctx, old(Snap()), line)
        case Success(t) => r.Success? && Snap() == t
        case Failure(e) => r == Failure(e) && Snap() == old(Snap())
    {
      ghost var s0 := Snap();
      var path := CleanupPath(ctx.root, ctx.cvsModule, line[10..]);
      if path.Failure? {
        return Failure(path.error);
      }
      if path.value in revs {
        return Failure(FileSeenTwice);
      }
      curFile := Some(path.value);
      revs := revs[path.value := map[]];
      assert Snap() == OpenFile(s0, path.value);
      r := Success(());
    }

    /** The totals line records how many revisions the file lists. */
    method CallTotals(line: string) returns (r: Result<(), LogError>)
      requires Valid() && phase == BeforeRevs
      requires !StartsWith(line, "RCS file: ") && StartsWith(line, "total revisions: ")
      modifies this
      ensures Valid()
      ensures match StepBefore(ctx, old(Snap()), line)
        case Success(t) => r.Success? && Snap() == t
        case Failure(e) => r == Failure(e) && Snap() == old(Snap())
    {
      ghost var s0 := Snap();
      if curFile.None? || curFile.value == "" {
        return Failure(NoCurrentFile);
      }
      var selected := SelectedRevs(line);
      if selected.None? {
        return Failure(BadTotals);
      }
      numRevs := selected.value;
      phase := BetweenRevs;
      assert StepBefore(ctx, s0, line) == Success(s0.(numRevs := selected.value, phase := BetweenRevs));
      r := Success(());
    }

    /** `__call__(line)` in the BetweenRevs state. */
    method CallBetween(line: string) returns (r: Result<(), LogError>)
      requires Valid() && phase == BetweenRevs
      modifies this
      ensures Valid()
      ensures match StepBetween(old(Snap()), line)
        case Success(t) => r.Success? && Snap() == t
        case Failure(e) => r == Failure(e) && Snap() == old(Snap())
    {
      if line == Dashes || line == Equals {
        r := CallSeparator(line);
      } else if curRev.Some? {
        var rev := curRev.value;
        if !(StartsWith(line, "branches:  " + rev.num.Text()) && EndsWith(line, ";")) {
          curRev := Some(rev.(message := rev.message + [line]));
        }
        r := Success(());
      } else {
        r := Success(());
      }
    }

    /** A separator line in the BetweenRevs state: store the revision under
        construction, then read the next revision or close the file. */
    method CallSeparator(line: string) returns (r: Result<(), LogError>)
      requires Valid() && phase == BetweenRevs && (line == Dashes || line == Equals)
      modifies this
      ensures Valid()
      ensures match StepBetween(old(Snap()), line)
        case Success(t) => r.Success? && Snap() == t
        case Failure(e) => r == Failure(e) && Snap() == old(Snap())
    {
      var f := curFile.value;
      var table := revs[f];
      if curRev.Some? {
        if curRev.value.num in table {
          return Failure(DuplicateRevision);
        }
        table := table[curRev.value.num := curRev.value];
      }
      if line == Equals && |table| != numRevs {
        return Failure(CountMismatch(numRevs, |table|));
      }
      if curRev.Some? {
        revs := revs[f := table];
        curRev := None;
      }
      assert Commit(old(Snap())) == Success(Snap());
      if line == Dashes {
        phase := ReadingRev;
      } else {
        curFile := None;
        phase := BeforeRevs;
      }
      r := Success(());
    }

    /** `__call__(line)` in the ReadingRev state. */
    method CallReading(line: string) returns (r: Result<(), LogError>)
      requires Valid() && phase == ReadingRev
      modifies this
      ensures Valid()
      ensures match StepReading(ctx, old(Snap()), line)
        case Success(t) => r.Success? && Snap() == t
        case Failure(e) => r == Failure(e) && Snap() == old(Snap())
    {
      if StartsWith(line, "revision ") {
        var words := Words(line);
        if |words| < 2 {
          return Failure(BadRevisionLine);
        }
        var num := FromText(words[1]);
        if num.Failure? {
          return Failure(BadNumber(num.error));
        }
        curRev := Some(CvsRev(curFile.value, num.value, None, "", None, []));
      } else {
        var fields := Split(line, ';');
        if |fields| < 4 {
          return Failure(BadFields);
        }
        if !StartsWith(fields[0], "date: ") {
          return Failure(NoDate);
        }
        var date := Parse(Some(fields[0][6..]), false, ctx.now, ctx.calendar);
        if date.Failure? {
          return Failure(BadDate(date.error));
        }
        if curRev.None? {
          return Failure(NoRevision);
        }
        var author := Strip(fields[1]);
        var state := Strip(fields[2]);
        if !StartsWith(author, "author: ") {
          return Failure(NoAuthor);
        }
        if !StartsWith(state, "state: ") {
          return Failure(NoState);
        }
        curRev := Some(curRev.value.(date := Some(date.value), author := author[8..],
                                     deleted := Some(state[7..] == "dead")));
        phase := BetweenRevs;
      }
      r := Success(());
    }

    /** `finish()`: the log must end between files. */
    method Finish() returns (r: Result<(), LogError>)
      ensures r.Success? <==> phase == BeforeRevs
      ensures r.Failure? ==> r.error == NotFinished
    {
      if phase != BeforeRevs {
        return Failure(NotFinished);
      }
      r := Success(());
    }

    /** The reading half of `run()`: every line of the log, stripped of
        trailing whitespace, goes to `__call__`, then `finish()` is called. */
    method Run(lines: seq<string>) returns (r: Result<(), LogError>)
      requires Valid()
      modifies this
      ensures Valid()
      ensures var o := Feed(ctx, old(Snap()), Stripped(lines));
        Snap() == o.last &&
        (o.error.Some? ==> r == Failure(o.error.value)) &&
        (o.error.None? ==> (r.Success? <==> o.last.phase == BeforeRevs) && (r.Failure? ==> r.error == NotFinished))
    {
      var stripped := Stripped(lines);
      var i := 0;
      while i < |stripped|
        invariant 0 <= i <= |stripped| && Valid()
        invariant Feed(ctx, Snap(), stripped[i..]) == Feed(ctx, old(Snap()), stripped)
      {
        var step := Call(stripped[i]);
        if step.Failure? {
          assert Feed(ctx, Snap(), stripped[i..]) == Outcome(Snap(), Some(step.error));
          return step;
        }
        assert stripped[i..][1..] == stripped[i + 1..];
        i := i + 1;
      }
      assert Feed(ctx, Snap(), stripped[i..]) == Outcome(Snap(), None);
      r := Finish();
    }
  }
}
