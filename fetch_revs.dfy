/** The decisions of `fetch_revs` in git_remote_cvs/cvs.py around its call
    to `cvs rlog`: which revision range to ask for, and the check that the
    log covered exactly the one file asked for. Running `cvs rlog` is not
    modelled. */
module CvsFetch {
  import opened Wrappers
  import opened PyStr
  import opened CvsNumbers
  import opened CvsLog

  /** The lower end of the range: `0` (the initial revision) for an initial
      import, otherwise the last imported revision. */
  function RangeStart(fromRev: Option<CvsNum>): (r: string)
    requires fromRev.Some? ==> fromRev.value.Valid()
    ensures |r| > 0 && ':' !in r
  {
    if fromRev.None? then "0"
    else
      TextHasNo(fromRev.value, ':');
      fromRev.value.Text()
  }

  /** The upper end of the range: `to_rev` instead of the symbol when both
      revisions are known and on the same branch (where `cvs rlog -rA:SYM`
      would misbehave), otherwise the symbol. */
  function RangeEnd(fromRev: Option<CvsNum>, toRev: Option<CvsNum>, symbol: string): (r: string)
    requires fromRev.Some? ==> fromRev.value.Valid()
    requires toRev.Some? ==> toRev.value.Valid()
    ensures r == symbol || (toRev.Some? && r == toRev.value.Text())
    ensures fromRev.None? ==> r == symbol
  {
    if fromRev.Some? && toRev.Some? && toRev.value.Branch() == fromRev.value.Branch() then toRev.value.Text()
    else symbol
  }

  /** The `-r` argument `"%s:%s" % (from_rev, symbol)`. */
  function RevRange(fromRev: Option<CvsNum>, toRev: Option<CvsNum>, symbol: string): (r: string)
    requires fromRev.Some? ==> fromRev.value.Valid()
    requires toRev.Some? ==> toRev.value.Valid()
    ensures |r| > |RangeStart(fromRev)| && r[|RangeStart(fromRev)|] == ':'
  {
    RangeStart(fromRev) + ":" + RangeEnd(fromRev, toRev, symbol)
  }

  /** Why `fetch_revs` fails after the log: the log did not describe exactly
      one file, or not the file asked for. */
  datatype FetchError = NotOneFile(count: nat) | OtherFile

  /** `assert len(parser.revs) == 1; assert path in parser.revs;
      return parser.revs[path]`. */
  function SelectFile(revs: map<string, map<CvsNum, CvsRev>>, path: string): (r: Result<map<CvsNum, CvsRev>, FetchError>)
    ensures r.Success? ==> |revs| == 1 && path in revs && r.value == revs[path]
    ensures |revs| != 1 ==> r == Failure(NotOneFile(|revs|))
  {
    if |revs| != 1 then Failure(NotOneFile(|revs|))
    else if path !in revs then Failure(OtherFile)
    else Success(revs[path])
  }

  // -----------------------------------------------------------------------
  // properties

  /** The range splits at its first `:` into its two ends: the start is `0`
      for an initial import, otherwise the text of `from_rev`, which reads
      back as `from_rev` (for a number CVS hands out); the end is the text
      of `to_rev` exactly when the two are on one branch. */
  lemma RangeSplits(fromRev: Option<CvsNum>, toRev: Option<CvsNum>, symbol: string)
    requires fromRev.Some? ==> fromRev.value.Valid()
    requires toRev.Some? ==> toRev.value.Valid()
    ensures var r := RevRange(fromRev, toRev, symbol);
      var start := RangeStart(fromRev);
      IndexOf(r, ':') == Some(|start|) &&
      r[..|start|] == start && r[|start| + 1..] == RangeEnd(fromRev, toRev, symbol)
    ensures fromRev.None? ==> RangeStart(fromRev) == "0" && RangeEnd(fromRev, toRev, symbol) == symbol
    ensures fromRev.Some? && fromRev.value.Canonical() ==> FromText(RangeStart(fromRev)) == Success(fromRev.value)
    ensures fromRev.Some? && toRev.Some? && toRev.value.Branch() == fromRev.value.Branch() ==>
      RangeEnd(fromRev, toRev, symbol) == toRev.value.Text()
    ensures fromRev.Some? && toRev.Some? && toRev.value.Branch() != fromRev.value.Branch() ==>
      RangeEnd(fromRev, toRev, symbol) == symbol
  {
    var start := RangeStart(fromRev);
    var r := RevRange(fromRev, toRev, symbol);
    if fromRev.Some? {
      TextHasNo(fromRev.value, ':');
      if fromRev.value.Canonical() {
        TextOfNumberReadsBack(fromRev.value);
      }
    }
    assert ':' !in start;
    assert r[|start|] == ':';
    assert r[..|start|] == start;
    assert IndexOf(r, ':') == Some(|start|) by {
      IndexOfAfter(start, ':', RangeEnd(fromRev, toRev, symbol));
    }
  }

  /** The first `c` in `a + [c] + b` is right after `a` when `a` has none. */
  lemma {:induction false} IndexOfAfter(a: string, c: char, b: string)
    requires c !in a
    ensures IndexOf(a + [c] + b, c) == Some(|a|)
  {
    if |a| > 0 {
      IndexOfAfter(a[1..], c, b);
      assert (a + [c] + b)[1..] == a[1..] + [c] + b;
    }
  }

  /** The log's revisions are returned exactly when it described the one
      file asked for, and nothing else. */
  lemma SelectFileExactly(revs: map<string, map<CvsNum, CvsRev>>, path: string)
    ensures SelectFile(revs, path).Success? <==> revs.Keys == {path}
    ensures SelectFile(revs, path).Success? ==> SelectFile(revs, path).value == revs[path]
  {
    if revs.Keys == {path} {
      assert |revs| == |revs.Keys| == 1;
    }
    if |revs| == 1 && path in revs {
      var rest := revs.Keys - {path};
      assert revs.Keys == rest + {path};
      assert |rest| == 0;
      assert rest == {};
    }
  }
}
