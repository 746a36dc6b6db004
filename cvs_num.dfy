/** CVS revision and branch numbers: the `CVSNum` class of
    git_remote_cvs/cvs.py and its algebra (normalisation, classification,
    branch, parent, follows, on_branch, disjoint). */
module CvsNumbers {
  import opened Wrappers
  import opened PyStr

  /** Why a number could not be built. `NoComponents` is the IndexError of
      indexing the last component of an empty list; `BadComponent` the
      ValueError of `int()` on a piece that is not decimal digits;
      `TrailingZero` the ValueError raised for a last component 0. */
  datatype NumError = NoComponents | BadComponent | TrailingZero

  /** A CVS number, held as its normalised components (the tuple `c`).
      Odd positions (1st, 3rd, ...) number branches, even positions number
      revisions on the branch before them. */
  datatype CvsNum = CvsNum(c: seq<nat>) {

    /** What every constructed number satisfies: decomposition rejects an
        empty component list and a last component 0. */
    predicate Valid()
    {
      |c| >= 1 && c[|c| - 1] != 0
    }

    /** The numbers CVS itself hands out: no component is 0 once the
        magic-branch 0 has been normalised away. */
    predicate Canonical()
    {
      forall i :: 0 <= i < |c| ==> c[i] != 0
    }

    function Last(): nat
      requires Valid()
    {
      c[|c| - 1]
    }

    /** `is_rev`: an even number of components, the second-to-last non-zero. */
    predicate IsRev()
    {
      |c| % 2 == 0 && |c| >= 2 && c[|c| - 2] != 0
    }

    /** `is_branch`: an odd number of components, or a second-to-last 0. */
    predicate IsBranch()
      ensures |c| >= 1 ==> (IsBranch() <==> !IsRev())
    {
      |c| % 2 != 0 || (|c| >= 2 && c[|c| - 2] == 0)
    }

    /** `str(n)`: the components in decimal, joined by dots. */
    function Text(): string
      requires Valid()
    {
      Join(Decimals(c), '.')
    }

    /** `branch()`: a revision's branch is found by chopping its last
        component (rebuilt with `from_components`, which is `Decompose`); a
        branch is its own branch. */
    function Branch(): (b: CvsNum)
      requires Valid()
      ensures b.Valid()
      ensures !IsRev() ==> b == this
      ensures IsRev() && (|c| == 2 || c[|c| - 3] != 0) ==> b.c == c[..|c| - 1] && b.IsBranch()
    {
      if IsRev() then Decompose(c[..|c| - 1]).value else this
    }

    /** `parent()`: a branch's parent is its branch point; a revision's is
        the previous revision on its branch, or the branch point when the
        last component would reach 0. `Success(None)` is the source's `None`;
        a `Failure` is the ValueError `from_components` raises for a 0 that
        ends up last (possible only for non-canonical numbers). The source
        rebuilds each candidate with `from_components`, which is `Decompose`
        by the contract of `FromComponents`. */
    function Parent(): (r: Result<Option<CvsNum>, NumError>)
      requires Valid()
      ensures r.Success? && r.value.Some? ==>
        var p := r.value.value;
        p.Valid() && (|p.c| < |c| || (|p.c| == |c| && p.Last() < Last()))
    {
      if |c| < 2 then Success(None)
      else if |c| % 2 == 1 then
        match Decompose(c[..|c| - 1])
        case Failure(e) => Failure(e)
        case Success(p) => Success(Some(p))
      else
        var d := c[|c| - 1] - 1;
        if d == 0 then
          var rest := c[..|c| - 2];
          if |rest| == 0 then Success(None)
          else
            match Decompose(rest)
            case Failure(e) => Failure(e)
            case Success(p) => Success(Some(p))
        else
          match Decompose(c[..|c| - 1] + [d])
          case Failure(e) => Failure(e)
          case Success(p) => Success(Some(p))
    }

    /** `on_branch(b)`: this number is on branch `b` when `b` is its branch,
        or when this number is `b`'s branch point. The parent of `b` is only
        computed when the first test fails, as with Python's `or`. */
    function OnBranch(b: CvsNum): (r: Result<bool, NumError>)
      requires Valid() && b.Valid()
      ensures !IsRev() && b == this ==> r == Success(true)
      ensures r.Failure? ==> b.Parent().Failure?
    {
      if b == Branch() then Success(true)
      else
        match b.Parent()
        case Failure(e) => Failure(e)
        case Success(p) => Success(p == Some(this))
    }

    /** The first revision on a branch, which `disjoint` puts in place of a
        branch; the source builds it with `from_components(c + (1,))`, and
        `FirstRevFromComponents` shows the two agree. */
    function FirstRev(): (r: CvsNum)
      requires Valid()
      ensures r.Valid() && |r.c| == |c| + 1 && r.c[..|c|] == c && r.Last() == 1
      ensures |c| % 2 == 1 ==> r.IsRev()
    {
      CvsNum(c + [1])
    }
  }

  // -----------------------------------------------------------------------
  // decompose / compose

  /** `decompose` on the integer components of the text: a second-to-last
      0 is deleted ("1.2.0.4" is "1.2.4"); an empty list or a last 0 is an
      error. */
  function Decompose(raw: seq<nat>): (r: Result<CvsNum, NumError>)
    ensures r.Success? <==> |raw| >= 1 && raw[|raw| - 1] != 0
    ensures r.Success? ==> r.value.Valid() && r.value.Last() == raw[|raw| - 1]
    ensures r.Success? ==> |raw| - 1 <= |r.value.c| <= |raw|
    ensures r.Success? && |r.value.c| == |raw| ==> r.value.c == raw
    ensures r.Success? && |r.value.c| < |raw| ==> r.value.c[..|r.value.c| - 1] == raw[..|raw| - 2]
  {
    var n := |raw|;
    var r := if n >= 2 && raw[n - 2] == 0 then raw[..n - 2] + [raw[n - 1]] else raw;
    if |r| == 0 then Failure(NoComponents)
    else if r[|r| - 1] == 0 then Failure(TrailingZero)
    else
      assert n >= 2 && raw[n - 2] == 0 ==> r[..|r| - 1] == raw[..n - 2];
      Success(CvsNum(r))
  }

  /** The decimal text of each component. */
  function Decimals(c: seq<nat>): (r: seq<string>)
    ensures |r| == |c| && forall i :: 0 <= i < |c| ==> r[i] == Decimal(c[i])
  {
    seq(|c|, i requires 0 <= i < |c| => Decimal(c[i]))
  }

  /** `map(int, parts)`, `None` when a piece is not decimal digits. */
  function ParseComponents(parts: seq<string>): (r: Option<seq<nat>>)
    ensures r.Some? ==> |r.value| == |parts|
  {
    if |parts| == 0 then Some([])
    else
      match ParseDecimal(parts[0])
      case None => None
      case Some(v) =>
        match ParseComponents(parts[1..])
        case None => None
        case Some(rest) => Some([v] + rest)
  }

  /** The integer components of a number's text: none for the empty text,
      otherwise one per dot-separated piece. */
  function ComponentsOf(s: string): Result<seq<nat>, NumError>
  {
    if s == "" then Success([])
    else
      match ParseComponents(Split(s, '.'))
      case None => Failure(BadComponent)
      case Some(r) => Success(r)
  }

  /** `CVSNum(s)`: decompose the text. */
  function FromText(s: string): (r: Result<CvsNum, NumError>)
    ensures r.Success? ==> r.value.Valid()
    ensures s == "" ==> r == Failure(NoComponents)
  {
    match ComponentsOf(s)
    case Failure(e) => Failure(e)
    case Success(raw) => Decompose(raw)
  }

  /** `compose`: join the components with dots; an empty list or a last 0 is
      an error. */
  function Compose(c: seq<nat>): (r: Result<string, NumError>)
    ensures r.Success? <==> |c| >= 1 && c[|c| - 1] != 0
  {
    if |c| == 0 then Failure(NoComponents)
    else if c[|c| - 1] == 0 then Failure(TrailingZero)
    else Success(Join(Decimals(c), '.'))
  }

  lemma {:induction false} ParseDecimals(c: seq<nat>)
    ensures ParseComponents(Decimals(c)) == Some(c)
  {
    if |c| > 0 {
      DecimalRoundTrip(c[0]);
      ParseDecimals(c[1..]);
      assert Decimals(c)[1..] == Decimals(c[1..]);
      assert [c[0]] + c[1..] == c;
    }
  }

  /** Reading the composed text back gives the components it was made of. */
  lemma TextRoundTrip(c: seq<nat>)
    requires |c| >= 1
    ensures ComponentsOf(Join(Decimals(c), '.')) == Success(c)
  {
    var ds := Decimals(c);
    forall i | 0 <= i < |ds|
      ensures '.' !in ds[i]
    {
      DecimalHasNo(c[i], '.');
    }
    SplitJoin(ds, '.');
    ParseDecimals(c);
    if |ds| > 1 {
      assert Join(ds, '.') == ds[0] + ['.'] + Join(ds[1..], '.');
    }
    assert |Join(ds, '.')| > 0;
  }

  /** `from_components(c)`, which is `CVSNum(compose(c))`: the detour through
      the text is the same as decomposing the components directly. */
  function FromComponents(c: seq<nat>): (r: Result<CvsNum, NumError>)
    ensures r.Success? <==> |c| >= 1 && c[|c| - 1] != 0
    ensures r == Decompose(c)
  {
    match Compose(c)
    case Failure(e) => Failure(e)
    case Success(s) =>
      TextRoundTrip(c);
      FromText(s)
  }

  /** The text of a number holds only digits and dots. */
  lemma TextHasNo(n: CvsNum, ch: char)
    requires n.Valid() && ch != '.' && !IsDigit(ch)
    ensures ch !in n.Text()
  {
    var ds := Decimals(n.c);
    forall i | 0 <= i < |ds|
      ensures ch !in ds[i]
    {
      DecimalHasNo(n.c[i], ch);
    }
    JoinHasNo(ds, '.', ch);
  }

  /** The text of a number is one word: `line.split()` keeps it whole. */
  lemma TextIsWord(n: CvsNum)
    requires n.Valid()
    ensures |n.Text()| > 0 && NoSpace(n.Text())
  {
    var ds := Decimals(n.c);
    assert |ds[0]| > 0;
    assert |n.Text()| > 0 by {
      if |ds| > 1 {
        assert n.Text() == ds[0] + ['.'] + Join(ds[1..], '.');
      }
    }
    TextHasNo(n, ' ');
    TextHasNo(n, '\t');
    TextHasNo(n, '\n');
    TextHasNo(n, '\r');
    TextHasNo(n, 11 as char);
    TextHasNo(n, 12 as char);
  }

  /** `from_components(c + (1,))` always succeeds and is the first revision
      `FirstRev` names. */
  lemma FirstRevFromComponents(n: CvsNum)
    requires n.Valid()
    ensures FromComponents(n.c + [1]) == Success(n.FirstRev())
  {
    ComposeRoundTrip(n.c + [1]);
  }

  /** "1.2.0.4" equals "1.2.4": decomposition deletes the 0 before the last
      component, provided the component before that 0 is not itself 0. */
  lemma MagicBranchZero(p: seq<nat>, x: nat)
    requires x != 0
    requires |p| == 0 || p[|p| - 1] != 0
    ensures Decompose(p + [0, x]) == Decompose(p + [x])
    ensures Decompose(p + [0, x]).Success?
  {
    assert (p + [0, x])[..|p|] == p;
  }

  /** Decomposition rejects a number whose last component is 0. */
  lemma TrailingZeroRejected(p: seq<nat>)
    ensures Decompose(p + [0]) == Failure(TrailingZero)
  {
    var raw := p + [0];
    if |p| >= 1 && p[|p| - 1] == 0 {
      assert raw[..|raw| - 2] + [raw[|raw| - 1]] == p[..|p| - 1] + [0];
    }
  }

  /** How decomposition classifies a number as CVS writes it (every
      component non-zero, except that the second-to-last of an even-length
      number may be the magic 0): a revision exactly when the text has an
      even number of components and no magic 0, a branch otherwise. */
  lemma {:induction false} DecomposeClassifies(raw: seq<nat>)
    requires |raw| >= 1 && raw[|raw| - 1] != 0
    requires forall i :: 0 <= i < |raw| && i != |raw| - 2 ==> raw[i] != 0
    requires |raw| >= 2 && raw[|raw| - 2] == 0 ==> |raw| % 2 == 0
    ensures Decompose(raw).value.Canonical()
    ensures Decompose(raw).value.IsRev() <==> |raw| % 2 == 0 && raw[|raw| - 2] != 0
    ensures Decompose(raw).value.IsBranch() <==> !(|raw| % 2 == 0 && raw[|raw| - 2] != 0)
  {
    var n := Decompose(raw).value;
    if |raw| >= 2 && raw[|raw| - 2] == 0 {
      assert n.c == raw[..|raw| - 2] + [raw[|raw| - 1]];
      forall i | 0 <= i < |n.c| ensures n.c[i] != 0 {
        if i < |raw| - 2 { assert n.c[i] == raw[i]; }
      }
    }
  }

  /** Every valid number is exactly one of revision and branch. */
  lemma RevOrBranch(n: CvsNum)
    requires n.Valid()
    ensures n.IsBranch() <==> !n.IsRev()
  {
  }

  /** Composing and decomposing round-trips a component list whose
      second-to-last component is not 0; `from_components([1,2,4,6])` prints
      as "1.2.4.6". */
  lemma ComposeRoundTrip(c: seq<nat>)
    requires |c| >= 1 && c[|c| - 1] != 0
    requires |c| < 2 || c[|c| - 2] != 0
    ensures FromComponents(c) == Success(CvsNum(c))
    ensures FromText(Compose(c).value) == Success(CvsNum(c))
    ensures FromComponents(c).value.Text() == Compose(c).value
  {
    TextRoundTrip(c);
  }

  /** A number read back from its own text is the same number, except when its
      second-to-last component is 0: normalisation deletes one 0 only, so
      "1.0.0.1" becomes (1, 0, 1), which prints as "1.0.1" and reads back as
      (1, 1). */
  lemma TextOfNumberReadsBack(n: CvsNum)
    requires n.Valid()
    ensures (|n.c| < 2 || n.c[|n.c| - 2] != 0) <==> FromText(n.Text()) == Success(n)
  {
    TextRoundTrip(n.c);
  }

  lemma NormalisationNotIdempotent()
    ensures Decompose([1, 0, 0, 1]) == Success(CvsNum([1, 0, 1]))
    ensures FromText(CvsNum([1, 0, 1]).Text()) == Success(CvsNum([1, 1]))
  {
    assert [1, 0, 0, 1][..2] + [1] == [1, 0, 1];
    TextRoundTrip([1, 0, 1]);
    assert [1, 0, 1][..1] + [1] == [1, 1];
  }
}

module CvsHistory {
  import opened Wrappers
  import opened CvsNumbers

  // -----------------------------------------------------------------------
  // parent() on the numbers CVS hands out

  lemma DecomposeKeeps(x: seq<nat>)
    requires |x| >= 1 && x[|x| - 1] != 0
    requires |x| < 2 || x[|x| - 2] != 0
    ensures FromComponents(x) == Success(CvsNum(x))
  {
  }

  /** A branch of three or more components has its branch point as parent. */
  lemma ParentOfBranch(n: CvsNum)
    requires n.Valid() && n.Canonical() && |n.c| % 2 == 1 && |n.c| >= 3
    ensures n.Parent() == Success(Some(CvsNum(n.c[..|n.c| - 1])))
  {
    DecomposeKeeps(n.c[..|n.c| - 1]);
  }

  /** A revision other than the first on its branch has the previous
      revision as parent. */
  lemma ParentOfLaterRev(n: CvsNum)
    requires n.Valid() && n.Canonical() && |n.c| % 2 == 0 && n.Last() > 1
    ensures n.Parent() == Success(Some(CvsNum(n.c[..|n.c| - 1] + [n.Last() - 1])))
  {
    DecomposeKeeps(n.c[..|n.c| - 1] + [n.Last() - 1]);
  }

  /** The first revision of a branch has the branch point as parent. */
  lemma ParentOfFirstRev(n: CvsNum)
    requires n.Valid() && n.Canonical() && |n.c| % 2 == 0 && |n.c| >= 4 && n.Last() == 1
    ensures n.Parent() == Success(Some(CvsNum(n.c[..|n.c| - 2])))
  {
    DecomposeKeeps(n.c[..|n.c| - 2]);
  }

  /** On a canonical number `parent()` never fails and stays canonical: a
      branch goes to its branch point, a revision to the previous revision,
      the first revision of a branch to the branch point, and the trunk's
      first revision and a one-component number have none. */
  lemma ParentOfCanonical(n: CvsNum)
    requires n.Valid() && n.Canonical()
    ensures n.Parent().Success?
    ensures n.Parent().value.Some? ==> n.Parent().value.value.Canonical()
    ensures n.Parent().value.None? <==> |n.c| == 1 || (|n.c| == 2 && n.Last() == 1)
  {
    var c := n.c;
    if |c| % 2 == 1 && |c| >= 3 {
      ParentOfBranch(n);
      CanonicalPrefix(n, |c| - 1);
    } else if |c| % 2 == 0 && n.Last() > 1 {
      ParentOfLaterRev(n);
      var p := c[..|c| - 1] + [n.Last() - 1];
      assert forall i :: 0 <= i < |p| - 1 ==> p[i] == c[i];
    } else if |c| % 2 == 0 && |c| >= 4 {
      ParentOfFirstRev(n);
      CanonicalPrefix(n, |c| - 2);
    } else if |c| == 1 {
      assert n.Parent() == Success(None);
    } else {
      assert n.Parent() == Success(None);
    }
  }

  lemma CanonicalPrefix(n: CvsNum, k: nat)
    requires n.Canonical() && k <= |n.c|
    ensures CvsNum(n.c[..k]).Canonical()
  {
  }

  // -----------------------------------------------------------------------
  // follows()

  /** The walk `follows` performs: from `cur`, step to the parent until
      `target` is met (true), the chain ends (false) or a step fails. */
  function ReachesByParents(cur: CvsNum, target: CvsNum): (r: Result<bool, NumError>)
    requires cur.Valid()
    ensures r == Success(true) ==> target.Valid() && |target.c| <= |cur.c|
    decreases |cur.c|, cur.Last()
  {
    if cur == target then Success(true)
    else
      match cur.Parent()
      case Failure(e) => Failure(e)
      case Success(None) => Success(false)
      case Success(Some(p)) => ReachesByParents(p, target)
  }

  /** Revision `m` is on the line of history that leads to `n` (or is `n`):
      it agrees with `n` before its own last component, and that last
      component is not past `n`'s component at the same place. */
  predicate InHistoryOf(m: CvsNum, n: CvsNum)
    requires m.Valid()
    ensures m == n ==> InHistoryOf(m, n)
  {
    |m.c| <= |n.c| && m.c[..|m.c| - 1] == n.c[..|m.c| - 1] && m.Last() <= n.c[|m.c| - 1]
  }

  /** Stepping from a branch to its branch point keeps the revisions in
      its history. */
  lemma HistoryThroughBranchPoint(n: CvsNum, m: CvsNum)
    requires n.Valid() && |n.c| % 2 == 1 && |n.c| >= 3
    requires m.Valid() && m.IsRev()
    ensures InHistoryOf(m, n) <==> InHistoryOf(m, CvsNum(n.c[..|n.c| - 1]))
  {
    var p := n.c[..|n.c| - 1];
    if |m.c| <= |p| {
      assert p[..|m.c| - 1] == n.c[..|m.c| - 1];
    }
  }

  /** Stepping back one revision on the same branch drops only `n` itself. */
  lemma HistoryThroughPreviousRev(n: CvsNum, m: CvsNum)
    requires n.Valid() && n.Last() > 1
    requires m.Valid() && m != n
    ensures InHistoryOf(m, n) <==> InHistoryOf(m, CvsNum(n.c[..|n.c| - 1] + [n.Last() - 1]))
  {
    var c := n.c;
    var p := c[..|c| - 1] + [n.Last() - 1];
    var k := |m.c|;
    if k < |c| {
      assert p[..k - 1] == c[..k - 1];
      assert p[k - 1] == c[k - 1];
    } else if k == |c| {
      assert p[..k - 1] == c[..k - 1];
      if m.c[..k - 1] == c[..k - 1] {
        SameLastSame(n, m);
      }
    }
  }

  /** Two numbers of one length that agree but for the last component are
      equal when their last components are. */
  lemma SameLastSame(n: CvsNum, m: CvsNum)
    requires n.Valid() && m.Valid() && |m.c| == |n.c|
    requires m.c[..|m.c| - 1] == n.c[..|m.c| - 1]
    ensures m.Last() == n.Last() ==> m == n
  {
    if m.Last() == n.Last() {
      assert m.c == m.c[..|m.c| - 1] + [m.Last()];
      assert n.c == n.c[..|n.c| - 1] + [n.Last()];
    }
  }

  /** Stepping from a branch's first revision to the branch point drops
      only `n` itself among the revisions. */
  lemma HistoryThroughFirstRev(n: CvsNum, m: CvsNum)
    requires n.Valid() && |n.c| % 2 == 0 && |n.c| >= 4 && n.Last() == 1
    requires m.Valid() && m.IsRev() && m != n
    ensures InHistoryOf(m, n) <==> InHistoryOf(m, CvsNum(n.c[..|n.c| - 2]))
  {
    var c := n.c;
    var p := c[..|c| - 2];
    if |m.c| <= |p| {
      assert p[..|m.c| - 1] == c[..|m.c| - 1];
      assert p[|m.c| - 1] == c[|m.c| - 1];
    }
  }

  /** One step of the walk: past a number that is not the target, the walk
      goes on from its parent. */
  lemma ReachesStep(n: CvsNum, m: CvsNum, p: CvsNum)
    requires n.Valid() && n != m && n.Parent() == Success(Some(p))
    ensures ReachesByParents(n, m) == ReachesByParents(p, m)
  {
  }

  /** The parent walk from a canonical number reaches revision `m` exactly
      when `m` is in its history. */
  lemma {:induction false} ReachesIffInHistory(n: CvsNum, m: CvsNum)
    requires n.Valid() && n.Canonical() && m.Valid() && m.IsRev()
    ensures ReachesByParents(n, m) == Success(InHistoryOf(m, n))
    decreases |n.c|, n.Last()
  {
    var c := n.c;
    if n == m {
    } else if |c| == 1 {
      assert n.Parent() == Success(None);
    } else if |c| == 2 && n.Last() == 1 {
      assert n.Parent() == Success(None);
    } else if |c| % 2 == 1 {
      var p := CvsNum(c[..|c| - 1]);
      ParentOfBranch(n);
      ParentOfCanonical(n);
      ReachesStep(n, m, p);
      ReachesIffInHistory(p, m);
      HistoryThroughBranchPoint(n, m);
    } else if n.Last() > 1 {
      var p := CvsNum(c[..|c| - 1] + [n.Last() - 1]);
      ParentOfLaterRev(n);
      ParentOfCanonical(n);
      ReachesStep(n, m, p);
      ReachesIffInHistory(p, m);
      HistoryThroughPreviousRev(n, m);
    } else {
      var p := CvsNum(c[..|c| - 2]);
      ParentOfFirstRev(n);
      ParentOfCanonical(n);
      ReachesStep(n, m, p);
      ReachesIffInHistory(p, m);
      HistoryThroughFirstRev(n, m);
    }
  }

  /** `follows(other)`: walk the parents of `n` looking for the revision
      `other`. The source asserts that `other` is a revision. */
  method Follows(n: CvsNum, other: CvsNum) returns (r: Result<bool, NumError>)
    requires n.Valid() && other.Valid() && other.IsRev()
    ensures r == ReachesByParents(n, other)
    ensures n.Canonical() ==> r == Success(InHistoryOf(other, n))
  {
    var cur := n;
    while true
      invariant cur.Valid()
      invariant ReachesByParents(cur, other) == ReachesByParents(n, other)
      decreases |cur.c|, cur.Last()
    {
      if cur == other {
        r := Success(true);
        break;
      }
      var p := cur.Parent();
      if p.Failure? {
        r := Failure(p.error);
        break;
      }
      if p.value.None? {
        r := Success(false);
        break;
      }
      cur := p.value.value;
    }
    if n.Canonical() {
      ReachesIffInHistory(n, other);
    }
  }

  // -----------------------------------------------------------------------
  // disjoint()

  /** The revision `disjoint` compares in place of `n`: a branch stands for
      its first revision. */
  function AsRev(n: CvsNum): (r: CvsNum)
    requires n.Valid()
    ensures r.Valid()
  {
    if n.IsBranch() then n.FirstRev() else n
  }

  /** The decision `disjoint` makes once `s` is the shorter revision and
      `l` the longer: they are disjoint when they differ before `s`'s last
      component; otherwise they are not when of equal length, and are when
      `s`'s last component is past `l`'s at the same place. */
  predicate Diverge(s: CvsNum, l: CvsNum)
    requires 1 <= |s.c| <= |l.c|
    ensures Diverge(s, l) ==> s != l
  {
    var k := |s.c|;
    if s.c[..k - 1] != l.c[..k - 1] then true
    else if k == |l.c| then false
    else s.c[k - 1] > l.c[k - 1]
  }

  /** `disjoint(a, b)`: branches stand for their first revisions, and the
      shorter revision is compared against the longer (ties keep the
      order). */
  predicate Disjoint(a: CvsNum, b: CvsNum)
    requires a.Valid() && b.Valid()
    ensures Disjoint(a, b) ==> a != b
  {
    var x := AsRev(a);
    var y := AsRev(b);
    if |x.c| > |y.c| then Diverge(y, x) else Diverge(x, y)
  }

  /** `disjoint(a, b)`: replace branches by their first revisions, order
      the two by length, and decide. */
  method CheckDisjoint(a: CvsNum, b: CvsNum) returns (r: bool)
    requires a.Valid() && b.Valid()
    ensures r == Disjoint(a, b)
  {
    var x := a;
    var y := b;
    if x.IsBranch() {
      x := x.FirstRev();
    }
    if y.IsBranch() {
      y := y.FirstRev();
    }
    if |x.c| > |y.c| {
      x, y := y, x;
    }
    r := CheckDiverge(x, y);
  }

  /** The loop of `disjoint`: compare the components the two share, except
      the shorter one's last, then decide on lengths and that last one. */
  method CheckDiverge(s: CvsNum, l: CvsNum) returns (r: bool)
    requires 1 <= |s.c| <= |l.c|
    ensures r == Diverge(s, l)
  {
    var i := 0;
    while i < |s.c| - 1
      invariant 0 <= i <= |s.c| - 1
      invariant s.c[..i] == l.c[..i]
    {
      if s.c[i] != l.c[i] {
        assert s.c[..|s.c| - 1][i] != l.c[..|s.c| - 1][i];
        return true;
      }
      i := i + 1;
    }
    assert s.c[..|s.c| - 1] == l.c[..|s.c| - 1];
    if |s.c| == |l.c| {
      return false;
    }
    if s.c[|s.c| - 1] <= l.c[|s.c| - 1] {
      return false;
    }
    return true;
  }

  /** What `disjoint` promises: two numbers are disjoint exactly when
      neither (first) revision lies in the history of the other. */
  lemma DisjointMeaning(a: CvsNum, b: CvsNum)
    requires a.Valid() && b.Valid()
    ensures Disjoint(a, b) <==> !InHistoryOf(AsRev(a), AsRev(b)) && !InHistoryOf(AsRev(b), AsRev(a))
  {
    var x := AsRev(a);
    var y := AsRev(b);
    if |x.c| == |y.c| && x.c[..|x.c| - 1] == y.c[..|x.c| - 1] {
      assert x.Last() <= y.Last() || y.Last() <= x.Last();
    }
  }

  /** Disjointness does not depend on the order of the arguments. */
  lemma DisjointSymmetric(a: CvsNum, b: CvsNum)
    requires a.Valid() && b.Valid()
    ensures Disjoint(a, b) == Disjoint(b, a)
  {
    DisjointMeaning(a, b);
    DisjointMeaning(b, a);
  }

  /** A branch of numbers CVS hands out stands for a revision CVS could hand
      out. */
  lemma AsRevCanonical(n: CvsNum)
    requires n.Valid() && n.Canonical()
    ensures AsRev(n).IsRev() && AsRev(n).Canonical()
  {
  }

  /** For the numbers CVS hands out, disjointness is the statement that
      neither first revision `follows` the other. */
  lemma DisjointIffNeitherFollows(a: CvsNum, b: CvsNum)
    requires a.Valid() && a.Canonical() && b.Valid() && b.Canonical()
    ensures Disjoint(a, b) <==>
      ReachesByParents(AsRev(a), AsRev(b)) == Success(false) &&
      ReachesByParents(AsRev(b), AsRev(a)) == Success(false)
  {
    AsRevCanonical(a);
    AsRevCanonical(b);
    DisjointMeaning(a, b);
    ReachesIffInHistory(AsRev(a), AsRev(b));
    ReachesIffInHistory(AsRev(b), AsRev(a));
  }

  // -----------------------------------------------------------------------
  // on_branch()

  /** For a revision and a branch CVS hands out, `on_branch` holds exactly
      when the branch is the revision's own branch or the revision is the
      branch's branch point. */
  lemma OnBranchMeaning(n: CvsNum, b: CvsNum)
    requires n.Valid() && n.Canonical() && n.IsRev()
    requires b.Valid() && b.Canonical() && b.IsBranch()
    ensures n.OnBranch(b) ==
      Success(b.c == n.c[..|n.c| - 1] || (|b.c| >= 3 && n.c == b.c[..|b.c| - 1]))
  {
    if |b.c| >= 3 {
      ParentOfBranch(b);
    }
  }

  /** A branch's first revision is in the history of every revision on
      that branch. */
  lemma FirstRevBeforeRevsOnBranch(n: CvsNum, b: CvsNum)
    requires n.Valid() && |n.c| >= 2 && b.Valid() && b.c == n.c[..|n.c| - 1]
    ensures InHistoryOf(b.FirstRev(), n)
  {
  }

  /** A branch point is in the history of the branch's first revision. */
  lemma BranchPointBeforeFirstRev(n: CvsNum, b: CvsNum)
    requires n.Valid() && b.Valid() && |b.c| >= 2 && n.c == b.c[..|b.c| - 1]
    ensures InHistoryOf(n, b.FirstRev())
  {
    var y := b.FirstRev();
    assert y.c[..|n.c| - 1] == n.c[..|n.c| - 1];
  }

  /** A revision on a branch shares history with that branch. */
  lemma OnBranchNotDisjoint(n: CvsNum, b: CvsNum)
    requires n.Valid() && n.Canonical() && n.IsRev()
    requires b.Valid() && b.Canonical() && b.IsBranch()
    requires n.OnBranch(b) == Success(true)
    ensures !Disjoint(n, b)
  {
    OnBranchMeaning(n, b);
    DisjointMeaning(n, b);
    assert AsRev(n) == n && AsRev(b) == b.FirstRev();
    if b.c == n.c[..|n.c| - 1] {
      FirstRevBeforeRevsOnBranch(n, b);
    } else {
      BranchPointBeforeFirstRev(n, b);
    }
  }
}

/** The self-tests of the numbers, stated over their component lists. */
module CvsNumExamples {
  import opened Wrappers
  import opened PyStr
  import opened CvsNumbers
  import opened CvsHistory

  /** The texts of the component lists the self-test composes. */
  lemma ExampleTexts()
    ensures Compose([1, 2, 4, 6]) == Success("1.2.4.6")
    ensures Compose([1, 2, 4]) == Success("1.2.4")
    ensures Compose([1, 2]) == Success("1.2")
    ensures Compose([1]) == Success("1")
  {
    assert Decimal(1) == "1" && Decimal(2) == "2" && Decimal(4) == "4" && Decimal(6) == "6";
    assert Decimals([1]) == ["1"];
    assert Decimals([1, 2]) == ["1", "2"];
    assert Decimals([1, 2, 4]) == ["1", "2", "4"];
    assert Decimals([1, 2, 4, 6]) == ["1", "2", "4", "6"];
    JoinThree("2", "4", "6");
    assert Join(["1", "2", "4", "6"], '.') == "1" + ['.'] + Join(["2", "4", "6"], '.') by {
      assert ["1", "2", "4", "6"][1..] == ["2", "4", "6"];
    }
    JoinThree("1", "2", "4");
    JoinTwo("1", "2");
    assert "1" + "." + "2" == "1.2";
    assert "1" + "." + "2" + "." + "4" == "1.2.4";
    assert "2" + "." + "4" + "." + "6" == "2.4.6";
    assert "1" + ['.'] + "2.4.6" == "1.2.4.6";
  }

  lemma JoinTwo(a: string, b: string)
    ensures Join([a, b], '.') == a + "." + b
  {
    assert [a, b][1..] == [b];
  }

  lemma JoinThree(a: string, b: string, c: string)
    ensures Join([a, b, c], '.') == a + "." + b + "." + c
  {
    assert [a, b, c][1..] == [b, c];
    JoinTwo(b, c);
  }

  /** `str(CVSNum.from_components([1, 2, 4, 6])) == "1.2.4.6"`. */
  lemma TextExample()
    ensures FromComponents([1, 2, 4, 6]).Success?
    ensures FromComponents([1, 2, 4, 6]).value.Text() == "1.2.4.6"
  {
    ExampleTexts();
    ComposeRoundTrip([1, 2, 4, 6]);
  }

  /** `CVSNum.from_components([1, 2, 4, 6]) == CVSNum("1.2.4.6")`; the
      number's `components()` are 1, 2, 4, 6, so its `len` is 4. */
  lemma ParseExample()
    ensures FromComponents([1, 2, 4, 6]) == FromText("1.2.4.6")
    ensures FromText("1.2.4.6") == Success(CvsNum([1, 2, 4, 6]))
    ensures |FromText("1.2.4.6").value.c| == 4
  {
    ExampleTexts();
    ComposeRoundTrip([1, 2, 4, 6]);
  }

  /** The `is_branch()` and `is_rev()` cases of the self-test. */
  lemma ClassifyExamples()
    ensures FromText("1.2.4").Success? && FromText("1.2.4").value.IsBranch()
    ensures FromText("1.2").Success? && FromText("1.2").value.IsRev()
    ensures FromText("1").Success? && FromText("1").value.IsBranch()
    ensures FromText("1.2.4.6").Success? && FromText("1.2.4.6").value.IsRev()
  {
    ExampleTexts();
    ComposeRoundTrip([1, 2, 4]);
    ComposeRoundTrip([1, 2]);
    ComposeRoundTrip([1]);
    ComposeRoundTrip([1, 2, 4, 6]);
  }

  lemma MagicBranchText()
    ensures Join(Decimals([1, 2, 0, 4]), '.') == "1.2.0.4"
  {
    assert Decimal(1) == "1" && Decimal(2) == "2" && Decimal(0) == "0" && Decimal(4) == "4";
    assert Decimals([1, 2, 0, 4]) == ["1", "2", "0", "4"];
  }

  lemma MagicBranchComponents()
    ensures Decompose([1, 2, 0, 4]) == Success(CvsNum([1, 2, 4]))
  {
    MagicBranchZero([1, 2], 4);
    assert [1, 2] + [0, 4] == [1, 2, 0, 4];
    assert [1, 2] + [4] == [1, 2, 4];
  }

  /** `CVSNum("1.2.0.4") == CVSNum("1.2.4")`: the magic branch 0 goes. */
  lemma MagicBranchExample()
    ensures FromText("1.2.0.4") == Success(CvsNum([1, 2, 4]))
  {
    MagicBranchText();
    TextRoundTrip([1, 2, 0, 4]);
    MagicBranchComponents();
  }

  /** The `parent()` cases of the self-test that step to a number. */
  lemma ParentExamplesRevs()
    ensures CvsNum([1, 2, 4, 6]).Parent() == Success(Some(CvsNum([1, 2, 4, 5])))
    ensures CvsNum([1, 2, 4, 1]).Parent() == Success(Some(CvsNum([1, 2])))
  {
    ParentOfLaterRev(CvsNum([1, 2, 4, 6]));
    assert [1, 2, 4, 6][..3] + [5] == [1, 2, 4, 5];
    ParentOfFirstRev(CvsNum([1, 2, 4, 1]));
    assert [1, 2, 4, 1][..2] == [1, 2];
  }

  lemma ParentExamplesTrunk()
    ensures CvsNum([1, 2]).Parent() == Success(Some(CvsNum([1, 1])))
    ensures CvsNum([1, 2, 4]).Parent() == Success(Some(CvsNum([1, 2])))
  {
    ParentOfLaterRev(CvsNum([1, 2]));
    assert [1, 2][..1] + [1] == [1, 1];
    ParentOfBranch(CvsNum([1, 2, 4]));
    assert [1, 2, 4][..2] == [1, 2];
  }

  /** The `parent()` cases of the self-test that have no parent. */
  lemma ParentExamplesNone()
    ensures CvsNum([1, 1]).Parent() == Success(None)
    ensures CvsNum([2, 1]).Parent() == Success(None)
    ensures CvsNum([1]).Parent() == Success(None)
    ensures CvsNum([2]).Parent() == Success(None)
  {
    ParentOfCanonical(CvsNum([1, 1]));
    ParentOfCanonical(CvsNum([2, 1]));
    ParentOfCanonical(CvsNum([1]));
    ParentOfCanonical(CvsNum([2]));
  }

  lemma BranchExamples()
    ensures CvsNum([1, 2, 4, 6]).Branch() == CvsNum([1, 2, 4])
    ensures CvsNum([1, 2, 4]).Branch() == CvsNum([1, 2, 4])
    ensures CvsNum([1, 1]).Branch() == CvsNum([1])
    ensures CvsNum([1]).Branch() == CvsNum([1])
  {
    assert [1, 2, 4, 6][..3] == [1, 2, 4];
    assert [1, 1][..1] == [1];
  }

  /** The `follows()` cases of the self-test: from 1.2.4.6 the walk meets
      1.1, 1.2, 1.2.4.1 ... 1.2.4.6, and not 1.2.4.7 or 1.3; from 1.1 it does
      not meet 1.2.4.6. */
  lemma FollowsExamplesTrunk()
    ensures ReachesByParents(CvsNum([1, 2, 4, 6]), CvsNum([1, 1])) == Success(true)
    ensures ReachesByParents(CvsNum([1, 2, 4, 6]), CvsNum([1, 2])) == Success(true)
  {
    var n := CvsNum([1, 2, 4, 6]);
    assert InHistoryOf(CvsNum([1, 1]), n) && InHistoryOf(CvsNum([1, 2]), n) by {
      assert n.c[..1] == [1];
    }
    ReachesIffInHistory(n, CvsNum([1, 1]));
    ReachesIffInHistory(n, CvsNum([1, 2]));
  }

  lemma FollowsExamplesBranch()
    ensures ReachesByParents(CvsNum([1, 2, 4, 6]), CvsNum([1, 2, 4, 1])) == Success(true)
    ensures ReachesByParents(CvsNum([1, 2, 4, 6]), CvsNum([1, 2, 4, 5])) == Success(true)
  {
    var n := CvsNum([1, 2, 4, 6]);
    assert InHistoryOf(CvsNum([1, 2, 4, 1]), n) && InHistoryOf(CvsNum([1, 2, 4, 5]), n) by {
      assert n.c[..3] == [1, 2, 4];
    }
    ReachesIffInHistory(n, CvsNum([1, 2, 4, 1]));
    ReachesIffInHistory(n, CvsNum([1, 2, 4, 5]));
  }

  lemma FollowsExamplesMiddle()
    ensures ReachesByParents(CvsNum([1, 2, 4, 6]), CvsNum([1, 2, 4, 2])) == Success(true)
    ensures ReachesByParents(CvsNum([1, 2, 4, 6]), CvsNum([1, 2, 4, 3])) == Success(true)
  {
    var n := CvsNum([1, 2, 4, 6]);
    assert InHistoryOf(CvsNum([1, 2, 4, 2]), n) && InHistoryOf(CvsNum([1, 2, 4, 3]), n) by {
      assert n.c[..3] == [1, 2, 4];
    }
    ReachesIffInHistory(n, CvsNum([1, 2, 4, 2]));
    ReachesIffInHistory(n, CvsNum([1, 2, 4, 3]));
  }

  lemma FollowsExamplesLate()
    ensures ReachesByParents(CvsNum([1, 2, 4, 6]), CvsNum([1, 2, 4, 4])) == Success(true)
    ensures ReachesByParents(CvsNum([1, 2, 4, 6]), CvsNum([1, 2, 4, 6])) == Success(true)
  {
    var n := CvsNum([1, 2, 4, 6]);
    assert InHistoryOf(CvsNum([1, 2, 4, 4]), n) && InHistoryOf(n, n) by {
      assert n.c[..3] == [1, 2, 4];
    }
    ReachesIffInHistory(n, CvsNum([1, 2, 4, 4]));
    ReachesIffInHistory(n, n);
  }

  lemma FollowsExamplesNot()
    ensures ReachesByParents(CvsNum([1, 2, 4, 6]), CvsNum([1, 2, 4, 7])) == Success(false)
    ensures ReachesByParents(CvsNum([1, 2, 4, 6]), CvsNum([1, 3])) == Success(false)
  {
    var n := CvsNum([1, 2, 4, 6]);
    assert !InHistoryOf(CvsNum([1, 2, 4, 7]), n) && !InHistoryOf(CvsNum([1, 3]), n) by {
      assert n.c[..1] == [1];
    }
    ReachesIffInHistory(n, CvsNum([1, 2, 4, 7]));
    ReachesIffInHistory(n, CvsNum([1, 3]));
  }

  lemma FollowsExampleBackwards()
    ensures ReachesByParents(CvsNum([1, 1]), CvsNum([1, 2, 4, 6])) == Success(false)
  {
    assert !InHistoryOf(CvsNum([1, 2, 4, 6]), CvsNum([1, 1]));
    ReachesIffInHistory(CvsNum([1, 1]), CvsNum([1, 2, 4, 6]));
  }

  /** The `disjoint()` self-test table, each row in both orders. */
  lemma DisjointTable1()
    ensures !Disjoint(CvsNum([1, 2]), CvsNum([1, 1]))
    ensures !Disjoint(CvsNum([1, 1]), CvsNum([1, 2]))
    ensures !Disjoint(CvsNum([1, 2]), CvsNum([1, 2]))
  {
  }

  lemma DisjointTable2()
    ensures !Disjoint(CvsNum([1, 2]), CvsNum([1, 3]))
    ensures !Disjoint(CvsNum([1, 3]), CvsNum([1, 2]))
    ensures Disjoint(CvsNum([1, 2]), CvsNum([1, 1, 2]))
    ensures Disjoint(CvsNum([1, 1, 2]), CvsNum([1, 2]))
  {
  }

  lemma DisjointTable3()
    ensures Disjoint(CvsNum([1, 2]), CvsNum([1, 1, 2, 3]))
    ensures Disjoint(CvsNum([1, 1, 2, 3]), CvsNum([1, 2]))
    ensures !Disjoint(CvsNum([1, 2, 4]), CvsNum([1, 1]))
    ensures !Disjoint(CvsNum([1, 1]), CvsNum([1, 2, 4]))
  {
  }

  lemma DisjointTable4()
    ensures !Disjoint(CvsNum([1, 2, 4]), CvsNum([1, 2]))
    ensures !Disjoint(CvsNum([1, 2]), CvsNum([1, 2, 4]))
    ensures Disjoint(CvsNum([1, 2, 4]), CvsNum([1, 3]))
    ensures Disjoint(CvsNum([1, 3]), CvsNum([1, 2, 4]))
  {
  }

  lemma DisjointTable5()
    ensures Disjoint(CvsNum([1, 2, 4]), CvsNum([1, 2, 2]))
    ensures Disjoint(CvsNum([1, 2, 2]), CvsNum([1, 2, 4]))
    ensures !Disjoint(CvsNum([1, 2, 4]), CvsNum([1, 2, 4]))
  {
  }

  lemma DisjointTable6()
    ensures Disjoint(CvsNum([1, 2, 4]), CvsNum([1, 2, 6]))
    ensures Disjoint(CvsNum([1, 2, 6]), CvsNum([1, 2, 4]))
    ensures Disjoint(CvsNum([1, 2, 4]), CvsNum([1, 2, 2, 4]))
    ensures Disjoint(CvsNum([1, 2, 2, 4]), CvsNum([1, 2, 4]))
  {
  }

  lemma DisjointTable7()
    ensures !Disjoint(CvsNum([1, 2, 4]), CvsNum([1, 2, 4, 4]))
    ensures !Disjoint(CvsNum([1, 2, 4, 4]), CvsNum([1, 2, 4]))
    ensures Disjoint(CvsNum([1, 2, 4]), CvsNum([1, 2, 6, 4]))
    ensures Disjoint(CvsNum([1, 2, 6, 4]), CvsNum([1, 2, 4]))
  {
  }

  lemma DisjointTable8()
    ensures !Disjoint(CvsNum([1, 2, 4, 6]), CvsNum([1, 1]))
    ensures !Disjoint(CvsNum([1, 1]), CvsNum([1, 2, 4, 6]))
    ensures !Disjoint(CvsNum([1, 2, 4, 6]), CvsNum([1, 2]))
    ensures !Disjoint(CvsNum([1, 2]), CvsNum([1, 2, 4, 6]))
  {
  }

  lemma DisjointTable9()
    ensures Disjoint(CvsNum([1, 2, 4, 6]), CvsNum([1, 3]))
    ensures Disjoint(CvsNum([1, 3]), CvsNum([1, 2, 4, 6]))
    ensures Disjoint(CvsNum([1, 2, 4, 6]), CvsNum([1, 2, 2]))
    ensures Disjoint(CvsNum([1, 2, 2]), CvsNum([1, 2, 4, 6]))
  {
  }

  lemma DisjointTable10()
    ensures Disjoint(CvsNum([1, 2, 4, 6]), CvsNum([1, 2, 2, 1]))
    ensures Disjoint(CvsNum([1, 2, 2, 1]), CvsNum([1, 2, 4, 6]))
    ensures !Disjoint(CvsNum([1, 2, 4, 6]), CvsNum([1, 2, 4]))
    ensures !Disjoint(CvsNum([1, 2, 4]), CvsNum([1, 2, 4, 6]))
  {
  }

  lemma DisjointTable11()
    ensures !Disjoint(CvsNum([1, 2, 4, 6]), CvsNum([1, 2, 4, 5]))
    ensures !Disjoint(CvsNum([1, 2, 4, 5]), CvsNum([1, 2, 4, 6]))
    ensures !Disjoint(CvsNum([1, 2, 4, 6]), CvsNum([1, 2, 4, 6]))
  {
  }

  lemma DisjointTable12()
    ensures !Disjoint(CvsNum([1, 2, 4, 6]), CvsNum([1, 2, 4, 7]))
    ensures !Disjoint(CvsNum([1, 2, 4, 7]), CvsNum([1, 2, 4, 6]))
    ensures !Disjoint(CvsNum([1, 2, 4, 6, 8, 10]), CvsNum([1, 2, 4, 5]))
    ensures !Disjoint(CvsNum([1, 2, 4, 5]), CvsNum([1, 2, 4, 6, 8, 10]))
  {
  }

  lemma DisjointTable13()
    ensures !Disjoint(CvsNum([1, 2, 4, 6, 8, 10]), CvsNum([1, 2, 4, 6]))
    ensures !Disjoint(CvsNum([1, 2, 4, 6]), CvsNum([1, 2, 4, 6, 8, 10]))
    ensures Disjoint(CvsNum([1, 2, 4, 6, 8, 10]), CvsNum([1, 2, 4, 7]))
    ensures Disjoint(CvsNum([1, 2, 4, 7]), CvsNum([1, 2, 4, 6, 8, 10]))
  {
  }
}
