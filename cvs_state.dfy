/** The `CVSState` class of git_remote_cvs/cvs.py: a map from CVS path names
    to revision numbers, with guarded updates, a memoised hash and a
    `path:num` text form that is sorted on output and read back by
    `load_data`. The memoised hash is modelled as the memoised text it is
    the hash of. */
module CvsStates {
  import opened Wrappers
  import opened PyStr
  import opened CvsNumbers

  // -----------------------------------------------------------------------
  // sorted(self): the paths in increasing string order

  /** `k` is the least path in `keys`. */
  predicate IsMin(keys: set<string>, k: string)
  {
    k in keys && forall j :: j in keys ==> !StrLess(j, k)
  }

  lemma MinExists(keys: set<string>)
    requires keys != {}
    ensures exists k :: IsMin(keys, k)
    decreases |keys|
  {
    var x :| x in keys;
    var rest := keys - {x};
    if rest == {} {
      assert keys == {x};
      StrLessIrreflexive(x);
      assert IsMin(keys, x);
    } else {
      MinExists(rest);
      var m :| IsMin(rest, m);
      if StrLess(x, m) {
        forall j | j in keys
          ensures !StrLess(j, x)
        {
          if j == x {
            StrLessIrreflexive(x);
          } else if StrLess(j, x) {
            StrLessTransitive(j, x, m);
          }
        }
        assert IsMin(keys, x);
      } else {
        assert IsMin(keys, m);
      }
    }
  }

  lemma MinUnique(keys: set<string>)
    ensures forall a, b :: IsMin(keys, a) && IsMin(keys, b) ==> a == b
  {
    forall a, b | IsMin(keys, a) && IsMin(keys, b)
      ensures a == b
    {
      if a != b {
        StrLessTotal(a, b);
      }
    }
  }

  function MinKey(keys: set<string>): (k: string)
    requires keys != {}
    ensures IsMin(keys, k)
  {
    MinExists(keys);
    MinUnique(keys);
    var k :| IsMin(keys, k);
    k
  }

  /** Strictly increasing in string order, hence without repeats. */
  predicate Increasing(ps: seq<string>)
  {
    forall i, j :: 0 <= i < j < |ps| ==> StrLess(ps[i], ps[j])
  }

  lemma IncreasingDistinct(ps: seq<string>)
    requires Increasing(ps)
    ensures Distinct(ps)
  {
    forall i, j | 0 <= i < j < |ps|
      ensures ps[i] != ps[j]
    {
      StrLessIrreflexive(ps[i]);
    }
  }

  /** The paths of a state in the order `sorted(self)` lists them: each path
      once, in increasing order. (The pairs sorted are `(path, num)`, and the
      paths are distinct, so the numbers never decide the order.) */
  function SortedPaths(keys: set<string>): (r: seq<string>)
    ensures |r| == |keys|
    ensures forall i :: 0 <= i < |r| ==> r[i] in keys
    ensures forall k :: k in keys ==> k in r
    ensures Increasing(r)
    decreases |keys|
  {
    if keys == {} then []
    else
      var k := MinKey(keys);
      var rest := SortedPaths(keys - {k});
      LeastFirst(keys, k, rest);
      [k] + rest
  }

  /** Putting the least path in front of the others in increasing order
      keeps the order increasing. */
  lemma LeastFirst(keys: set<string>, k: string, rest: seq<string>)
    requires IsMin(keys, k) && Increasing(rest)
    requires forall i :: 0 <= i < |rest| ==> rest[i] in keys - {k}
    ensures Increasing([k] + rest)
  {
    forall j | 0 <= j < |rest|
      ensures StrLess(k, rest[j])
    {
      StrLessTotal(k, rest[j]);
    }
    var r := [k] + rest;
    forall i, j | 0 <= i < j < |r|
      ensures StrLess(r[i], r[j])
    {
      if i > 0 {
        assert r[i] == rest[i - 1] && r[j] == rest[j - 1];
      } else {
        assert r[j] == rest[j - 1];
      }
    }
  }

  // -----------------------------------------------------------------------
  // str(self)

  /** Every number in the map is one `CVSNum` can hold. */
  predicate ValidRevs(m: map<string, CvsNum>)
  {
    forall p :: p in m ==> m[p].Valid()
  }

  /** One line of the text form, `"%s:%s\n" % (path, num)`, without its
      newline. */
  function Entry(p: string, n: CvsNum): string
    requires n.Valid()
  {
    p + ":" + n.Text()
  }

  /** The lines for the paths `ps`, in that order. */
  function Render(m: map<string, CvsNum>, ps: seq<string>): string
    requires ValidRevs(m)
    requires forall i :: 0 <= i < |ps| ==> ps[i] in m
  {
    if |ps| == 0 then ""
    else Entry(ps[0], m[ps[0]]) + "\n" + Render(m, ps[1..])
  }

  /** `str(self)`: one line per path, in sorted order. */
  function StateText(m: map<string, CvsNum>): (r: string)
    requires ValidRevs(m)
    ensures r == "" <==> |m| == 0
  {
    Render(m, SortedPaths(m.Keys))
  }

  // -----------------------------------------------------------------------
  // load_data(note_data)

  /** Why `load_data` stops: a line with no `:` (the unpacking of `rsplit`
      raises), a number `CVSNum` rejects, or a path already present (the
      assertion in `add`). */
  datatype LoadError = MissingColon | BadNumber(reason: NumError) | DuplicatePath(path: string)

  /** What one line of the note contributes: nothing when it is blank once
      stripped, otherwise the pair split at its last `:`. */
  function ParseLine(raw: string): (r: Result<Option<(string, CvsNum)>, LoadError>)
    ensures r.Success? && r.value.Some? ==> r.value.value.1.Valid()
    ensures r.Success? && r.value.None? <==> Strip(raw) == ""
  {
    var line := Strip(raw);
    if line == "" then Success(None)
    else
      match RSplitOnce(line, ':')
      case None => Failure(MissingColon)
      case Some((path, num)) =>
        match FromText(num)
        case Failure(e) => Failure(BadNumber(e))
        case Success(n) => Success(Some((path, n)))
  }

  /** Where `load_data` ends: the entries, how many it added (each `add`
      clears the memoised hash), and the error that stopped it, if any. */
  datatype Loaded = Loaded(revs: map<string, CvsNum>, added: nat, error: Option<LoadError>)

  /** Every number among parsed lines is valid. */
  predicate WellParsed(parsed: seq<Result<Option<(string, CvsNum)>, LoadError>>)
  {
    forall i :: 0 <= i < |parsed| && parsed[i].Success? && parsed[i].value.Some? ==> parsed[i].value.value.1.Valid()
  }

  /** Each line of the note, parsed. */
  function ParseLines(lines: seq<string>): (r: seq<Result<Option<(string, CvsNum)>, LoadError>>)
    ensures |r| == |lines| && forall i :: 0 <= i < |lines| ==> r[i] == ParseLine(lines[i])
    ensures WellParsed(r)
  {
    seq(|lines|, i requires 0 <= i < |lines| => ParseLine(lines[i]))
  }

  /** The loop of `load_data` over the parsed lines, from entries `revs`
      after `added` additions; the first failing line stops it, with the
      entries added so far kept. */
  function LoadFold(revs: map<string, CvsNum>, added: nat, parsed: seq<Result<Option<(string, CvsNum)>, LoadError>>): (r: Loaded)
    requires ValidRevs(revs)
    requires WellParsed(parsed)
    ensures ValidRevs(r.revs)
    ensures revs.Keys <= r.revs.Keys && r.added >= added
    decreases |parsed|
  {
    if |parsed| == 0 then Loaded(revs, added, None)
    else
      match parsed[0]
      case Failure(e) => Loaded(revs, added, Some(e))
      case Success(None) => LoadFold(revs, added, parsed[1..])
      case Success(Some((path, n))) =>
        if path in revs then Loaded(revs, added, Some(DuplicatePath(path)))
        else LoadFold(revs[path := n], added + 1, parsed[1..])
  }

  /** One line of the fold: a blank line is skipped, and a new entry is
      added before the rest is folded. */
  lemma LoadFoldStep(revs: map<string, CvsNum>, added: nat, parsed: seq<Result<Option<(string, CvsNum)>, LoadError>>)
    requires ValidRevs(revs) && WellParsed(parsed)
    requires |parsed| > 0 && parsed[0].Success?
    ensures WellParsed(parsed[1..])
    ensures parsed[0].value.None? ==> LoadFold(revs, added, parsed) == LoadFold(revs, added, parsed[1..])
    ensures parsed[0].value.Some? && parsed[0].value.value.0 !in revs ==>
      var (path, n) := parsed[0].value.value;
      ValidRevs(revs[path := n]) && LoadFold(revs, added, parsed) == LoadFold(revs[path := n], added + 1, parsed[1..])
  {
    assert forall i :: 0 <= i < |parsed| - 1 ==> parsed[1..][i] == parsed[i + 1];
  }

  /** `load_data(note_data)` from entries `revs`. */
  function Load(revs: map<string, CvsNum>, note: string): (r: Loaded)
    requires ValidRevs(revs)
    ensures ValidRevs(r.revs) && revs.Keys <= r.revs.Keys
  {
    LoadFold(revs, 0, ParseLines(Split(note, '\n')))
  }

  /** A path the text form can carry back: no newline in it, and no
      whitespace at its start that `strip()` would remove. */
  predicate LoadablePath(p: string)
  {
    '\n' !in p && (|p| == 0 || !IsSpace(p[0]))
  }

  /** A number whose text reads back as itself (no second-to-last 0). */
  predicate LoadableNum(n: CvsNum)
  {
    n.Valid() && (|n.c| < 2 || n.c[|n.c| - 2] != 0)
  }

  /** A written line parses back to its own path and number. */
  lemma ParseEntry(p: string, n: CvsNum)
    requires LoadablePath(p) && LoadableNum(n)
    ensures ParseLine(Entry(p, n)) == Success(Some((p, n)))
  {
    var t := n.Text();
    var line := Entry(p, n);
    assert line == p + [':'] + t;
    TextHasNo(n, ':');
    var last := line[|line| - 1];
    if |t| > 0 {
      assert last == t[|t| - 1] && last in t;
    }
    if IsSpace(last) {
      TextHasNo(n, last);
    }
    assert !IsSpace(line[0]);
    StripUnpadded(line);
    RSplitOnceAt(p, ':', t);
    TextOfNumberReadsBack(n);
  }

  /** The text for paths `ps` splits into their lines and a final empty
      piece. */
  lemma {:induction false} SplitRender(m: map<string, CvsNum>, ps: seq<string>)
    requires ValidRevs(m)
    requires forall i :: 0 <= i < |ps| ==> ps[i] in m && '\n' !in ps[i]
    requires |ps| > 0
    ensures Split(Render(m, ps), '\n') == [Entry(ps[0], m[ps[0]])] + Split(Render(m, ps[1..]), '\n')
  {
    var e := Entry(ps[0], m[ps[0]]);
    TextHasNo(m[ps[0]], '\n');
    assert '\n' !in e;
    SplitAfterPiece(e, '\n', Render(m, ps[1..]));
  }

  /** The entries after `add(p, m[p])` for each path `p` of `ps` in turn,
      starting from `revs`. */
  function AddAll(revs: map<string, CvsNum>, m: map<string, CvsNum>, ps: seq<string>): (r: map<string, CvsNum>)
    requires forall i :: 0 <= i < |ps| ==> ps[i] in m
    ensures forall q :: q in r <==> q in revs || q in ps
    ensures forall q :: q in r ==> r[q] == if q in ps then m[q] else revs[q]
    decreases |ps|
  {
    if |ps| == 0 then revs
    else
      assert ps == [ps[0]] + ps[1..];
      AddAll(revs[ps[0] := m[ps[0]]], m, ps[1..])
  }

  /** Adding every path of `m` to no entries gives back `m`. */
  lemma AddAllPaths(m: map<string, CvsNum>, ps: seq<string>)
    requires forall i :: 0 <= i < |ps| ==> ps[i] in m
    requires forall q :: q in m ==> q in ps
    ensures AddAll(map[], m, ps) == m
  {
    var r := AddAll(map[], m, ps);
    assert r.Keys == m.Keys;
  }

  /** The text for paths `ps` splits into one entry line per path, in
      order, and a final empty piece after the last newline. */
  lemma {:induction false} RenderLines(m: map<string, CvsNum>, ps: seq<string>)
    requires ValidRevs(m)
    requires forall i :: 0 <= i < |ps| ==> ps[i] in m && '\n' !in ps[i]
    ensures |Split(Render(m, ps), '\n')| == |ps| + 1
    ensures Split(Render(m, ps), '\n')[|ps|] == ""
    ensures forall i :: 0 <= i < |ps| ==> Split(Render(m, ps), '\n')[i] == Entry(ps[i], m[ps[i]])
    decreases |ps|
  {
    if |ps| == 0 {
      assert Render(m, ps) == "";
      assert Split("", '\n') == [""];
    } else {
      var lines := Split(Render(m, ps), '\n');
      var rest := ps[1..];
      SplitRender(m, ps);
      RenderLines(m, rest);
      forall i | 1 <= i < |ps|
        ensures lines[i] == Entry(ps[i], m[ps[i]])
      {
        assert rest[i - 1] == ps[i];
      }
    }
  }

  /** The tail of a list without repeats has none, and lacks the head. */
  lemma DistinctTail(ps: seq<string>)
    requires Distinct(ps) && |ps| > 0
    ensures Distinct(ps[1..]) && ps[0] !in ps[1..]
  {
    var rest := ps[1..];
    forall i | 0 <= i < |rest|
      ensures rest[i] != ps[0]
    {
      assert rest[i] == ps[i + 1];
    }
    forall i, j | 0 <= i < j < |rest|
      ensures rest[i] != rest[j]
    {
      assert rest[i] == ps[i + 1] && rest[j] == ps[j + 1];
    }
  }

  /** Lines that parse to the entries for `ps`, each path new, followed by
      one blank line, add exactly those entries. */
  lemma {:induction false} LoadEntries(revs: map<string, CvsNum>, added: nat, m: map<string, CvsNum>, ps: seq<string>,
                                       parsed: seq<Result<Option<(string, CvsNum)>, LoadError>>)
    requires ValidRevs(revs) && ValidRevs(m) && WellParsed(parsed)
    requires forall i :: 0 <= i < |ps| ==> ps[i] in m && ps[i] !in revs
    requires Distinct(ps)
    requires |parsed| == |ps| + 1 && parsed[|ps|] == Success(None)
    requires forall i :: 0 <= i < |ps| ==> parsed[i] == Success(Some((ps[i], m[ps[i]])))
    ensures LoadFold(revs, added, parsed) == Loaded(AddAll(revs, m, ps), added + |ps|, None)
    decreases |ps|
  {
    if |ps| == 0 {
      assert parsed[1..] == [];
    } else {
      var p := ps[0];
      var rest := ps[1..];
      DistinctTail(ps);
      forall i | 0 <= i < |rest|
        ensures parsed[1..][i] == Success(Some((rest[i], m[rest[i]])))
      {
        assert parsed[1..][i] == parsed[i + 1] && rest[i] == ps[i + 1];
      }
      LoadEntries(revs[p := m[p]], added + 1, m, rest, parsed[1..]);
    }
  }

  /** Loading the lines for paths `ps` adds exactly those entries. */
  lemma LoadRender(revs: map<string, CvsNum>, added: nat, m: map<string, CvsNum>, ps: seq<string>)
    requires ValidRevs(revs) && ValidRevs(m)
    requires forall i :: 0 <= i < |ps| ==> ps[i] in m && ps[i] !in revs
    requires forall i :: 0 <= i < |ps| ==> LoadablePath(ps[i]) && LoadableNum(m[ps[i]])
    requires Distinct(ps)
    ensures LoadFold(revs, added, ParseLines(Split(Render(m, ps), '\n'))) == Loaded(AddAll(revs, m, ps), added + |ps|, None)
  {
    var lines := Split(Render(m, ps), '\n');
    var parsed := ParseLines(lines);
    RenderLines(m, ps);
    forall i | 0 <= i < |ps|
      ensures parsed[i] == Success(Some((ps[i], m[ps[i]])))
    {
      ParseEntry(ps[i], m[ps[i]]);
    }
    assert Strip(lines[|ps|]) == "";
    LoadEntries(revs, added, m, ps, parsed);
  }

  /** `load_data(str(s))` into an empty state gives back `s`, for paths and
      numbers the text form can carry. */
  lemma LoadStateText(m: map<string, CvsNum>)
    requires ValidRevs(m)
    requires forall p :: p in m ==> LoadablePath(p) && LoadableNum(m[p])
    ensures Load(map[], StateText(m)) == Loaded(m, |m|, None)
  {
    var ps := SortedPaths(m.Keys);
    IncreasingDistinct(ps);
    LoadAllPaths(m, ps);
  }

  /** Loading the lines for a list of all the paths, each once, gives back
      the whole map. */
  lemma LoadAllPaths(m: map<string, CvsNum>, ps: seq<string>)
    requires ValidRevs(m)
    requires forall p :: p in m ==> LoadablePath(p) && LoadableNum(m[p])
    requires forall i :: 0 <= i < |ps| ==> ps[i] in m
    requires forall q :: q in m ==> q in ps
    requires Distinct(ps) && |ps| == |m|
    ensures Load(map[], Render(m, ps)) == Loaded(m, |m|, None)
  {
    LoadRender(map[], 0, m, ps);
    AddAllPaths(m, ps);
  }

  // -----------------------------------------------------------------------
  // the CVSState object

  /** Every number valid, and a memoised hash, when present, that of the
      entries. */
  predicate Consistent(revs: map<string, CvsNum>, cache: Option<string>)
  {
    ValidRevs(revs) && (cache.Some? ==> cache.value == StateText(revs))
  }

  class CvsState {
    /** `revs`: path to number. */
    var revs: map<string, CvsNum>
    /** `_hash`: `None`, or the memoised value; the model memoises the text
        that is hashed. */
    var cache: Option<string>

    /** What the class relies on: the entries and the memoised hash are
        `Consistent`. */
    ghost predicate Valid()
      reads this
    {
      Consistent(revs, cache)
    }

    /** `CVSState()`: no entries, nothing memoised. */
    constructor()
      ensures revs == map[] && cache == None
      ensures Valid()
    {
      revs := map[];
      cache := None;
    }

    /** `add(path, revnum)`: the path must be new. */
    method Add(path: string, n: CvsNum)
      requires path !in revs && n.Valid()
      modifies this
      ensures revs == old(revs)[path := n] && cache == None
      ensures ValidRevs(old(revs)) ==> ValidRevs(revs)
    {
      cache := None;
      revs := revs[path := n];
    }

    /** `replace(path, revnum)`: the path must be present. */
    method Replace(path: string, n: CvsNum)
      requires path in revs && n.Valid()
      modifies this
      ensures revs == old(revs)[path := n] && cache == None
      ensures ValidRevs(old(revs)) ==> Valid()
    {
      cache := None;
      revs := revs[path := n];
    }

    /** `remove(path, revnum)`: the path must be present with that number. */
    method Remove(path: string, n: CvsNum)
      requires path in revs && revs[path] == n
      modifies this
      ensures revs == old(revs) - {path} && cache == None
      ensures ValidRevs(old(revs)) ==> Valid()
    {
      cache := None;
      revs := revs - {path};
    }

    /** `copy()`: a new object with the same entries and memoised hash. */
    method Copy() returns (r: CvsState)
      ensures fresh(r)
      ensures r.revs == revs && r.cache == cache
      ensures Valid() ==> r.Valid()
    {
      r := new CvsState();
      r.revs := revs;
      r.cache := cache;
    }

    /** `__hash__()`: compute and memoise on first use; afterwards the
        memoised value is returned, whatever the entries are by then. */
    method HashText() returns (h: string)
      requires ValidRevs(revs)
      modifies this
      ensures revs == old(revs) && cache == Some(h)
      ensures old(cache).Some? ==> h == old(cache).value
      ensures old(cache).None? ==> h == StateText(revs)
      ensures old(Valid()) ==> h == StateText(revs) && Valid()
    {
      if cache.None? {
        cache := Some(StateText(revs));
      }
      h := cache.value;
    }

    /** The loop of `load_data`: strip each line, skip blank ones, split the
        rest at the last `:`, and `add` the pair. An error leaves the
        entries added before it in place. The memoised hash is left alone,
        which is `load_data` without its last statement; that statement is
        `LoadDataAsWritten`. */
    method LoadData(note: string) returns (err: Option<LoadError>)
      requires ValidRevs(revs)
      modifies this
      ensures var o := Load(old(revs), note);
        revs == o.revs && err == o.error
      ensures cache == if revs == old(revs) then old(cache) else None
      ensures old(Valid()) ==> Valid()
    {
      err := LoadLines(ParseLines(Split(note, '\n')));
    }

    /** The loop of `load_data` over the lines of the note: each line is
        stripped, skipped when blank, split at its last `:` and added. The
        lines are parsed ahead of the adds; parsing changes nothing, and the
        first bad line still stops the adds at that line. */
    method LoadLines(parsed: seq<Result<Option<(string, CvsNum)>, LoadError>>) returns (err: Option<LoadError>)
      requires ValidRevs(revs) && WellParsed(parsed)
      modifies this
      ensures var o := LoadFold(old(revs), 0, parsed);
        revs == o.revs && err == o.error
      ensures cache == if revs == old(revs) then old(cache) else None
    {
      err := None;
      var rest := parsed;
      ghost var added := 0;
      ghost var newPath := "";
      while |rest| > 0
        invariant ValidRevs(revs) && WellParsed(rest)
        invariant LoadFold(revs, added, rest) == LoadFold(old(revs), 0, parsed)
        invariant old(revs).Keys <= revs.Keys
        invariant added == 0 ==> revs == old(revs) && cache == old(cache)
        invariant added > 0 ==> cache == None && newPath in revs && newPath !in old(revs)
      {
        var stop, grew, path := LoadOne(rest, added);
        if stop.Some? {
          err := stop;
          break;
        }
        if grew {
          added := added + 1;
          newPath := path;
        }
        rest := rest[1..];
      }
      if added > 0 {
        assert revs != old(revs) by {
          assert newPath in revs.Keys && newPath !in old(revs).Keys;
        }
      }
    }

    /** One turn of the loop of `load_data`, on the first of the parsed
        lines `parsed`: a bad line or a path already present stops the
        loop; a blank line is skipped; otherwise the pair is added. */
    method LoadOne(parsed: seq<Result<Option<(string, CvsNum)>, LoadError>>, ghost added: nat)
      returns (stop: Option<LoadError>, grew: bool, ghost path: string)
      requires ValidRevs(revs) && WellParsed(parsed) && |parsed| > 0
      modifies this
      ensures ValidRevs(revs) && old(revs).Keys <= revs.Keys
      ensures stop.Some? ==> revs == old(revs) && cache == old(cache) && LoadFold(revs, added, parsed) == Loaded(revs, added, stop)
      ensures stop.None? ==> WellParsed(parsed[1..])
      ensures stop.None? ==> LoadFold(old(revs), added, parsed) == LoadFold(revs, if grew then added + 1 else added, parsed[1..])
      ensures !grew ==> revs == old(revs) && cache == old(cache)
      ensures grew ==> cache == None && path in revs && path !in old(revs)
    {
      grew, path := false, "";
      var line := parsed[0];
      if line.Failure? {
        return Some(line.error), false, "";
      }
      LoadFoldStep(revs, added, parsed);
      if line.value.Some? {
        var (p, n) := line.value.value;
        if p in revs {
          return Some(DuplicatePath(p)), false, "";
        }
        Add(p, n);
        grew, path := true, p;
      }
      stop := None;
    }

    /** `load_data(note_data)` as written: after the loop it memoises the
        hash of `note_data` itself rather than of the loaded entries. */
    method LoadDataAsWritten(note: string) returns (err: Option<LoadError>)
      requires ValidRevs(revs)
      modifies this
      ensures var o := Load(old(revs), note);
        revs == o.revs && err == o.error
      ensures cache == if err.None? then Some(note) else if revs == old(revs) then old(cache) else None
    {
      err := LoadLines(ParseLines(Split(note, '\n')));
      if err.None? {
        cache := Some(note);
      }
    }
  }

  // -----------------------------------------------------------------------
  // properties of the updates

  /** `remove` undoes `add`. */
  lemma RemoveUndoesAdd(m: map<string, CvsNum>, p: string, n: CvsNum)
    requires p !in m
    ensures m[p := n] - {p} == m
  {
  }

  /** `replace` with the number already stored changes nothing. */
  lemma ReplaceSameIsIdentity(m: map<string, CvsNum>, p: string)
    requires p in m
    ensures m[p := m[p]] == m
  {
  }

  /** `str(self)` has one line per path, in increasing path order, each the
      path, a colon and the number, and ends with a newline. */
  lemma StateTextLines(m: map<string, CvsNum>)
    requires ValidRevs(m)
    requires forall p :: p in m ==> '\n' !in p
    ensures var ps := SortedPaths(m.Keys);
      var lines := Split(StateText(m), '\n');
      Increasing(ps) && |ps| == |m| && |lines| == |m| + 1 && lines[|m|] == "" &&
      forall i :: 0 <= i < |m| ==> lines[i] == ps[i] + ":" + m[ps[i]].Text()
  {
    var ps := SortedPaths(m.Keys);
    RenderLines(m, ps);
  }

  // -----------------------------------------------------------------------
  // the memoised hash after load_data

  /** The note `a:1.1` (no final newline) loads into no entries as the
      entry `a` at 1.1. */
  lemma LoadSingleLine()
    ensures Load(map[], "a:1.1") == Loaded(map["a" := CvsNum([1, 1])], 1, None)
  {
    var n := CvsNum([1, 1]);
    assert Decimals([1, 1]) == ["1", "1"] by {
      assert Decimal(1) == "1";
    }
    var e := Entry("a", n);
    assert e == "a:1.1";
    ParseEntry("a", n);
    SplitWithoutSep(e, '\n');
    var parsed := ParseLines(Split(e, '\n'));
    assert parsed == [Success(Some(("a", n)))];
    assert parsed[1..] == [];
  }

  /** A note without a newline is never the text of a non-empty state,
      which ends each entry with one. */
  lemma OneLineIsNotStateText(note: string, m: map<string, CvsNum>, p: string)
    requires ValidRevs(m) && p in m
    requires forall q :: q in m ==> '\n' !in q
    requires '\n' !in note
    ensures note != StateText(m)
  {
    SplitWithoutSep(note, '\n');
    StateTextLines(m);
    assert |m| != 0 by {
      assert p in m.Keys;
    }
  }

  /** Loading `a:1.1` gives the entry `a` at 1.1, yet the text of those
      entries, which a state built by `add` hashes, is a different string:
      the memo `LoadDataAsWritten` leaves behind is not the hash of the
      state's own text. */
  lemma LoadedMemoDiffers()
    ensures var m := map["a" := CvsNum([1, 1])];
      Load(map[], "a:1.1") == Loaded(m, 1, None) && "a:1.1" != StateText(m)
  {
    LoadSingleLine();
    OneLineIsNotStateText("a:1.1", map["a" := CvsNum([1, 1])], "a");
  }
}
