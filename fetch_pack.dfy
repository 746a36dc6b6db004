/** The self-contained decisions of builtin-fetch-pack.c: the in-place
    de-duplication of the requested heads, the precedence of the unpack-limit
    settings, the `--keep` option, and the choice between keeping the pack
    (`index-pack`) and exploding it (`unpack-objects`). The network protocol
    and the child processes are not modelled. */
module FetchPack {
  import opened Wrappers
  import opened PyStr

  // -----------------------------------------------------------------------
  // remove_duplicates

  /** The heads with every repeat of an earlier head dropped, built the way
      the compaction loop builds it: one source entry at a time. */
  function Dedup(s: seq<string>): (r: seq<string>)
    ensures |r| <= |s|
    ensures forall x :: x in r <==> x in s
  {
    if |s| == 0 then []
    else
      var d := Dedup(s[..|s| - 1]);
      var x := s[|s| - 1];
      if x in d then d else d + [x]
  }

  /** `remove_duplicates`: compacts `heads` in place so that its first `dst`
      entries are the distinct heads in order of first occurrence; entries
      from `dst` on are left as they were. */
  method RemoveDuplicates(heads: array<string>) returns (dst: int)
    modifies heads
    ensures 0 <= dst <= heads.Length
    ensures heads[..dst] == Dedup(old(heads[..]))
    ensures heads[dst..] == old(heads[dst..])
  {
    ghost var orig := heads[..];
    dst := 0;
    var src := 0;
    while src < heads.Length
      invariant 0 <= dst <= src <= heads.Length
      invariant heads[..dst] == Dedup(orig[..src])
      invariant forall k :: dst <= k < heads.Length ==> heads[k] == orig[k]
    {
      assert orig[..src + 1] == orig[..src] + [orig[src]];
      DedupLast(orig[..src], orig[src]);
      var found := Seen(heads, dst, src);
      if !found {
        if src != dst {
          heads[dst] := heads[src];
        }
        dst := dst + 1;
      }
      src := src + 1;
    }
    assert orig[..src] == orig;
    assert heads[dst..] == orig[dst..];
  }

  /** The inner scan of `remove_duplicates`: whether `heads[src]` equals one
      of the heads kept so far. */
  method Seen(heads: array<string>, dst: int, src: int) returns (found: bool)
    requires 0 <= dst <= src < heads.Length
    ensures found <==> heads[src] in heads[..dst]
  {
    var i := 0;
    while i < dst
      invariant 0 <= i <= dst
      invariant forall k :: 0 <= k < i ==> heads[k] != heads[src]
    {
      if heads[i] == heads[src] {
        break;
      }
      i := i + 1;
    }
    found := i < dst;
  }

  /** The kept heads are pairwise different. */
  lemma {:induction false} DedupDistinct(s: seq<string>)
    ensures Distinct(Dedup(s))
  {
    if |s| > 0 {
      DedupDistinct(s[..|s| - 1]);
    }
  }

  /** Heads that are already distinct are kept as they are, so compacting
      twice is compacting once. */
  lemma {:induction false} DedupOfDistinct(s: seq<string>)
    requires Distinct(s)
    ensures Dedup(s) == s
  {
    if |s| > 0 {
      var p := s[..|s| - 1];
      assert Distinct(p);
      DedupOfDistinct(p);
      assert s[|s| - 1] !in p;
      assert p + [s[|s| - 1]] == s;
    }
  }

  lemma DedupIdempotent(s: seq<string>)
    ensures Dedup(Dedup(s)) == Dedup(s)
  {
    DedupDistinct(s);
    DedupOfDistinct(Dedup(s));
  }

  /** An independent reading of "first occurrences in their original order":
      walk the heads from the front and keep each one not seen before. */
  function KeepFirst(s: seq<string>, seen: set<string>): (r: seq<string>)
    ensures forall x :: x in r ==> x in s && x !in seen
  {
    if |s| == 0 then []
    else if s[0] in seen then KeepFirst(s[1..], seen)
    else [s[0]] + KeepFirst(s[1..], seen + {s[0]})
  }

  /** The elements of a sequence, as a set. */
  function Elems(s: seq<string>): (r: set<string>)
    ensures forall x :: x in r <==> x in s
  {
    set x | x in s
  }

  /** Compacting `p + q` compacts `p`, then keeps the heads of `q` not met
      before. */
  lemma {:induction false} DedupSplits(p: seq<string>, q: seq<string>)
    ensures Dedup(p + q) == Dedup(p) + KeepFirst(q, Elems(p))
    decreases |q|
  {
    if |q| == 0 {
      assert p + q == p;
    } else {
      var p' := p + [q[0]];
      assert p' + q[1..] == p + q;
      DedupSplits(p', q[1..]);
      DedupSplitsStep(p, q);
    }
  }

  /** Moving the first head of `q` over to `p` keeps the split form. */
  lemma DedupSplitsStep(p: seq<string>, q: seq<string>)
    requires |q| > 0
    ensures Dedup(p + [q[0]]) + KeepFirst(q[1..], Elems(p + [q[0]])) == Dedup(p) + KeepFirst(q, Elems(p))
  {
    var x := q[0];
    DedupLast(p, x);
    ElemsSnoc(p, x);
    var tail := KeepFirst(q[1..], Elems(p + [x]));
    if x !in p {
      assert KeepFirst(q, Elems(p)) == [x] + tail;
      assert (Dedup(p) + [x]) + tail == Dedup(p) + ([x] + tail);
    }
  }

  lemma ElemsSnoc(p: seq<string>, x: string)
    ensures Elems(p + [x]) == Elems(p) + {x}
    ensures x in p ==> Elems(p + [x]) == Elems(p)
  {
  }

  /** One step of the compaction, as seen from the end of the prefix. */
  lemma DedupLast(p: seq<string>, x: string)
    ensures Dedup(p + [x]) == if x in p then Dedup(p) else Dedup(p) + [x]
  {
    assert (p + [x])[..|p|] == p;
  }

  /** The compacted heads are exactly the first occurrences, in order. */
  lemma DedupKeepsFirst(s: seq<string>)
    ensures Dedup(s) == KeepFirst(s, {})
  {
    DedupSplits([], s);
    assert [] + s == s;
    assert Elems([]) == {};
  }

  // -----------------------------------------------------------------------
  // the unpack limit and the options

  newtype int32 = x: int | -0x8000_0000 <= x < 0x8000_0000
  newtype uint32 = x: int | 0 <= x < 0x1_0000_0000

  /** The C conversion of an `int` to `uint32_t` in a mixed comparison. */
  function Unsigned(x: int32): (r: uint32)
    ensures x >= 0 ==> r as int == x as int
    ensures x < 0 ==> r as int == x as int + 0x1_0000_0000
  {
    if x >= 0 then x as int as uint32 else (x as int + 0x1_0000_0000) as uint32
  }

  /** The value a configuration callback leaves behind for `key`: the last
      setting wins, and `unset` stays when there is none. */
  function LastSetting(config: seq<(string, int32)>, key: string, unset: int32): (r: int32)
    ensures (forall i :: 0 <= i < |config| ==> config[i].0 != key) ==> r == unset
  {
    if |config| == 0 then unset
    else if config[|config| - 1].0 == key then config[|config| - 1].1
    else LastSetting(config[..|config| - 1], key, unset)
  }

  /** Entry `i` is the last one in `config` that sets `key`. */
  predicate IsLastFor(config: seq<(string, int32)>, key: string, i: int) {
    0 <= i < |config| && config[i].0 == key && forall j :: i < j < |config| ==> config[j].0 != key
  }

  /** `transfer.unpacklimit` when it is set to a non-negative value, else
      `fetch.unpacklimit` when that is, else the built-in limit. */
  function ChooseLimit(transfer: int32, fetch: int32, builtIn: int32): (r: int32)
    ensures r == transfer || r == fetch || r == builtIn
    ensures 0 <= builtIn ==> 0 <= r
  {
    if 0 <= transfer then transfer
    else if 0 <= fetch then fetch
    else builtIn
  }

  const TransferKey := "transfer.unpacklimit"
  const FetchKey := "fetch.unpacklimit"

  /** Options `cmd_fetch_pack` accepts before the repository argument. Of
      these only `--keep`/`-k` is modelled beyond being accepted. */
  predicate IsKnownOption(a: string) {
    StartsWith(a, "--upload-pack=") || StartsWith(a, "--exec=") || StartsWith(a, "--depth=") ||
    a == "--quiet" || a == "-q" || a == "--keep" || a == "-k" || a == "--thin" ||
    a == "--include-tag" || a == "--all" || a == "-v" || a == "--no-progress"
  }

  predicate IsOption(a: string) {
    |a| > 0 && a[0] == '-'
  }

  predicate IsKeep(a: string) {
    a == "--keep" || a == "-k"
  }

  /** The leading arguments that start with `-`. */
  function Options(args: seq<string>): (r: seq<string>)
    ensures |r| <= |args| && r == args[..|r|]
    ensures forall a :: a in r ==> IsOption(a)
    ensures |r| < |args| ==> !IsOption(args[|r|])
  {
    if |args| == 0 || !IsOption(args[0]) then []
    else [args[0]] + Options(args[1..])
  }

  /** How many times `--keep` or `-k` occurs. */
  function KeepCount(opts: seq<string>): (r: nat)
    ensures r <= |opts|
    ensures r == 0 <==> forall i :: 0 <= i < |opts| ==> !IsKeep(opts[i])
  {
    if |opts| == 0 then 0
    else (if IsKeep(opts[|opts| - 1]) then 1 else 0) + KeepCount(opts[..|opts| - 1])
  }

  /** The keep and lock flags after the `--keep` options among `opts`, in
      order, starting from `keep` and `lock`: each one hands the keep flag on
      to the lock flag and sets the keep flag. */
  function KeepFlags(opts: seq<string>, keep: bool, lock: bool): (r: (bool, bool))
    ensures keep ==> r.0
    ensures (lock ==> keep) ==> (r.1 ==> r.0)
  {
    if |opts| == 0 then (keep, lock)
    else
      var (k, l) := KeepFlags(opts[..|opts| - 1], keep, lock);
      if IsKeep(opts[|opts| - 1]) then (true, k) else (k, l)
  }

  datatype UsageError = UnknownOption(option: string) | NoRepository

  /** The arguments after the options: the repository and the heads. */
  datatype Target = Target(dest: string, heads: seq<string>)

  // -----------------------------------------------------------------------
  // get_pack

  datatype PackHeader = PackHeader(version: uint32, entries: uint32)

  datatype PackError = BadPackHeader

  /** The words of the child command `get_pack` assembles. */
  datatype ChildArg =
    | IndexPack | Stdin | Verbose | FixThin
    | KeepLock(pid: nat, host: string)
    | UnpackObjects | Quiet
    | HeaderArg(version: uint32, entries: uint32)
  {
    /** The word as it is passed to the child: the two commands are the
        only words that do not start with `-`, so the child reads every
        other one as an option. */
    function Text(): (r: string)
      ensures |r| > 0
      ensures r[0] == '-' <==> !(IndexPack? || UnpackObjects?)
    {
      match this
      case IndexPack => "index-pack"
      case Stdin => "--stdin"
      case Verbose => "-v"
      case FixThin => "--fix-thin"
      case KeepLock(pid, host) => "--keep=fetch-pack " + Decimal(pid) + " on " + host
      case UnpackObjects => "unpack-objects"
      case Quiet => "-q"
      case HeaderArg(version, entries) =>
        "--pack_header=" + Decimal(version as nat) + "," + Decimal(entries as nat)
    }
  }

  /** One word for a condition that holds, none otherwise. */
  function OneIf(c: bool): nat
  {
    if c then 1 else 0
  }

  /** The host named in the keep argument: `localhost` when the host name
      cannot be read. */
  function HostOr(hostname: Option<string>): string
  {
    if hostname.Some? then hostname.value else "localhost"
  }

  /** One `*av++ = a` of a word not yet in the argument list keeps the list
      free of repeats. */
  lemma PushFresh(argv: seq<ChildArg>, a: ChildArg)
    requires Distinct(argv) && a !in argv
    ensures Distinct(argv + [a])
    ensures forall x :: x in argv + [a] <==> x in argv || x == a
  {
  }

  /** The static state of builtin-fetch-pack.c that the configuration and
      the options set: the two configured unpack limits, the limit in force,
      whether setup ran, and the `--keep` flags. */
  class FetchPackState {
    var transferUnpackLimit: int32
    var fetchUnpackLimit: int32
    var unpackLimit: int32
    var didSetup: bool
    var keepPack: bool
    var lockPack: bool

    /** The limit in force is never negative, so comparing the header's
        unsigned entry count with it is an ordinary comparison. */
    predicate Valid()
      reads this
    {
      unpackLimit >= 0
    }

    /** The initial values of the statics. */
    constructor ()
      ensures Valid()
      ensures transferUnpackLimit == -1 && fetchUnpackLimit == -1 && unpackLimit == 100
      ensures !didSetup && !keepPack && !lockPack
    {
      transferUnpackLimit := -1;
      fetchUnpackLimit := -1;
      unpackLimit := 100;
      didSetup := false;
      keepPack := false;
      lockPack := false;
    }

    /** `fetch_pack_config` for the two unpack-limit keys; other keys are
        passed on to the default configuration and change nothing here. */
    method ConfigEntry(key: string, value: int32)
      modifies this
      ensures transferUnpackLimit == (if key == TransferKey then value else old(transferUnpackLimit))
      ensures fetchUnpackLimit == (if key == FetchKey then value else old(fetchUnpackLimit))
      ensures unpackLimit == old(unpackLimit) && didSetup == old(didSetup)
      ensures keepPack == old(keepPack) && lockPack == old(lockPack)
    {
      if key == FetchKey {
        fetchUnpackLimit := value;
        return;
      }
      if key == TransferKey {
        transferUnpackLimit := value;
        return;
      }
    }

    /** `fetch_pack_setup`: on the first call only, read the configuration
        (given as the key/value pairs in the order the files list them) and
        settle the unpack limit by precedence. */
    method Setup(config: seq<(string, int32)>)
      requires Valid()
      modifies this
      ensures Valid() && didSetup
      ensures old(didSetup) ==> unchanged(this)
      ensures !old(didSetup) ==>
        transferUnpackLimit == LastSetting(config, TransferKey, old(transferUnpackLimit)) &&
        fetchUnpackLimit == LastSetting(config, FetchKey, old(fetchUnpackLimit)) &&
        unpackLimit == ChooseLimit(transferUnpackLimit, fetchUnpackLimit, old(unpackLimit))
      ensures keepPack == old(keepPack) && lockPack == old(lockPack)
    {
      if didSetup {
        return;
      }
      var i := 0;
      while i < |config|
        invariant 0 <= i <= |config|
        invariant transferUnpackLimit == LastSetting(config[..i], TransferKey, old(transferUnpackLimit))
        invariant fetchUnpackLimit == LastSetting(config[..i], FetchKey, old(fetchUnpackLimit))
        invariant unpackLimit == old(unpackLimit) && !didSetup
        invariant keepPack == old(keepPack) && lockPack == old(lockPack)
      {
        assert config[..i + 1][..i] == config[..i];
        ConfigEntry(config[i].0, config[i].1);
        i := i + 1;
      }
      assert config[..i] == config;
      if 0 <= transferUnpackLimit {
        unpackLimit := transferUnpackLimit;
      } else if 0 <= fetchUnpackLimit {
        unpackLimit := fetchUnpackLimit;
      }
      didSetup := true;
    }

    /** The option loop of `cmd_fetch_pack` over the arguments after the
        program name: options up to the first argument without a leading
        `-`, which names the repository and is followed by the heads. Each
        `--keep`/`-k` passes the old keep flag on to the lock flag and sets
        the keep flag. */
    method ParseOptions(args: seq<string>) returns (r: Result<Target, UsageError>)
      modifies this
      ensures var opts := Options(args);
        r.Success? <==> |opts| < |args| && forall a :: a in opts ==> IsKnownOption(a)
      ensures var opts := Options(args);
        r.Success? ==> r.value == Target(args[|opts|], args[|opts| + 1..])
      ensures var opts := Options(args);
        r.Failure? && (forall a :: a in opts ==> IsKnownOption(a)) ==> r.error == NoRepository
      ensures r.Success? ==> (keepPack, lockPack) == KeepFlags(Options(args), old(keepPack), old(lockPack))
      ensures transferUnpackLimit == old(transferUnpackLimit) && fetchUnpackLimit == old(fetchUnpackLimit)
      ensures unpackLimit == old(unpackLimit) && didSetup == old(didSetup)
    {
      var i := 0;
      while i < |args| && IsOption(args[i]) && IsKnownOption(args[i])
        invariant 0 <= i <= |args|
        invariant forall k :: 0 <= k < i ==> IsOption(args[k]) && IsKnownOption(args[k])
        invariant (keepPack, lockPack) == KeepFlags(args[..i], old(keepPack), old(lockPack))
        invariant transferUnpackLimit == old(transferUnpackLimit) && fetchUnpackLimit == old(fetchUnpackLimit)
        invariant unpackLimit == old(unpackLimit) && didSetup == old(didSetup)
      {
        assert args[..i + 1][..i] == args[..i];
        if IsKeep(args[i]) {
          lockPack := keepPack;
          keepPack := true;
        }
        i := i + 1;
      }
      OptionsPrefix(args, i);
      if i == |args| {
        r := Failure(NoRepository);
      } else if !IsOption(args[i]) {
        r := Success(Target(args[i], args[i + 1..]));
      } else {
        assert Options(args)[i] == args[i];
        r := Failure(UnknownOption(args[i]));
      }
    }

    /** `get_pack` up to spawning the child: decide whether to keep the pack
        and assemble the child's arguments. The pack header is read from the
        stream only when `--keep` is off and the limit is non-zero; `None`
        stands for a header that cannot be read. */
    method GetPackArgv(quiet: bool, noProgress: bool, useThinPack: bool,
                       header: Option<PackHeader>, pid: nat, hostname: Option<string>)
      returns (r: Result<seq<ChildArg>, PackError>)
      ensures r.Failure? <==> !keepPack && unpackLimit != 0 && header.None?
      ensures r.Success? ==> |r.value| >= 1
      ensures var keep := keepPack || (unpackLimit != 0 && header.Some? && header.value.entries >= Unsigned(unpackLimit));
        r.Success? ==>
          r.value[0] == (if keep then IndexPack else UnpackObjects) &&
          (Stdin in r.value <==> keep) &&
          (Verbose in r.value <==> keep && !quiet && !noProgress) &&
          (FixThin in r.value <==> keep && useThinPack) &&
          (Quiet in r.value <==> !keep && quiet) &&
          (KeepLock(pid, HostOr(hostname)) in r.value <==> keep && (lockPack || unpackLimit != 0))
      ensures Valid() && r.Success? ==>
        (r.value[0] == IndexPack <==>
         keepPack || (unpackLimit != 0 && header.value.entries as int >= unpackLimit as int))
      ensures r.Success? && !keepPack && unpackLimit != 0 ==>
        r.value[|r.value| - 1] == HeaderArg(header.value.version, header.value.entries)
      ensures r.Success? && (keepPack || unpackLimit == 0) ==> forall a :: a in r.value ==> !a.HeaderArg?
      ensures var keep := keepPack || (unpackLimit != 0 && header.Some? && header.value.entries >= Unsigned(unpackLimit));
        r.Success? ==>
          |r.value| == (if keep then 2 + OneIf(!quiet && !noProgress) + OneIf(useThinPack) + OneIf(lockPack || unpackLimit != 0)
                        else 1 + OneIf(quiet)) + OneIf(!keepPack && unpackLimit != 0) &&
          (keep ==> UnpackObjects !in r.value && Quiet !in r.value) &&
          (!keep ==> IndexPack !in r.value)
      ensures r.Success? ==> Distinct(r.value)
      ensures r.Success? ==> forall a :: a in r.value && a.KeepLock? ==> a == KeepLock(pid, HostOr(hostname))
    {
      var doKeep := keepPack;
      var hdrArg: Option<ChildArg> := None;
      if !keepPack && unpackLimit != 0 {
        if header.None? {
          return Failure(BadPackHeader);
        }
        hdrArg := Some(HeaderArg(header.value.version, header.value.entries));
        if header.value.entries < Unsigned(unpackLimit) {
          doKeep := false;
        } else {
          doKeep := true;
        }
      }
      var argv := AssembleArgv(doKeep, quiet, noProgress, useThinPack, lockPack || unpackLimit != 0,
                               KeepLock(pid, HostOr(hostname)), hdrArg);
      return Success(argv);
    }
  }

  /** The words of `get_pack` when the pack is kept: `index-pack --stdin`,
      then `-v`, `--fix-thin` and the keep argument where their conditions
      hold. */
  method IndexPackWords(verbose: bool, useThinPack: bool, lock: bool, keepArg: ChildArg)
    returns (argv: seq<ChildArg>)
    requires keepArg.KeepLock?
    ensures |argv| == 2 + OneIf(verbose) + OneIf(useThinPack) + OneIf(lock)
    ensures argv[0] == IndexPack && argv[1] == Stdin
    ensures Verbose in argv <==> verbose
    ensures FixThin in argv <==> useThinPack
    ensures keepArg in argv <==> lock
    ensures forall a :: a in argv ==> a == IndexPack || a == Stdin || a == Verbose || a == FixThin || a == keepArg
    ensures Distinct(argv)
  {
    argv := [IndexPack, Stdin];
    if verbose {
      PushFresh(argv, Verbose);
      argv := argv + [Verbose];
    }
    if useThinPack {
      PushFresh(argv, FixThin);
      argv := argv + [FixThin];
    }
    if lock {
      PushFresh(argv, keepArg);
      argv := argv + [keepArg];
    }
  }

  /** The words of `get_pack` when the pack is unpacked: `unpack-objects`,
      then `-q` when quiet. */
  method UnpackWords(quiet: bool) returns (argv: seq<ChildArg>)
    ensures |argv| == 1 + OneIf(quiet)
    ensures argv[0] == UnpackObjects
    ensures Quiet in argv <==> quiet
    ensures forall a :: a in argv ==> a == UnpackObjects || a == Quiet
    ensures Distinct(argv)
  {
    argv := [UnpackObjects];
    if quiet {
      PushFresh(argv, Quiet);
      argv := argv + [Quiet];
    }
  }

  /** The child's argument list of `get_pack`: the words of the chosen
      command, and the header argument last when there is one. Each word is
      added at most once. */
  method AssembleArgv(doKeep: bool, quiet: bool, noProgress: bool, useThinPack: bool, lock: bool,
                      keepArg: ChildArg, hdrArg: Option<ChildArg>) returns (argv: seq<ChildArg>)
    requires keepArg.KeepLock?
    requires hdrArg.Some? ==> hdrArg.value.HeaderArg?
    ensures |argv| >= 1 && argv[0] == (if doKeep then IndexPack else UnpackObjects)
    ensures Stdin in argv <==> doKeep
    ensures Verbose in argv <==> doKeep && !quiet && !noProgress
    ensures FixThin in argv <==> doKeep && useThinPack
    ensures keepArg in argv <==> doKeep && lock
    ensures Quiet in argv <==> !doKeep && quiet
    ensures IndexPack in argv <==> doKeep
    ensures UnpackObjects in argv <==> !doKeep
    ensures forall a :: a in argv && a.KeepLock? ==> a == keepArg
    ensures forall a :: a in argv && a.HeaderArg? ==> hdrArg == Some(a)
    ensures hdrArg.Some? ==> argv[|argv| - 1] == hdrArg.value
    ensures |argv| == (if doKeep then 2 + OneIf(!quiet && !noProgress) + OneIf(useThinPack) + OneIf(lock)
                       else 1 + OneIf(quiet)) + OneIf(hdrArg.Some?)
    ensures Distinct(argv)
  {
    if doKeep {
      argv := IndexPackWords(!quiet && !noProgress, useThinPack, lock, keepArg);
    } else {
      argv := UnpackWords(quiet);
    }
    if hdrArg.Some? {
      PushFresh(argv, hdrArg.value);
      argv := argv + [hdrArg.value];
    }
  }

  /** The options the loop has accepted are a prefix of the leading options;
      the first argument that is no option ends them. */
  lemma {:induction false} OptionsPrefix(args: seq<string>, i: nat)
    requires i <= |args|
    requires forall k :: 0 <= k < i ==> IsOption(args[k])
    ensures |Options(args)| >= i && Options(args)[..i] == args[..i]
    ensures i < |args| && IsOption(args[i]) ==> |Options(args)| > i
    ensures i < |args| && !IsOption(args[i]) ==> Options(args) == args[..i]
    ensures i == |args| ==> Options(args) == args
  {
    if i > 0 {
      OptionsPrefix(args[1..], i - 1);
      assert args[1..][..i - 1] == args[1..i];
    }
  }

  // -----------------------------------------------------------------------
  // properties of the configuration and the options

  /** The last setting of a key wins; with no setting the key keeps its
      unset value. */
  lemma {:induction false} LastSettingWins(config: seq<(string, int32)>, key: string, unset: int32)
    ensures (forall i :: 0 <= i < |config| ==> config[i].0 != key) ==> LastSetting(config, key, unset) == unset
    ensures forall i :: IsLastFor(config, key, i) ==> LastSetting(config, key, unset) == config[i].1
  {
    if |config| > 0 {
      var p := config[..|config| - 1];
      LastSettingWins(p, key, unset);
      forall i | IsLastFor(config, key, i)
        ensures LastSetting(config, key, unset) == config[i].1
      {
        if i < |config| - 1 {
          assert p[i] == config[i];
          assert forall j :: i < j < |p| ==> p[j] == config[j];
        }
      }
    }
  }

  /** The limit `fetch_pack_setup` settles on from the initial statics. */
  function ConfiguredLimit(config: seq<(string, int32)>): int32
  {
    ChooseLimit(LastSetting(config, TransferKey, -1), LastSetting(config, FetchKey, -1), 100)
  }

  /** The precedence of the limits, in terms of the configuration entries:
      the last `transfer.unpacklimit` wins when it is non-negative, whatever
      `fetch.unpacklimit` says; otherwise the last `fetch.unpacklimit` wins
      when it is non-negative; otherwise the built-in 100 stays. The limit in
      force is never negative. */
  lemma ConfiguredLimitPrecedence(config: seq<(string, int32)>)
    ensures ConfiguredLimit(config) >= 0
    ensures forall i :: IsLastFor(config, TransferKey, i) && config[i].1 >= 0 ==>
      ConfiguredLimit(config) == config[i].1
    ensures (forall i :: IsLastFor(config, TransferKey, i) ==> config[i].1 < 0) ==>
      forall j :: IsLastFor(config, FetchKey, j) && config[j].1 >= 0 ==> ConfiguredLimit(config) == config[j].1
    ensures (forall i :: 0 <= i < |config| ==> config[i].0 != TransferKey && config[i].0 != FetchKey) ==>
      ConfiguredLimit(config) == 100
  {
    LastSettingWins(config, TransferKey, -1);
    LastSettingWins(config, FetchKey, -1);
    LastSettingExists(config, TransferKey, -1);
  }

  /** A setting other than the unset value comes from some last entry. */
  lemma {:induction false} LastSettingExists(config: seq<(string, int32)>, key: string, unset: int32)
    ensures LastSetting(config, key, unset) == unset ||
      exists i :: IsLastFor(config, key, i) && LastSetting(config, key, unset) == config[i].1
  {
    if |config| > 0 && config[|config| - 1].0 != key {
      var p := config[..|config| - 1];
      LastSettingExists(p, key, unset);
      if LastSetting(p, key, unset) != unset {
        var i :| IsLastFor(p, key, i) && LastSetting(p, key, unset) == p[i].1;
        assert IsLastFor(config, key, i);
      }
    } else if |config| > 0 {
      assert IsLastFor(config, key, |config| - 1);
    }
  }

  /** The `--keep` options in closed form: from flags `keep` and `lock`, one
      `--keep` sets keep and hands the old keep to lock; two or more set
      both. Starting from the initial statics, the pack is kept after one
      `--keep` and also locked after two. */
  lemma {:induction false} KeepFlagsCount(opts: seq<string>, keep: bool, lock: bool)
    ensures var n := KeepCount(opts);
      KeepFlags(opts, keep, lock) == (n >= 1 || keep, n >= 2 || (n == 1 && keep) || (n == 0 && lock))
    ensures var n := KeepCount(opts);
      KeepFlags(opts, false, false) == (n >= 1, n >= 2)
  {
    if |opts| > 0 {
      KeepFlagsCount(opts[..|opts| - 1], keep, lock);
      KeepFlagsCount(opts[..|opts| - 1], false, false);
    }
  }
}
