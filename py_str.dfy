/** The handful of Python string built-ins the CVS core relies on, on `string`
    (a `seq<char>`): `split`, `join`, `rsplit(c, 1)`, `strip`, `split()` on
    whitespace, `startswith`/`endswith`, slicing, `count`, `int()` on decimal
    digits, `str()` of a natural number and the ordering `sorted` uses. */
module PyStr {
  import opened Wrappers

  // ---------------------------------------------------------------------
  // split / join on a one-character separator

  /** `s.split(sep)`: the pieces between separators; never empty. */
  function Split(s: string, sep: char): (r: seq<string>)
    ensures |r| >= 1
    ensures forall i :: 0 <= i < |r| ==> sep !in r[i]
  {
    if |s| == 0 then [""]
    else
      var rest := Split(s[1..], sep);
      if s[0] == sep then [""] + rest
      else [[s[0]] + rest[0]] + rest[1..]
  }

  /** `sep.join(parts)`. */
  function Join(parts: seq<string>, sep: char): string
  {
    if |parts| == 0 then ""
    else if |parts| == 1 then parts[0]
    else parts[0] + [sep] + Join(parts[1..], sep)
  }

  lemma {:induction false} SplitWithoutSep(a: string, sep: char)
    requires sep !in a
    ensures Split(a, sep) == [a]
  {
    if |a| > 0 {
      SplitWithoutSep(a[1..], sep);
      assert [a[0]] + a[1..] == a;
    }
  }

  /** A separator-free piece followed by the separator splits off as the first piece. */
  lemma {:induction false} SplitAfterPiece(a: string, sep: char, rest: string)
    requires sep !in a
    ensures Split(a + [sep] + rest, sep) == [a] + Split(rest, sep)
  {
    if |a| == 0 {
      assert a + [sep] + rest == [sep] + rest;
      assert ([sep] + rest)[1..] == rest;
    } else {
      var s := a + [sep] + rest;
      assert s[0] == a[0];
      assert s[1..] == a[1..] + [sep] + rest;
      SplitAfterPiece(a[1..], sep, rest);
      assert [a[0]] + a[1..] == a;
    }
  }

  /** Two separator-free pieces joined by one separator split back into the
      two pieces. */
  lemma SplitOnce(a: string, sep: char, b: string)
    requires sep !in a && sep !in b
    ensures Split(a + [sep] + b, sep) == [a, b]
  {
    SplitAfterPiece(a, sep, b);
    SplitWithoutSep(b, sep);
    PairOf(a, b);
  }

  /** `int(line.split(";")[1].split(":")[1].strip())` on a line
      `H;L: N`, with no `;` in H and L and no `:` in L, reads N. */
  lemma NumberAfterLabel(head: string, name: string, n: nat)
    requires ';' !in head && ';' !in name && ':' !in name
    ensures var halves := Split(head + ";" + name + ": " + Decimal(n), ';');
      |halves| == 2 && Split(halves[1], ':') == [name, " " + Decimal(n)] &&
      ParseDecimal(Strip(" " + Decimal(n))) == Some(n)
  {
    var num := Decimal(n);
    var tail := name + ": " + num;
    DecimalHasNo(n, ';');
    DecimalHasNo(n, ':');
    assert head + ";" + name + ": " + num == head + [';'] + tail;
    SplitOnce(head, ';', tail);
    assert tail == name + [':'] + (" " + num);
    SplitOnce(name, ':', " " + num);
    StripSpaced(num);
    DecimalRoundTrip(n);
  }

  /** A character that is neither the separator nor in any piece is not in
      the join. */
  lemma {:induction false} JoinHasNo(parts: seq<string>, sep: char, c: char)
    requires c != sep
    requires forall i :: 0 <= i < |parts| ==> c !in parts[i]
    ensures c !in Join(parts, sep)
  {
    if |parts| > 1 {
      JoinHasNo(parts[1..], sep, c);
    }
  }

  /** `s.split(sep)` undoes `sep.join(parts)` when no piece holds the separator. */
  lemma {:induction false} SplitJoin(parts: seq<string>, sep: char)
    requires |parts| >= 1
    requires forall i :: 0 <= i < |parts| ==> sep !in parts[i]
    ensures Split(Join(parts, sep), sep) == parts
  {
    if |parts| == 1 {
      SplitWithoutSep(parts[0], sep);
    } else {
      SplitJoin(parts[1..], sep);
      SplitAfterPiece(parts[0], sep, Join(parts[1..], sep));
      assert [parts[0]] + parts[1..] == parts;
    }
  }

  /** Gluing a character onto the first piece adds it to the front of the join. */
  lemma JoinConsFirst(ch: char, rest: seq<string>, sep: char)
    requires |rest| >= 1
    ensures Join([[ch] + rest[0]] + rest[1..], sep) == [ch] + Join(rest, sep)
  {
    var r := [[ch] + rest[0]] + rest[1..];
    assert r[1..] == rest[1..];
    if |rest| > 1 {
      assert Join(r, sep) == [ch] + rest[0] + [sep] + Join(rest[1..], sep);
    }
  }

  /** `sep.join(s.split(sep))` gives back `s`. */
  lemma {:induction false} JoinSplit(s: string, sep: char)
    ensures Join(Split(s, sep), sep) == s
  {
    if |s| > 0 {
      JoinSplit(s[1..], sep);
      var rest := Split(s[1..], sep);
      if s[0] != sep {
        JoinConsFirst(s[0], rest, sep);
      } else {
        assert ([""] + rest)[1..] == rest;
      }
      assert [s[0]] + s[1..] == s;
    }
  }

  /** `filter(None, parts)`: the pieces that are not empty. */
  function NonEmpty(parts: seq<string>): (r: seq<string>)
    ensures |r| <= |parts|
    ensures forall i :: 0 <= i < |r| ==> r[i] != ""
  {
    if |parts| == 0 then []
    else if parts[0] == "" then NonEmpty(parts[1..])
    else [parts[0]] + NonEmpty(parts[1..])
  }

  /** How `/dir/…` splits: an empty piece before the first `/`. */
  lemma SplitRooted(dir: string, rest: string)
    requires '/' !in dir
    ensures Split("/" + dir + "/" + rest, '/') == ["", dir] + Split(rest, '/')
  {
    assert "/" + dir + "/" + rest == "" + ['/'] + (dir + ['/'] + rest);
    SplitAfterPiece("", '/', dir + ['/'] + rest);
    SplitAfterPiece(dir, '/', rest);
  }

  /** `filter(None, …)` looks at the first piece and moves on. */
  lemma NonEmptyCons(a: string, rest: seq<string>)
    ensures NonEmpty([a] + rest) == if a == "" then NonEmpty(rest) else [a] + NonEmpty(rest)
  {
    assert ([a] + rest)[1..] == rest;
  }

  /** `/a/b/c` has the non-empty pieces `a`, `b` and `c`. */
  lemma RootedComponents(a: string, b: string, c: string)
    requires a != "" && b != "" && c != "" && '/' !in a && '/' !in b && '/' !in c
    ensures NonEmpty(Split("/" + a + "/" + b + "/" + c, '/')) == [a, b, c]
  {
    assert "/" + a + "/" + b + "/" + c == "/" + a + "/" + (b + "/" + c);
    SplitRooted(a, b + "/" + c);
    assert b + "/" + c == b + ['/'] + c;
    SplitAfterPiece(b, '/', c);
    SplitWithoutSep(c, '/');
    assert ["", a] + ([b] + [c]) == [""] + ([a] + ([b] + ([c] + [])));
    NonEmptyCons("", [a] + ([b] + ([c] + [])));
    NonEmptyCons(a, [b] + ([c] + []));
    NonEmptyCons(b, [c] + []);
    NonEmptyCons(c, []);
  }

  /** `/a/b` has the non-empty pieces `a` and `b`. */
  lemma RootedComponentsTwo(a: string, b: string)
    requires a != "" && b != "" && '/' !in a && '/' !in b
    ensures NonEmpty(Split("/" + a + "/" + b, '/')) == [a, b]
  {
    SplitRooted(a, b);
    SplitWithoutSep(b, '/');
    assert ["", a] + [b] == [""] + ([a] + ([b] + []));
    NonEmptyCons("", [a] + ([b] + []));
    NonEmptyCons(a, [b] + []);
    NonEmptyCons(b, []);
  }

  // ---------------------------------------------------------------------
  // rsplit(c, 1), count, prefixes and suffixes, slicing

  /** `s.index(c)`: the position of the first `c` in `s`; `None` stands
      for the ValueError it raises when there is none. */
  function IndexOf(s: string, c: char): (r: Option<nat>)
    ensures r.None? <==> c !in s
    ensures r.Some? ==> r.value < |s| && s[r.value] == c && c !in s[..r.value]
  {
    if |s| == 0 then None
    else if s[0] == c then Some(0)
    else
      match IndexOf(s[1..], c)
      case None => None
      case Some(i) =>
        assert s[..i + 1] == [s[0]] + s[1..][..i];
        Some(i + 1)
  }

  /** The position of the last `c` in `s`, if any. */
  function LastIndexOf(s: string, c: char): (r: Option<nat>)
    ensures r.None? ==> c !in s
    ensures r.Some? ==> r.value < |s| && s[r.value] == c && c !in s[r.value + 1..]
  {
    if |s| == 0 then None
    else if s[|s| - 1] == c then Some(|s| - 1)
    else
      var r := LastIndexOf(s[..|s| - 1], c);
      assert r.Some? ==> s[r.value + 1..] == s[..|s| - 1][r.value + 1..] + [s[|s| - 1]];
      r
  }

  /** `s.rsplit(c, 1)` when it yields two pieces (it yields one, and an
      unpacking into two names raises, when `c` does not occur). */
  function RSplitOnce(s: string, c: char): (r: Option<(string, string)>)
    ensures r.Some? ==> s == r.value.0 + [c] + r.value.1 && c !in r.value.1
    ensures r.None? <==> c !in s
  {
    match LastIndexOf(s, c)
    case None => None
    case Some(i) =>
      assert s == s[..i] + [c] + s[i + 1..];
      Some((s[..i], s[i + 1..]))
  }

  lemma {:induction false} LastIndexOfBefore(a: string, c: char, b: string)
    requires c !in b
    ensures LastIndexOf(a + [c] + b, c) == Some(|a|)
  {
    var s := a + [c] + b;
    if |b| > 0 {
      assert s[..|s| - 1] == a + [c] + b[..|b| - 1];
      LastIndexOfBefore(a, c, b[..|b| - 1]);
    }
  }

  lemma RSplitOnceAt(a: string, c: char, b: string)
    requires c !in b
    ensures RSplitOnce(a + [c] + b, c) == Some((a, b))
  {
    var s := a + [c] + b;
    LastIndexOfBefore(a, c, b);
    assert s[..|a|] == a;
    assert s[|a| + 1..] == b;
  }

  /** `s.count(c)`. */
  function Count(s: string, c: char): (r: nat)
    ensures r == 0 <==> c !in s
  {
    if |s| == 0 then 0
    else (if s[0] == c then 1 else 0) + Count(s[1..], c)
  }

  /** Counting in a concatenation adds the counts of its parts. */
  lemma {:induction false} CountConcat(a: string, b: string, c: char)
    ensures Count(a + b, c) == Count(a, c) + Count(b, c)
  {
    if |a| > 0 {
      assert (a + b)[1..] == a[1..] + b;
      CountConcat(a[1..], b, c);
    } else {
      assert a + b == b;
    }
  }

  predicate StartsWith(s: string, prefix: string)
  {
    prefix <= s
  }

  predicate EndsWith(s: string, suffix: string)
  {
    |suffix| <= |s| && s[|s| - |suffix|..] == suffix
  }

  /** A Python slice bound: negative counts from the end; both are clamped. */
  function Clamp(i: int, n: nat): (r: nat)
    ensures r <= n
  {
    if i < 0 then (if n + i < 0 then 0 else n + i)
    else if i > n then n
    else i
  }

  /** `s[lo:hi]` with Python's slice semantics. */
  function Slice(s: string, lo: int, hi: int): string
  {
    var a := Clamp(lo, |s|);
    var b := Clamp(hi, |s|);
    if a < b then s[a..b] else ""
  }

  // ---------------------------------------------------------------------
  // whitespace: strip() and split()

  /** The characters `str.strip()` and `str.split()` treat as whitespace. */
  predicate IsSpace(c: char)
  {
    c == ' ' || c == '\t' || c == '\n' || c == '\r' || c as int == 11 || c as int == 12
  }

  function LStrip(s: string): (r: string)
    ensures |r| <= |s| && r == s[|s| - |r|..]
    ensures |r| == 0 || !IsSpace(r[0])
  {
    if |s| > 0 && IsSpace(s[0]) then LStrip(s[1..]) else s
  }

  function RStrip(s: string): (r: string)
    ensures |r| <= |s| && r == s[..|r|]
    ensures |r| == 0 || !IsSpace(r[|r| - 1])
  {
    if |s| > 0 && IsSpace(s[|s| - 1]) then RStrip(s[..|s| - 1]) else s
  }

  /** `s.strip()`. */
  function Strip(s: string): string
  {
    RStrip(LStrip(s))
  }

  lemma StripUnpadded(s: string)
    requires |s| > 0 && !IsSpace(s[0]) && !IsSpace(s[|s| - 1])
    ensures Strip(s) == s
  {
  }

  /** Stripping a space-padded word gives the word. */
  lemma StripSpaced(s: string)
    requires |s| > 0 && !IsSpace(s[0]) && !IsSpace(s[|s| - 1])
    ensures Strip(" " + s) == s
  {
    assert (" " + s)[1..] == s;
    assert LStrip(" " + s) == LStrip(s) == s;
  }

  /** The longest prefix of `t` without whitespace. */
  function TakeWord(t: string): (w: string)
    ensures w <= t
    ensures |t| > 0 && !IsSpace(t[0]) ==> |w| > 0
  {
    if |t| == 0 || IsSpace(t[0]) then "" else [t[0]] + TakeWord(t[1..])
  }

  /** `s.split()`: the maximal runs of non-whitespace characters. */
  function Words(s: string): seq<string>
    decreases |s|
  {
    var t := LStrip(s);
    if |t| == 0 then []
    else
      var w := TakeWord(t);
      [w] + Words(t[|w|..])
  }

  /** No character of `s` is whitespace. */
  predicate NoSpace(s: string)
  {
    forall i :: 0 <= i < |s| ==> !IsSpace(s[i])
  }

  /** A word followed by whitespace, or by nothing, is taken whole. */
  lemma {:induction false} TakeWordOf(a: string, rest: string)
    requires NoSpace(a)
    requires |rest| == 0 || IsSpace(rest[0])
    ensures TakeWord(a + rest) == a
  {
    if |a| > 0 {
      assert (a + rest)[1..] == a[1..] + rest;
      TakeWordOf(a[1..], rest);
      assert [a[0]] + a[1..] == a;
    } else {
      assert a + rest == rest;
    }
  }

  /** Leading whitespace does not change the words. */
  lemma WordsAfterSpace(b: string)
    ensures Words(" " + b) == Words(b)
  {
    assert (" " + b)[1..] == b;
    assert LStrip(" " + b) == LStrip(b);
  }

  /** A word followed by whitespace or by nothing is the first word. */
  lemma WordsCons(a: string, rest: string)
    requires |a| > 0 && NoSpace(a)
    requires |rest| == 0 || IsSpace(rest[0])
    ensures Words(a + rest) == [a] + Words(rest)
  {
    var s := a + rest;
    assert s[0] == a[0];
    assert LStrip(s) == s;
    TakeWordOf(a, rest);
    assert s[|a|..] == rest;
  }

  /** `(a + " " + b).split()` is `[a, b]` for two words `a` and `b`. */
  lemma WordsOfTwo(a: string, b: string)
    requires |a| > 0 && |b| > 0 && NoSpace(a) && NoSpace(b)
    ensures Words(a + " " + b) == [a, b]
  {
    var spaced := " " + b;
    assert a + " " + b == a + spaced;
    WordsCons(a, spaced);
    WordsAfterSpace(b);
    WordsCons(b, "");
    assert b + "" == b;
    var none: seq<string> := [];
    assert Words("") == none;
    assert [b] + none == [b];
    PairOf(a, b);
  }

  lemma PairOf<T>(x: T, y: T)
    ensures [x] + [y] == [x, y]
  {
  }

  // ---------------------------------------------------------------------
  // int() and str() on natural numbers

  predicate IsDigit(c: char)
  {
    '0' <= c <= '9'
  }

  predicate AllDigits(s: string)
  {
    forall i :: 0 <= i < |s| ==> IsDigit(s[i])
  }

  function DigitsValue(s: string): nat
    requires AllDigits(s)
  {
    if |s| == 0 then 0
    else DigitsValue(s[..|s| - 1]) * 10 + (s[|s| - 1] as int - '0' as int)
  }

  /** `int(s)` on a string of decimal digits (leading zeros allowed, as in
      Python); `None` stands for the ValueError `int()` raises otherwise. */
  function ParseDecimal(s: string): (r: Option<nat>)
    ensures r.Some? <==> |s| > 0 && AllDigits(s)
  {
    if |s| > 0 && AllDigits(s) then Some(DigitsValue(s)) else None
  }

  function DigitChar(d: nat): (c: char)
    requires d < 10
    ensures IsDigit(c) && c as int - '0' as int == d
  {
    ('0' as int + d) as char
  }

  /** `str(n)` for a natural number: its decimal digits, no leading zero. */
  function Decimal(n: nat): (s: string)
    ensures |s| >= 1 && AllDigits(s)
    ensures s[0] == '0' ==> n == 0
  {
    if n < 10 then [DigitChar(n)] else Decimal(n / 10) + [DigitChar(n % 10)]
  }

  /** `int(str(n)) == n`. */
  lemma {:induction false} DecimalRoundTrip(n: nat)
    ensures ParseDecimal(Decimal(n)) == Some(n)
    ensures DigitsValue(Decimal(n)) == n
  {
    if n < 10 {
      var s := Decimal(n);
      assert s[..0] == [];
      assert DigitsValue(s) == DigitsValue(s[..0]) * 10 + (s[0] as int - '0' as int);
    } else {
      DecimalRoundTrip(n / 10);
      var s := Decimal(n);
      assert s[..|s| - 1] == Decimal(n / 10);
    }
  }

  lemma DecimalHasNo(n: nat, c: char)
    requires !IsDigit(c)
    ensures c !in Decimal(n)
  {
  }

  // ---------------------------------------------------------------------
  // lists without repeats

  /** No two entries of `ps` are equal. */
  predicate Distinct<T(==)>(ps: seq<T>)
  {
    forall i, j :: 0 <= i < j < |ps| ==> ps[i] != ps[j]
  }

  // ---------------------------------------------------------------------
  // string ordering, as `sorted` uses it

  /** Python's `<` on strings: lexicographic by character code. */
  predicate StrLess(a: string, b: string)
  {
    |b| > 0 && (|a| == 0 || a[0] < b[0] || (a[0] == b[0] && StrLess(a[1..], b[1..])))
  }

  lemma {:induction false} StrLessIrreflexive(a: string)
    ensures !StrLess(a, a)
  {
    if |a| > 0 {
      StrLessIrreflexive(a[1..]);
    }
  }

  lemma {:induction false} StrLessAsymmetric(a: string, b: string)
    ensures !(StrLess(a, b) && StrLess(b, a))
  {
    if |a| > 0 && |b| > 0 && a[0] == b[0] {
      StrLessAsymmetric(a[1..], b[1..]);
    }
  }

  lemma {:induction false} StrLessTransitive(a: string, b: string, c: string)
    requires StrLess(a, b) && StrLess(b, c)
    ensures StrLess(a, c)
  {
    if |a| > 0 && a[0] == b[0] && b[0] == c[0] {
      StrLessTransitive(a[1..], b[1..], c[1..]);
    }
  }

  lemma {:induction false} StrLessTotal(a: string, b: string)
    requires a != b
    ensures StrLess(a, b) || StrLess(b, a)
  {
    if |a| > 0 && |b| > 0 && a[0] == b[0] {
      assert a == [a[0]] + a[1..] && b == [b[0]] + b[1..];
      StrLessTotal(a[1..], b[1..]);
    }
  }
}
