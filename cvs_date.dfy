/** The `CVSDate` class of git_remote_cvs/cvs.py: a timestamp as seconds
    since the epoch in UTC (`ts`) and a timezone as minutes east of UTC
    (`tz`). Calendar conversion (`strptime`/`timegm`, `strftime`/`gmtime`)
    and the clock behind `"now"` are parameters of the model. */
module CvsDates {
  import opened Wrappers
  import opened PyStr

  datatype CvsDate = CvsDate(ts: int, tz: int) {

    /** `tz_str()`: the sign, then `%02d` of the hours and of the minutes
        of the offset's magnitude. */
    function TzStr(): (r: string)
      ensures |r| >= 5 && (r[0] == '-' <==> tz < 0) && AllDigits(r[1..])
    {
      var sign := if tz < 0 then '-' else '+';
      var mag := if tz < 0 then -tz else tz;
      [sign] + Pad2(mag / 60) + Pad2(mag % 60)
    }

    /** `__nonzero__()`: true unless both fields are zero. */
    predicate NonZero()
    {
      ts != 0 || tz != 0
    }

    /** `diff(other)`: the difference of the UTC timestamps in seconds. */
    function Diff(other: CvsDate): (r: int)
      ensures other.ts + r == ts
    {
      ts - other.ts
    }

    /** The local wall-clock reading, in seconds, that the date stands
        for: the UTC timestamp moved by the offset. */
    function LocalClock(): int
    {
      ts + tz * 60
    }

    /** The constructor's `ts -= tz * 60` when the reading was local: this
        date's timestamp read as a local clock, moved to UTC. */
    function FromLocal(): (r: CvsDate)
      ensures r.LocalClock() == ts && r.tz == tz
    {
      CvsDate(ts - tz * 60, tz)
    }
  }

  /** `__cmp__(other)`: by timestamp first, then by offset; the sign of the
      result as -1, 0 or 1. */
  function Compare(a: CvsDate, b: CvsDate): (r: int)
    ensures -1 <= r <= 1
    ensures r == 0 <==> a == b
    ensures r < 0 <==> a.ts < b.ts || (a.ts == b.ts && a.tz < b.tz)
  {
    if a.ts < b.ts then -1
    else if a.ts > b.ts then 1
    else if a.tz < b.tz then -1
    else if a.tz > b.tz then 1
    else 0
  }

  /** `"%02d" % n`: at least two digits, zero-padded. */
  function Pad2(n: nat): (s: string)
    ensures |s| >= 2 && AllDigits(s)
    ensures n < 100 ==> |s| == 2
  {
    if n < 10 then "0" + Decimal(n)
    else
      assert n < 100 ==> |Decimal(n / 10)| == 1;
      Decimal(n)
  }

  // -----------------------------------------------------------------------
  // parsing

  /** The two layouts `strptime` is asked for: `%Y-%m-%d %H:%M:%S` (the
      zone follows) and `%Y/%m/%d %H:%M:%S` (UTC). */
  datatype Layout = DashedLocal | SlashedUtc

  /** `timegm(time.strptime(text, layout))`: the clock reading as seconds,
      or `None` where `strptime` raises. */
  type Calendar = (string, Layout) -> Option<int>

  /** Why the constructor raises: `strptime` rejects the clock text, `int()`
      rejects a part of the offset, or the string has neither one nor two
      spaces (the assertion). */
  datatype DateError = BadClock | BadOffset | BadSpaces(count: nat)

  /** The offset `SZZZZ` in minutes: `int(z[1:3]) * 60 + int(z[3:5])`,
      negated when `z[0]` is `-`. */
  function ParseTz(z: string): (r: Result<int, DateError>)
    ensures r.Success? <==> |z| >= 4 && AllDigits(z[1..3]) && AllDigits(Slice(z, 3, 5))
  {
    match (ParseDecimal(Slice(z, 1, 3)), ParseDecimal(Slice(z, 3, 5)))
    case (Some(h), Some(m)) =>
      var tz: int := h * 60 + m;
      Success(if z[0] == '-' then -tz else tz)
    case _ => Failure(BadOffset)
  }

  /** `CVSDate(date_str, in_utc)`: `None` is the epoch with no offset;
      `"now"` is the clock `now` with no offset (and no adjustment); any
      other string is stripped, and with two spaces it is a clock reading
      and an offset, with one a clock reading in UTC. Unless `inUtc`, the
      reading is local time and the offset is taken off it. */
  function Parse(dateStr: Option<string>, inUtc: bool, now: int, calendar: Calendar): (r: Result<CvsDate, DateError>)
    ensures r.Failure? ==> dateStr.Some? && ReadClock(Strip(dateStr.value), calendar) == Failure(r.error)
  {
    match dateStr
    case None => Success(CvsDate(0, 0))
    case Some(text) =>
      if text == "now" then Success(CvsDate(now, 0))
      else
        match ReadClock(Strip(text), calendar)
        case Failure(e) => Failure(e)
        case Success(d) => Success(if inUtc then d else d.FromLocal())
  }

  /** The stripped string `s` read as it stands: two spaces are a clock
      reading and an offset, one space a clock reading in UTC, any other
      count fails the assertion. */
  function ReadClock(s: string, calendar: Calendar): (r: Result<CvsDate, DateError>)
    ensures r.Success? ==> Count(s, ' ') == 1 || Count(s, ' ') == 2
    ensures r.Success? && Count(s, ' ') == 1 ==> r.value.tz == 0
    ensures Count(s, ' ') != 1 && Count(s, ' ') != 2 ==> r == Failure(BadSpaces(Count(s, ' ')))
  {
    var spaces := Count(s, ' ');
    if spaces == 2 then
      var (t, z) := RSplitOnce(s, ' ').value;
      ReadZoned(t, z, calendar)
    else if spaces == 1 then
      match calendar(s, SlashedUtc)
      case None => Failure(BadClock)
      case Some(clock) => Success(CvsDate(clock, 0))
    else Failure(BadSpaces(spaces))
  }

  /** The clock part `t` read in the dashed layout, and the offset `z`. */
  function ReadZoned(t: string, z: string, calendar: Calendar): (r: Result<CvsDate, DateError>)
    ensures r.Success? <==> calendar(t, DashedLocal).Some? && ParseTz(z).Success?
    ensures r.Success? ==> r.value.ts == calendar(t, DashedLocal).value && ParseTz(z) == Success(r.value.tz)
  {
    match calendar(t, DashedLocal)
    case None => Failure(BadClock)
    case Some(clock) =>
      match ParseTz(z)
      case Failure(e) => Failure(e)
      case Success(tz) => Success(CvsDate(clock, tz))
  }

  /** `__str__()`: the UTC clock of `ts` as `%Y-%m-%d %H:%M:%S`
      (`format`), a space and the offset. */
  function Str(d: CvsDate, format: int -> string): (r: string)
    ensures EndsWith(r, d.TzStr())
  {
    format(d.ts) + " " + d.TzStr()
  }

  // -----------------------------------------------------------------------
  // properties

  /** `%02d` of a number below 100 reads back as that number. */
  lemma Pad2RoundTrip(n: nat)
    requires n < 100
    ensures ParseDecimal(Pad2(n)) == Some(n)
  {
    DecimalRoundTrip(n);
    if n < 10 {
      var s := Pad2(n);
      assert s[..1] == "0";
      assert DigitsValue(s[..1]) == 0;
    }
  }

  /** Two decimal digits are the `%02d` of their value. */
  lemma Pad2OfDigits(s: string)
    requires |s| == 2 && AllDigits(s)
    ensures DigitsValue(s) < 100 && Pad2(DigitsValue(s)) == s
  {
    var hi, lo := s[0] as int - '0' as int, s[1] as int - '0' as int;
    assert s[..1][..0] == [];
    assert DigitsValue(s[..1]) == hi;
    var v := DigitsValue(s);
    assert v == hi * 10 + lo;
    if hi != 0 {
      assert v / 10 == hi && v % 10 == lo;
      assert Decimal(v) == Decimal(hi) + [DigitChar(lo)];
    }
  }

  /** `tz_str()` is five characters for an offset under 100 hours, and its
      sign is `-` exactly for a negative offset. */
  lemma TzStrShape(d: CvsDate)
    requires -6000 < d.tz < 6000
    ensures |d.TzStr()| == 5
    ensures d.TzStr()[0] == '-' <==> d.tz < 0
    ensures d.TzStr()[0] == '+' <==> d.tz >= 0
    ensures AllDigits(d.TzStr()[1..])
  {
    var mag := if d.tz < 0 then -d.tz else d.tz;
    assert d.TzStr()[1..] == Pad2(mag / 60) + Pad2(mag % 60);
  }

  /** The offset text `tz_str()` writes parses back to the offset. */
  lemma TzRoundTrip(d: CvsDate)
    requires -6000 < d.tz < 6000
    ensures ParseTz(d.TzStr()) == Success(d.tz)
  {
    var z := d.TzStr();
    var mag := if d.tz < 0 then -d.tz else d.tz;
    var h, m := Pad2(mag / 60), Pad2(mag % 60);
    assert z == [z[0]] + h + m;
    assert Slice(z, 1, 3) == h;
    assert Slice(z, 3, 5) == m;
    Pad2RoundTrip(mag / 60);
    Pad2RoundTrip(mag % 60);
  }

  /** An offset text of a sign and four digits with minutes under 60 is
      what `tz_str()` writes for the offset it parses to; `-0000` is the
      one exception, written back as `+0000`. */
  lemma TzTextRoundTrip(z: string)
    requires |z| == 5 && (z[0] == '+' || z[0] == '-') && AllDigits(z[1..])
    requires z != "-0000"
    requires DigitsValue(z[3..5]) < 60
    ensures ParseTz(z).Success? && CvsDate(0, ParseTz(z).value).TzStr() == z
  {
    var hs, ms := z[1..3], z[3..5];
    assert Slice(z, 1, 3) == hs && Slice(z, 3, 5) == ms;
    Pad2OfDigits(hs);
    Pad2OfDigits(ms);
    var h, m := DigitsValue(hs), DigitsValue(ms);
    var mag := h * 60 + m;
    assert mag / 60 == h && mag % 60 == m;
    assert z == [z[0]] + hs + ms;
    if mag == 0 {
      assert hs == Pad2(0) && ms == Pad2(0);
      assert Pad2(0) == "00";
    }
  }

  /** `-0000` parses to no offset, which `tz_str()` writes as `+0000`. */
  lemma NegativeZeroOffset()
    ensures ParseTz("-0000") == Success(0)
    ensures CvsDate(0, 0).TzStr() == "+0000"
  {
    assert Slice("-0000", 1, 3) == "00" && Slice("-0000", 3, 5) == "00";
    assert DigitsValue("00"[..1]) == 0;
    assert Decimal(0) == "0";
  }

  /** A sign and four digits is read as hours and minutes: the offset is
      the hours times 60 plus the minutes, negated after a `-`. */
  lemma ParseTzValue(z: string)
    requires |z| == 5 && (z[0] == '+' || z[0] == '-') && AllDigits(z[1..])
    ensures var v := DigitsValue(z[1..3]) * 60 + DigitsValue(z[3..5]);
      ParseTz(z) == Success(if z[0] == '-' then -v else v)
  {
    assert Slice(z, 1, 3) == z[1..3] == z[1..][..2];
    assert Slice(z, 3, 5) == z[3..5] == z[1..][2..];
  }

  /** `z[3:5]` of a four-character offset is one digit, so `+021` is
      accepted and reads as 2 hours and 1 minute. */
  lemma ShortOffset()
    ensures ParseTz("+021") == Success(121)
  {
    assert Slice("+021", 1, 3) == "02" && Slice("+021", 3, 5) == "1";
    assert DigitsValue("02"[..1]) == 0 && DigitsValue("1"[..0]) == 0;
  }

  /** A clock part with one space, a space and a space-free offset is
      read as the two. */
  lemma ReadTwoParts(t: string, z: string, calendar: Calendar)
    requires Count(t, ' ') == 1 && ' ' !in z
    ensures ReadClock(t + " " + z, calendar) == ReadZoned(t, z, calendar)
  {
    var s := t + [' '] + z;
    assert Count(s, ' ') == 2 by {
      CountConcat(t + [' '], z, ' ');
      CountConcat(t, [' '], ' ');
      assert Count([' '], ' ') == 1 by { assert [' '][1..] == []; }
    }
    assert RSplitOnce(s, ' ') == Some((t, z)) by { RSplitOnceAt(t, ' ', z); }
  }

  /** A string with a clock part and an offset parses exactly when the
      calendar reads the clock part and the offset is digits; the date then
      reads the clock as local time (its local clock is the calendar's
      reading) unless `inUtc`, when the reading is the timestamp itself. */
  lemma ParseReadsLocalClock(text: string, inUtc: bool, now: int, calendar: Calendar, t: string, z: string)
    requires text != "now" && Strip(text) == t + " " + z
    requires Count(t, ' ') == 1 && ' ' !in z
    ensures Parse(Some(text), inUtc, now, calendar).Success? <==> calendar(t, DashedLocal).Some? && ParseTz(z).Success?
    ensures Parse(Some(text), inUtc, now, calendar).Success? ==>
      var d := Parse(Some(text), inUtc, now, calendar).value;
      ParseTz(z) == Success(d.tz) &&
      (if inUtc then d.ts else d.LocalClock()) == calendar(t, DashedLocal).value
  {
    ReadTwoParts(t, z, calendar);
  }

  /** A string with one space is a clock reading in UTC with no offset. */
  lemma ParseUtcClock(text: string, inUtc: bool, now: int, calendar: Calendar)
    requires text != "now" && Count(Strip(text), ' ') == 1
    ensures Parse(Some(text), inUtc, now, calendar)
         == match calendar(Strip(text), SlashedUtc)
            case None => Failure(BadClock)
            case Some(clock) => Success(CvsDate(clock, 0))
  {
  }

  /** Neither one nor two spaces is the constructor's assertion failing. */
  lemma ParseRejectsSpaces(text: string, inUtc: bool, now: int, calendar: Calendar)
    requires text != "now" && Count(Strip(text), ' ') != 1 && Count(Strip(text), ' ') != 2
    ensures Parse(Some(text), inUtc, now, calendar) == Failure(BadSpaces(Count(Strip(text), ' ')))
  {
  }

  /** `str(d)` is its clock part, a space and a space-free offset, with
      nothing for `strip()` to remove, for a `format` whose output does
      not start with whitespace. */
  lemma StrShape(d: CvsDate, format: int -> string)
    requires -6000 < d.tz < 6000
    requires |format(d.ts)| > 0 && !IsSpace(format(d.ts)[0])
    ensures ' ' !in d.TzStr()
    ensures Strip(Str(d, format)) == Str(d, format) && Str(d, format) != "now"
  {
    var t, z := format(d.ts), d.TzStr();
    var s := Str(d, format);
    TzStrShape(d);
    assert ' ' !in z by {
      assert forall i :: 1 <= i < |z| ==> z[i] == z[1..][i - 1];
    }
    assert s == t + [' '] + z;
    assert s[|s| - 1] == z[4] == z[1..][3];
    assert |s| > 3;
    StripUnpadded(s);
  }

  /** Re-reading `str(d)` gives back `d` in UTC; read as local time it
      comes back moved by the offset once more, since `str()` prints the
      UTC clock next to the local offset. This holds for a `format` whose
      output the calendar reads back and that holds exactly one space and
      does not start with whitespace (as `%Y-%m-%d %H:%M:%S` does). */
  lemma StrParsesBack(d: CvsDate, format: int -> string, calendar: Calendar, now: int, inUtc: bool)
    requires -6000 < d.tz < 6000
    requires calendar(format(d.ts), DashedLocal) == Some(d.ts)
    requires Count(format(d.ts), ' ') == 1 && !IsSpace(format(d.ts)[0])
    ensures Parse(Some(Str(d, format)), inUtc, now, calendar)
         == Success(if inUtc then d else d.FromLocal())
  {
    var t, z, s := format(d.ts), d.TzStr(), Str(d, format);
    StrShape(d, format);
    ReadTwoParts(t, z, calendar);
    ReadZonedOwnOffset(d, t, calendar);
    ParseAdjusts(s, inUtc, now, calendar, d);
  }

  /** A string other than `"now"` whose stripped text reads as `d` parses
      to `d` in UTC and to `d` moved back by its offset otherwise. */
  lemma ParseAdjusts(text: string, inUtc: bool, now: int, calendar: Calendar, d: CvsDate)
    requires text != "now" && ReadClock(Strip(text), calendar) == Success(d)
    ensures Parse(Some(text), inUtc, now, calendar)
         == Success(if inUtc then d else d.FromLocal())
  {
  }

  /** A clock part the calendar reads as `d.ts`, next to `d`'s own offset
      text, reads as `d`. */
  lemma ReadZonedOwnOffset(d: CvsDate, t: string, calendar: Calendar)
    requires -6000 < d.tz < 6000
    requires calendar(t, DashedLocal) == Some(d.ts)
    ensures ReadZoned(t, d.TzStr(), calendar) == Success(d)
  {
    TzRoundTrip(d);
  }

  /** `diff` is the signed distance on the UTC time line: it changes sign
      with its arguments, adds up along a chain, and is zero exactly for
      the same instant, whatever the offsets. */
  lemma DiffProperties(a: CvsDate, b: CvsDate, c: CvsDate)
    ensures a.Diff(b) == -b.Diff(a)
    ensures a.Diff(b) + b.Diff(c) == a.Diff(c)
    ensures a.Diff(b) == 0 <==> a.ts == b.ts
    ensures Compare(a, b) < 0 ==> a.Diff(b) <= 0
  {
  }

  /** `__nonzero__` of a parsed string: the date is true exactly when the
      clock reading or the offset read from the string is non-zero, whether
      or not the reading is then moved by the offset. (The date of `None`
      is the false one, `CvsDate(0, 0)`.) */
  lemma ParsedNonZero(text: string, inUtc: bool, now: int, calendar: Calendar, read: CvsDate)
    requires text != "now" && ReadClock(Strip(text), calendar) == Success(read)
    ensures Parse(Some(text), inUtc, now, calendar).Success?
    ensures Parse(Some(text), inUtc, now, calendar).value.NonZero() <==> read.ts != 0 || read.tz != 0
  {
    ParseAdjusts(text, inUtc, now, calendar, read);
    if read.tz == 0 {
      assert read.FromLocal() == read;
    }
  }

  /** The situation of the self-test's `c` against `a`: two dates with the
      same offset text whose clock parts the calendar reads `k` seconds
      apart are `k` seconds apart in both directions, and differ exactly
      when `k` is not zero. */
  lemma SameOffsetDiff(later: string, t1: string, earlier: string, t2: string, z: string,
                       inUtc: bool, now: int, calendar: Calendar, base: int, k: int)
    requires later != "now" && Strip(later) == t1 + " " + z && Count(t1, ' ') == 1
    requires earlier != "now" && Strip(earlier) == t2 + " " + z && Count(t2, ' ') == 1
    requires ' ' !in z && ParseTz(z).Success?
    requires calendar(t1, DashedLocal) == Some(base + k) && calendar(t2, DashedLocal) == Some(base)
    ensures Parse(Some(later), inUtc, now, calendar).Success?
    ensures Parse(Some(earlier), inUtc, now, calendar).Success?
    ensures var c := Parse(Some(later), inUtc, now, calendar).value;
      var a := Parse(Some(earlier), inUtc, now, calendar).value;
      c.Diff(a) == k && a.Diff(c) == -k && (c == a <==> k == 0)
  {
    ParseReadsLocalClock(later, inUtc, now, calendar, t1, z);
    ParseReadsLocalClock(earlier, inUtc, now, calendar, t2, z);
  }

  /** The offset `+0200` is 120 minutes. */
  lemma PlusTwoHours()
    ensures ParseTz("+0200") == Success(120)
  {
    assert Slice("+0200", 1, 3) == "02" && Slice("+0200", 3, 5) == "00";
    assert DigitsValue("02"[..1]) == 0 && DigitsValue("00"[..1]) == 0;
  }

  /** The situation of the self-test (`2009-05-10 14:34:56 +0200` against
      `2009/05/10 12:34:56`): a local clock reading with an offset and a UTC
      reading that many minutes earlier are the same instant (no `diff`),
      and equal dates exactly when the offset is zero. */
  lemma ZonedMatchesUtc(zoned: string, t: string, z: string, utc: string, calendar: Calendar, base: int, now: int)
    requires zoned != "now" && Strip(zoned) == t + " " + z
    requires Count(t, ' ') == 1 && ' ' !in z && ParseTz(z).Success?
    requires calendar(t, DashedLocal) == Some(base + ParseTz(z).value * 60)
    requires utc != "now" && Count(Strip(utc), ' ') == 1
    requires calendar(Strip(utc), SlashedUtc) == Some(base)
    ensures Parse(Some(zoned), false, now, calendar).Success?
    ensures Parse(Some(utc), false, now, calendar).Success?
    ensures var a := Parse(Some(zoned), false, now, calendar).value;
      var b := Parse(Some(utc), false, now, calendar).value;
      a.Diff(b) == 0 && (a == b <==> ParseTz(z).value == 0)
  {
    ParseReadsLocalClock(zoned, false, now, calendar, t, z);
    ParseUtcClock(utc, false, now, calendar);
  }
}
