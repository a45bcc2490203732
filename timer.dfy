/**
 * The exam countdown of `components/Timer.tsx`. The component keeps `secondsLeft`;
 * its second effect either reports expiry (count at or below zero, no interval
 * scheduled) or schedules a one-second interval that decrements the count. React
 * re-runs that effect whenever the count or the `onExpire` callback changes; here each
 * such re-run is an explicit call and reports whether `onExpire` was called.
 */
module Countdown {
  import opened Strings

  class Timer {
    var minutes: int
    var secondsLeft: int
    /** Whether an interval is currently scheduled. */
    var ticking: bool

    /** An interval runs only while there is time left. */
    ghost predicate Valid()
      reads this
    {
      ticking ==> secondsLeft > 0
    }

    /** First render: the count starts at `minutes * 60`; no effect has run yet. */
    constructor (minutes: int)
      ensures Valid()
      ensures this.minutes == minutes && secondsLeft == minutes * 60 && !ticking
    {
      this.minutes := minutes;
      secondsLeft := minutes * 60;
      ticking := false;
    }

    /**
     * The expiry effect (after its previous run's cleanup): at or below zero it calls
     * `onExpire` and schedules nothing; otherwise it schedules the interval.
     */
    method Effect() returns (expired: bool)
      modifies this
      ensures Valid()
      ensures minutes == old(minutes) && secondsLeft == old(secondsLeft)
      ensures expired <==> secondsLeft <= 0
      ensures ticking <==> secondsLeft > 0
    {
      expired := secondsLeft <= 0;
      ticking := !expired;
    }

    /**
     * One firing of the interval: the count goes down by exactly one and, since it
     * changed, the effect runs again. With no interval scheduled nothing fires.
     */
    method Tick() returns (expired: bool)
      requires Valid()
      modifies this
      ensures Valid()
      ensures minutes == old(minutes)
      ensures old(ticking) ==> secondsLeft == old(secondsLeft) - 1 && (expired <==> secondsLeft <= 0)
      ensures old(ticking) ==> (ticking <==> secondsLeft > 0)
      ensures !old(ticking) ==> secondsLeft == old(secondsLeft) && !ticking && !expired
    {
      if ticking {
        secondsLeft := secondsLeft - 1;
        expired := Effect();
      } else {
        expired := false;
      }
    }

    /**
     * A new `minutes` prop: the first effect resets the count to `minutes * 60`, and
     * the expiry effect re-runs only if that changed the count (React skips a state
     * update to an equal value).
     */
    method SetMinutes(m: int) returns (expired: bool)
      requires Valid()
      modifies this
      ensures Valid()
      ensures minutes == m
      ensures m != old(minutes) ==> secondsLeft == m * 60
      ensures m == old(minutes) ==> secondsLeft == old(secondsLeft) && ticking == old(ticking) && !expired
      ensures expired ==> secondsLeft <= 0
      ensures m != old(minutes) && m * 60 != old(secondsLeft) ==>
        (expired <==> secondsLeft <= 0) && (ticking <==> secondsLeft > 0)
      ensures m * 60 == old(secondsLeft) ==> ticking == old(ticking) && !expired
    {
      expired := false;
      if m != minutes {
        minutes := m;
        if m * 60 != secondsLeft {
          secondsLeft := m * 60;
          expired := Effect();
        }
      }
    }
  }

  /** `Math.floor(n / 60)`; Dafny's division by a positive number already rounds down. */
  function FloorMinutes(n: int): (m: int)
    ensures m * 60 <= n < m * 60 + 60
  {
    n / 60
  }

  /** JavaScript's `n % 60`, whose result takes the sign of `n`. */
  function JsRem60(n: int): (r: int)
    ensures n >= 0 ==> 0 <= r < 60 && (n - r) % 60 == 0
    ensures n < 0 ==> -60 < r <= 0 && (n - r) % 60 == 0
  {
    if n >= 0 then n % 60 else -((-n) % 60)
  }

  /** The `mm:ss` text: each part is `String(...)` padded with zeros to two characters. */
  function Clock(secondsLeft: int): string
  {
    PadStart(IntToString(FloorMinutes(secondsLeft)), 2, '0') + ":"
      + PadStart(IntToString(JsRem60(secondsLeft)), 2, '0')
  }

  /**
   * With time left, the clock shows a numeral for the whole minutes (at least two
   * digits), a colon, and exactly two digits for the remaining seconds, and reading
   * them back gives `mins` and `secs` with `mins * 60 + secs == secondsLeft`.
   */
  lemma ClockReadsBack(secondsLeft: int)
    requires secondsLeft >= 0
    ensures ReadsBack(Clock(secondsLeft), FloorMinutes(secondsLeft), JsRem60(secondsLeft))
    ensures FloorMinutes(secondsLeft) * 60 + JsRem60(secondsLeft) == secondsLeft
    ensures 0 <= JsRem60(secondsLeft) < 60
  {
    var mins := FloorMinutes(secondsLeft);
    var secs := JsRem60(secondsLeft);
    assert IntToString(mins) == NatToString(mins);
    assert IntToString(secs) == NatToString(secs);
    PaddedValue(mins);
    PaddedValue(secs);
    ColonSplit(PadStart(NatToString(mins), 2, '0'), PadStart(NatToString(secs), 2, '0'), mins, secs);
  }

  /**
   * `t` is a numeral of at least two digits worth `mins`, a colon, and a numeral of
   * exactly two digits worth `secs`.
   */
  ghost predicate ReadsBack(t: string, mins: int, secs: int)
  {
    var k := |t| - 3;
    && k >= 2 && t[k] == ':'
    && AllDigits(t[..k]) && DigitsValue(t[..k]) == mins
    && AllDigits(t[k + 1..]) && DigitsValue(t[k + 1..]) == secs
  }

  lemma ColonSplit(mm: string, ss: string, mins: int, secs: int)
    requires |mm| >= 2 && AllDigits(mm) && DigitsValue(mm) == mins
    requires |ss| == 2 && AllDigits(ss) && DigitsValue(ss) == secs
    ensures ReadsBack(mm + ":" + ss, mins, secs)
  {
    var t := mm + ":" + ss;
    assert t[..|mm|] == mm;
    assert t[|mm| + 1..] == ss;
  }

  /** A number below 100 has at most two digits. */
  lemma SmallNumeral(n: nat)
    requires n < 100
    ensures |NatToString(n)| <= 2
  {
    if n >= 10 {
      assert NatToString(n) == NatToString(n / 10) + [DigitChar(n % 10)];
    }
  }

  /** Zero-padding a numeral keeps its value. */
  lemma PaddedValue(n: nat)
    ensures n < 100 ==> |PadStart(NatToString(n), 2, '0')| == 2
    ensures AllDigits(PadStart(NatToString(n), 2, '0'))
    ensures DigitsValue(PadStart(NatToString(n), 2, '0')) == n
    ensures |PadStart(NatToString(n), 2, '0')| >= 2
  {
    var s := NatToString(n);
    var p := PadStart(s, 2, '0');
    if n < 100 {
      SmallNumeral(n);
    }
    NatToStringValue(n);
    var z := p[..|p| - |s|];
    assert p == z + s;
    LeadingZerosValue(z, s);
  }

  /** The background of the timer badge. */
  datatype Tone = Neutral | Amber | Red

  /** Red in the last minute, amber in the last five, neutral before. */
  function ToneOf(secondsLeft: int): (t: Tone)
    ensures t == Red <==> secondsLeft <= 60
    ensures t == Amber <==> 60 < secondsLeft <= 5 * 60
    ensures t == Neutral <==> secondsLeft > 5 * 60
  {
    if secondsLeft <= 60 then Red
    else if secondsLeft <= 5 * 60 then Amber
    else Neutral
  }

  /** The tone never gets calmer as the count goes down. */
  lemma ToneMonotone(later: int, earlier: int)
    requires later <= earlier
    ensures ToneOf(earlier) == Red ==> ToneOf(later) == Red
    ensures ToneOf(earlier) == Amber ==> ToneOf(later) != Neutral
  {
  }
}
