/**
  The clock of src/components/Timer.jsx: splitting `secondsRemaining` into minutes and
  seconds, the two-digit zero-padded `MM:SS` text, and the guard under which the
  component's own interval dispatches `tick`. The interval itself is not modelled.
 */
module Timer {
  import opened App
  import AppRuns

  /** `Math.floor(secondsRemaining / 60)`. */
  function Mins(secondsRemaining: int): (m: nat)
    requires secondsRemaining >= 0
    ensures m * 60 <= secondsRemaining < m * 60 + 60
  {
    secondsRemaining / 60
  }

  /** `secondsRemaining % 60`. */
  function Seconds(secondsRemaining: int): (r: nat)
    requires secondsRemaining >= 0
    ensures r < 60 && Mins(secondsRemaining) * 60 + r == secondsRemaining
  {
    secondsRemaining % 60
  }

  function DigitChar(d: nat): (c: char)
    requires d < 10
  {
    "0123456789"[d]
  }

  predicate IsDigit(c: char) {
    '0' <= c <= '9'
  }

  function DigitValue(c: char): (d: nat)
    requires IsDigit(c)
    ensures d < 10
  {
    (c as int - '0' as int)
  }

  /** The decimal text JavaScript renders for a non-negative integer: no leading zeros. */
  function Decimal(n: nat): (r: string)
    ensures 1 <= |r|
    ensures forall i :: 0 <= i < |r| ==> IsDigit(r[i])
    ensures r[0] == '0' <==> n == 0
    ensures n < 10 <==> |r| == 1
    ensures n < 100 ==> |r| <= 2
  {
    if n < 10 then [DigitChar(n)] else Decimal(n / 10) + [DigitChar(n % 10)]
  }

  /** Reads a string of decimal digits back as a number. */
  function ParseDecimal(s: string): nat
    requires forall i :: 0 <= i < |s| ==> IsDigit(s[i])
  {
    if |s| == 0 then 0 else ParseDecimal(s[..|s| - 1]) * 10 + DigitValue(s[|s| - 1])
  }

  /** Reading the rendered digits gives back the number. */
  lemma {:induction false} DecimalRoundTrip(n: nat)
    ensures ParseDecimal(Decimal(n)) == n
    decreases n
  {
    var r := Decimal(n);
    if n < 10 {
      assert r[..0] == [];
    } else {
      DecimalRoundTrip(n / 10);
      assert r[..|r| - 1] == Decimal(n / 10);
    }
  }

  /** A leading zero does not change the value read. */
  lemma {:induction false} LeadingZero(s: string)
    requires forall i :: 0 <= i < |s| ==> IsDigit(s[i])
    ensures ParseDecimal("0" + s) == ParseDecimal(s)
    decreases |s|
  {
    if |s| == 0 {
      assert ("0" + s)[..0] == [];
    } else {
      assert ("0" + s)[..|s|] == "0" + s[..|s| - 1];
      LeadingZero(s[..|s| - 1]);
    }
  }

  /** A number prefixed with "0" when below 10, as the component renders minutes and seconds. */
  function Padded(n: nat): (r: string)
    ensures 2 <= |r| && forall i :: 0 <= i < |r| ==> IsDigit(r[i])
    ensures r[0] == '0' <==> n < 10
    ensures n < 100 <==> |r| == 2
  {
    (if n < 10 then "0" else "") + Decimal(n)
  }

  /** The padding adds no value: reading a padded number gives it back. */
  lemma {:induction false} PaddedRoundTrip(n: nat)
    ensures ParseDecimal(Padded(n)) == n
  {
    DecimalRoundTrip(n);
    if n < 10 {
      LeadingZero(Decimal(n));
    } else {
      assert Padded(n) == Decimal(n);
    }
  }

  /** The text the component renders: minutes, a colon, seconds. */
  function Display(secondsRemaining: int): (r: string)
    requires secondsRemaining >= 0
    ensures 5 <= |r| && r[|r| - 3] == ':'
    ensures |r| == 5 <==> secondsRemaining < 6000
  {
    Padded(Mins(secondsRemaining)) + ":" + Padded(Seconds(secondsRemaining))
  }

  /** Reads `MM:SS` back as a number of seconds. */
  function ParseClock(s: string): int
    requires |s| == 5 && IsDigit(s[0]) && IsDigit(s[1]) && IsDigit(s[3]) && IsDigit(s[4])
  {
    (DigitValue(s[0]) * 10 + DigitValue(s[1])) * 60 + DigitValue(s[3]) * 10 + DigitValue(s[4])
  }

  /** For two-digit numbers, the padded text is the tens digit then the units digit. */
  lemma PaddedTwoDigits(n: nat)
    requires n < 100
    ensures |Padded(n)| == 2
    ensures IsDigit(Padded(n)[0]) && DigitValue(Padded(n)[0]) == n / 10
    ensures IsDigit(Padded(n)[1]) && DigitValue(Padded(n)[1]) == n % 10
  {
    PaddedRoundTrip(n);
    var r := Padded(n);
    assert r[..1][..0] == [] && r[..2] == r;
  }

  /** Below 100 minutes the clock is exactly five characters `MM:SS`, and it reads back as the time left. */
  lemma DisplayRoundTrip(secondsRemaining: int)
    requires 0 <= secondsRemaining < 6000
    ensures var d := Display(secondsRemaining);
      && |d| == 5 && d[2] == ':'
      && IsDigit(d[0]) && IsDigit(d[1]) && IsDigit(d[3]) && IsDigit(d[4])
      && ParseClock(d) == secondsRemaining
  {
    PaddedTwoDigits(Mins(secondsRemaining));
    PaddedTwoDigits(Seconds(secondsRemaining));
  }

  /** Two different times below 100 minutes never show the same clock. */
  lemma DisplayInjective(a: int, b: int)
    requires 0 <= a < 6000 && 0 <= b < 6000 && a != b
    ensures Display(a) != Display(b)
  {
    DisplayRoundTrip(a);
    DisplayRoundTrip(b);
  }

  /** Under a minute there are no whole minutes, and the seconds are the time left. */
  lemma UnderAMinute(secondsRemaining: int)
    requires 0 <= secondsRemaining < 60
    ensures Mins(secondsRemaining) == 0 && Seconds(secondsRemaining) == secondsRemaining
  {
  }

  /** The five hardcoded questions start the clock at "00:25". */
  lemma StartClockText()
    ensures Display(25) == "00:25"
  {
    assert Decimal(0) == "0" && Decimal(2) == "2" && Decimal(5) == "5";
    assert Decimal(25) == Decimal(2) + "5";
  }

  /** The clock reads "00:00" exactly when no time is left. */
  lemma DisplayZeroIff(secondsRemaining: int)
    ensures secondsRemaining >= 0 ==> (Display(secondsRemaining) == "00:00" <==> secondsRemaining == 0)
  {
    if secondsRemaining == 0 {
      assert Padded(0) == "00";
    } else if 0 < secondsRemaining < 6000 {
      DisplayRoundTrip(secondsRemaining);
      assert ParseClock("00:00") == 0;
    }
  }

  /**
    The component's interval dispatches `tick` only while time is left, that is, while the
    clock it shows is not "00:00".
   */
  predicate MayTick(secondsRemaining: int): (b: bool)
    ensures b <==> secondsRemaining >= 0 && Display(secondsRemaining) != "00:00"
  {
    DisplayZeroIff(secondsRemaining);
    secondsRemaining > 0
  }

  /**
    A tick the component's guard lets through, judged on the current state, never ends the
    quiz and leaves the clock non-negative.
   */
  lemma GuardedTickKeepsStatus(s: State)
    requires MayTick(s.secondsRemaining)
    ensures var t := Step(s, Action(TICK, 0));
      t.Ok? && t.value.status == s.status && t.value.secondsRemaining >= 0
  {
  }

  /** In every active state reached from the initial one the clock can be rendered, as `MM:SS` or longer. */
  lemma ReachedClockRenders(acts: seq<Action>)
    ensures var r := AppRuns.Run(InitialState, acts);
      r.Ok? && r.value.status == Active ==>
        r.value.secondsRemaining >= 0 && 5 <= |Display(r.value.secondsRemaining)|
  {
    AppRuns.ActiveClockNonNegative(acts);
  }
}
