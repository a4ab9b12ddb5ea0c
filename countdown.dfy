/**
 * The countdown (src/components/Countdown.jsx): the millisecond difference to the target is
 * split into days, hours, minutes and seconds, clamped to zero once the target has passed,
 * and `hasReachedTarget` (owned by the page) is raised when it does.
 *
 * Clock readings and the target are integer milliseconds; the `Date` arithmetic that builds
 * the target from the configured calendar fields is not part of this model.
 */
module Countdown {
  import App

  const MsPerSecond: nat := 1000
  const MsPerMinute: nat := 60 * MsPerSecond
  const MsPerHour: nat := 60 * MsPerMinute
  const MsPerDay: nat := 24 * MsPerHour

  datatype TimeLeft = TimeLeft(days: nat, hours: nat, minutes: nat, seconds: nat)

  const Zero := TimeLeft(0, 0, 0, 0)

  /** Each unit below a day stays below its own radix. */
  predicate WellFormed(t: TimeLeft)
  {
    t.hours < 24 && t.minutes < 60 && t.seconds < 60
  }

  /** The whole seconds a time left stands for. */
  function TotalSeconds(t: TimeLeft): nat
  {
    t.days * 86400 + t.hours * 3600 + t.minutes * 60 + t.seconds
  }

  /**
   * `calculateTimeLeft` on a difference of `difference` milliseconds: zeros when it is not
   * positive, otherwise the floor divisions and remainders of the source.
   */
  function Decompose(difference: int): (t: TimeLeft)
    ensures WellFormed(t)
    ensures difference <= 0 ==> t == Zero
    ensures difference < MsPerSecond ==> t == Zero
  {
    if difference <= 0 then Zero
    else TimeLeft(difference / MsPerDay,
                  (difference % MsPerDay) / MsPerHour,
                  (difference % MsPerHour) / MsPerMinute,
                  (difference % MsPerMinute) / MsPerSecond)
  }

  /** Quotient and remainder are determined by any split `x == n * q + r` with `0 <= r < n`. */
  lemma DivModUnique(x: int, n: int, q: int, r: int)
    requires n > 0 && 0 <= r < n && x == n * q + r
    ensures x / n == q && x % n == r
  {
    var k := q - x / n;
    assert n * k == x % n - r;
  }

  /** Each component of the decomposition is that unit of the whole seconds left. */
  lemma DecomposeInSeconds(difference: int)
    requires difference > 0
    ensures var s := difference / MsPerSecond;
      Decompose(difference) == TimeLeft(s / 86400, (s % 86400) / 3600, (s % 3600) / 60, s % 60)
  {
    var s, r := difference / 1000, difference % 1000;
    var d, sd := s / 86400, s % 86400;
    DivModUnique(difference, 86400000, d, 1000 * sd + r);
    DivModUnique(1000 * sd + r, 3600000, sd / 3600, 1000 * (sd % 3600) + r);
    var h, sh := s / 3600, s % 3600;
    DivModUnique(difference, 3600000, h, 1000 * sh + r);
    DivModUnique(1000 * sh + r, 60000, sh / 60, 1000 * (sh % 60) + r);
    var m, sm := s / 60, s % 60;
    DivModUnique(difference, 60000, m, 1000 * sm + r);
    DivModUnique(1000 * sm + r, 1000, sm, r);
  }

  /** Reconstruction: the four components add back up to the whole seconds left. */
  lemma DecomposeReconstructs(difference: int)
    requires difference > 0
    ensures TotalSeconds(Decompose(difference)) == difference / MsPerSecond
  {
    DecomposeInSeconds(difference);
    var s := difference / 1000;
    var days, belowDay := s / 86400, s % 86400;
    var hours, belowHour := belowDay / 3600, belowDay % 3600;
    DivModUnique(s, 3600, 24 * days + hours, belowHour);
    var minutes, seconds := belowHour / 60, belowHour % 60;
    DivModUnique(s, 60, 1440 * days + 60 * hours + minutes, seconds);
    assert Decompose(difference) == TimeLeft(days, hours, minutes, seconds);
  }

  /** The units of a well-formed time left are recovered from its whole seconds. */
  lemma UnitsOfTotalSeconds(t: TimeLeft)
    requires WellFormed(t)
    ensures var s := TotalSeconds(t);
      s / 86400 == t.days && (s % 86400) / 3600 == t.hours && (s % 3600) / 60 == t.minutes && s % 60 == t.seconds
  {
    var s := TotalSeconds(t);
    var ms := 60 * t.minutes + t.seconds;
    DivModUnique(s, 86400, t.days, 3600 * t.hours + ms);
    DivModUnique(3600 * t.hours + ms, 3600, t.hours, ms);
    DivModUnique(s, 3600, 24 * t.days + t.hours, ms);
    DivModUnique(ms, 60, t.minutes, t.seconds);
    DivModUnique(s, 60, 1440 * t.days + 60 * t.hours + t.minutes, t.seconds);
  }

  /** Decomposition inverts `TotalSeconds`: any well-formed time left, plus under a second, comes back. */
  lemma DecomposeInverts(t: TimeLeft, ms: nat)
    requires WellFormed(t) && ms < MsPerSecond
    ensures Decompose(TotalSeconds(t) * MsPerSecond + ms) == t
  {
    var s := TotalSeconds(t);
    var difference := s * 1000 + ms;
    if difference > 0 {
      DivModUnique(difference, 1000, s, ms);
      DecomposeInSeconds(difference);
      UnitsOfTotalSeconds(t);
    }
  }

  /** The decimal digits of `n`, as `String(n)` writes them. */
  function DecimalString(n: nat): (s: string)
    ensures |s| >= 1
    ensures forall i :: 0 <= i < |s| ==> '0' <= s[i] <= '9'
    ensures (n < 10) == (|s| == 1)
    ensures n < 100 ==> |s| <= 2
    ensures n > 0 ==> s[0] != '0'
  {
    if n < 10 then [DigitChar(n)] else DecimalString(n / 10) + [DigitChar(n % 10)]
  }

  function DigitChar(d: nat): (c: char)
    requires d < 10
    ensures '0' <= c <= '9' && c as int - '0' as int == d
  {
    (d + '0' as int) as char
  }

  /** Reads a string of decimal digits back as a number (leading zeros allowed). */
  function ParseDecimal(s: string): nat
    requires forall i :: 0 <= i < |s| ==> '0' <= s[i] <= '9'
  {
    if s == [] then 0 else ParseDecimal(s[..|s| - 1]) * 10 + (s[|s| - 1] as int - '0' as int)
  }

  lemma {:induction false} ParseDecimalString(n: nat)
    ensures ParseDecimal(DecimalString(n)) == n
  {
    if n >= 10 {
      ParseDecimalString(n / 10);
      var s := DecimalString(n);
      assert s[..|s| - 1] == DecimalString(n / 10);
    }
  }

  /** `s.padStart(2, '0')`. */
  function PadStart2(s: string): string
  {
    if |s| >= 2 then s else seq(2 - |s|, _ => '0') + s
  }

  /**
   * `NumberDisplay`'s text: a value below ten gets one leading '0'; a longer value is shown
   * whole, never truncated.
   */
  function NumberDisplay(value: nat): (text: string)
    ensures value < 10 ==> text == ['0', DigitChar(value)]
    ensures value >= 10 ==> text == DecimalString(value)
    ensures |text| >= 2 && forall i :: 0 <= i < |text| ==> '0' <= text[i] <= '9'
    ensures 10 <= value < 100 ==> |text| == 2
  {
    PadStart2(DecimalString(value))
  }

  /** The padded text reads back as the value it displays. */
  lemma NumberDisplayReadsBack(value: nat)
    ensures ParseDecimal(NumberDisplay(value)) == value
  {
    var text := NumberDisplay(value);
    if value < 10 {
      assert text[..1] == ['0'];
      assert ParseDecimal(['0']) == 0 by {
        assert ['0'][..0] == [];
      }
    } else {
      ParseDecimalString(value);
    }
  }

  /**
   * The mounted countdown. `ticking` says whether the one-second interval is installed;
   * the effect installs it only while the target has not been reached.
   */
  class Countdown {
    const host: App.App
    const target: int
    var timeLeft: TimeLeft
    var ticking: bool

    ghost predicate Valid()
      reads this, host
    {
      WellFormed(timeLeft) && (ticking <==> !host.hasReachedTarget)
    }

    /** Mounting at time `now`: the effect computes once, then installs the interval unless reached. */
    constructor (host: App.App, target: int, now: int)
      modifies host`hasReachedTarget
      ensures Valid() && this.host == host && this.target == target
      ensures timeLeft == Decompose(target - now)
      ensures host.hasReachedTarget == (old(host.hasReachedTarget) || target - now <= 0)
    {
      this.host, this.target := host, target;
      timeLeft := Decompose(target - now);
      if target - now <= 0 {
        host.hasReachedTarget := true;
      }
      ticking := !host.hasReachedTarget;
    }

    /**
     * One firing of the interval at time `now`. Once the target is reached no interval is
     * installed, so nothing happens; the flag is only ever raised.
     */
    method Tick(now: int)
      requires Valid()
      modifies this`timeLeft, this`ticking, host`hasReachedTarget
      ensures Valid()
      ensures old(host.hasReachedTarget) ==> host.hasReachedTarget && timeLeft == old(timeLeft) && !ticking
      ensures !old(host.hasReachedTarget) ==>
        (timeLeft == Decompose(target - now) && host.hasReachedTarget == (target - now <= 0))
    {
      if ticking {
        timeLeft := Decompose(target - now);
        if target - now <= 0 {
          host.hasReachedTarget := true;
          ticking := false;
        }
      }
    }

    /** The "Start the Celebration" heading, rendered only once the target is reached. */
    method StartCelebrationClicked()
      requires host.Valid() && host.hasReachedTarget
      modifies host`showCelebrationOverlay, host`checking, host`pending
      ensures host.Valid() && host.showCelebrationOverlay && !host.checking && host.hasReachedTarget
      ensures host.pending == App.Merge(old(host.pending), App.SequenceTimers(old(host.clock)))
    {
      host.StartChristmasSequence();
    }
  }
}
