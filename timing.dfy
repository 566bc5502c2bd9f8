/** The constants and small arithmetic rules of the Pomodoro cycle. */
module Timing {
  import opened Wrappers

  /** Seconds per minute: every length the user types in minutes is stored in seconds. */
  const SecondsPerMinute: nat := 60

  /** The 25-minute focus length the timer starts with and that stop restores. */
  const DefaultFocusSeconds: nat := 25 * 60

  /** The largest number of minutes a timer edit accepts. */
  const MaxEditMinutes: nat := 120

  /** Whether the break after `cycles` completed focus phases is the long one.
      In JavaScript `x % 0` is NaN, which is never `=== 0`, so a zero
      setting never selects the long break. */
  predicate IsLongBreak(cycles: nat, cyclesUntilLongBreak: nat)
  {
    cyclesUntilLongBreak != 0 && cycles % cyclesUntilLongBreak == 0
  }

  /** `(isLongBreak ? longBreak : shortBreak) * 60` */
  function BreakSeconds(cycles: nat, cyclesUntilLongBreak: nat, shortBreak: nat, longBreak: nat): (r: nat)
    ensures IsLongBreak(cycles, cyclesUntilLongBreak) ==> r == longBreak * SecondsPerMinute
    ensures !IsLongBreak(cycles, cyclesUntilLongBreak) ==> r == shortBreak * SecondsPerMinute
  {
    (if IsLongBreak(cycles, cyclesUntilLongBreak) then longBreak else shortBreak) * SecondsPerMinute
  }

  /** The long break comes after every `cyclesUntilLongBreak`-th focus
      phase and after no other: within each group of that many cycles
      exactly the first count (the multiple) selects it. */
  lemma LongBreakSchedule(group: nat, offset: nat, cyclesUntilLongBreak: nat)
    requires cyclesUntilLongBreak > 0 && offset < cyclesUntilLongBreak
    ensures IsLongBreak(group * cyclesUntilLongBreak + offset, cyclesUntilLongBreak) <==> offset == 0
  {
    var n := group * cyclesUntilLongBreak + offset;
    assert n % cyclesUntilLongBreak == offset by {
      LemmaModOfMultiplePlus(group, offset, cyclesUntilLongBreak);
    }
  }

  /** `(q * d + r) % d == r` for a remainder `r < d`: Euclidean division
      has a unique quotient and remainder. */
  lemma LemmaModOfMultiplePlus(q: nat, r: nat, d: nat)
    requires d > 0 && r < d
    ensures (q * d + r) % d == r
  {
    var n := q * d + r;
    var k := n / d;
    var m := n % d;
    assert n == k * d + m;
    if q > k {
      LemmaMulGap(q, k, d);
    } else if q < k {
      LemmaMulGap(k, q, d);
    }
  }

  /** Two different multiples of `d` are at least `d` apart. */
  lemma LemmaMulGap(a: nat, b: nat, d: nat)
    requires a > b
    ensures a * d >= b * d + d
  {
    var c := a - b - 1;
    assert a == b + 1 + c;
    assert a * d == b * d + d + c * d;
  }

  /** `stored || current` for a `number | null` cell: the stored value when
      it is set and non-zero, the current one otherwise. */
  function StoredOr(stored: Option<nat>, current: nat): (r: nat)
    ensures Unset(stored) ==> r == current
    ensures !Unset(stored) ==> r == stored.value && r != 0
  {
    if stored.Some? && stored.value != 0 then stored.value else current
  }

  /** `!stored` for a `number | null` cell: null or zero. */
  predicate Unset(stored: Option<nat>)
  {
    stored.None? || stored.value == 0
  }
}
