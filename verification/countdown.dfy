/**
 * The time-left label both voting pages show under a proposal
 * (`formatTimeRemaining` and `formatDeadline`): the two compute the same
 * split of the remaining milliseconds into whole days and hours and differ
 * only in wording, so the label is modelled once, by its three shapes.
 */
module Countdown {

  const HourMs: nat := 60 * 60 * 1000
  const DayMs: nat := 24 * HourMs

  /** "Voting ended", "<d> days, <h> hours left", or "<h> hours left". */
  datatype TimeLeft = Ended | DaysHours(days: nat, hours: nat) | Hours(hours: nat)

  /** The label for a deadline seen at `now`, both instants in epoch milliseconds. */
  function Remaining(deadline: int, now: int): (t: TimeLeft)
    ensures t == Ended <==> deadline <= now
    ensures t.DaysHours? ==> t.days > 0 && t.hours < 24
    ensures t.Hours? ==> t.hours < 24 && deadline - now < DayMs
    ensures t.DaysHours? <==> deadline - now >= DayMs
  {
    var diff := deadline - now;
    if diff <= 0 then Ended
    else
      var days := diff / DayMs;
      var hours := (diff % DayMs) / HourMs;
      if days > 0 then DaysHours(days, hours) else Hours(hours)
  }

  /** The whole hours a label stands for. */
  function ShownHours(t: TimeLeft): nat {
    match t
    case Ended => 0
    case DaysHours(d, h) => d * 24 + h
    case Hours(h) => h
  }

  /**
   * A label that is not `Ended` shows the remaining time rounded down to a
   * whole hour: the true remainder lies in [shown, shown + 1) hours.
   */
  lemma RemainingIsWholeHoursLeft(deadline: int, now: int)
    requires deadline > now
    ensures var shown := ShownHours(Remaining(deadline, now));
      shown * HourMs <= deadline - now < (shown + 1) * HourMs
  {
  }
}
