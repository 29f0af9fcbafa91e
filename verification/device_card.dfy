/** The device card's relative rendering of a device's last activity. */
module DeviceCard {
  import opened Text
  import opened Devices

  /** `Math.floor(diff / (1000 * 60 * 60 * 24))`: whole days elapsed, rounded
      down, so an activity in the future gives a negative count. */
  function DaysSince(diff: int): (days: int)
    ensures days * MillisPerDay <= diff < (days + 1) * MillisPerDay
  {
    diff / MillisPerDay
  }

  /** Floor division is the only count that brackets the difference. */
  lemma DaysSinceUnique(diff: int, days: int)
    requires days * MillisPerDay <= diff < (days + 1) * MillisPerDay
    ensures DaysSince(diff) == days
  {
  }

  const Today: string := "Hoje"
  const Yesterday: string := "Ontem"
  const DaysAgoSuffix: string := " dias atrás"

  /** `formatLastActivity` at clock reading `now`: "Hoje" within the first
      day, "Ontem" within the second, otherwise the day count followed by
      " dias atrás" — including negative counts for a future activity. */
  function LastActivityLabel(lastActivity: int, now: int): (shown: string)
    ensures shown == Today <==> 0 <= now - lastActivity < MillisPerDay
    ensures shown == Yesterday <==> MillisPerDay <= now - lastActivity < 2 * MillisPerDay
    ensures shown != Today && shown != Yesterday ==>
      shown == IntToDecimal(DaysSince(now - lastActivity)) + DaysAgoSuffix
  {
    var days := DaysSince(now - lastActivity);
    if days == 0 then Today
    else if days == 1 then Yesterday
    else
      var s := IntToDecimal(days) + DaysAgoSuffix;
      assert s[|s| - 1] == 's';
      s
  }

  /** The count in "<n> dias atrás" reads back uniquely. */
  lemma DaysAgoInjective(a: int, b: int)
    ensures IntToDecimal(a) + DaysAgoSuffix == IntToDecimal(b) + DaysAgoSuffix ==> a == b
  {
    var sa, sb := IntToDecimal(a) + DaysAgoSuffix, IntToDecimal(b) + DaysAgoSuffix;
    if sa == sb {
      assert IntToDecimal(a) == sa[..|sa| - |DaysAgoSuffix|];
      assert IntToDecimal(b) == sb[..|sb| - |DaysAgoSuffix|];
      IntToDecimalInjective(a, b);
    }
  }

  /** Two activities get the same label iff they lie the same number of
      whole days back. */
  lemma LabelDeterminesDays(t1: int, t2: int, now: int)
    ensures LastActivityLabel(t1, now) == LastActivityLabel(t2, now)
      <==> DaysSince(now - t1) == DaysSince(now - t2)
  {
    var d1, d2 := DaysSince(now - t1), DaysSince(now - t2);
    if d1 != 0 && d1 != 1 && d2 != 0 && d2 != 1 {
      DaysAgoInjective(d1, d2);
    }
  }

  /** A device that is "active" on the dashboard is shown as at most seven days back. */
  lemma ActiveWithinSevenDays(lastActivity: int, now: int)
    requires 0 <= now - lastActivity <= 7 * MillisPerDay
    ensures 0 <= DaysSince(now - lastActivity) <= 7
  {
  }
}
