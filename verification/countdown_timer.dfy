/** The large countdown display (components/CountdownTimer.tsx): four two-digit numbers,
    each followed by the first letter of its translated unit name. */
module CountdownTimer {
  import opened Types
  import opened NumberText

  /** `suffix.charAt(0)`: the first character, or the empty string for an empty name. */
  function Initial(name: string): (r: string)
    ensures |name| == 0 ==> r == ""
    ensures |name| > 0 ==> |r| == 1 && r[0] == name[0]
  {
    if |name| == 0 then "" else name[..1]
  }

  /** One `TimeItem`: the padded value and its one-letter suffix. */
  datatype TimeItem = TimeItem(digits: string, suffix: string)

  /** The field of a countdown shown in position `i`. */
  function FieldAt(t: CountDownTime, i: nat): int
    requires i < 4
  {
    if i == 0 then t.days else if i == 1 then t.hours else if i == 2 then t.minutes else t.seconds
  }

  /** The unit name used in position `i`. */
  function NameAt(names: TimeNames, i: nat): string
    requires i < 4
  {
    if i == 0 then names.days else if i == 1 then names.hours else if i == 2 then names.minutes else names.seconds
  }

  predicate NonNegative(t: CountDownTime) {
    t.days >= 0 && t.hours >= 0 && t.minutes >= 0 && t.seconds >= 0
  }

  /** The item's digits read back as `value` and are exactly as long as the value's
      decimal text padded to two characters: "07" for 7, "12" for 12, "123" for 123. */
  predicate Shows(it: TimeItem, value: int)
    requires value >= 0
  {
    && |it.digits| == (if |NatToString(value)| < 2 then 2 else |NatToString(value)|)
    && AllDigits(it.digits) && ParseDigits(it.digits) == value
  }

  /** `TimeItem` for one value: its text padded to two digits, reading back as the value
      when it is non-negative, and the initial of the unit name. */
  function Item(value: int, name: string): (it: TimeItem)
    ensures it.suffix == Initial(name)
    ensures value >= 0 ==> Shows(it, value)
  {
    TimeItem(TwoDigits(value), Initial(name))
  }

  /** The four items in the order days, hours, minutes, seconds: item `i` carries the
      initial of unit `i` and, for a countdown with non-negative fields, digits that
      read back as field `i`. */
  function Items(t: CountDownTime, names: TimeNames): (items: seq<TimeItem>)
    ensures |items| == 4
    ensures forall i :: 0 <= i < 4 ==> items[i].suffix == Initial(NameAt(names, i))
    ensures NonNegative(t) ==> forall i :: 0 <= i < 4 ==> Shows(items[i], FieldAt(t, i))
  {
    seq(4, i requires 0 <= i < 4 => Item(FieldAt(t, i), NameAt(names, i)))
  }

  /** The English unit names. */
  const EnglishNames := TimeNames("DAYS", "HOURS", "MINUTES", "SECONDS", "AVAILABLE NOW")

  /** In English the four suffixes read D, H, M and S. */
  lemma EnglishSuffixes(t: CountDownTime)
    ensures Items(t, EnglishNames)[0].suffix == "D"
    ensures Items(t, EnglishNames)[1].suffix == "H"
    ensures Items(t, EnglishNames)[2].suffix == "M"
    ensures Items(t, EnglishNames)[3].suffix == "S"
  {
    assert "DAYS"[..1] == "D";
    assert "HOURS"[..1] == "H";
    assert "MINUTES"[..1] == "M";
    assert "SECONDS"[..1] == "S";
  }
}
