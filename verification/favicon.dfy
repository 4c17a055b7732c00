/** The dynamic favicon's text and colour (hooks/useDynamicFavicon.ts). The canvas drawing
    itself is not modelled; only the choice of label, font size and ring colour is. */
module Favicon {
  import opened NumberText

  datatype RingColour = Gold | Blue

  /** The five label cases, in the order the source tests them. */
  datatype Tier = Overflow | Hundreds | Days | Hours | Imminent

  /** Which case a (days, hours) pair falls into; each case is characterised exactly, so
      every pair falls into exactly one. */
  function TierOf(days: int, hours: int): (t: Tier)
    ensures t == Overflow <==> days > 999
    ensures t == Hundreds <==> 99 < days <= 999
    ensures t == Days <==> 0 < days <= 99
    ensures t == Hours <==> days <= 0 && hours > 0
    ensures t == Imminent <==> days <= 0 && hours <= 0
  {
    if days > 999 then Overflow
    else if days > 99 then Hundreds
    else if days > 0 then Days
    else if hours > 0 then Hours
    else Imminent
  }

  datatype Label = Label(text: string, fontPx: nat, ring: RingColour)

  /** The label drawn for the time left. */
  function FaviconLabel(days: int, hours: int): (l: Label)
    ensures l.ring == Gold <==> days == 0
    ensures days > 999 ==> l.text == "999+" && l.fontPx == 18
    ensures 99 < days <= 999 ==> l.text == NatToString(days) && l.fontPx == 20
    ensures 0 < days <= 99 ==> l.text == NatToString(days) && l.fontPx == 26
    ensures days <= 0 && hours > 0 ==> l.text == NatToString(hours) + "h" && l.fontPx == 24
    ensures days <= 0 && hours <= 0 ==> l.text == "!" && l.fontPx == 32
  {
    var ring := if days == 0 then Gold else Blue;
    match TierOf(days, hours)
    case Overflow => Label("999+", 18, ring)
    case Hundreds => Label(IntToString(days), 20, ring)
    case Days => Label(IntToString(days), 26, ring)
    case Hours => Label(IntToString(hours) + "h", 24, ring)
    case Imminent => Label("!", 32, ring)
  }

  /** For any countdown the page can produce (hours below 24) the label fits in four
      characters, and a day count shown in full reads back as that count. */
  lemma LabelFits(days: int, hours: int)
    requires days >= 0 && 0 <= hours < 24
    ensures |FaviconLabel(days, hours).text| <= 4
    ensures 0 < days <= 999 ==> ParseDigits(FaviconLabel(days, hours).text) == days
  {
    if 0 < days <= 999 {
      DigitCount(days, 3);
      assert Pow10(3) == 1000;
      ParseNatToString(days);
    } else if days == 0 && hours > 0 {
      DigitCount(hours, 2);
      assert Pow10(2) == 100;
    }
  }

  /** One day before launch the icon still shows "1" on blue; in the last day it switches
      to gold hours, and in the last hour to "!". */
  lemma LaunchDayLabels()
    ensures FaviconLabel(1, 0) == Label("1", 26, Blue)
    ensures FaviconLabel(0, 5) == Label("5h", 24, Gold)
    ensures FaviconLabel(0, 0) == Label("!", 32, Gold)
  {
  }
}
