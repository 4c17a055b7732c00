/** The main page (App.tsx): the countdown breakdown, the progress percentage, the
    one-second tick and the language rules. */
module App {
  import opened Types
  import opened JsNum

  const MsPerSecond := 1000
  const MsPerMinute := 1000 * 60
  const MsPerHour := 1000 * 60 * 60
  const MsPerDay := 1000 * 60 * 60 * 24

  /** The four fields of a running countdown lie in their unit ranges. */
  predicate InRange(t: CountDownTime) {
    t.days >= 0 && 0 <= t.hours < 24 && 0 <= t.minutes < 60 && 0 <= t.seconds < 60
  }

  /** The milliseconds the four fields stand for. */
  function TotalMs(t: CountDownTime): int {
    t.days * MsPerDay + t.hours * MsPerHour + t.minutes * MsPerMinute + t.seconds * MsPerSecond
  }

  /** The fields account for `difference` up to the milliseconds below one second. */
  predicate Reconstructs(t: CountDownTime, difference: int) {
    TotalMs(t) <= difference < TotalMs(t) + MsPerSecond
  }

  /** The breakdown exactly as the page writes it: `Math.floor` of real quotients and
      JavaScript `%` on numbers. For a non-negative difference every field is the integer
      quotient or remainder of the whole milliseconds. */
  function JsBreakdown(difference: int): (t: CountDownTime)
    ensures difference >= 0 ==> t == CountDownTime(
      difference / MsPerDay, (difference / MsPerHour) % 24,
      (difference / MsPerMinute) % 60, (difference / MsPerSecond) % 60)
  {
    var d := difference as real;
    FieldsAreIntegers(difference);
    CountDownTime(
      (d / (1000.0 * 60.0 * 60.0 * 24.0)).Floor,
      JsRem(d / (1000.0 * 60.0 * 60.0), 24.0).Floor,
      JsRem(d / 1000.0 / 60.0, 60.0).Floor,
      JsRem(d / 1000.0, 60.0).Floor)
  }

  /** The four real-valued field formulas of the page on a whole, non-negative number of
      milliseconds. */
  lemma FieldsAreIntegers(difference: int)
    ensures var d := difference as real;
      difference >= 0 ==>
        && (d / (1000.0 * 60.0 * 60.0 * 24.0)).Floor == difference / MsPerDay
        && JsRem(d / (1000.0 * 60.0 * 60.0), 24.0).Floor == (difference / MsPerHour) % 24
        && JsRem(d / 1000.0 / 60.0, 60.0).Floor == (difference / MsPerMinute) % 60
        && JsRem(d / 1000.0, 60.0).Floor == (difference / MsPerSecond) % 60
  {
    if difference >= 0 {
      var d := difference as real;
      FloorOfQuotient(difference, MsPerDay);
      FloorOfRemainder(difference, MsPerHour, 24);
      assert d / 1000.0 / 60.0 == d / 60000.0;
      FloorOfRemainder(difference, MsPerMinute, 60);
      FloorOfRemainder(difference, MsPerSecond, 60);
    }
  }

  /** For a positive difference the page's breakdown is integer division and remainder,
      its fields are in range and they reconstruct the difference to within one second. */
  lemma BreakdownCorrect(difference: int)
    requires difference > 0
    ensures JsBreakdown(difference) == CountDownTime(
      difference / MsPerDay, (difference / MsPerHour) % 24,
      (difference / MsPerMinute) % 60, (difference / MsPerSecond) % 60)
    ensures InRange(JsBreakdown(difference))
    ensures Reconstructs(JsBreakdown(difference), difference)
  {
    var s := difference / 1000;
    var m := s / 60;
    var h := m / 60;
    assert m == difference / 60000;
    assert h == difference / 3600000;
    assert h / 24 == difference / 86400000;
  }

  /** Any in-range countdown that reconstructs `difference` is the page's breakdown. */
  lemma BreakdownUnique(t: CountDownTime, difference: int)
    requires difference > 0 && InRange(t) && Reconstructs(t, difference)
    ensures t == JsBreakdown(difference)
  {
    BreakdownCorrect(difference);
    var s := t.seconds + 60 * (t.minutes + 60 * (t.hours + 24 * t.days));
    assert difference == 1000 * s + (difference - 1000 * s);
    DivModUnique(difference, 1000, s, difference - 1000 * s);
    var m := t.minutes + 60 * (t.hours + 24 * t.days);
    DivModUnique(s, 60, m, t.seconds);
    var h := t.hours + 24 * t.days;
    DivModUnique(m, 60, h, t.minutes);
    DivModUnique(h, 24, t.days, t.hours);
    assert difference / 60000 == m;
    assert difference / 3600000 == h;
    assert difference / 86400000 == t.days;
  }

  /** `calculateTimeLeft`: the breakdown of the time to the target, or all zeros once the
      target has passed. */
  function CalculateTimeLeft(target: int, now: int): (r: CountDownTime)
    ensures target - now <= 0 ==> r == Zero
    ensures target - now > 0 ==> InRange(r) && Reconstructs(r, target - now)
  {
    var difference := target - now;
    if difference > 0 then
      BreakdownCorrect(difference);
      JsBreakdown(difference)
    else
      Zero
  }

  /** The elapsed share of the countdown, clamped to [0, 100]. */
  function Progress(start: int, target: int, now: int): (pct: real)
    requires start < target
    ensures 0.0 <= pct <= 100.0
    ensures now <= start ==> pct == 0.0
    ensures now >= target ==> pct == 100.0
    ensures start <= now <= target ==> pct * (target - start) as real == (now - start) as real * 100.0
  {
    var totalDuration := target - start;
    var raw := ((now - start) as real / totalDuration as real) * 100.0;
    assert start <= now <= target ==> 0.0 <= raw <= 100.0 && raw * totalDuration as real == (now - start) as real * 100.0 by {
      if start <= now <= target {
        PercentOfWhole((now - start) as real, totalDuration as real);
      }
    }
    assert now <= start ==> raw <= 0.0 by {
      if now <= start {
        QuotientAtMost((now - start) as real, totalDuration as real, 0.0);
      }
    }
    assert now >= target ==> raw >= 100.0 by {
      if now >= target {
        QuotientAtLeast((now - start) as real, totalDuration as real, 1.0);
      }
    }
    Min(100.0, Max(0.0, raw))
  }

  /** Progress never goes backwards as time passes. */
  lemma ProgressMonotone(start: int, target: int, now1: int, now2: int)
    requires start < target && now1 <= now2
    ensures Progress(start, target, now1) <= Progress(start, target, now2)
  {
    QuotientMonotone((now1 - start) as real, (now2 - start) as real, (target - start) as real);
  }

  /** The page's state: the language, the last countdown shown and the progress. */
  datatype AppState = AppState(lang: Language, timeLeft: CountDownTime, progress: real)

  /** `toggleLang`: the other language. */
  function ToggleLang(lang: Language): (r: Language)
    ensures r != lang
  {
    if lang == En then Es else En
  }

  lemma ToggleInvolution(lang: Language)
    ensures ToggleLang(ToggleLang(lang)) == lang
  {
  }

  /** `s.split('-')[0]`: the text before the first '-', or all of it. */
  function FirstSegment(s: string): (r: string)
    ensures r <= s
    ensures '-' !in r
    ensures |r| < |s| ==> s[|r|] == '-'
  {
    if |s| == 0 || s[0] == '-' then "" else [s[0]] + FirstSegment(s[1..])
  }

  /** The language chosen at start-up from the browser's language tag: Spanish exactly
      for the tag "es" and tags starting "es-", otherwise the default English. */
  function InitialLang(browserLanguage: string): (r: Language)
    ensures r == Es <==>
      (browserLanguage == "es" || (|browserLanguage| >= 3 && browserLanguage[..3] == "es-"))
  {
    EsPrimarySubtag(browserLanguage);
    if FirstSegment(browserLanguage) == "es" then Es else En
  }

  /** The primary subtag is "es" exactly for the tag "es" and tags starting "es-". */
  lemma EsPrimarySubtag(browserLanguage: string)
    ensures FirstSegment(browserLanguage) == "es" <==>
      (browserLanguage == "es" || (|browserLanguage| >= 3 && browserLanguage[..3] == "es-"))
  {
    var s := browserLanguage;
    if s == "es" || (|s| >= 3 && s[..3] == "es-") {
      EsTagSubtag(s);
    }
    if FirstSegment(s) == "es" {
      EsSubtagTag(s);
    }
  }

  lemma EsTagSubtag(s: string)
    requires s == "es" || (|s| >= 3 && s[..3] == "es-")
    ensures FirstSegment(s) == "es"
  {
    if s == "es" {
      assert FirstSegment(s[2..]) == "";
    } else {
      EsDashSubtag(s);
    }
  }

  lemma EsDashSubtag(s: string)
    requires |s| >= 3 && s[..3] == "es-"
    ensures FirstSegment(s) == "es"
  {
    assert s[0] == 'e' && s[1] == 's' && s[2] == '-';
    var u := s[1..];
    assert u[0] == 's' && u[1] == '-';
    assert FirstSegment(u[1..]) == "";
  }

  lemma EsSubtagTag(s: string)
    requires FirstSegment(s) == "es"
    ensures s == "es" || (|s| >= 3 && s[..3] == "es-")
  {
    assert s[..2] == "es";
    if |s| > 2 {
      assert s[2] == '-';
      assert s[..3] == "es-";
    } else {
      assert s == s[..2];
    }
  }

  /** The page after mounting: the detected language, the countdown computed at mount
      and progress 0 until the first tick. */
  function Mount(browserLanguage: string, target: int, now: int): (s: AppState)
    ensures s.progress == 0.0
    ensures s.lang == Es <==> FirstSegment(browserLanguage) == "es"
    ensures target - now <= 0 ==> s.timeLeft == Zero
    ensures target - now > 0 ==> InRange(s.timeLeft) && Reconstructs(s.timeLeft, target - now)
  {
    AppState(InitialLang(browserLanguage), CalculateTimeLeft(target, now), 0.0)
  }

  /** The one-second interval callback: progress is always refreshed, the countdown only
      while the target is still ahead; after that it keeps its last value. */
  function Tick(s: AppState, start: int, target: int, now: int): (r: AppState)
    requires start < target
    ensures r.lang == s.lang
    ensures r.progress == Progress(start, target, now)
    ensures 0.0 <= r.progress <= 100.0
    ensures target - now <= 0 ==> r.timeLeft == s.timeLeft && r.progress == 100.0
    ensures target - now > 0 ==> InRange(r.timeLeft) && Reconstructs(r.timeLeft, target - now)
  {
    var currentDifference := target - now;
    var pct := Progress(start, target, now);
    if currentDifference > 0 then
      BreakdownCorrect(currentDifference);
      AppState(s.lang, JsBreakdown(currentDifference), pct)
    else
      s.(progress := pct)
  }

  /** Runs the tick once per listed instant. */
  function TickAll(s: AppState, start: int, target: int, nows: seq<int>): AppState
    requires start < target
    decreases |nows|
  {
    if |nows| == 0 then s else TickAll(Tick(s, start, target, nows[0]), start, target, nows[1..])
  }

  /** Once the target has passed, no number of further ticks changes the countdown shown. */
  lemma {:induction false} FrozenAfterTarget(s: AppState, start: int, target: int, nows: seq<int>)
    requires start < target
    requires forall i :: 0 <= i < |nows| ==> nows[i] >= target
    ensures TickAll(s, start, target, nows).timeLeft == s.timeLeft
    ensures TickAll(s, start, target, nows).lang == s.lang
    decreases |nows|
  {
    if |nows| > 0 {
      FrozenAfterTarget(Tick(s, start, target, nows[0]), start, target, nows[1..]);
    }
  }

  /** The start and target instants of the countdown (2018-12-13T00:00:00Z and
      2026-01-13T16:00:00+01:00) in epoch milliseconds. */
  const StartMs := 1544659200000
  const TargetMs := 1768316400000

  /** One day before launch the countdown reads exactly one day. */
  lemma OneDayBeforeLaunch()
    ensures CalculateTimeLeft(TargetMs, TargetMs - MsPerDay) == CountDownTime(1, 0, 0, 0)
  {
    BreakdownCorrect(MsPerDay);
  }

  /** The page's countdown is not cleared at the target: when the last tick before it
      falls 1.5 s early (a throttled background timer, say), one second stays on screen
      after launch, while progress reads 100. */
  lemma StaleSecondAfterTarget(s: AppState)
    ensures var late := Tick(Tick(s, StartMs, TargetMs, TargetMs - 1500), StartMs, TargetMs, TargetMs + 500);
      late.timeLeft == CountDownTime(0, 0, 0, 1) && late.progress == 100.0
  {
    BreakdownCorrect(1500);
  }
}
