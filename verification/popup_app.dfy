/** The stripped-down pop-out page (PopupApp.tsx): the `lang` query parameter and its
    own once-a-second countdown calculation. */
module PopupApp {
  import opened Wrappers
  import opened Types
  import App

  /** The two accepted values of the `lang` query parameter. */
  function LangCode(lang: Language): string {
    if lang == Es then "es" else "en"
  }

  /** The pop-out's language: the `lang` parameter when it is "es" or "en", else 'en'. */
  function LangFromQuery(langParam: Option<string>): (r: Language)
    ensures r == Es <==> langParam == Some("es")
  {
    var lang := En;
    match langParam
    case Some(p) => if p == "es" then Es else if p == "en" then En else lang
    case None => lang
  }

  /** Every language survives being written to and read back from the query string. */
  lemma QueryRoundTrip(lang: Language)
    ensures LangFromQuery(Some(LangCode(lang))) == lang
  {
  }

  datatype PopupState = PopupState(lang: Language, timeLeft: CountDownTime)

  /** The pop-out before its first calculation: all-zero countdown. */
  function Mount(langParam: Option<string>): (s: PopupState)
    ensures s.timeLeft == Zero
    ensures s.lang == Es <==> langParam == Some("es")
  {
    PopupState(LangFromQuery(langParam), Zero)
  }

  /** `calculate`: the breakdown while the target is ahead, and a reset to all zeros
      once it has passed. */
  function Calculate(s: PopupState, target: int, now: int): (r: PopupState)
    ensures r.lang == s.lang
    ensures target - now <= 0 ==> r.timeLeft == Zero
    ensures target - now > 0 ==> App.InRange(r.timeLeft) && App.Reconstructs(r.timeLeft, target - now)
  {
    var difference := target - now;
    if difference > 0 then
      App.BreakdownCorrect(difference);
      s.(timeLeft := App.JsBreakdown(difference))
    else
      s.(timeLeft := Zero)
  }

  /** While the target is ahead, the pop-out and the main page show the same countdown
      at the same instant, whatever each showed before. */
  lemma SynchronisedWithApp(p: PopupState, a: App.AppState, start: int, target: int, now: int)
    requires start < target && target - now > 0
    ensures Calculate(p, target, now).timeLeft == App.Tick(a, start, target, now).timeLeft
    ensures Calculate(p, target, now).timeLeft == App.CalculateTimeLeft(target, now)
  {
  }

  /** After the target the two pages part ways: the pop-out resets to zero while the main
      page keeps whatever it last showed. */
  lemma DivergesAfterTarget(p: PopupState, a: App.AppState, start: int, target: int, now: int)
    requires start < target && target - now <= 0
    ensures Calculate(p, target, now).timeLeft == Zero
    ensures App.Tick(a, start, target, now).timeLeft == a.timeLeft
  {
  }
}
