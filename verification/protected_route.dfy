/** The re-authentication gate of protected pages: a page is shown when the last
    re-authentication, kept in session storage as a millisecond timestamp string,
    is less than five minutes old; otherwise the re-authentication modal is shown. */
module ProtectedRoute {
  import opened Common
  import opened Text

  const ReauthTimeoutMinutes := 5

  /** `REAUTH_TIMEOUT_MINUTES * 60 * 1000` milliseconds. */
  const ReauthWindowMs := ReauthTimeoutMinutes * 60 * 1000

  /** The component's three state variables. */
  datatype AuthState = AuthState(isAuthenticated: bool, showModal: bool, loading: bool)

  /** A JavaScript number as the check computes with it: `NaN` or an integer. */
  datatype JsNum = NaN | Int(i: int)

  function Sub(a: JsNum, b: JsNum): JsNum {
    if a.Int? && b.Int? then Int(a.i - b.i) else NaN
  }

  /** `<`, which is false whenever an operand is `NaN`. */
  predicate Less(a: JsNum, b: JsNum) {
    a.Int? && b.Int? && a.i < b.i
  }

  function ParseIntJs(s: string): JsNum {
    match ParseInt(s)
    case None => NaN
    case Some(i) => Int(i)
  }

  /** `checkAuth`: `stored` is `sessionStorage.getItem('lastReauthTime')`, `None`
      standing for `null`, and `now` is `Date.now()`. */
  function CheckAuth(stored: Option<string>, now: int): (st: AuthState)
    ensures !st.loading
    ensures st.isAuthenticated != st.showModal
    ensures st.isAuthenticated <==>
      stored.Some? && ParseInt(stored.value).Some? && now - ParseInt(stored.value).value < 300000
  {
    var lastAuthTime := stored;
    if lastAuthTime.Some? && lastAuthTime.value != ""
      && Less(Sub(Int(now), ParseIntJs(lastAuthTime.value)), Int(ReauthWindowMs))
    then AuthState(true, false, false)
    else AuthState(false, true, false)
  }

  /** The stored string and the new state after `handleVerifySuccess`. */
  datatype Verified = Verified(stored: string, state: AuthState)

  /** `handleVerifySuccess`: store `Date.now().toString()` and leave the modal. */
  function HandleVerifySuccess(st: AuthState, now: int): (r: Verified)
    ensures ParseInt(r.stored) == Some(now)
    ensures r.state.isAuthenticated && !r.state.showModal
    ensures r.state.loading == st.loading
  {
    IntToStringParses(now);
    Verified(IntToString(now), st.(isAuthenticated := true, showModal := false))
  }

  /** A check at the instant of a successful re-authentication grants access. */
  lemma RecheckAfterVerifyGrants(st: AuthState, now: int)
    ensures CheckAuth(Some(HandleVerifySuccess(st, now).stored), now) == AuthState(true, false, false)
  {
  }

  /** The window is strict: 299999 ms after re-authenticating the page is shown,
      300000 ms after it the modal is. */
  lemma WindowIsStrict(t: int)
    ensures CheckAuth(Some(IntToString(t)), t + 299999).isAuthenticated
    ensures CheckAuth(Some(IntToString(t)), t + 300000).showModal
  {
    IntToStringParses(t);
  }

  /** Access once granted stays granted at every earlier instant of the window. */
  lemma GrantIsMonotone(stored: Option<string>, earlier: int, later: int)
    requires earlier <= later
    requires CheckAuth(stored, later).isAuthenticated
    ensures CheckAuth(stored, earlier).isAuthenticated
  {
  }
}
