/**
 * The admin page's session: a client-side comparison of the entered
 * credentials with two build-time settings, sign-out, and the effect of a drop
 * on what the page shows. The page offers the login form only while signed
 * out, and the drop zone and the sign-out button only while signed in.
 */
module Session {
  import opened Options
  import opened Issuance
  import opened Uploader

  datatype Credentials = Credentials(username: string, password: string)

  /** The configured admin username and password; either may be undefined in the build. */
  datatype Config = Config(adminUsername: Option<string>, adminPassword: Option<string>)

  /** The page state the handlers set: `isAuthenticated`, `loading`, `error`, `processedData`. */
  datatype AdminState = AdminState(authenticated: bool, loading: bool, error: Option<string>, processed: Option<Summary>)

  const Initial := AdminState(false, false, None, None)

  const InvalidCredentialsMessage := "Invalid credentials"

  /** Strict equality with both settings; an undefined setting equals no entered string. */
  predicate Granted(cfg: Config, creds: Credentials) {
    cfg.adminUsername == Some(creds.username) && cfg.adminPassword == Some(creds.password)
  }

  /** `handleLogin`: signs in on a match, otherwise reports the fixed error and leaves the flag alone. */
  function Login(cfg: Config, creds: Credentials, s: AdminState): (t: AdminState)
    ensures t.authenticated <==> s.authenticated || Granted(cfg, creds)
    ensures t.error == (if Granted(cfg, creds) then None else Some(InvalidCredentialsMessage))
    ensures !t.loading && t.processed == s.processed
  {
    if Granted(cfg, creds) then s.(authenticated := true, loading := false, error := None)
    else s.(loading := false, error := Some(InvalidCredentialsMessage))
  }

  /** The sign-out button: clears only the authentication flag. */
  function SignOut(s: AdminState): (t: AdminState)
    ensures !t.authenticated
    ensures t.loading == s.loading && t.error == s.error && t.processed == s.processed
  {
    s.(authenticated := false)
  }

  /**
   * The state a drop leaves: the error is the last one set, and the summary is
   * replaced only on success, so a failed drop leaves an earlier summary on
   * screen. Loading ends, except after a stalled drop: the handler had switched
   * it on and nothing switches it off.
   */
  function ApplyUpload(s: AdminState, u: Upload): (t: AdminState)
    ensures t.authenticated == s.authenticated
    ensures t.loading <==> u.Stalled?
    ensures t.error == DisplayedError(u)
    ensures u.Done? ==> t.processed == Some(u.summary) && t.error.None?
    ensures !u.Done? ==> t.processed == s.processed
    ensures t.error.None? <==> u.Done? || u.Stalled?
  {
    s.(loading := u.Stalled?, error := DisplayedError(u), processed := if u.Done? then Some(u.summary) else s.processed)
  }

  datatype Event =
    | SubmitLogin(creds: Credentials)
    | ClickSignOut
    | DropFile(file: Option<string>, parsed: ParseResult, oracle: Oracle)

  /** One user action, taken only when the current view offers it; the sign-in button is disabled while loading. */
  function Step(cfg: Config, s: AdminState, e: Event): AdminState {
    match e
    case SubmitLogin(creds) => if s.authenticated || s.loading then s else Login(cfg, creds, s)
    case ClickSignOut => if s.authenticated then SignOut(s) else s
    case DropFile(file, parsed, oracle) => if s.authenticated then ApplyUpload(s, HandleUpload(file, parsed, oracle)) else s
  }

  /** The page state after a sequence of actions, starting signed out. */
  function Run(cfg: Config, events: seq<Event>): AdminState
    decreases |events|
  {
    if events == [] then Initial
    else Step(cfg, Run(cfg, events[..|events| - 1]), events[|events| - 1])
  }

  predicate GrantingLogin(cfg: Config, e: Event) {
    e.SubmitLogin? && Granted(cfg, e.creds)
  }

  /** Some granting login at `i`, submitted while the sign-in button was enabled, that no later sign-out undoes. */
  ghost predicate SignedInSince(cfg: Config, events: seq<Event>, i: int) {
    && 0 <= i < |events|
    && GrantingLogin(cfg, events[i])
    && !Run(cfg, events[..i]).loading
    && forall j :: i < j < |events| ==> !events[j].ClickSignOut?
  }

  /**
   * The page is signed in exactly when some login matched, while the button
   * was enabled, and no sign-out came after it.
   */
  lemma {:induction false} SignedInIff(cfg: Config, events: seq<Event>)
    ensures Run(cfg, events).authenticated <==> exists i :: SignedInSince(cfg, events, i)
    decreases |events|
  {
    if events != [] {
      var n := |events| - 1;
      var prefix := events[..n];
      var e := events[n];
      SignedInIff(cfg, prefix);
      var s := Run(cfg, prefix);
      assert Run(cfg, events) == Step(cfg, s, e);
      assert events[..n] == prefix;
      forall i | 0 <= i < n
        ensures SignedInSince(cfg, events, i) <==> SignedInSince(cfg, prefix, i) && !e.ClickSignOut?
      {
        assert prefix[..i] == events[..i];
        assert forall j :: i < j < n ==> prefix[j] == events[j];
      }
      if Run(cfg, events).authenticated {
        if GrantingLogin(cfg, e) && !s.loading {
          assert SignedInSince(cfg, events, n);
        } else {
          var i :| SignedInSince(cfg, prefix, i);
          assert SignedInSince(cfg, events, i);
        }
      }
    }
  }

  /** With either setting undefined no login matches, so the upload view is never reached. */
  lemma UnconfiguredAdminNeverSignsIn(cfg: Config, events: seq<Event>)
    requires cfg.adminUsername.None? || cfg.adminPassword.None?
    ensures !Run(cfg, events).authenticated
  {
    SignedInIff(cfg, events);
  }
}
