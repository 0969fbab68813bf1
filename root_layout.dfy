/** The root layout: it tracks the signed-in session, shows a loading view
    until the first session lookup resolves, redirects between the login
    screen and the home screen, and upserts the signed-in user's profile,
    skipping the user whose profile it last upserted. The auth service's
    callbacks and the upsert's outcome arrive as events. */
module RootLayout {
  import opened Wrappers

  const LoginPath := "/login"
  const HomePath := "/home"

  /** An auth session, reduced to the user it belongs to. */
  datatype Session = Session(userId: string)

  /** What the layout renders: the loading placeholder or the navigation stack. */
  datatype View = LoadingView | StackView

  // ---------------------------------------------------------------------
  // Rendering and redirects

  /** The loading view shows exactly until the first session lookup resolved. */
  function RenderedView(hasCheckedSession: bool): (v: View)
    ensures v == LoadingView <==> !hasCheckedSession
  {
    if hasCheckedSession then StackView else LoadingView
  }

  /** The redirect effect: the path passed to `router.replace`, or None
      when it does not navigate. */
  function RedirectTarget(hasCheckedSession: bool, session: Option<Session>, pathname: string): (r: Option<string>)
    ensures !hasCheckedSession ==> r.None?
    ensures r == Some(LoginPath) <==> hasCheckedSession && session.None? && pathname != LoginPath
    ensures r == Some(HomePath) <==> hasCheckedSession && session.Some? && pathname == LoginPath
    ensures r.None? || r == Some(LoginPath) || r == Some(HomePath)
  {
    if !hasCheckedSession then None
    else if session.None? && pathname != LoginPath then Some(LoginPath)
    else if session.Some? && pathname == LoginPath then Some(HomePath)
    else None
  }

  /** Once on the path it redirected to, the effect does not redirect again. */
  lemma RedirectIsStable(hasCheckedSession: bool, session: Option<Session>, pathname: string)
    requires RedirectTarget(hasCheckedSession, session, pathname).Some?
    ensures RedirectTarget(hasCheckedSession, session, RedirectTarget(hasCheckedSession, session, pathname).value).None?
  {
    assert LoginPath != HomePath by { assert LoginPath[1] != HomePath[1]; }
  }

  // ---------------------------------------------------------------------
  // Session state and the profile upsert

  /** The layout's state: whether it is still mounted, the session, whether
      the first lookup resolved, and the user whose profile was last upserted. */
  datatype LayoutState = LayoutState(
    mounted: bool,
    session: Option<Session>,
    hasCheckedSession: bool,
    lastUpsertedUserId: Option<string>)

  const Initial := LayoutState(true, None, false, None)

  /** What happens to the layout. `ProfileSynced` is one run of the profile
      effect for the current session, with the outcome of its upsert. */
  datatype LayoutEvent =
    | SessionResolved(resolved: Option<Session>)
    | AuthStateChanged(changed: Option<Session>)
    | Unmounted
    | ProfileSynced(upsertSucceeded: bool)

  /** The user whose profile the effect upserts, or None when it skips:
      no session, or the session's user is the one last upserted. */
  function UpsertTarget(st: LayoutState): (r: Option<string>)
    ensures r.None? <==> st.session.None? || st.lastUpsertedUserId == Some(st.session.value.userId)
    ensures r.Some? ==> r.value == st.session.value.userId
  {
    match st.session
    case None => None
    case Some(s) => if st.lastUpsertedUserId == Some(s.userId) then None else Some(s.userId)
  }

  /** The state after one event. The first lookup only counts while mounted;
      auth changes update the session only (and stop with the subscription
      at unmount); only a successful upsert records its user. */
  function Step(st: LayoutState, e: LayoutEvent): (r: LayoutState)
    ensures r.hasCheckedSession <==> st.hasCheckedSession || (e.SessionResolved? && st.mounted)
    ensures e.AuthStateChanged? ==>
      r.mounted == st.mounted && r.hasCheckedSession == st.hasCheckedSession &&
      r.lastUpsertedUserId == st.lastUpsertedUserId
    ensures r.lastUpsertedUserId != st.lastUpsertedUserId ==>
      e == ProfileSynced(true) && r.lastUpsertedUserId == UpsertTarget(st)
    ensures e == ProfileSynced(false) ==> r == st
    ensures r.mounted <==> st.mounted && !e.Unmounted?
    ensures st.mounted && e.SessionResolved? ==> r.session == e.resolved
    ensures st.mounted && e.AuthStateChanged? ==> r.session == e.changed
    ensures !(st.mounted && (e.SessionResolved? || e.AuthStateChanged?)) ==> r.session == st.session
  {
    match e
    case SessionResolved(s) =>
      if st.mounted then st.(session := s, hasCheckedSession := true) else st
    case AuthStateChanged(s) =>
      if st.mounted then st.(session := s) else st
    case Unmounted =>
      st.(mounted := false)
    case ProfileSynced(ok) =>
      if ok && UpsertTarget(st).Some? then st.(lastUpsertedUserId := UpsertTarget(st)) else st
  }

  /** The state after a sequence of events. */
  function Run(st: LayoutState, events: seq<LayoutEvent>): LayoutState {
    if events == [] then st
    else Step(Run(st, events[..|events| - 1]), events[|events| - 1])
  }

  /** The layout is mounted until the first unmount. */
  lemma {:induction false} MountedUntilUnmount(events: seq<LayoutEvent>)
    ensures Run(Initial, events).mounted <==> forall i :: 0 <= i < |events| ==> !events[i].Unmounted?
  {
    if events != [] {
      var init := events[..|events| - 1];
      MountedUntilUnmount(init);
      assert forall i :: 0 <= i < |init| ==> init[i] == events[i];
    }
  }

  /** The session counts as checked exactly when some first-lookup answer
      arrived before any unmount. */
  lemma {:induction false} CheckedOnlyByResolutionWhileMounted(events: seq<LayoutEvent>)
    ensures Run(Initial, events).hasCheckedSession <==>
      exists i :: 0 <= i < |events| && events[i].SessionResolved? &&
        forall j :: 0 <= j < i ==> !events[j].Unmounted?
  {
    if events != [] {
      var n := |events| - 1;
      var init := events[..n];
      CheckedOnlyByResolutionWhileMounted(init);
      MountedUntilUnmount(init);
      assert forall i :: 0 <= i < |init| ==> init[i] == events[i];
    }
  }

  /** After a successful upsert the same session is not upserted again; after
      a failed one the same user stays the target, so the next run of the
      profile effect (after the session changes) upserts it again. */
  lemma UpsertOutcome(st: LayoutState)
    requires UpsertTarget(st).Some?
    ensures UpsertTarget(Step(st, ProfileSynced(true))).None?
    ensures UpsertTarget(Step(st, ProfileSynced(false))) == UpsertTarget(st)
  {
  }

  /** Whether an event brings no session other than user `u`'s. */
  predicate KeepsUser(e: LayoutEvent, u: string) {
    match e
    case SessionResolved(s) => s.None? || s.value.userId == u
    case AuthStateChanged(s) => s.None? || s.value.userId == u
    case _ => true
  }

  /** Once user `u`'s profile is upserted, no further upsert happens as long
      as no other user signs in, signing out and back in included. */
  lemma {:induction false} NoRepeatUpsertForSameUser(st: LayoutState, events: seq<LayoutEvent>, u: string)
    requires st.lastUpsertedUserId == Some(u)
    requires st.session.None? || st.session.value.userId == u
    requires forall i :: 0 <= i < |events| ==> KeepsUser(events[i], u)
    ensures Run(st, events).lastUpsertedUserId == Some(u)
    ensures UpsertTarget(Run(st, events)).None?
  {
    if events != [] {
      var init := events[..|events| - 1];
      assert forall i :: 0 <= i < |init| ==> init[i] == events[i];
      NoRepeatUpsertForSameUser(st, init, u);
      assert KeepsUser(events[|events| - 1], u);
    }
  }

  /** The guard remembers only the last user: signing in as `a`, then `b`,
      then `a` again makes `a` the upsert target a second time. */
  lemma SwitchingBackUpsertsAgain(a: string, b: string)
    requires a != b
    ensures var events := [
        SessionResolved(Some(Session(a))), ProfileSynced(true),
        AuthStateChanged(Some(Session(b))), ProfileSynced(true),
        AuthStateChanged(Some(Session(a)))];
      UpsertTarget(Run(Initial, events)) == Some(a)
  {
    var events := [
        SessionResolved(Some(Session(a))), ProfileSynced(true),
        AuthStateChanged(Some(Session(b))), ProfileSynced(true),
        AuthStateChanged(Some(Session(a)))];
    var s1 := Step(Initial, events[0]);
    var s2 := Step(s1, events[1]);
    var s3 := Step(s2, events[2]);
    var s4 := Step(s3, events[3]);
    assert s4.lastUpsertedUserId == Some(b);
    assert events[..1][..0] == [];
    assert Run(Initial, events[..1]) == s1;
    assert events[..2][..1] == events[..1];
    assert Run(Initial, events[..2]) == s2;
    assert events[..3][..2] == events[..2];
    assert Run(Initial, events[..3]) == s3;
    assert events[..4][..3] == events[..3];
    assert Run(Initial, events[..4]) == s4;
    assert events[..4] == events[..|events| - 1];
  }

  // ---------------------------------------------------------------------
  // The component's state

  /** The layout component: its React state, the `isMounted` flag of its
      first effect, and the `lastUpsertedUserId` ref. */
  class LayoutController {
    var isMounted: bool
    var session: Option<Session>
    var hasCheckedSession: bool
    var lastUpsertedUserId: Option<string>

    constructor ()
      ensures State() == Initial
    {
      isMounted, session, hasCheckedSession, lastUpsertedUserId := true, None, false, None;
    }

    function State(): LayoutState
      reads this
    {
      LayoutState(isMounted, session, hasCheckedSession, lastUpsertedUserId)
    }

    /** The initial `getSession()` resolves; ignored once unmounted. */
    method OnSessionResolved(resolved: Option<Session>)
      modifies this
      ensures State() == Step(old(State()), SessionResolved(resolved))
    {
      if !isMounted {
        return;
      }
      session := resolved;
      hasCheckedSession := true;
    }

    /** The auth listener fires; it is unsubscribed at unmount. */
    method OnAuthStateChange(changed: Option<Session>)
      modifies this
      ensures State() == Step(old(State()), AuthStateChanged(changed))
    {
      if isMounted {
        session := changed;
      }
    }

    /** The cleanup of the first effect. */
    method Unmount()
      modifies this
      ensures State() == Step(old(State()), Unmounted)
    {
      isMounted := false;
    }

    /** The profile effect. Returns the user whose profile it upserts (None
        when the guard skips); the ref records that user only when the
        upsert succeeded. */
    method SyncProfile(upsertSucceeded: bool) returns (upserted: Option<string>)
      modifies this
      ensures upserted == UpsertTarget(old(State()))
      ensures State() == Step(old(State()), ProfileSynced(upsertSucceeded))
    {
      if session.None? {
        return None;
      }
      var userId := session.value.userId;
      if lastUpsertedUserId == Some(userId) {
        return None;
      }
      upserted := Some(userId);
      if !upsertSucceeded {
        return;
      }
      lastUpsertedUserId := Some(userId);
    }
  }
}
