/** The `App` component (App.tsx): five state cells and the callbacks that
    update them. Each React state setter becomes a field assignment; each
    callback becomes a method; an `await` splits handleSearch into the part
    before the query (BeginSearch) and the part after it (SearchResolved,
    SearchFailed). Two ghost flags record which asynchronous requests are in
    flight, so that callbacks are only delivered for a request that was made. */
module App {
  import opened Wrappers
  import opened Types
  import GeminiService

  const NoGeolocationMsg := "Geolocation hardware not found."
  const PermissionDeniedMsg := "Access Denied. Enable Location Services."
  const PositionUnavailableMsg := "Position Unavailable. Check Signal."
  const TimeoutMsg := "Connection Timed Out. Retry Scan."
  const GpsErrorPrefix := "GPS Error: "
  const NoFixMsg := "No GPS Fix. Cannot Scan."
  const SectorClearMsg := "Sector clear. No kebab signatures detected."
  const CommsFailedMsg := "Comms Link Failed (API Error)."

  /** The codes of a GeolocationPositionError. */
  const PermissionDenied := 1
  const PositionUnavailable := 2
  const Timeout := 3

  predicate IsClassified(code: int) {
    code == PermissionDenied || code == PositionUnavailable || code == Timeout
  }

  predicate HasGpsErrorPrefix(msg: string) {
    |GpsErrorPrefix| <= |msg| && msg[..|GpsErrorPrefix|] == GpsErrorPrefix
  }

  /** The message the geolocation error callback stores. The three known
      codes get distinct fixed messages; any other code gets the platform's
      own message behind the "GPS Error: " prefix, which no fixed message has. */
  function LocationErrorMessage(code: int, message: string): (msg: string)
    ensures IsClassified(code) <==> !HasGpsErrorPrefix(msg)
    ensures !IsClassified(code) ==> msg[|GpsErrorPrefix|..] == message
    ensures code == PermissionDenied ==> msg == PermissionDeniedMsg
    ensures code == PositionUnavailable ==> msg == PositionUnavailableMsg
    ensures code == Timeout ==> msg == TimeoutMsg
  {
    if IsClassified(code) then
      var fixed := if code == PermissionDenied then PermissionDeniedMsg
                   else if code == PositionUnavailable then PositionUnavailableMsg
                   else TimeoutMsg;
      assert fixed[0] != GpsErrorPrefix[0];
      assert |fixed| >= |GpsErrorPrefix| ==> fixed[..|GpsErrorPrefix|][0] == fixed[0];
      fixed
    else
      assert (GpsErrorPrefix + message)[..|GpsErrorPrefix|] == GpsErrorPrefix;
      GpsErrorPrefix + message
  }

  class App {
    var appState: AppState
    var coords: Option<Coordinates>
    var target: Option<KebabPlace>
    var errorMsg: Option<string>
    var heading: real

    /** A geolocation request has been made and its callback has not run. */
    ghost var locatePending: bool
    /** A findKebabs query has been issued and has not settled. */
    ghost var queryPending: bool

    /** The invariant of every reachable state: each request is in flight
        exactly while its view shows; a place is held exactly in RESULTS;
        a scan, and its result, come only with a fix; ERROR has a message. */
    ghost predicate Valid()
      reads this
    {
      (locatePending <==> appState == Locating) &&
      (queryPending <==> appState == Searching) &&
      (target.Some? <==> appState == Results) &&
      (appState == Locating ==> coords.None?) &&
      (appState == Searching || appState == Results ==> coords.Some? && errorMsg.None?) &&
      (appState == Error ==> errorMsg.Some?)
    }

    /** The cells' initial values, as the component mounts. */
    constructor ()
      ensures Valid()
      ensures appState == Idle && coords.None? && target.None? && errorMsg.None? && heading == 0.0
      ensures !locatePending && !queryPending
    {
      appState, coords, target, errorMsg, heading := Idle, None, None, None, 0.0;
      locatePending, queryPending := false, false;
    }

    /** The mount effect: without geolocation, ERROR; otherwise LOCATING with
        a position request in flight. Orientation listening is not modelled
        beyond HeadingUpdate. */
    method Init(hasGeolocation: bool)
      requires Valid() && coords.None? && (appState == Idle || appState == Error)
      modifies this
      ensures Valid()
      ensures !hasGeolocation ==> appState == Error && errorMsg == Some(NoGeolocationMsg) && !locatePending
      ensures hasGeolocation ==> appState == Locating && errorMsg == old(errorMsg) && locatePending
      ensures coords == old(coords) && target == old(target) && heading == old(heading)
      ensures queryPending == old(queryPending)
    {
      if !hasGeolocation {
        errorMsg := Some(NoGeolocationMsg);
        appState := Error;
        return;
      }
      appState := Locating;
      locatePending := true;
    }

    /** The position callback: store the fix and show IDLE. */
    method LocSuccess(c: Coordinates)
      requires Valid() && locatePending
      modifies this
      ensures Valid()
      ensures coords == Some(c) && appState == Idle && !locatePending
      ensures target == old(target) && errorMsg == old(errorMsg) && heading == old(heading)
      ensures queryPending == old(queryPending)
    {
      coords := Some(c);
      appState := Idle;
      locatePending := false;
    }

    /** The error callback: store the message for the error's code and show ERROR. */
    method LocError(code: int, message: string)
      requires Valid() && locatePending
      modifies this
      ensures Valid()
      ensures errorMsg == Some(LocationErrorMessage(code, message)) && appState == Error && !locatePending
      ensures coords == old(coords) && target == old(target) && heading == old(heading)
      ensures queryPending == old(queryPending)
    {
      errorMsg := Some(LocationErrorMessage(code, message));
      appState := Error;
      locatePending := false;
    }

    /** An orientation event: only the heading changes, in any state. */
    method HeadingUpdate(h: real)
      requires Valid()
      modifies this
      ensures Valid()
      ensures heading == h
      ensures appState == old(appState) && coords == old(coords) && target == old(target)
      ensures errorMsg == old(errorMsg)
      ensures locatePending == old(locatePending) && queryPending == old(queryPending)
    {
      heading := h;
    }

    /** handleSearch up to the query: without a fix, ERROR and no query;
        otherwise SEARCHING with target and message cleared before the query
        is issued. Its callers only offer it while no request is in flight. */
    method BeginSearch()
      requires Valid() && !locatePending && !queryPending
      modifies this
      ensures Valid()
      ensures old(coords).None? ==>
        errorMsg == Some(NoFixMsg) && appState == Error && !queryPending && target == old(target)
      ensures old(coords).Some? ==>
        appState == Searching && target.None? && errorMsg.None? && queryPending
      ensures coords == old(coords) && heading == old(heading) && !locatePending
    {
      if coords.None? {
        errorMsg := Some(NoFixMsg);
        appState := Error;
        return;
      }
      appState := Searching;
      target := None;
      errorMsg := None;
      queryPending := true;
    }

    /** handleSearch after the query returned: no place is IDLE with the
        "sector clear" message, otherwise RESULTS holding the first place. */
    method SearchResolved(results: seq<KebabPlace>)
      requires Valid() && queryPending
      modifies this
      ensures Valid()
      ensures results == [] ==> appState == Idle && errorMsg == Some(SectorClearMsg) && target == old(target)
      ensures results != [] ==> appState == Results && target == Some(results[0]) && errorMsg == old(errorMsg)
      ensures !queryPending && coords == old(coords) && heading == old(heading)
      ensures locatePending == old(locatePending)
    {
      if |results| == 0 {
        errorMsg := Some(SectorClearMsg);
        appState := Idle;
      } else {
        target := Some(results[0]);
        appState := Results;
      }
      queryPending := false;
    }

    /** handleSearch after the query threw, whatever the error: ERROR with the
        generic link-failure message. */
    method SearchFailed()
      requires Valid() && queryPending
      modifies this
      ensures Valid()
      ensures appState == Error && errorMsg == Some(CommsFailedMsg)
      ensures !queryPending && coords == old(coords) && target == old(target) && heading == old(heading)
      ensures locatePending == old(locatePending)
    {
      errorMsg := Some(CommsFailedMsg);
      appState := Error;
      queryPending := false;
    }

    /** The try/catch around `await findKebabs(coords)`: the outcome of the
        query settles the scan, which never stays in SEARCHING. */
    method SearchCompleted(outcome: Result<seq<KebabPlace>, GeminiService.ServiceError>)
      requires Valid() && queryPending
      modifies this
      ensures Valid()
      ensures appState != Searching && !queryPending
      ensures outcome.Failure? ==> appState == Error && errorMsg == Some(CommsFailedMsg)
      ensures outcome.Success? && outcome.value == [] ==> appState == Idle && errorMsg == Some(SectorClearMsg)
      ensures outcome.Success? && outcome.value != [] ==> appState == Results && target == Some(outcome.value[0])
      ensures coords == old(coords) && heading == old(heading)
    {
      match outcome {
        case Success(results) => SearchResolved(results);
        case Failure(_) => SearchFailed();
      }
    }

    /** `window.location.reload()`: the cells return to their initial values
        (any request in flight is abandoned) and the mount effect runs again. */
    method Reload(hasGeolocation: bool)
      requires Valid()
      modifies this
      ensures Valid()
      ensures coords.None? && target.None? && heading == 0.0 && !queryPending
      ensures !hasGeolocation ==> appState == Error && errorMsg == Some(NoGeolocationMsg)
      ensures hasGeolocation ==> appState == Locating && errorMsg.None? && locatePending
    {
      appState, coords, target, errorMsg, heading := Idle, None, None, None, 0.0;
      locatePending, queryPending := false, false;
      Init(hasGeolocation);
    }

    /** reset: with a fix, IDLE with target and message cleared and the fix
        kept; without one, reload. It is only offered when no query is in flight. */
    method Reset(hasGeolocation: bool)
      requires Valid() && !queryPending
      modifies this
      ensures Valid()
      ensures old(coords).Some? ==>
        appState == Idle && target.None? && errorMsg.None? && coords == old(coords) &&
        heading == old(heading) && locatePending == old(locatePending) && !queryPending
      ensures old(coords).None? ==>
                coords.None? && target.None? && heading == 0.0 && !queryPending &&
                (if hasGeolocation then appState == Locating && locatePending && errorMsg.None?
                 else appState == Error && errorMsg == Some(NoGeolocationMsg))
    {
      if coords.Some? {
        appState := Idle;
        target := None;
        errorMsg := None;
      } else {
        Reload(hasGeolocation);
      }
    }

    /** The header button's `disabled` rule. */
    predicate HeaderDisabled()
      reads this
      ensures Valid() && !HeaderDisabled() ==> !locatePending && !queryPending && (coords.Some? || appState == Error)
    {
      appState == Searching || appState == Locating || (coords.None? && appState != Error)
    }

    /** A press on the header button: nothing while it is disabled; reset in
        RESULTS; handleSearch otherwise. In particular a press during a scan
        changes nothing, so at most one query is ever in flight. */
    method HeaderPress(hasGeolocation: bool)
      requires Valid()
      modifies this
      ensures Valid()
      ensures coords == old(coords) && heading == old(heading)
      ensures old(HeaderDisabled()) ==> unchanged(this)
      ensures old(appState) == Searching || old(appState) == Locating ==> unchanged(this)
      ensures !old(HeaderDisabled()) && old(appState) == Results ==>
        appState == Idle && target.None? && errorMsg.None? && coords == old(coords)
      ensures !old(HeaderDisabled()) && old(appState) != Results ==>
        if old(coords).Some? then appState == Searching && queryPending && target.None? && errorMsg.None?
        else appState == Error && errorMsg == Some(NoFixMsg)
    {
      if HeaderDisabled() {
        return;
      }
      if appState == Results {
        Reset(hasGeolocation);
      } else {
        BeginSearch();
      }
    }

    /** The "Initiate Scan" button, shown only in IDLE, calls handleSearch. */
    method ScanPress()
      requires Valid() && appState == Idle
      modifies this
      ensures Valid()
      ensures old(coords).Some? ==> appState == Searching && queryPending && target.None? && errorMsg.None?
      ensures old(coords).None? ==> appState == Error && errorMsg == Some(NoFixMsg) && !queryPending
      ensures coords == old(coords) && heading == old(heading)
    {
      BeginSearch();
    }

    /** The "Retry Connection" button, shown only in ERROR, reloads. */
    method RetryPress(hasGeolocation: bool)
      requires Valid() && appState == Error
      modifies this
      ensures Valid()
      ensures coords.None? && target.None? && heading == 0.0 && !queryPending
      ensures hasGeolocation ==> appState == Locating && locatePending && errorMsg.None?
      ensures !hasGeolocation ==> appState == Error && errorMsg == Some(NoGeolocationMsg)
    {
      Reload(hasGeolocation);
    }
  }

  /** One session, driven through the contracts alone: locate, scan, show a
      place, press the header button to reset, and scan again. */
  method Session(c: Coordinates, place: KebabPlace)
  {
    var app := new App();
    app.Init(true);
    assert app.HeaderDisabled();
    app.LocSuccess(c);
    app.HeadingUpdate(90.0);
    app.ScanPress();
    assert app.appState == Searching && app.HeaderDisabled();
    app.HeaderPress(true);
    assert app.appState == Searching && app.queryPending;
    app.SearchCompleted(Success([place]));
    assert app.appState == Results && app.target == Some(place) && app.heading == 90.0;
    app.HeaderPress(true);
    assert app.appState == Idle && app.target.None? && app.coords == Some(c) && app.heading == 90.0;
    app.HeaderPress(true);
    assert app.appState == Searching;
    app.SearchCompleted(Failure(GeminiService.RequestFailed("timeout")));
    assert app.appState == Error && app.errorMsg == Some(CommsFailedMsg);
  }
}
