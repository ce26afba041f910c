/** The two interceptors of `src/modules/http.js`. Before a mutating request
    the CSRF cookie is refreshed when the expiry remembered in storage is
    missing, unreadable or past, and the new expiry, 50 minutes ahead, is
    remembered once the refresh succeeds. After a failed response with status
    403 or a network error the session entries are dropped from storage.

    Times are milliseconds since the epoch. The clock reading is the
    parameter `now`; `parseDate` stands for `new Date(text)` (`None` where the
    date is invalid) and `formatDate` for the text `setItem` stores for a
    date. */
module Http {
  import opened Wrappers
  import opened WebStorage

  /** The methods the request interceptor acts on. */
  const MutatingMethods: seq<string> := ["post", "patch", "put", "delete"]

  /** `allowedMethods.includes(config?.method)`. */
  predicate IsMutating(verb: Option<string>) {
    verb.Some? && verb.value in MutatingMethods
  }

  /** The request configuration; only its method is looked at. */
  datatype RequestConfig = RequestConfig(verb: Option<string>, url: Option<string>, headers: map<string, string>)

  /** Section 21.4.1.31 of ECMAScript (TimeClip): a date is valid within
      8.64 * 10^15 milliseconds of the epoch. */
  const MaxTime: int := 8_640_000_000_000_000

  predicate IsValidTime(t: int) {
    -MaxTime <= t <= MaxTime
  }

  /** `setHours(h, m + 50, s, ms)` on the current time: 50 minutes later. */
  const CsrfLifetime: int := 50 * 60 * 1000

  /** The request interceptor's test on the remembered expiry. */
  predicate CsrfIsStale(csrf: Option<string>, now: int, parseDate: string -> Option<int>) {
    csrf.None? || |csrf.value| == 0 ||
    parseDate(csrf.value).None? ||
    parseDate(csrf.value).value < now
  }

  /** What the request interceptor starts: nothing, or a fetch of a new
      cookie that, once it succeeds, remembers `expiry`. */
  datatype Refresh = NoRefresh | Fetch(expiry: int)

  function CsrfRefresh(verb: Option<string>, csrf: Option<string>, now: int,
                       parseDate: string -> Option<int>): (r: Refresh)
    ensures r.Fetch? ==> r.expiry == now + CsrfLifetime && r.expiry > now && IsValidTime(r.expiry)
  {
    if !IsMutating(verb) then NoRefresh
    else if !CsrfIsStale(csrf, now, parseDate) then NoRefresh
    else if !IsValidTime(now + CsrfLifetime) then NoRefresh
    else Fetch(now + CsrfLifetime)
  }

  /** `get`, `head`, `options` and a missing method never refresh. */
  lemma ReadsNeverRefresh(verb: Option<string>, csrf: Option<string>, now: int,
                          parseDate: string -> Option<int>)
    requires !IsMutating(verb)
    ensures CsrfRefresh(verb, csrf, now, parseDate) == NoRefresh
  {
  }

  /** A mutating request refreshes exactly when the expiry is missing, empty,
      unreadable or strictly before now (and the new expiry is a valid date). */
  lemma RefreshIff(verb: Option<string>, csrf: Option<string>, now: int,
                   parseDate: string -> Option<int>)
    requires IsMutating(verb) && IsValidTime(now + CsrfLifetime)
    ensures CsrfRefresh(verb, csrf, now, parseDate).Fetch? <==>
              csrf == None || csrf == Some([]) ||
              (csrf.Some? && parseDate(csrf.value) == None) ||
              (csrf.Some? && parseDate(csrf.value).Some? && parseDate(csrf.value).value < now)
  {
  }

  /** An expiry at or after now is kept. */
  lemma FreshExpiryIsKept(verb: Option<string>, text: string, expiry: int, now: int,
                          parseDate: string -> Option<int>)
    requires |text| > 0 && parseDate(text) == Some(expiry) && expiry >= now
    ensures CsrfRefresh(verb, Some(text), now, parseDate) == NoRefresh
  {
  }

  /** An expiry remembered by a refresh and read back no more than a second
      early (the stored text drops the milliseconds) keeps every mutating
      request of the next 49 minutes and 59 seconds from refreshing again. */
  lemma RefreshLastsAlmostFiftyMinutes(verb: Option<string>, now: int, later: int,
                                       parseDate: string -> Option<int>, formatDate: int -> string)
    requires var text := formatDate(now + CsrfLifetime);
             |text| > 0 && parseDate(text).Some? && parseDate(text).value > now + CsrfLifetime - 1000
    requires now <= later <= now + CsrfLifetime - 1000
    ensures CsrfRefresh(verb, Some(formatDate(now + CsrfLifetime)), later, parseDate) == NoRefresh
  {
  }

  // ---------------------------------------------------------------------------
  // Response errors

  /** What the response interceptor reads of an error: `response.status`
      and `code`, either possibly missing. */
  datatype HttpError = HttpError(status: Option<int>, code: Option<string>)

  /** `[403].includes(error?.response?.status) || error?.code === 'ERR_NETWORK'`. */
  predicate ForcesLogin(error: HttpError) {
    error.status == Some(403) || error.code == Some("ERR_NETWORK")
  }

  /** The storage after the response interceptor has seen `error`. */
  function AfterError(items: map<string, string>, error: HttpError): (r: map<string, string>)
    ensures ForcesLogin(error) ==>
              AccessTokenKey !in r && UserKey !in r && CsrfKey !in r &&
              forall k :: k in items && k != AccessTokenKey && k != UserKey && k != CsrfKey ==>
                k in r && r[k] == items[k]
    ensures !ForcesLogin(error) ==> r == items
    ensures r.Keys <= items.Keys
  {
    if ForcesLogin(error) then items - {AccessTokenKey, UserKey, CsrfKey} else items
  }

  /** `permissionsErrorMiddleware(error)`: the error is passed on unchanged
      (as the rejection of the returned promise). */
  method PermissionsErrorMiddleware(store: Storage, error: HttpError) returns (rejected: HttpError)
    modifies store
    ensures rejected == error
    ensures store.items == AfterError(old(store.items), error)
  {
    if ForcesLogin(error) {
      store.RemoveItem(AccessTokenKey);
      store.RemoveItem(UserKey);
      store.RemoveItem(CsrfKey);
    }
    rejected := error;
  }

  /** A forced logout is final: a second error of any kind changes nothing more. */
  lemma ForcedLogoutIsIdempotent(items: map<string, string>, e1: HttpError, e2: HttpError)
    requires ForcesLogin(e1)
    ensures AfterError(AfterError(items, e1), e2) == AfterError(items, e1)
  {
  }

  // ---------------------------------------------------------------------------
  // Request interceptor

  /** How the cookie fetch ends; a failed fetch passes through the response
      interceptor like any other failed request. */
  datatype FetchOutcome = Fetched | FetchFailed(error: HttpError)

  /** The storage once the fetch the request interceptor started has ended. */
  function AfterRefresh(items: map<string, string>, refresh: Refresh, outcome: FetchOutcome,
                        formatDate: int -> string): map<string, string>
  {
    match refresh
    case NoRefresh => items
    case Fetch(expiry) =>
      match outcome
      case Fetched => items[CsrfKey := formatDate(expiry)]
      case FetchFailed(error) => AfterError(items, error)
  }

  /** `csrfSuccessMiddleware(config)`, with the fetch it may start run to its
      end (`outcome`) before it returns. */
  method CsrfSuccessMiddleware(store: Storage, config: RequestConfig, now: int,
                               parseDate: string -> Option<int>, formatDate: int -> string,
                               outcome: FetchOutcome)
    returns (result: RequestConfig, refresh: Refresh)
    modifies store
    ensures result == config
    ensures refresh == CsrfRefresh(config.verb, old(store.GetItem(CsrfKey)), now, parseDate)
    ensures store.items == AfterRefresh(old(store.items), refresh, outcome, formatDate)
  {
    result := config;
    refresh := NoRefresh;
    if !IsMutating(config.verb) {
      return;
    }
    var csrfValue := store.GetItem(CsrfKey);
    if CsrfIsStale(csrfValue, now, parseDate) {
      var newDate := now + CsrfLifetime;
      if IsValidTime(newDate) {
        refresh := Fetch(newDate);
        match outcome {
          case Fetched =>
            store.SetItem(CsrfKey, formatDate(newDate));
          case FetchFailed(error) =>
            var _ := PermissionsErrorMiddleware(store, error);
        }
      }
    }
  }

  /** A failed refresh that is not a 403 or a network error leaves the
      storage, the remembered expiry included, as it was. */
  lemma FailedRefreshKeepsStorage(items: map<string, string>, refresh: Refresh, error: HttpError,
                                  formatDate: int -> string)
    requires !ForcesLogin(error)
    ensures AfterRefresh(items, refresh, FetchFailed(error), formatDate) == items
  {
  }

  /** Only the `csrf` entry can change on a successful refresh. */
  lemma RefreshTouchesOnlyCsrf(items: map<string, string>, refresh: Refresh,
                               formatDate: int -> string, k: string)
    requires k != CsrfKey
    ensures var r := AfterRefresh(items, refresh, Fetched, formatDate);
            (k in r <==> k in items) && (k in items ==> r[k] == items[k])
  {
  }
}
