/**
 * `ESBCachingApi`: a cache in front of the portal download that asks for
 * fresh data at most once every five minutes, since the data changes about
 * once a day.
 *
 * Clock readings are instants in microseconds (`datetime.now()`); the order
 * of naive `datetime` values is the order of their instants
 * (`Calendar.BeforeIffEarlier`). The underlying download is not called here:
 * what it would do is passed in as an `Outcome`, together with the clock
 * reading taken once it has finished.
 */
module Caching {
  import opened Wrappers

  /** `MIN_TIME_BETWEEN_UPDATES = timedelta(minutes=5)`, in microseconds. */
  const MinTimeBetweenUpdates := 300_000_000

  /**
   * What a fetch does: give back data, raise an `Exception`, which `fetch`
   * catches, or be interrupted by a `BaseException` that is not an
   * `Exception` (`asyncio.CancelledError` when the awaiting task is
   * cancelled), which passes through `fetch` untouched.
   */
  datatype Outcome<D, E> = Fetched(data: D) | Raised(error: E) | Interrupted(error: E)

  /** `_cached_data` and `_cached_data_timestamp` as values. */
  datatype CacheState<D> = CacheState(data: Option<D>, timestamp: Option<int>)

  /** Data and timestamp are both present or both absent. */
  predicate Consistent<D>(st: CacheState<D>) {
    st.data.Some? <==> st.timestamp.Some?
  }

  /**
   * The refresh test: no timestamp, or one strictly older than five minutes
   * before `now`.
   */
  predicate IsStale(timestamp: Option<int>, now: int) {
    timestamp.None? || timestamp.value < now - MinTimeBetweenUpdates
  }

  /**
   * One call of `fetch` on the state `st`, with the clock reading `now` for
   * the test, `underlying` for what `ESBDataApi.fetch` would do if called,
   * and `finishedAt` for the clock reading after it returns. Gives the new
   * state and what `fetch` returns or raises.
   */
  function Step<D, E>(st: CacheState<D>, now: int, underlying: Outcome<D, E>, finishedAt: int)
    : (r: (CacheState<D>, Outcome<D, E>))
    requires Consistent(st)
    ensures Consistent(r.0)
    ensures r.1.Fetched? ==> r.0.data == Some(r.1.data)
    ensures r.1.Raised? ==> r.0 == CacheState(None, None)
    ensures r.1.Interrupted? ==> r.0 == st
  {
    if IsStale(st.timestamp, now) then
      match underlying
      case Fetched(data) => (CacheState(Some(data), Some(finishedAt)), Fetched(data))
      case Raised(error) => (CacheState(None, None), Raised(error))
      case Interrupted(error) => (st, Interrupted(error))
    else
      (st, Fetched(st.data.value))
  }

  /**
   * Within five minutes of the timestamp the cached data is returned and
   * nothing changes, whatever the download would have done: it is not called.
   */
  lemma FreshServesCache<D, E>(st: CacheState<D>, now: int, underlying: Outcome<D, E>, finishedAt: int)
    requires Consistent(st) && !IsStale(st.timestamp, now)
    ensures st.data.Some?
    ensures Step(st, now, underlying, finishedAt) == (st, Fetched(st.data.value))
  {
  }

  /**
   * When stale, `fetch` passes on exactly what the download does: its data,
   * now cached with the finishing time; its `Exception`, with the cache
   * cleared; or an interruption, with the cache left as it was.
   */
  lemma StaleRefreshes<D, E>(st: CacheState<D>, now: int, underlying: Outcome<D, E>, finishedAt: int)
    requires Consistent(st) && IsStale(st.timestamp, now)
    ensures Step(st, now, underlying, finishedAt).1 == underlying
    ensures Step(st, now, underlying, finishedAt).0
            == match underlying
               case Fetched(data) => CacheState(Some(data), Some(finishedAt))
               case Raised(_) => CacheState(None, None)
               case Interrupted(_) => st
  {
  }

  /**
   * The download is consulted exactly when the cache is stale: a failing
   * download shows through `fetch` if and only if the test says refresh.
   */
  lemma RaisesIffStale<D, E>(st: CacheState<D>, now: int, error: E, finishedAt: int)
    requires Consistent(st)
    ensures Step(st, now, Raised(error), finishedAt).1.Raised? <==> IsStale(st.timestamp, now)
  {
  }

  /** A timestamp exactly five minutes old is still fresh; a microsecond more and it is stale. */
  lemma FiveMinutesBoundary(timestamp: int, now: int)
    requires now == timestamp + MinTimeBetweenUpdates
    ensures !IsStale(Some(timestamp), now)
    ensures IsStale(Some(timestamp), now + 1)
  {
  }

  /** After a failed refresh the next call refreshes, whatever the clock says. */
  lemma RefreshAfterFailure<D, E>(st: CacheState<D>, now: int, underlying: Outcome<D, E>, finishedAt: int, next: int)
    requires Consistent(st) && Step(st, now, underlying, finishedAt).1.Raised?
    ensures IsStale(Step(st, now, underlying, finishedAt).0.timestamp, next)
  {
  }

  /**
   * After a call that returned data, every call up to five minutes after the
   * cache's timestamp returns the same data and leaves the cache as it is,
   * whatever the download would do.
   */
  lemma ServedWithinFiveMinutes<D, E>(st: CacheState<D>, now: int, underlying: Outcome<D, E>, finishedAt: int,
                                      later: int, underlying2: Outcome<D, E>, finishedAt2: int)
    requires Consistent(st)
    requires Step(st, now, underlying, finishedAt).1.Fetched?
    requires later <= Step(st, now, underlying, finishedAt).0.timestamp.value + MinTimeBetweenUpdates
    ensures Step(Step(st, now, underlying, finishedAt).0, later, underlying2, finishedAt2)
            == Step(st, now, underlying, finishedAt)
  {
  }

  /** `ESBCachingApi`, with the two fields it updates in place. */
  class CachingApi<D, E> {
    var cachedData: Option<D>
    var cachedDataTimestamp: Option<int>

    ghost predicate Valid()
      reads this
    {
      Consistent(State())
    }

    function State(): CacheState<D>
      reads this
    {
      CacheState(cachedData, cachedDataTimestamp)
    }

    /** `__init__`: nothing cached yet. */
    constructor ()
      ensures Valid() && cachedData == None && cachedDataTimestamp == None
    {
      cachedData := None;
      cachedDataTimestamp := None;
    }

    /** `fetch`, returning the cached data or re-raising the download's error. */
    method Fetch(now: int, underlying: Outcome<D, E>, finishedAt: int) returns (r: Outcome<D, E>)
      requires Valid()
      modifies this
      ensures Valid()
      ensures (State(), r) == Step(old(State()), now, underlying, finishedAt)
    {
      if cachedDataTimestamp.None? || cachedDataTimestamp.value < now - MinTimeBetweenUpdates {
        match underlying
        case Fetched(data) =>
          cachedData := Some(data);
          cachedDataTimestamp := Some(finishedAt);
        case Raised(error) =>
          cachedData := None;
          cachedDataTimestamp := None;
          return Raised(error);
        case Interrupted(error) =>
          return Interrupted(error);
      }
      return Fetched(cachedData.value);
    }
  }
}
