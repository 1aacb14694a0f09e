/** The per-address fixed-window rate limiter of the submission middleware
    (src/app/middleware.ts). A table from client key to {count, timestamp}
    lives for the life of the server process; each request to the guarded
    path creates its key's entry if needed, restarts the window once it is
    more than a minute old, counts the request, and rejects it once the
    count exceeds five. */
module RateLimit {
  import opened Form

  /** The only path the middleware's matcher applies it to. */
  const GuardedPath: string := "/api/recruit"
  /** Window length in milliseconds. */
  const WindowMs: int := 60 * 1000
  /** Requests admitted per window. */
  const MaxRequests: int := 5
  /** The bucket shared by every request without a usable forwarding header. */
  const UnknownKey: string := "unknown"
  const TooManyMessage: string := "Too many requests"

  datatype Entry = Entry(count: int, timestamp: int)

  /** `NextResponse.next()`, which hands the request on to the route, or
      the JSON rejection with its status and error text. */
  datatype Verdict = Next | TooManyRequests(status: int, error: string)

  /** The answer to a request over the limit. */
  const Rejected: Verdict := TooManyRequests(429, TooManyMessage)

  type Store = map<string, Entry>

  /** `request.headers.get('x-forwarded-for') || 'unknown'`: a missing
      header and an empty one both fall back to the shared key. */
  function ClientKey(header: Option<string>): (k: string)
    ensures k == UnknownKey <==> header.None? || header.value == "" || header.value == UnknownKey
    ensures k != UnknownKey ==> header == Some(k)
  {
    if header.Some? && header.value != "" then header.value else UnknownKey
  }

  /** The entry after one guarded request at time `now`, given the entry
      before (None when the key has not been seen). */
  function Bump(e: Option<Entry>, now: int): (r: Entry)
    ensures e.Some? && now - e.value.timestamp <= WindowMs ==> r == Entry(e.value.count + 1, e.value.timestamp)
    ensures e.None? || now - e.value.timestamp > WindowMs ==> r == Entry(1, now)
  {
    var cur := if e.Some? then e.value else Entry(0, now);
    var w := if now - cur.timestamp > WindowMs then Entry(0, now) else cur;
    Entry(w.count + 1, w.timestamp)
  }

  function Lookup(store: Store, k: string): Option<Entry>
  {
    if k in store then Some(store[k]) else None
  }

  /** One call of the middleware: the new table and the verdict. */
  function Step(store: Store, path: string, header: Option<string>, now: int): (Store, Verdict)
  {
    if path != GuardedPath then (store, Next)
    else
      var k := ClientKey(header);
      var e := Bump(Lookup(store, k), now);
      (store[k := e], if e.count > MaxRequests then Rejected else Next)
  }

  /** Every entry has counted at least the request that created it. */
  ghost predicate WellFormed(store: Store)
  {
    forall k | k in store :: store[k].count >= 1
  }

  /** The module-level `ipStore`, updated in place by each request. */
  class RateLimiter {
    var ipStore: Store

    ghost predicate Valid()
      reads this
    {
      WellFormed(ipStore)
    }

    constructor ()
      ensures Valid() && ipStore == map[]
    {
      ipStore := map[];
    }

    method Middleware(path: string, header: Option<string>, now: int) returns (v: Verdict)
      requires Valid()
      modifies this
      ensures Valid()
      ensures (ipStore, v) == Step(old(ipStore), path, header, now)
    {
      if path == GuardedPath {
        ghost var before := ipStore;
        var ip := if header.Some? && header.value != "" then header.value else UnknownKey;
        if ip !in ipStore {
          ipStore := ipStore[ip := Entry(0, now)];
        }
        if now - ipStore[ip].timestamp > WindowMs {
          ipStore := ipStore[ip := Entry(0, now)];
        }
        ipStore := ipStore[ip := ipStore[ip].(count := ipStore[ip].count + 1)];
        assert ipStore == before[ip := Bump(Lookup(before, ip), now)];
        if ipStore[ip].count > MaxRequests {
          return Rejected;
        }
      }
      return Next;
    }
  }

  // ---------------------------------------------------------------------
  // Properties of one request

  /** Requests to any other path pass through and leave the table alone. */
  lemma OtherPathsPassThrough(store: Store, path: string, header: Option<string>, now: int)
    requires path != GuardedPath
    ensures Step(store, path, header, now) == (store, Next)
  {
  }

  /** A guarded request changes exactly its own key's entry: the count goes
      up by one from the previous count, or from zero when the key is new or
      its window is more than WindowMs old (an age of exactly WindowMs keeps
      the window); the request is rejected iff the new count exceeds five;
      no key is removed and no other entry changes. */
  lemma GuardedStep(store: Store, header: Option<string>, now: int)
    ensures var (s', v) := Step(store, GuardedPath, header, now);
      var k := ClientKey(header);
      var keep := k in store && now - store[k].timestamp <= WindowMs;
      && s'.Keys == store.Keys + {k}
      && (forall j | j in store && j != k :: s'[j] == store[j])
      && s'[k].count == (if keep then store[k].count else 0) + 1
      && s'[k].timestamp == (if keep then store[k].timestamp else now)
      && (v.TooManyRequests? <==> s'[k].count > MaxRequests)
      && (v.TooManyRequests? ==> v == Rejected)
  {
  }

  /** The first request from a new key is stored as {count: 1, timestamp: now}
      and admitted. */
  lemma FirstRequestAdmitted(store: Store, header: Option<string>, now: int)
    requires ClientKey(header) !in store
    ensures Step(store, GuardedPath, header, now) ==
      (store[ClientKey(header) := Entry(1, now)], Next)
  {
  }

  /** A window older than WindowMs restarts: whatever the old count, the
      request is admitted with count 1. */
  lemma ExpiredWindowReadmits(store: Store, header: Option<string>, now: int)
    requires ClientKey(header) in store
    requires now - store[ClientKey(header)].timestamp > WindowMs
    ensures Step(store, GuardedPath, header, now) ==
      (store[ClientKey(header) := Entry(1, now)], Next)
  {
  }

  /** Requests with no header, an empty header, or the literal header
      "unknown" all share one counter. */
  lemma MissingHeaderSharesBucket(store: Store, now: int)
    ensures Step(store, GuardedPath, None, now) == Step(store, GuardedPath, Some(""), now)
    ensures Step(store, GuardedPath, None, now) == Step(store, GuardedPath, Some(UnknownKey), now)
  {
  }

  // ---------------------------------------------------------------------
  // Sequences of requests

  datatype Request = Request(path: string, header: Option<string>, now: int)

  /** The middleware applied to requests in arrival order. */
  function Run(store: Store, reqs: seq<Request>): (out: (Store, seq<Verdict>))
    ensures |out.1| == |reqs|
    decreases |reqs|
  {
    if reqs == [] then (store, [])
    else
      var (s1, v) := Step(store, reqs[0].path, reqs[0].header, reqs[0].now);
      var (s2, vs) := Run(s1, reqs[1..]);
      (s2, [v] + vs)
  }

  /** Guarded requests from one client, all no more than WindowMs after the
      start `t0` of its current window holding `c` requests: the i-th is
      rejected iff c + i + 1 > 5, and afterwards the window has counted them
      all. Rejected requests are counted too. */
  lemma {:induction false} SameWindow(store: Store, key: string, c: int, t0: int, reqs: seq<Request>)
    requires key in store && store[key] == Entry(c, t0)
    requires forall i | 0 <= i < |reqs| ::
      reqs[i].path == GuardedPath && ClientKey(reqs[i].header) == key && reqs[i].now - t0 <= WindowMs
    ensures var (s', vs) := Run(store, reqs);
      && key in s' && s'[key] == Entry(c + |reqs|, t0)
      && forall i | 0 <= i < |reqs| :: (vs[i].TooManyRequests? <==> c + i + 1 > MaxRequests)
    decreases |reqs|
  {
    if reqs != [] {
      var r := reqs[0];
      var (s1, v) := Step(store, r.path, r.header, r.now);
      assert s1[key] == Entry(c + 1, t0);
      assert v.TooManyRequests? <==> c + 1 > MaxRequests;
      SameWindow(s1, key, c + 1, t0, reqs[1..]);
      var (s2, vs') := Run(s1, reqs[1..]);
      assert Run(store, reqs) == (s2, [v] + vs');
      forall i | 1 <= i < |reqs|
        ensures (([v] + vs')[i].TooManyRequests? <==> c + i + 1 > MaxRequests)
      {
        assert ([v] + vs')[i] == vs'[i - 1];
      }
    }
  }

  /** From a client whose key is new, requests within one minute of the
      first: the first five are admitted and the sixth and later rejected. */
  lemma {:induction false} FivePerWindow(store: Store, reqs: seq<Request>)
    requires |reqs| > 0
    requires ClientKey(reqs[0].header) !in store
    requires forall i | 0 <= i < |reqs| ::
      reqs[i].path == GuardedPath && ClientKey(reqs[i].header) == ClientKey(reqs[0].header)
      && reqs[i].now - reqs[0].now <= WindowMs
    ensures forall i | 0 <= i < |reqs| :: (Run(store, reqs).1[i].TooManyRequests? <==> i >= 5)
  {
    var key, t0 := ClientKey(reqs[0].header), reqs[0].now;
    var (s1, v) := Step(store, GuardedPath, reqs[0].header, t0);
    assert s1[key] == Entry(1, t0);
    SameWindow(s1, key, 1, t0, reqs[1..]);
    var (s2, vs') := Run(s1, reqs[1..]);
    assert Run(store, reqs) == (s2, [v] + vs');
    forall i | 0 <= i < |reqs|
      ensures (([v] + vs')[i].TooManyRequests? <==> i >= 5)
    {
      if i > 0 { assert ([v] + vs')[i] == vs'[i - 1]; }
    }
  }

  /** Entries are never removed, and requests for other keys never touch
      this key's entry, over any sequence of requests. */
  lemma {:induction false} RunKeepsKeys(store: Store, reqs: seq<Request>)
    ensures store.Keys <= Run(store, reqs).0.Keys
    ensures forall k | k in store && (forall i | 0 <= i < |reqs| ::
        reqs[i].path != GuardedPath || ClientKey(reqs[i].header) != k) ::
      Run(store, reqs).0[k] == store[k]
    decreases |reqs|
  {
    if reqs != [] {
      var (s1, v) := Step(store, reqs[0].path, reqs[0].header, reqs[0].now);
      RunKeepsKeys(s1, reqs[1..]);
      forall k | k in store && (forall i | 0 <= i < |reqs| ::
          reqs[i].path != GuardedPath || ClientKey(reqs[i].header) != k)
        ensures Run(store, reqs).0[k] == store[k]
      {
        assert reqs[0].path != GuardedPath || ClientKey(reqs[0].header) != k;
        assert s1[k] == store[k];
        forall i | 0 <= i < |reqs[1..]|
          ensures reqs[1..][i].path != GuardedPath || ClientKey(reqs[1..][i].header) != k
        {
          assert reqs[1..][i] == reqs[i + 1];
        }
      }
    }
  }
}
