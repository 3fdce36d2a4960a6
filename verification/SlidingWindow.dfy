/** The gateway's in-memory limiter: one queue of accepted times per client.

    `now` is the clock reading of the call.  The original reads it before taking the lock, so
    "clock readings in lock order" (`InOrder`) is a hypothesis of the exactness results, and
    `ExactIffInOrder` shows that they need it; for the bound on a window less will do, see
    `BoundedIff`. */
module SlidingWindow {

  datatype Config = Config(maxRequests: int, window: real)

  ghost function QueueOf(queues: map<string, seq<real>>, key: string): seq<real> {
    if key in queues then queues[key] else []
  }

  ghost function DropExpired(q: seq<real>, cutoff: real): seq<real> {
    if q != [] && q[0] <= cutoff then DropExpired(q[1..], cutoff) else q
  }

  ghost function AllowStep(c: Config, queues: map<string, seq<real>>, key: string, now: real)
    : (map<string, seq<real>>, bool)
  {
    var live := DropExpired(QueueOf(queues, key), now - c.window);
    if |live| >= c.maxRequests then (queues[key := live], false)
    else (queues[key := live + [now]], true)
  }

  ghost function CleanupStep(c: Config, queues: map<string, seq<real>>, now: real): map<string, seq<real>> {
    map k | k in queues && DropExpired(queues[k], now - c.window) != [] :: DropExpired(queues[k], now - c.window)
  }

  class InMemoryRateLimiter {
    const c: Config
    var requests: map<string, seq<real>>

    constructor (maxRequests: int, windowSeconds: real)
      ensures c == Config(maxRequests, windowSeconds) && requests == map[]
    {
      c := Config(maxRequests, windowSeconds);
      requests := map[];
    }

    method Allow(key: string, now: real) returns (ok: bool)
      modifies this
      ensures (requests, ok) == AllowStep(c, old(requests), key, now)
    {
      var live := if key in requests then requests[key] else [];
      var cutoff := now - c.window;
      while live != [] && live[0] <= cutoff
        invariant DropExpired(live, cutoff) == DropExpired(QueueOf(requests, key), cutoff)
      {
        live := live[1..];
      }
      assert live == DropExpired(QueueOf(requests, key), cutoff);
      requests := requests[key := live];
      if |live| >= c.maxRequests {
        return false;
      }
      requests := requests[key := live + [now]];
      assert requests == old(requests)[key := live + [now]];
      return true;
    }

    method Cleanup(now: real)
      modifies this
      ensures requests == CleanupStep(c, old(requests), now)
    {
      var cutoff := now - c.window;
      var expired: set<string> := {};
      var rest := requests.Keys;
      while rest != {}
        invariant rest <= requests.Keys == old(requests).Keys
        invariant forall k :: k in requests ==>
          requests[k] == if k in rest then old(requests)[k] else DropExpired(old(requests)[k], cutoff)
        invariant expired == set k | k in requests && k !in rest && requests[k] == []
      {
        var key :| key in rest;
        var live := requests[key];
        while live != [] && live[0] <= cutoff
          invariant DropExpired(live, cutoff) == DropExpired(old(requests)[key], cutoff)
        {
          live := live[1..];
        }
        requests := requests[key := live];
        rest := rest - {key};
        if live == [] {
          expired := expired + {key};
        }
      }
      requests := requests - expired;
    }
  }

  // ---------------------------------------------------------------- runs

  datatype Event = Allow(key: string, now: real) | Cleanup(now: real)

  ghost predicate InOrder(es: seq<Event>) {
    forall i, j :: 0 <= i < j < |es| ==> es[i].now <= es[j].now
  }

  /** What a run leaves behind: the queues, the accepted requests in order, the answers in order. */
  datatype Trace = Trace(queues: map<string, seq<real>>, accepted: seq<(string, real)>, answers: seq<bool>)

  ghost function Run(c: Config, es: seq<Event>): Trace {
    if es == [] then Trace(map[], [], []) else RunStep(c, Run(c, es[..|es| - 1]), es[|es| - 1])
  }

  ghost function RunStep(c: Config, p: Trace, e: Event): Trace {
    match e
    case Cleanup(now) => Trace(CleanupStep(c, p.queues, now), p.accepted, p.answers)
    case Allow(key, now) =>
      var (queues, ok) := AllowStep(c, p.queues, key, now);
      Trace(queues, if ok then p.accepted + [(key, now)] else p.accepted, p.answers + [ok])
  }

  /** The number of accepted requests of a client in the half-open window (lo, hi]. */
  ghost function InWindow(accepted: seq<(string, real)>, key: string, lo: real, hi: real): nat {
    if accepted == [] then 0
    else
      var last := accepted[|accepted| - 1];
      InWindow(accepted[..|accepted| - 1], key, lo, hi) + (if last.0 == key && lo < last.1 <= hi then 1 else 0)
  }

  /** The reference limiter: no queues, only the full history; a request at t is refused iff
      maxRequests accepted ones already lie in (t - window, t].  It has no use for cleanup. */
  ghost function Reference(c: Config, es: seq<Event>): (seq<(string, real)>, seq<bool>) {
    if es == [] then ([], []) else ReferenceStep(c, Reference(c, es[..|es| - 1]), es[|es| - 1])
  }

  ghost function ReferenceStep(c: Config, past: (seq<(string, real)>, seq<bool>), e: Event)
    : (seq<(string, real)>, seq<bool>)
  {
    match e
    case Cleanup(_) => past
    case Allow(key, now) =>
      var ok := InWindow(past.0, key, now - c.window, now) < c.maxRequests;
      (if ok then past.0 + [(key, now)] else past.0, past.1 + [ok])
  }

  lemma ReferenceSnoc(c: Config, es: seq<Event>, e: Event)
    ensures Reference(c, es + [e]) == ReferenceStep(c, Reference(c, es), e)
  {
    assert (es + [e])[..|es|] == es;
  }

  // ---------------------------------------------------------------- queues against history

  ghost function TimesOf(accepted: seq<(string, real)>, key: string): seq<real> {
    if accepted == [] then []
    else
      var last := accepted[|accepted| - 1];
      TimesOf(accepted[..|accepted| - 1], key) + (if last.0 == key then [last.1] else [])
  }

  ghost predicate Sorted(ts: seq<real>) {
    forall i, j :: 0 <= i < j < |ts| ==> ts[i] <= ts[j]
  }

  /** The queue is a suffix of the client's history, and what it lost is out of the window. */
  ghost predicate Tracks(c: Config, q: seq<real>, ts: seq<real>, now: real) {
    && |q| <= |ts|
    && q == ts[|ts| - |q|..]
    && Sorted(ts)
    && (forall i :: 0 <= i < |ts| ==> ts[i] <= now)
    && (forall i :: 0 <= i < |ts| - |q| ==> ts[i] <= now - c.window)
  }

  lemma {:induction false} DropExpiredSplits(q: seq<real>, cutoff: real)
    requires Sorted(q)
    ensures var live := DropExpired(q, cutoff);
            |live| <= |q| && live == q[|q| - |live|..] &&
            (forall i :: 0 <= i < |q| - |live| ==> q[i] <= cutoff) &&
            (forall i :: |q| - |live| <= i < |q| ==> q[i] > cutoff)
  {
    if q != [] && q[0] <= cutoff {
      DropExpiredSplits(q[1..], cutoff);
      var live := DropExpired(q, cutoff);
      assert q[|q| - |live|..] == q[1..][|q[1..]| - |live|..];
      forall i | 0 <= i < |q| - |live| ensures q[i] <= cutoff {
        assert i == 0 || q[i] == q[1..][i - 1];
      }
      forall i | |q| - |live| <= i < |q| ensures q[i] > cutoff {
        assert q[i] == q[1..][i - 1];
      }
    }
  }

  lemma DropKeepsTracking(c: Config, q: seq<real>, ts: seq<real>, before: real, now: real)
    requires Tracks(c, q, ts, before) && before <= now
    ensures Tracks(c, DropExpired(q, now - c.window), ts, now)
    ensures forall i :: |ts| - |DropExpired(q, now - c.window)| <= i < |ts| ==> ts[i] > now - c.window
  {
    SuffixSorted(q, ts);
    DropFromHistory(q, ts, now - c.window);
  }

  lemma SuffixSorted(q: seq<real>, ts: seq<real>)
    requires |q| <= |ts| && q == ts[|ts| - |q|..] && Sorted(ts)
    ensures Sorted(q)
  {
    forall i, j | 0 <= i < j < |q| ensures q[i] <= q[j] {
      assert ts[|ts| - |q| + i] <= ts[|ts| - |q| + j];
    }
  }

  lemma DropFromHistory(q: seq<real>, ts: seq<real>, cutoff: real)
    requires |q| <= |ts| && q == ts[|ts| - |q|..] && Sorted(q)
    requires forall i :: 0 <= i < |ts| - |q| ==> ts[i] <= cutoff
    ensures var live := DropExpired(q, cutoff);
            && |live| <= |ts| && live == ts[|ts| - |live|..]
            && (forall i :: 0 <= i < |ts| - |live| ==> ts[i] <= cutoff)
            && (forall i :: |ts| - |live| <= i < |ts| ==> ts[i] > cutoff)
  {
    DropExpiredSplits(q, cutoff);
    var live, gone := DropExpired(q, cutoff), |ts| - |q|;
    SuffixOfSuffix(q, ts, |live|);
    forall i | gone <= i < |ts| ensures ts[i] == q[i - gone] {
    }
  }

  lemma SuffixOfSuffix(q: seq<real>, ts: seq<real>, n: nat)
    requires n <= |q| <= |ts| && q == ts[|ts| - |q|..]
    ensures q[|q| - n..] == ts[|ts| - n..]
  {
  }

  lemma {:induction false} WindowCountsTimes(accepted: seq<(string, real)>, key: string, lo: real, hi: real, k: nat)
    requires var ts := TimesOf(accepted, key);
             k <= |ts| && (forall i :: 0 <= i < |ts| ==> ts[i] <= hi) &&
             (forall i :: 0 <= i < k ==> ts[i] <= lo) && (forall i :: k <= i < |ts| ==> ts[i] > lo)
    ensures InWindow(accepted, key, lo, hi) == |TimesOf(accepted, key)| - k
  {
    if accepted != [] {
      var rest, last := accepted[..|accepted| - 1], accepted[|accepted| - 1];
      var ts, us := TimesOf(accepted, key), TimesOf(rest, key);
      assert us == ts[..|us|];
      if last.0 == key {
        assert ts[|us|] == last.1;
      }
      WindowCountsTimes(rest, key, lo, hi, if k <= |us| then k else |us|);
    }
  }

  lemma WeakenTracks(c: Config, q: seq<real>, ts: seq<real>, before: real, now: real)
    requires Tracks(c, q, ts, before) && before <= now
    ensures Tracks(c, q, ts, now)
  {
  }

  lemma AppendTracks(c: Config, q: seq<real>, ts: seq<real>, now: real)
    requires Tracks(c, q, ts, now)
    ensures Tracks(c, q + [now], ts + [now], now)
  {
  }

  lemma TimesOfAppend(accepted: seq<(string, real)>, key: string, who: string, now: real)
    ensures TimesOf(accepted + [(who, now)], key) == TimesOf(accepted, key) + (if who == key then [now] else [])
  {
    assert (accepted + [(who, now)])[..|accepted|] == accepted;
  }

  /** One `allow` keeps every client's queue a suffix of its history. */
  lemma AllowTracks(c: Config, tr: Trace, before: real, who: string, now: real, key: string)
    requires Tracks(c, QueueOf(tr.queues, key), TimesOf(tr.accepted, key), before) && before <= now
    ensures var (queues, ok) := AllowStep(c, tr.queues, who, now);
            var accepted := if ok then tr.accepted + [(who, now)] else tr.accepted;
            Tracks(c, QueueOf(queues, key), TimesOf(accepted, key), now)
  {
    var q, ts := QueueOf(tr.queues, key), TimesOf(tr.accepted, key);
    TimesOfAppend(tr.accepted, key, who, now);
    AllowQueue(c, tr.queues, who, now, key);
    if key == who {
      DropKeepsTracking(c, q, ts, before, now);
      AppendTracks(c, DropExpired(q, now - c.window), ts, now);
    } else {
      WeakenTracks(c, q, ts, before, now);
      assert ts + [] == ts;
    }
  }

  lemma AllowQueue(c: Config, queues: map<string, seq<real>>, who: string, now: real, key: string)
    ensures var (next, ok) := AllowStep(c, queues, who, now);
            var live := DropExpired(QueueOf(queues, who), now - c.window);
            QueueOf(next, key) == if key != who then QueueOf(queues, key) else if ok then live + [now] else live
  {
  }

  lemma CleanupTracks(c: Config, tr: Trace, before: real, now: real, key: string)
    requires Tracks(c, QueueOf(tr.queues, key), TimesOf(tr.accepted, key), before) && before <= now
    ensures Tracks(c, QueueOf(CleanupStep(c, tr.queues, now), key), TimesOf(tr.accepted, key), now)
  {
    DropKeepsTracking(c, QueueOf(tr.queues, key), TimesOf(tr.accepted, key), before, now);
    assert QueueOf(CleanupStep(c, tr.queues, now), key) == DropExpired(QueueOf(tr.queues, key), now - c.window);
  }

  lemma {:induction false} RunTracks(c: Config, es: seq<Event>, key: string, now: real)
    requires InOrder(es) && (forall i :: 0 <= i < |es| ==> es[i].now <= now)
    ensures Tracks(c, QueueOf(Run(c, es).queues, key), TimesOf(Run(c, es).accepted, key), now)
  {
    if es != [] {
      var p, e := es[..|es| - 1], es[|es| - 1];
      RunTracks(c, p, key, e.now);
      var tr := Run(c, p);
      match e {
        case Cleanup(at) => CleanupTracks(c, tr, at, at, key);
        case Allow(who, at) => AllowTracks(c, tr, at, who, at, key);
      }
      WeakenTracks(c, QueueOf(Run(c, es).queues, key), TimesOf(Run(c, es).accepted, key), e.now, now);
    }
  }

  /** An `allow` against a tracked queue answers as the window count does. */
  lemma AllowIsExact(c: Config, tr: Trace, before: real, key: string, now: real)
    requires Tracks(c, QueueOf(tr.queues, key), TimesOf(tr.accepted, key), before) && before <= now
    ensures AllowStep(c, tr.queues, key, now).1 <==> InWindow(tr.accepted, key, now - c.window, now) < c.maxRequests
  {
    var q, ts := QueueOf(tr.queues, key), TimesOf(tr.accepted, key);
    DropKeepsTracking(c, q, ts, before, now);
    WindowCountsTimes(tr.accepted, key, now - c.window, now, |ts| - |DropExpired(q, now - c.window)|);
  }

  /** Exactness: on every run the queues answer as the full history does. */
  lemma {:induction false} RunIsExact(c: Config, es: seq<Event>)
    requires InOrder(es)
    ensures (Run(c, es).accepted, Run(c, es).answers) == Reference(c, es)
  {
    if es != [] {
      var p, e := es[..|es| - 1], es[|es| - 1];
      RunIsExact(c, p);
      if e.Allow? {
        RunTracks(c, p, e.key, e.now);
      }
      StepIsExact(c, Run(c, p), e);
    }
  }

  lemma StepIsExact(c: Config, tr: Trace, e: Event)
    requires e.Allow? ==> Tracks(c, QueueOf(tr.queues, e.key), TimesOf(tr.accepted, e.key), e.now)
    ensures (RunStep(c, tr, e).accepted, RunStep(c, tr, e).answers) == ReferenceStep(c, (tr.accepted, tr.answers), e)
  {
    if e.Allow? {
      AllowIsExact(c, tr, e.now, e.key, e.now);
    }
  }

  // ---------------------------------------------------------------- the bound on a window

  ghost function Clocks(es: seq<Event>): seq<real> {
    seq(|es|, i requires 0 <= i < |es| => es[i].now)
  }

  lemma ClocksSnoc(es: seq<Event>)
    requires es != []
    ensures Clocks(es) == Clocks(es[..|es| - 1]) + [es[|es| - 1].now]
  {
  }

  ghost function Gap(x: real, y: real): real {
    if x <= y then y - x else x - y
  }

  /** Once a reading lies d behind, no later one comes nearer to it than d. */
  ghost predicate NoneReturns(clocks: seq<real>) {
    forall i, j, k :: 0 <= i < j < k < |clocks| ==> clocks[j] - clocks[i] <= Gap(clocks[i], clocks[k])
  }

  /** Some reading in the window was left behind by more than its length. */
  ghost predicate LeftBehind(clocks: seq<real>, window: real, lo: real) {
    exists i, j :: 0 <= i < j < |clocks| && lo < clocks[i] <= lo + window && clocks[i] <= clocks[j] - window
  }

  ghost function CountIn(q: seq<real>, lo: real, hi: real): (n: nat)
    ensures n <= |q|
  {
    if q == [] then 0 else (if lo < q[0] <= hi then 1 else 0) + CountIn(q[1..], lo, hi)
  }

  lemma {:induction false} CountInSnoc(q: seq<real>, x: real, lo: real, hi: real)
    ensures CountIn(q + [x], lo, hi) == CountIn(q, lo, hi) + (if lo < x <= hi then 1 else 0)
  {
    if q == [] {
      assert q + [x] == [x];
    } else {
      assert (q + [x])[1..] == q[1..] + [x];
      CountInSnoc(q[1..], x, lo, hi);
    }
  }

  /** Dropping loses nothing of a window that the cutoff has not reached. */
  lemma {:induction false} DropCounts(q: seq<real>, cutoff: real, lo: real, hi: real)
    ensures forall x :: x in DropExpired(q, cutoff) ==> x in q
    ensures (forall x :: x in q && lo < x <= hi ==> x > cutoff) ==>
              CountIn(DropExpired(q, cutoff), lo, hi) == CountIn(q, lo, hi)
  {
    if q != [] && q[0] <= cutoff {
      DropCounts(q[1..], cutoff, lo, hi);
      assert q[0] in q && forall x :: x in q[1..] ==> x in q;
    }
  }

  lemma InWindowSnoc(accepted: seq<(string, real)>, who: string, now: real, key: string, lo: real, hi: real)
    ensures InWindow(accepted + [(who, now)], key, lo, hi)
         == InWindow(accepted, key, lo, hi) + (if who == key && lo < now <= hi then 1 else 0)
  {
    assert (accepted + [(who, now)])[..|accepted|] == accepted;
  }

  ghost predicate FromClocks(q: seq<real>, clocks: seq<real>) {
    forall x :: x in q ==> x in clocks
  }

  /** The queue holds every accepted call of a window of which nothing was left behind. */
  ghost predicate HoldsWindow(c: Config, tr: Trace, clocks: seq<real>, key: string, lo: real) {
    && FromClocks(QueueOf(tr.queues, key), clocks)
    && (!LeftBehind(clocks, c.window, lo) ==>
          InWindow(tr.accepted, key, lo, lo + c.window) == CountIn(QueueOf(tr.queues, key), lo, lo + c.window))
  }

  /** So it does after dropping. */
  lemma DropHolds(c: Config, q: seq<real>, clocks: seq<real>, now: real, lo: real)
    requires FromClocks(q, clocks)
    ensures FromClocks(DropExpired(q, now - c.window), clocks + [now])
    ensures LeftBehind(clocks, c.window, lo) ==> LeftBehind(clocks + [now], c.window, lo)
    ensures !LeftBehind(clocks + [now], c.window, lo) ==>
              CountIn(DropExpired(q, now - c.window), lo, lo + c.window) == CountIn(q, lo, lo + c.window)
  {
    var longer := clocks + [now];
    DropCounts(q, now - c.window, lo, lo + c.window);
    if LeftBehind(clocks, c.window, lo) {
      var i, j :| 0 <= i < j < |clocks| && lo < clocks[i] <= lo + c.window && clocks[i] <= clocks[j] - c.window;
      assert longer[i] == clocks[i] && longer[j] == clocks[j];
    }
    if x :| x in q && lo < x <= lo + c.window && x <= now - c.window {
      var i :| 0 <= i < |clocks| && clocks[i] == x;
      assert longer[i] == x && longer[|clocks|] == now;
    }
  }

  lemma StepHoldsWindow(c: Config, tr: Trace, clocks: seq<real>, e: Event, key: string, lo: real)
    requires HoldsWindow(c, tr, clocks, key, lo)
    ensures HoldsWindow(c, RunStep(c, tr, e), clocks + [e.now], key, lo)
  {
    DropHolds(c, QueueOf(tr.queues, key), clocks, e.now, lo);
    if e.Cleanup? {
      CleanupQueue(c, tr.queues, e.now, key);
    } else {
      AllowHoldsWindow(c, tr, e.key, e.now, key, lo);
      AllowFromClocks(c, tr.queues, clocks, e.key, e.now, key);
    }
  }

  lemma AllowHoldsWindow(c: Config, tr: Trace, who: string, now: real, key: string, lo: real)
    ensures var after, hi := RunStep(c, tr, Allow(who, now)), lo + c.window;
            var q, live := QueueOf(tr.queues, key), DropExpired(QueueOf(tr.queues, key), now - c.window);
            InWindow(after.accepted, key, lo, hi) - CountIn(QueueOf(after.queues, key), lo, hi) ==
            InWindow(tr.accepted, key, lo, hi) - CountIn(if who == key then live else q, lo, hi)
  {
    AllowQueue(c, tr.queues, who, now, key);
    CountInSnoc(DropExpired(QueueOf(tr.queues, key), now - c.window), now, lo, lo + c.window);
    InWindowSnoc(tr.accepted, who, now, key, lo, lo + c.window);
  }

  lemma AllowFromClocks(c: Config, queues: map<string, seq<real>>, clocks: seq<real>, who: string, now: real,
                        key: string)
    requires FromClocks(QueueOf(queues, key), clocks)
    ensures FromClocks(QueueOf(AllowStep(c, queues, who, now).0, key), clocks + [now])
  {
    var q := QueueOf(queues, key);
    DropHolds(c, q, clocks, now, 0.0);
    AllowQueue(c, queues, who, now, key);
    FromMore(q, clocks, now);
    NowToo(DropExpired(q, now - c.window), clocks, now);
  }

  lemma FromMore(q: seq<real>, clocks: seq<real>, now: real)
    requires FromClocks(q, clocks)
    ensures FromClocks(q, clocks + [now])
  {
  }

  lemma NowToo(q: seq<real>, clocks: seq<real>, now: real)
    requires FromClocks(q, clocks + [now])
    ensures FromClocks(q + [now], clocks + [now])
  {
    assert (clocks + [now])[|clocks|] == now;
  }

  lemma CleanupQueue(c: Config, queues: map<string, seq<real>>, now: real, key: string)
    ensures QueueOf(CleanupStep(c, queues, now), key) == DropExpired(QueueOf(queues, key), now - c.window)
  {
  }

  lemma {:induction false} RunHoldsWindow(c: Config, es: seq<Event>, key: string, lo: real)
    ensures HoldsWindow(c, Run(c, es), Clocks(es), key, lo)
  {
    if es != [] {
      var p := es[..|es| - 1];
      RunHoldsWindow(c, p, key, lo);
      StepHoldsWindow(c, Run(c, p), Clocks(p), es[|es| - 1], key, lo);
      ClocksSnoc(es);
    }
  }

  ghost function Limit(c: Config): nat {
    if c.maxRequests > 0 then c.maxRequests else 0
  }

  /** No half-open window of the configured length ever holds more than maxRequests accepts, if the
      clock never comes back. */
  lemma {:induction false} WindowBound(c: Config, es: seq<Event>, key: string, lo: real)
    requires NoneReturns(Clocks(es))
    ensures InWindow(Run(c, es).accepted, key, lo, lo + c.window) <= Limit(c)
  {
    if es != [] {
      var p, e := es[..|es| - 1], es[|es| - 1];
      ClocksSnoc(es);
      assert NoneReturns(Clocks(p)) by {
        assert forall i :: 0 <= i < |p| ==> Clocks(p)[i] == Clocks(es)[i];
      }
      WindowBound(c, p, key, lo);
      RunHoldsWindow(c, p, key, lo);
      if e.Allow? && e.key == key && lo < e.now <= lo + c.window {
        NotLeftBehind(Clocks(p), e.now, c.window, lo);
      }
      StepBound(c, Run(c, p), Clocks(p), e, key, lo);
    }
  }

  lemma NotLeftBehind(clocks: seq<real>, now: real, window: real, lo: real)
    requires NoneReturns(clocks + [now]) && lo < now <= lo + window
    ensures !LeftBehind(clocks + [now], window, lo)
  {
    var longer := clocks + [now];
    assert longer[|clocks|] == now;
    forall i, j | 0 <= i < j < |longer| && lo < longer[i] <= lo + window ensures longer[i] > longer[j] - window {
      assert j == |clocks| || longer[j] - longer[i] <= Gap(longer[i], longer[|clocks|]);
    }
  }

  lemma StepBound(c: Config, tr: Trace, clocks: seq<real>, e: Event, key: string, lo: real)
    requires HoldsWindow(c, tr, clocks, key, lo) && InWindow(tr.accepted, key, lo, lo + c.window) <= Limit(c)
    requires e.Allow? && e.key == key && lo < e.now <= lo + c.window ==> !LeftBehind(clocks + [e.now], c.window, lo)
    ensures InWindow(RunStep(c, tr, e).accepted, key, lo, lo + c.window) <= Limit(c)
  {
    if e.Allow? {
      InWindowSnoc(tr.accepted, e.key, e.now, key, lo, lo + c.window);
      DropHolds(c, QueueOf(tr.queues, key), clocks, e.now, lo);
    }
  }

  /** Two calls of a client around a cleanup; whatever else happens belongs to other clients. */
  ghost predicate AroundCleanup(es: seq<Event>, key: string, i: nat, j: nat, k: nat) {
    && i < j < k < |es|
    && es[i].Allow? && es[i].key == key && es[k].Allow? && es[k].key == key && es[j].Cleanup?
    && forall n :: 0 <= n < |es| && n != i && n != j && n != k ==> es[n].Allow? && es[n].key != key
  }

  /** If the first one expires by the cleanup, it makes room for a second one in its own window. */
  lemma ReturnBreaksBound(c: Config, es: seq<Event>, key: string, i: nat, j: nat, k: nat, lo: real)
    requires AroundCleanup(es, key, i, j, k) && c.maxRequests == 1 && es[i].now <= es[j].now - c.window
    requires lo < es[i].now <= lo + c.window && lo < es[k].now <= lo + c.window
    ensures InWindow(Run(c, es).accepted, key, lo, lo + c.window) == 2
  {
    assert es[..|es|] == es;
    SeesNone(c, es, key, lo, lo + c.window);
    AcceptAndExpire(c, es, key, i, j, lo, lo + c.window);
    OneAccept(c, es, key, j + 1, k, |es|, 1, lo, lo + c.window);
  }

  lemma SeesNone(c: Config, es: seq<Event>, key: string, lo: real, hi: real)
    ensures Sees(Run(c, es[..0]), key, [], 0, lo, hi)
  {
  }

  lemma AcceptAndExpire(c: Config, es: seq<Event>, key: string, i: nat, j: nat, lo: real, hi: real)
    requires i < j < |es| && es[i].Allow? && es[i].key == key && lo < es[i].now <= hi && c.maxRequests == 1
    requires es[j].Cleanup? && es[i].now <= es[j].now - c.window
    requires forall k :: 0 <= k < j && k != i ==> es[k].Allow? && es[k].key != key
    requires Sees(Run(c, es[..0]), key, [], 0, lo, hi)
    ensures Sees(Run(c, es[..j + 1]), key, [], 1, lo, hi)
  {
    OneAccept(c, es, key, 0, i, j, 0, lo, hi);
    CleanupNext(c, es, j, key, es[i].now, 1, lo, hi);
  }

  /** The events from m to n, with one call of the client at i. */
  lemma OneAccept(c: Config, es: seq<Event>, key: string, m: nat, i: nat, n: nat, count: nat, lo: real, hi: real)
    requires m <= i < n <= |es| && es[i].Allow? && es[i].key == key && lo < es[i].now <= hi && c.maxRequests == 1
    requires forall k :: m <= k < n && k != i ==> es[k].Allow? && es[k].key != key
    requires Sees(Run(c, es[..m]), key, [], count, lo, hi)
    ensures Sees(Run(c, es[..n]), key, [es[i].now], count + 1, lo, hi)
  {
    OthersPass(c, es, m, i, key, [], count, lo, hi);
    AcceptNext(c, es, i, key, count, lo, hi);
    OthersPass(c, es, i + 1, n, key, [es[i].now], count + 1, lo, hi);
  }

  ghost predicate Sees(tr: Trace, key: string, q: seq<real>, n: nat, lo: real, hi: real) {
    QueueOf(tr.queues, key) == q && InWindow(tr.accepted, key, lo, hi) == n
  }

  lemma Returning(clocks: seq<real>, i: nat, j: nat, k: nat) returns (es: seq<Event>)
    requires i < j < k < |clocks|
    ensures Clocks(es) == clocks && AroundCleanup(es, "a", i, j, k)
  {
    es := seq(|clocks|, n requires 0 <= n < |clocks| =>
      if n == j then Cleanup(clocks[n]) else Allow(if n == i || n == k then "a" else "b", clocks[n]));
    assert "b"[0] != "a"[0];
  }

  lemma RunNext(c: Config, es: seq<Event>, n: nat)
    requires n < |es|
    ensures Run(c, es[..n + 1]) == RunStep(c, Run(c, es[..n]), es[n])
  {
    assert es[..n + 1][..n] == es[..n];
  }

  lemma {:induction false} OthersPass(c: Config, es: seq<Event>, m: nat, n: nat, key: string, q: seq<real>,
                                      count: nat, lo: real, hi: real)
    requires m <= n <= |es| && forall i :: m <= i < n ==> es[i].Allow? && es[i].key != key
    requires Sees(Run(c, es[..m]), key, q, count, lo, hi)
    ensures Sees(Run(c, es[..n]), key, q, count, lo, hi)
    decreases n - m
  {
    if m < n {
      OthersPass(c, es, m, n - 1, key, q, count, lo, hi);
      RunNext(c, es, n - 1);
      var tr, e := Run(c, es[..n - 1]), es[n - 1];
      AllowQueue(c, tr.queues, e.key, e.now, key);
      InWindowSnoc(tr.accepted, e.key, e.now, key, lo, hi);
    }
  }

  lemma AcceptNext(c: Config, es: seq<Event>, n: nat, key: string, count: nat, lo: real, hi: real)
    requires n < |es| && es[n].Allow? && es[n].key == key && lo < es[n].now <= hi
    requires c.maxRequests == 1 && Sees(Run(c, es[..n]), key, [], count, lo, hi)
    ensures Sees(Run(c, es[..n + 1]), key, [es[n].now], count + 1, lo, hi)
  {
    var tr, now := Run(c, es[..n]), es[n].now;
    RunNext(c, es, n);
    AllowQueue(c, tr.queues, key, now, key);
    InWindowSnoc(tr.accepted, key, now, key, lo, hi);
    assert DropExpired([], now - c.window) == [];
    assert [] + [now] == [now];
  }

  lemma CleanupNext(c: Config, es: seq<Event>, n: nat, key: string, x: real, count: nat, lo: real, hi: real)
    requires n < |es| && es[n].Cleanup? && x <= es[n].now - c.window
    requires Sees(Run(c, es[..n]), key, [x], count, lo, hi)
    ensures Sees(Run(c, es[..n + 1]), key, [], count, lo, hi)
  {
    RunNext(c, es, n);
    CleanupQueue(c, Run(c, es[..n]).queues, es[n].now, key);
    assert DropExpired([x], es[n].now - c.window) == [];
  }

  ghost predicate WithinLimit(c: Config, es: seq<Event>, key: string, lo: real) {
    InWindow(Run(c, es).accepted, key, lo, lo + c.window) <= Limit(c)
  }

  ghost predicate Bounded(c: Config, es: seq<Event>) {
    forall key, lo :: WithinLimit(c, es, key, lo)
  }

  lemma BothIn(x: real, y: real, window: real) returns (lo: real)
    requires Gap(x, y) < window
    ensures lo < x <= lo + window && lo < y <= lo + window
  {
    lo := (if x >= y then x else y) - window;
  }

  lemma ReturnUnbounded(clocks: seq<real>) returns (c: Config, es: seq<Event>)
    requires !NoneReturns(clocks)
    ensures Clocks(es) == clocks && !Bounded(c, es)
  {
    var i, j, k :| 0 <= i < j < k < |clocks| && clocks[j] - clocks[i] > Gap(clocks[i], clocks[k]);
    es := Returning(clocks, i, j, k);
    c := Config(1, clocks[j] - clocks[i]);
    var lo := BothIn(clocks[i], clocks[k], c.window);
    assert es[i].now == clocks[i] && es[j].now == clocks[j] && es[k].now == clocks[k];
    ReturnBreaksBound(c, es, "a", i, j, k, lo);
    assert !WithinLimit(c, es, "a", lo);
  }

  /** The clock never comes back iff, whatever the readings belong to and whatever the
      configuration, no window holds more than maxRequests accepts.  Lock order is enough. */
  lemma BoundedIff(clocks: seq<real>)
    ensures NoneReturns(clocks) <==> forall c: Config, es: seq<Event> | Clocks(es) == clocks :: Bounded(c, es)
    ensures Sorted(clocks) ==> NoneReturns(clocks)
  {
    if NoneReturns(clocks) {
      forall c: Config, es: seq<Event> | Clocks(es) == clocks ensures Bounded(c, es) {
        forall key, lo ensures WithinLimit(c, es, key, lo) {
          WindowBound(c, es, key, lo);
        }
      }
    } else {
      var c, es := ReturnUnbounded(clocks);
    }
  }

  /** With a cleanup at 11 between calls at 0 and 5, both are accepted, although of any ten seconds
      only one call should be. */
  lemma BoundBroken()
    ensures var c, es := Config(1, 10.0), [Allow("a", 0.0), Cleanup(11.0), Allow("a", 5.0)];
            InWindow(Run(c, es).accepted, "a", -1.0, 9.0) == 2
  {
    var es := [Allow("a", 0.0), Cleanup(11.0), Allow("a", 5.0)];
    ReturnBreaksBound(Config(1, 10.0), es, "a", 0, 1, 2, -1.0);
  }

  // ---------------------------------------------------------------- cleanups change nothing

  ghost function WithoutCleanups(es: seq<Event>): seq<Event> {
    if es == [] then []
    else WithoutCleanups(es[..|es| - 1]) + (if es[|es| - 1].Cleanup? then [] else [es[|es| - 1]])
  }

  lemma {:induction false} WithoutCleanupsInOrder(es: seq<Event>)
    requires InOrder(es)
    ensures InOrder(WithoutCleanups(es))
    ensures forall e :: e in WithoutCleanups(es) ==> e in es
  {
    if es != [] {
      var p := es[..|es| - 1];
      WithoutCleanupsInOrder(p);
      forall e | e in p ensures e.now <= es[|es| - 1].now {
        var i :| 0 <= i < |p| && p[i] == e;
        assert es[i] == e;
      }
    }
  }

  lemma {:induction false} ReferenceIgnoresCleanup(c: Config, es: seq<Event>)
    ensures Reference(c, WithoutCleanups(es)) == Reference(c, es)
  {
    if es != [] {
      var p, e := es[..|es| - 1], es[|es| - 1];
      ReferenceIgnoresCleanup(c, p);
      ReferenceSnoc(c, WithoutCleanups(p), e);
      assert WithoutCleanups(es) == if e.Cleanup? then WithoutCleanups(p) else WithoutCleanups(p) + [e];
    }
  }

  /** Cleanups, wherever they fall, change no answer. */
  lemma CleanupInvisible(c: Config, es: seq<Event>)
    requires InOrder(es)
    ensures Run(c, es).answers == Run(c, WithoutCleanups(es)).answers
    ensures Run(c, es).accepted == Run(c, WithoutCleanups(es)).accepted
  {
    RunIsExact(c, es);
    WithoutCleanupsInOrder(es);
    RunIsExact(c, WithoutCleanups(es));
    ReferenceIgnoresCleanup(c, es);
  }

  /** A cleanup keeps exactly the clients with an accepted request in the window, and of each of them
      exactly those requests. */
  lemma CleanupKeeps(c: Config, es: seq<Event>, now: real, key: string)
    requires InOrder(es + [Cleanup(now)])
    ensures var before, after := Run(c, es), Run(c, es + [Cleanup(now)]);
            && (key in after.queues <==> InWindow(before.accepted, key, now - c.window, now) > 0)
            && |QueueOf(after.queues, key)| == InWindow(before.accepted, key, now - c.window, now)
            && forall x :: x in QueueOf(after.queues, key) ==> now - c.window < x <= now
  {
    var all := es + [Cleanup(now)];
    assert forall i :: 0 <= i < |es| ==> es[i] == all[i] && all[i].now <= all[|es|].now;
    RunSnoc(c, es, Cleanup(now));
    RunTracks(c, es, key, now);
    var q, ts := QueueOf(Run(c, es).queues, key), TimesOf(Run(c, es).accepted, key);
    var live := DropExpired(q, now - c.window);
    CleanupQueue(c, Run(c, es).queues, now, key);
    DropKeepsTracking(c, q, ts, now, now);
    WindowCountsTimes(Run(c, es).accepted, key, now - c.window, now, |ts| - |live|);
  }

  // ---------------------------------------------------------------- exactly the runs in lock order

  /** The event is not a call of this client. */
  ghost predicate NotOf(e: Event, key: string) {
    e.Allow? ==> e.key != key
  }

  /** A client that has not called yet has no queue and no accepted request. */
  lemma {:induction false} NothingYet(c: Config, es: seq<Event>, key: string)
    requires forall i :: 0 <= i < |es| ==> NotOf(es[i], key)
    ensures QueueOf(Run(c, es).queues, key) == []
    ensures forall i :: 0 <= i < |Reference(c, es).0| ==> Reference(c, es).0[i].0 != key
  {
    if es != [] {
      NothingYet(c, es[..|es| - 1], key);
      assert NotOf(es[|es| - 1], key);
    }
  }

  lemma {:induction false} NoneInWindow(accepted: seq<(string, real)>, key: string, lo: real, hi: real)
    requires forall i :: 0 <= i < |accepted| ==> accepted[i].0 != key
    ensures InWindow(accepted, key, lo, hi) == 0
  {
    if accepted != [] {
      NoneInWindow(accepted[..|accepted| - 1], key, lo, hi);
    }
  }

  /** Two first calls of a client, the second with an earlier clock reading than the first: the
      queue refuses the second although its own window is empty. */
  lemma SwappedCalls(c: Config, es: seq<Event>, key: string, t: real, u: real)
    requires c.maxRequests == 1 && c.window > 0.0 && u < t
    requires forall i :: 0 <= i < |es| ==> NotOf(es[i], key)
    ensures var calls := es + [Allow(key, t)] + [Allow(key, u)];
            && Run(c, calls).answers == Run(c, es).answers + [true] + [false]
            && Reference(c, calls).1 == Reference(c, es).1 + [true] + [true]
  {
    var first := es + [Allow(key, t)];
    NothingYet(c, es, key);
    RunSnoc(c, es, Allow(key, t));
    RunSnoc(c, first, Allow(key, u));
    QueueRefuses(c, Run(c, es), key, t, u);
    ReferenceSnoc(c, es, Allow(key, t));
    ReferenceSnoc(c, first, Allow(key, u));
    ReferenceAccepts(c, Reference(c, es), key, t, u);
  }

  lemma QueueRefuses(c: Config, tr: Trace, key: string, t: real, u: real)
    requires c.maxRequests == 1 && c.window > 0.0 && u < t && QueueOf(tr.queues, key) == []
    ensures RunStep(c, RunStep(c, tr, Allow(key, t)), Allow(key, u)).answers == tr.answers + [true] + [false]
  {
    AllowQueue(c, tr.queues, key, t, key);
    assert DropExpired([], t - c.window) == [];
    assert QueueOf(RunStep(c, tr, Allow(key, t)).queues, key) == [] + [t] == [t];
    assert DropExpired([t], u - c.window) == [t];
  }

  lemma ReferenceAccepts(c: Config, past: (seq<(string, real)>, seq<bool>), key: string, t: real, u: real)
    requires c.maxRequests == 1 && u < t && forall i :: 0 <= i < |past.0| ==> past.0[i].0 != key
    ensures ReferenceStep(c, ReferenceStep(c, past, Allow(key, t)), Allow(key, u)).1 == past.1 + [true] + [true]
  {
    NoneInWindow(past.0, key, t - c.window, t);
    NoneInWindow(past.0, key, u - c.window, u);
    assert (past.0 + [(key, t)])[..|past.0|] == past.0;
  }

  lemma RunSnoc(c: Config, es: seq<Event>, e: Event)
    ensures Run(c, es + [e]) == RunStep(c, Run(c, es), e)
  {
    assert (es + [e])[..|es|] == es;
  }

  /** Later events do not change earlier answers. */
  lemma {:induction false} AnswersExtend(c: Config, es: seq<Event>, more: seq<Event>)
    ensures Run(c, es).answers <= Run(c, es + more).answers
    ensures Reference(c, es).1 <= Reference(c, es + more).1
  {
    if more == [] {
      assert es + more == es;
    } else {
      AnswersExtend(c, es, more[..|more| - 1]);
      assert (es + more)[..|es + more| - 1] == es + more[..|more| - 1];
    }
  }

  /** Calls with these clock readings, all of client "b" but for two of client "a". */
  ghost function TwoOfA(clocks: seq<real>, i: nat): (es: seq<Event>)
    ensures |es| == |clocks| && Clocks(es) == clocks
  {
    seq(|clocks|, k requires 0 <= k < |clocks| => Allow(if k == i || k == i + 1 then "a" else "b", clocks[k]))
  }

  lemma {:induction false} Descent(clocks: seq<real>, j: nat, k: nat) returns (i: nat)
    requires j < k < |clocks| && clocks[j] > clocks[k]
    ensures i + 1 < |clocks| && clocks[i] > clocks[i + 1]
    decreases k - j
  {
    if clocks[j] > clocks[j + 1] {
      i := j;
    } else {
      i := Descent(clocks, j + 1, k);
    }
  }

  lemma OutOfOrderDiffers(clocks: seq<real>) returns (es: seq<Event>)
    requires !Sorted(clocks)
    ensures Clocks(es) == clocks && Run(Config(1, 1.0), es).answers != Reference(Config(1, 1.0), es).1
  {
    var j, k :| 0 <= j < k < |clocks| && clocks[j] > clocks[k];
    var i := Descent(clocks, j, k);
    es := TwoOfA(clocks, i);
    TwoOfAFront(clocks, i);
    SwappedCallsThenMore(Config(1, 1.0), es[..i], "a", clocks[i], clocks[i + 1], es[i + 2..]);
    SplitAtTwo(es, i);
  }

  lemma SplitAtTwo(es: seq<Event>, i: nat)
    requires i + 1 < |es|
    ensures es == es[..i] + [es[i]] + [es[i + 1]] + es[i + 2..]
  {
  }

  lemma TwoOfAFront(clocks: seq<real>, i: nat)
    requires i + 1 < |clocks|
    ensures var es := TwoOfA(clocks, i);
            && es[i] == Allow("a", clocks[i]) && es[i + 1] == Allow("a", clocks[i + 1])
            && forall k :: 0 <= k < i ==> es[..i][k].Allow? && NotOf(es[..i][k], "a")
  {
    assert "b"[0] != "a"[0];
  }

  lemma SwappedCallsThenMore(c: Config, es: seq<Event>, key: string, t: real, u: real, more: seq<Event>)
    requires c.maxRequests == 1 && c.window > 0.0 && u < t
    requires forall i :: 0 <= i < |es| ==> es[i].Allow? && NotOf(es[i], key)
    ensures var all := es + [Allow(key, t)] + [Allow(key, u)] + more;
            Run(c, all).answers != Reference(c, all).1
  {
    var calls := es + [Allow(key, t)] + [Allow(key, u)];
    SwappedCalls(c, es, key, t, u);
    AnswersExtend(c, calls, more);
    AnswerEach(c, es);
    var n := |es| + 1;
    assert Run(c, calls).answers[n] == false && Reference(c, calls).1[n] == true;
    assert Run(c, calls + more).answers[n] == Run(c, calls).answers[n];
    assert Reference(c, calls + more).1[n] == Reference(c, calls).1[n];
  }

  lemma {:induction false} AnswerEach(c: Config, es: seq<Event>)
    requires forall i :: 0 <= i < |es| ==> es[i].Allow?
    ensures |Run(c, es).answers| == |Reference(c, es).1| == |es|
  {
    if es != [] {
      AnswerEach(c, es[..|es| - 1]);
    }
  }

  /** A sequence of clock readings is in lock order iff, whatever clients they belong to and
      whatever the configuration, the queues answer as the full history does. */
  lemma ExactIffInOrder(clocks: seq<real>)
    ensures Sorted(clocks) <==>
            forall c: Config, es: seq<Event> | Clocks(es) == clocks :: Run(c, es).answers == Reference(c, es).1
  {
    if Sorted(clocks) {
      forall c: Config, es: seq<Event> | Clocks(es) == clocks ensures Run(c, es).answers == Reference(c, es).1 {
        assert forall i :: 0 <= i < |es| ==> es[i].now == clocks[i];
        RunIsExact(c, es);
      }
    } else {
      var es := OutOfOrderDiffers(clocks);
    }
  }

  /** A clock read at 50 that takes the lock after one read at 100 is refused, although
      nothing was accepted in its own window (40, 50]. */
  lemma OutOfOrderRefusal()
    ensures var c, es := Config(1, 10.0), [Allow("a", 100.0), Allow("a", 50.0)];
            !InOrder(es) &&
            Run(c, es).answers == [true, false] &&
            InWindow(Run(c, es[..1]).accepted, "a", 40.0, 50.0) == 0
  {
    var c, es := Config(1, 10.0), [Allow("a", 100.0), Allow("a", 50.0)];
    assert es[0].now > es[1].now;
    assert es[..1] == [Allow("a", 100.0)];
    assert es[..|es| - 1] == es[..1];
    assert es[..1][..0] == [];
    var first := Run(c, es[..1]);
    assert Run(c, []) == Trace(map[], [], []);
    assert DropExpired(QueueOf(map[], "a"), 90.0) == [];
    assert AllowStep(c, map[], "a", 100.0) == (map["a" := [] + [100.0]], true);
    assert first.accepted == [] + [("a", 100.0)];
    assert DropExpired([100.0], 40.0) == [100.0];
    assert first.accepted[..0] == [];
  }
}
