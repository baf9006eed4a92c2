/**
  The per-address token buckets as values, with the two facts the limiter is for: evicting idle buckets
  cannot be noticed, and no window of time lets through more than the burst plus the sustained rate.
  Times and tokens are reals.
 */
module RateLimit {
  const RATE_PER_SECOND := 30.0
  const BURST := 15.0
  const IDLE_LIMIT := 600.0

  /** One bucket: the tokens it held when it was last used, and when that was. */
  datatype Level = Level(tokens: real, last: real)

  type Levels = map<string, Level>

  /** A request of one address (bucket lookup and use are one step), or a tick of the eviction loop. */
  datatype Event =
    | Request(ip: string, at: real)
    | Sweep(at: real)

  function Refilled(b: Level, now: real): real {
    var t := b.tokens + (now - b.last) * RATE_PER_SECOND;
    if t > BURST then BURST else t
  }

  predicate Allows(b: Level, now: real) {
    Refilled(b, now) >= 1.0
  }

  function Used(b: Level, now: real): Level {
    if Allows(b, now) then Level(Refilled(b, now) - 1.0, now) else Level(Refilled(b, now), now)
  }

  function BucketFor(s: Levels, ip: string, now: real): Level {
    if ip in s then s[ip] else Level(BURST, now)
  }

  predicate Idle(b: Level, now: real) {
    now - b.last > IDLE_LIMIT
  }

  function Swept(s: Levels, now: real): Levels {
    map ip | ip in s && !Idle(s[ip], now) :: s[ip]
  }

  function Step(s: Levels, e: Event): Levels {
    match e
    case Request(ip, at) => s[ip := Used(BucketFor(s, ip, at), at)]
    case Sweep(at) => Swept(s, at)
  }

  /** What the client is told; a sweep tells nobody anything. */
  predicate Grants(s: Levels, e: Event) {
    e.Request? && Allows(BucketFor(s, e.ip, e.at), e.at)
  }

  function Run(s: Levels, events: seq<Event>): Levels
    decreases |events|
  {
    if events == [] then s else Run(Step(s, events[0]), events[1..])
  }

  function Answers(s: Levels, events: seq<Event>): (r: seq<bool>)
    ensures |r| == |events|
    decreases |events|
  {
    if events == [] then [] else [Grants(s, events[0])] + Answers(Step(s, events[0]), events[1..])
  }

  /** The limiter that never evicts. */
  function AnswersWithoutEviction(s: Levels, events: seq<Event>): seq<bool>
    decreases |events|
  {
    if events == [] then []
    else if events[0].Sweep? then [false] + AnswersWithoutEviction(s, events[1..])
    else [Grants(s, events[0])] + AnswersWithoutEviction(Step(s, events[0]), events[1..])
  }

  /** The clock never goes back. */
  predicate Ordered(from: real, events: seq<Event>)
    decreases |events|
  {
    events != [] ==> from <= events[0].at && Ordered(events[0].at, events[1..])
  }

  /** Every bucket holds between zero and fifteen tokens and was last used no later than now. */
  ghost predicate Sound(s: Levels, now: real) {
    forall ip :: ip in s ==> 0.0 <= s[ip].tokens <= 15.0 && s[ip].last <= now
  }

  lemma StepSound(s: Levels, e: Event, now: real)
    requires Sound(s, now) && now <= e.at
    ensures Sound(Step(s, e), e.at)
  {
  }

  lemma {:induction false} RunSound(s: Levels, events: seq<Event>, from: real)
    requires Sound(s, from) && Ordered(from, events)
    ensures Sound(Run(s, events), End(from, events))
    decreases |events|
  {
    if events == [] {
    } else {
      StepSound(s, events[0], from);
      RunSound(Step(s, events[0]), events[1..], events[0].at);
    }
  }

  /** The time of the last event, or `from` when there is none. */
  function End(from: real, events: seq<Event>): real
    decreases |events|
  {
    if events == [] then from else End(events[0].at, events[1..])
  }

  lemma {:induction false} RunConcat(s: Levels, a: seq<Event>, b: seq<Event>)
    ensures Run(s, a + b) == Run(Run(s, a), b)
    decreases |a|
  {
    if a == [] {
      assert a + b == b;
    } else {
      assert (a + b)[1..] == a[1..] + b;
      RunConcat(Step(s, a[0]), a[1..], b);
    }
  }

  lemma {:induction false} OrderedSplit(from: real, a: seq<Event>, b: seq<Event>)
    requires Ordered(from, a + b)
    ensures Ordered(from, a) && Ordered(End(from, a), b)
    decreases |a|
  {
    if a == [] {
      assert a + b == b;
    } else {
      assert (a + b)[1..] == a[1..] + b;
      OrderedSplit(a[0].at, a[1..], b);
    }
  }

  // ---------- each step, in numbers ----------

  /** A request: up to 15 tokens, 30 more a second; it is granted, and costs one, when there is a whole one. */
  lemma RequestExactly(s: Levels, ip: string, at: real)
    ensures var t := Step(s, Request(ip, at));
      var refilled := if ip in s then s[ip].tokens + (at - s[ip].last) * 30.0 else 15.0;
      var b := if refilled > 15.0 then 15.0 else refilled;
      && t.Keys == s.Keys + {ip} && (forall j :: j in s && j != ip ==> t[j] == s[j])
      && (Grants(s, Request(ip, at)) <==> b >= 1.0)
      && t[ip] == Level(if b >= 1.0 then b - 1.0 else b, at)
  {
  }

  /** A sweep: exactly the buckets last used more than 600 seconds ago go, the others stay as they are. */
  lemma SweepExactly(s: Levels, now: real)
    ensures var t := Step(s, Sweep(now));
      forall ip :: (ip in t <==> ip in s && now - s[ip].last <= 600.0) && (ip in t ==> t[ip] == s[ip])
    ensures !Grants(s, Sweep(now))
  {
  }

  /** The address made a request at this time. */
  predicate Requested(events: seq<Event>, ip: string, at: real) {
    exists i :: 0 <= i < |events| && events[i] == Request(ip, at)
  }

  lemma {:induction false} HeldWereUsed(s: Levels, events: seq<Event>, ip: string)
    requires ip in Run(s, events)
    ensures (ip in s && Run(s, events)[ip] == s[ip]) || Requested(events, ip, Run(s, events)[ip].last)
    decreases |events|
  {
    if events == [] {
    } else {
      var at := Run(s, events)[ip].last;
      HeldWereUsed(Step(s, events[0]), events[1..], ip);
      if Requested(events[1..], ip, at) {
        var i :| 0 <= i < |events[1..]| && events[1..][i] == Request(ip, at);
        assert events[i + 1] == Request(ip, at);
      } else {
        assert events[0] == Request(ip, at) || Step(s, events[0])[ip] == s[ip];
      }
    }
  }

  /** Memory is given back: after a sweep, each address still held has made a request in the last ten minutes. */
  lemma SweptAreRecent(events: seq<Event>, now: real, ip: string)
    requires ip in Step(Run(map[], events), Sweep(now))
    ensures exists at :: now - at <= 600.0 && Requested(events, ip, at)
  {
    SweepExactly(Run(map[], events), now);
    HeldWereUsed(map[], events, ip);
  }

  /** What the clients are told is, request by request, what the step grants. */
  lemma {:induction false} AnswersAt(s: Levels, events: seq<Event>, i: nat)
    requires i < |events|
    ensures Answers(s, events)[i] == Grants(Run(s, events[..i]), events[i])
    decreases i
  {
    if i == 0 {
    } else {
      AnswersAt(Step(s, events[0]), events[1..], i - 1);
      assert events[1..][..i - 1] == events[..i][1..];
    }
  }

  // ---------- eviction cannot be observed ----------

  /** `s` is `full` without some buckets, each of which has had the time to refill completely. */
  ghost predicate Simulates(s: Levels, full: Levels, now: real) {
    && (forall ip :: ip in s ==> ip in full && full[ip] == s[ip])
    && (forall ip :: ip in full && ip !in s ==> Refilled(full[ip], now) == BURST)
  }

  /** Ten idle minutes refill any bucket, even an empty one. */
  lemma IdleIsFull(b: Level, now: real)
    requires 0.0 <= b.tokens && Idle(b, now)
    ensures Refilled(b, now) == BURST
  {
    assert (now - b.last) * RATE_PER_SECOND > IDLE_LIMIT * RATE_PER_SECOND;
  }

  lemma FullStaysFull(b: Level, now: real, later: real)
    requires Refilled(b, now) == BURST && now <= later
    ensures Refilled(b, later) == BURST
  {
    assert (later - b.last) * RATE_PER_SECOND >= (now - b.last) * RATE_PER_SECOND;
  }

  lemma SimulationStep(s: Levels, full: Levels, e: Event, now: real)
    requires Simulates(s, full, now) && Sound(full, now) && now <= e.at
    ensures Grants(s, e) == Grants(full, e)
    ensures Simulates(Step(s, e), if e.Sweep? then full else Step(full, e), e.at)
  {
    forall ip | ip in full && ip !in s ensures Refilled(full[ip], e.at) == BURST {
      FullStaysFull(full[ip], now, e.at);
    }
    if e.Sweep? {
      forall ip | ip in s && Idle(s[ip], e.at) ensures Refilled(full[ip], e.at) == BURST {
        IdleIsFull(s[ip], e.at);
      }
    }
  }

  lemma {:induction false} SimulationRun(s: Levels, full: Levels, events: seq<Event>, now: real)
    requires Simulates(s, full, now) && Sound(full, now) && Ordered(now, events)
    ensures Answers(s, events) == AnswersWithoutEviction(full, events)
    decreases |events|
  {
    if events == [] {
    } else {
      var e := events[0];
      SimulationStep(s, full, e, now);
      if e.Sweep? {
        SimulationRun(Step(s, e), full, events[1..], e.at);
      } else {
        StepSound(full, e, now);
        SimulationRun(Step(s, e), Step(full, e), events[1..], e.at);
      }
    }
  }

  /** Whatever the requests and whenever the sweeps, clients get the answers of a limiter that never evicts. */
  lemma EvictionUnobservable(events: seq<Event>, start: real)
    requires Ordered(start, events)
    ensures Answers(map[], events) == AnswersWithoutEviction(map[], events)
  {
    SimulationRun(map[], map[], events, start);
  }

  // ---------- the rate bound ----------

  /** How many requests of `ip` are granted. */
  function Granted(s: Levels, events: seq<Event>, ip: string): nat
    decreases |events|
  {
    if events == [] then 0
    else
      (if Grants(s, events[0]) && events[0].ip == ip then 1 else 0)
      + Granted(Step(s, events[0]), events[1..], ip)
  }

  /** The tokens `ip` could use at `now`. */
  function Available(s: Levels, ip: string, now: real): real {
    Refilled(BucketFor(s, ip, now), now)
  }

  lemma AvailableLater(s: Levels, ip: string, now: real, later: real)
    requires Sound(s, now) && now <= later
    ensures 0.0 <= Available(s, ip, later) <= BURST
    ensures Available(s, ip, later) <= Available(s, ip, now) + RATE_PER_SECOND * (later - now)
  {
    if ip in s {
      var b := s[ip];
      assert (later - b.last) * RATE_PER_SECOND == (now - b.last) * RATE_PER_SECOND + (later - now) * RATE_PER_SECOND;
    }
  }

  /** A granted request spends one token of its own address; nothing else spends any, sweeps included. */
  lemma StepSpends(s: Levels, e: Event, ip: string, now: real)
    requires Sound(s, now) && now <= e.at
    ensures Available(Step(s, e), ip, e.at)
         == Available(s, ip, e.at) - (if Grants(s, e) && e.ip == ip then 1.0 else 0.0)
  {
    if e.Sweep? && ip in s && Idle(s[ip], e.at) {
      IdleIsFull(s[ip], e.at);
    }
  }

  /** Grants are paid for: by the tokens at the start, and by what flows in until the end. */
  lemma {:induction false} GrantsArePaid(s: Levels, events: seq<Event>, ip: string, from: real)
    requires Sound(s, from) && Ordered(from, events)
    ensures Granted(s, events, ip) as real + Available(Run(s, events), ip, End(from, events))
         <= Available(s, ip, from) + RATE_PER_SECOND * (End(from, events) - from)
    decreases |events|
  {
    if events == [] {
    } else {
      var e := events[0];
      StepSound(s, e, from);
      StepSpends(s, e, ip, from);
      AvailableLater(s, ip, from, e.at);
      GrantsArePaid(Step(s, e), events[1..], ip, e.at);
    }
  }

  /**
    The rate bound. Cut any window out of any run, sweeps included: an address is granted at most
    15 requests plus 30 for each second the window lasts.
   */
  lemma RateBound(before: seq<Event>, window: seq<Event>, ip: string, start: real)
    requires Ordered(start, before + window) && window != []
    ensures Granted(Run(map[], before), window, ip) as real
         <= 15.0 + 30.0 * (End(start, before + window) - window[0].at)
  {
    OrderedSplit(start, before, window);
    RunSound(map[], before, start);
    EndConcat(start, before, window);
    var s := Run(map[], before);
    var from := window[0].at;
    AvailableLater(s, ip, End(start, before), from);
    GrantsArePaid(s, window, ip, from);
    RunSound(s, window, from);
    AvailableLater(Run(s, window), ip, End(from, window), End(from, window));
  }

  lemma {:induction false} EndConcat(from: real, a: seq<Event>, b: seq<Event>)
    ensures End(from, a + b) == End(End(from, a), b)
    decreases |a|
  {
    if a == [] {
      assert a + b == b;
    } else {
      assert (a + b)[1..] == a[1..] + b;
      EndConcat(a[0].at, a[1..], b);
    }
  }

  // ---------- what is never refused ----------

  /** Successive requests of `ip` are at least 1/30 s apart; `last` is the time of the previous one, if any. */
  predicate Spaced(events: seq<Event>, ip: string, any: bool, last: real)
    decreases |events|
  {
    events != [] ==>
      if events[0].Request? && events[0].ip == ip
      then (any ==> events[0].at - last >= 1.0 / 30.0) && Spaced(events[1..], ip, true, events[0].at)
      else Spaced(events[1..], ip, any, last)
  }

  lemma {:induction false} SpacedRun(s: Levels, events: seq<Event>, ip: string, any: bool, last: real)
    requires Spaced(events, ip, any, last)
    requires ip in s ==> any && s[ip] == Level(BURST - 1.0, last)
    ensures forall i :: 0 <= i < |events| && events[i].Request? && events[i].ip == ip ==> Answers(s, events)[i]
    decreases |events|
  {
    if events == [] {
    } else {
      var e := events[0];
      var t := Step(s, e);
      if e.Request? && e.ip == ip {
        SpacedRun(t, events[1..], ip, true, e.at);
      } else {
        SpacedRun(t, events[1..], ip, any, last);
      }
      forall i | 0 <= i < |events| && events[i].Request? && events[i].ip == ip ensures Answers(s, events)[i] {
        if i > 0 { assert events[i] == events[1..][i - 1]; }
      }
    }
  }

  /** An address that keeps its requests 1/30 s apart is never refused, whatever anyone else does. */
  lemma SpacedNeverRefused(events: seq<Event>, ip: string, i: nat)
    requires Spaced(events, ip, false, 0.0)
    requires i < |events| && events[i].Request? && events[i].ip == ip
    ensures Answers(map[], events)[i]
  {
    SpacedRun(map[], events, ip, false, 0.0);
  }

  /** Of requests that arrive together, as many are granted as whole tokens are left, the first ones. */
  lemma {:induction false} SimultaneousRequests(s: Levels, ip: string, at: real, left: nat, n: nat)
    requires left as real <= Available(s, ip, at) < left as real + 1.0
    ensures Answers(s, seq(n, _ => Request(ip, at))) == seq(n, i => i < left)
    decreases n
  {
    if n == 0 {
    } else {
      var events := seq(n, _ => Request(ip, at));
      assert events[1..] == seq(n - 1, _ => Request(ip, at));
      SimultaneousRequests(Step(s, events[0]), ip, at, if left > 0 then left - 1 else 0, n - 1);
    }
  }

  // ---------- the rate bound is attained ----------

  /** The times of the fastest client: a burst at the start, then a request whenever a token has flowed in. */
  function At(k: nat): real {
    if k < 15 then 0.0 else (k - 14) as real / 30.0
  }

  /** Its requests k, k + 1, ..., n of them. */
  function Fastest(ip: string, k: nat, n: nat): (r: seq<Event>)
    ensures |r| == n
    decreases n
  {
    if n == 0 then [] else [Request(ip, At(k))] + Fastest(ip, k + 1, n - 1)
  }

  /** Its bucket before request k: the burst is being spent, then it is always empty. */
  predicate Spending(s: Levels, ip: string, k: nat) {
    if k == 0 then ip !in s
    else ip in s && s[ip] == Level(if k < 15 then (15 - k) as real else 0.0, At(k - 1))
  }

  lemma FastestStep(s: Levels, ip: string, k: nat)
    requires Spending(s, ip, k)
    ensures Grants(s, Request(ip, At(k))) && Spending(Step(s, Request(ip, At(k))), ip, k + 1)
    ensures (if k == 0 then 0.0 else At(k - 1)) <= At(k)
  {
  }

  lemma FastestUnfolds(ip: string, k: nat, n: nat)
    ensures n > 0 ==> Fastest(ip, k, n) == [Request(ip, At(k))] + Fastest(ip, k + 1, n - 1)
    ensures n == 0 ==> Fastest(ip, k, n) == []
  {
  }

  lemma {:induction false} FastestIsGranted(s: Levels, ip: string, k: nat, n: nat)
    requires Spending(s, ip, k)
    ensures Granted(s, Fastest(ip, k, n), ip) == n
    ensures Ordered(if k == 0 then 0.0 else At(k - 1), Fastest(ip, k, n))
    ensures End(0.0, Fastest(ip, k, n)) == if n == 0 then 0.0 else At(k + n - 1)
    decreases n
  {
    hide Spending, Step, Grants, At, Fastest;
    FastestUnfolds(ip, k, n);
    if n == 0 {
    } else {
      var e, rest := Request(ip, At(k)), Fastest(ip, k + 1, n - 1);
      FastestStep(s, ip, k);
      FastestIsGranted(Step(s, e), ip, k + 1, n - 1);
      assert ([e] + rest)[1..] == rest;
      EndOfLater(rest, At(k), 0.0);
    }
  }

  lemma EndOfLater(events: seq<Event>, a: real, b: real)
    ensures events != [] ==> End(a, events) == End(b, events)
  {
  }

  /** For every length of time there is a run of that length that is granted all the bound allows. */
  lemma RateBoundIsAttained(ip: string, seconds: real)
    requires seconds >= 0.0
    ensures var run := Fastest(ip, 0, (15.0 + 30.0 * seconds).Floor);
      && Ordered(0.0, run) && End(0.0, run) <= seconds
      && Granted(map[], run, ip) == (15.0 + 30.0 * seconds).Floor
  {
    var n := (15.0 + 30.0 * seconds).Floor;
    FastestIsGranted(map[], ip, 0, n);
  }
}
