/** The limiter as the program holds it: bucket objects in a map, updated in place. */
module RateLimiter {
  import opened RateLimit

  class Bucket {
    var tokens: real
    var last: real

    constructor (now: real)
      ensures tokens == 15.0 && last == now
    {
      tokens, last := BURST, now;
    }

    ghost function Level(): Level
      reads this
    {
      RateLimit.Level(tokens, last)
    }

    method Allow(now: real) returns (ok: bool)
      modifies this
      ensures ok == Allows(old(Level()), now)
      ensures Level() == Used(old(Level()), now)
      ensures last == now
      ensures var refilled := old(tokens) + (now - old(last)) * 30.0;
        var t := if refilled > 15.0 then 15.0 else refilled;
        ok == (t >= 1.0) && tokens == if ok then t - 1.0 else t
    {
      tokens := tokens + (now - last) * RATE_PER_SECOND;
      if tokens > BURST {
        tokens := BURST;
      }
      last := now;
      if tokens < 1.0 {
        return false;
      }
      tokens := tokens - 1.0;
      return true;
    }
  }

  class Store {
    var buckets: map<string, Bucket>

    ghost predicate Valid()
      reads this
    {
      forall i, j :: i in buckets && j in buckets && i != j ==> buckets[i] != buckets[j]
    }

    ghost function Levels(): Levels
      reads this, buckets.Values
    {
      map ip | ip in buckets :: buckets[ip].Level()
    }

    constructor ()
      ensures Valid() && Levels() == map[]
    {
      buckets := map[];
    }

    method Get(ip: string, now: real) returns (b: Bucket)
      requires Valid()
      modifies this
      ensures Valid() && ip in buckets && buckets[ip] == b
      ensures buckets == if ip in old(buckets) then old(buckets) else old(buckets)[ip := b]
      ensures ip !in old(buckets) ==> fresh(b) && b.tokens == 15.0 && b.last == now
    {
      if ip in buckets {
        return buckets[ip];
      }
      b := new Bucket(now);
      buckets := buckets[ip := b];
    }

    /** Finds or creates the address's bucket and draws on it; the clock is read once in each part. */
    method Request(ip: string, found: real, now: real) returns (ok: bool)
      requires Valid() && found <= now
      modifies this, buckets.Values
      ensures Valid()
      ensures ok == Grants(old(Levels()), RateLimit.Request(ip, now))
      ensures Levels() == Step(old(Levels()), RateLimit.Request(ip, now))
    {
      ghost var before := Levels();
      RequestUnfolds(before, ip, found, now);
      hide Allows, Used, Refilled, Grants, Step;
      var b := Get(ip, found);
      assert forall j :: j in before ==> buckets[j].Level() == before[j];
      ok := b.Allow(now);
      assert forall j :: j in before && j != ip ==> buckets[j].Level() == before[j];
    }

    /** One tick of the eviction loop; the map is walked in an arbitrary order. */
    method Sweep(now: real)
      requires Valid()
      modifies this
      ensures Valid() && Levels() == Step(old(Levels()), RateLimit.Sweep(now))
      ensures forall ip :: ip in buckets <==> ip in old(buckets) && now - old(buckets[ip].last) <= 600.0
      ensures forall ip :: ip in buckets ==> buckets[ip] == old(buckets)[ip]
      ensures forall ip :: ip in buckets ==> buckets[ip].tokens == old(buckets[ip].tokens) && buckets[ip].last == old(buckets[ip].last)
    {
      ghost var before := buckets;
      var todo := buckets.Keys;
      while todo != {}
        invariant todo <= buckets.Keys <= before.Keys
        invariant forall ip :: ip in buckets ==> buckets[ip] == before[ip]
        invariant forall ip :: ip in before && ip !in todo ==>
                    (ip in buckets <==> !Idle(before[ip].Level(), now))
        decreases todo
      {
        var ip :| ip in todo;
        todo := todo - {ip};
        if now - buckets[ip].last > IDLE_LIMIT {
          buckets := buckets - {ip};
        }
      }
    }
  }

  lemma RequestUnfolds(s: Levels, ip: string, found: real, now: real)
    requires found <= now
    ensures var b := if ip in s then s[ip] else RateLimit.Level(15.0, found);
      && (Grants(s, RateLimit.Request(ip, now)) <==> Allows(b, now))
      && Step(s, RateLimit.Request(ip, now)) == s[ip := Used(b, now)]
  {
    FreshIsFull(found, now);
  }

  /** A bucket made a moment before it is used behaves as one made when it is used. */
  lemma FreshIsFull(found: real, now: real)
    requires found <= now
    ensures Allows(RateLimit.Level(BURST, found), now) == Allows(RateLimit.Level(BURST, now), now)
    ensures Used(RateLimit.Level(BURST, found), now) == Used(RateLimit.Level(BURST, now), now)
  {
    assert (now - found) * RATE_PER_SECOND >= 0.0;
  }
}
