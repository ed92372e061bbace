// The limiter's answers said by counting accepted attempts.
module RateLimitLaws {
  import opened RateLimitSpec

  // The attempts less than one window old.
  function Recent(stamps: seq<int>, window: int, now: int): set<nat> {
    set i: nat | i < |stamps| && now - stamps[i] < window
  }

  function RecentKeys(ledger: Book, window: int, now: int): set<string> {
    set key | key in ledger && Recent(ledger[key], window, now) != {}
  }

  lemma {:induction false} LiveAreRecent(stamps: seq<int>, window: int, now: int)
    ensures |Live(stamps, now - window)| == |Recent(stamps, window, now)|
  {
    if stamps != [] {
      var last := |stamps| - 1;
      LiveAreRecent(stamps[..last], window, now);
      var before, all := Recent(stamps[..last], window, now), Recent(stamps, window, now);
      assert all == if now - stamps[last] < window then before + {last} else before;
    }
  }

  lemma SweptAreRecent(ledger: Book, window: int, now: int)
    ensures |Sweep(ledger, now - window)| == |RecentKeys(ledger, window, now)|
  {
    hide Live, Recent;
    var swept := Sweep(ledger, now - window);
    forall key | key in ledger ensures key in swept <==> key in RecentKeys(ledger, window, now) {
      LiveAreRecent(ledger[key], window, now);
    }
    assert swept.Keys == RecentKeys(ledger, window, now) && |swept| == |swept.Keys|;
  }

  // After any run in order: an attempt is allowed exactly when fewer than `limit` accepted
  // ones of its key are recent, and the key has one or fewer than 4096 keys have any; the
  // limit is hit exactly when some are and at least `limit`.
  lemma AnswersCount(c: Config, ops: seq<Op>, since: int, key: string, now: int)
    requires Timed(ops, since) && Latest(ops, since) <= now
    ensures var ledger := Ledger(map[], ops, Answers(c, map[], ops));
            var recent := |Recent(Stamps(ledger, key), c.window, now)|;
            && (Answers(c, map[], ops + [Allow(key, now)])[|ops|] <==>
                  recent < c.limit && (recent > 0 || |RecentKeys(ledger, c.window, now)| < 4096))
            && (Answers(c, map[], ops + [HitLimit(key, now)])[|ops|] <==> recent > 0 && recent >= c.limit)
  {
    hide Live, Recent, Sweep, Timed, Answers, Ledger;
    var ledger := Ledger(map[], ops, Answers(c, map[], ops));
    LastAnswer(c, ops, since, Allow(key, now));
    LastAnswer(c, ops, since, HitLimit(key, now));
    LiveAreRecent(Stamps(ledger, key), c.window, now);
    SweptAreRecent(ledger, c.window, now);
  }
}
