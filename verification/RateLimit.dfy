// The limiter itself: a map of slices that are compacted in place.
module RateLimit {
  import opened RateLimitSpec

  // A Go slice that starts at the front of its buffer.
  datatype Slice = Slice(buf: array<int>, len: nat)

  // Keeps the stamps after `cutoff`, moving them to the front of the same buffer.
  method Compact(stamps: Slice, cutoff: int) returns (pruned: Slice)
    requires stamps.len <= stamps.buf.Length
    modifies stamps.buf
    ensures pruned.buf == stamps.buf && pruned.len <= stamps.len
    ensures pruned.buf[..pruned.len] == Live(old(stamps.buf[..stamps.len]), cutoff)
  {
    var buf := stamps.buf;
    ghost var was := buf[..stamps.len];
    var n := 0;
    for i := 0 to stamps.len
      invariant n <= i
      invariant forall j :: i <= j < stamps.len ==> buf[j] == was[j]
      invariant buf[..n] == Live(was[..i], cutoff)
    {
      var t := buf[i];
      assert was[..i + 1][..i] == was[..i];
      if t > cutoff {
        buf[n] := t;
        n := n + 1;
        assert buf[..n] == buf[..n - 1] + [t];
      }
    }
    assert was[..stamps.len] == was;
    pruned := Slice(buf, n);
  }

  // Go's append: in place while there is room, else into a larger buffer.
  method Append(s: Slice, t: int) returns (r: Slice)
    requires s.len <= s.buf.Length
    modifies s.buf
    ensures r.len == s.len + 1 <= r.buf.Length
    ensures r.buf == s.buf || fresh(r.buf)
    ensures r.buf[..r.len] == old(s.buf[..s.len]) + [t]
  {
    var buf := s.buf;
    if s.len == buf.Length {
      buf := new int[2 * s.len + 1];
      for i := 0 to s.len
        invariant buf[..i] == s.buf[..i]
        invariant s.buf[..] == old(s.buf[..])
      {
        buf[i] := s.buf[i];
      }
    }
    buf[s.len] := t;
    r := Slice(buf, s.len + 1);
  }

  class RateLimiter {
    const limit: int
    const window: int
    var hits: map<string, Slice>
    // The stamps recorded per key.
    ghost var book: Book
    // Every buffer the limiter has used.
    ghost var buffers: set<array<int>>
    // Every accepted attempt since its key's last Reset.
    ghost var ledger: Book
    // The latest clock reading, once there is one, and whether none was older than one before.
    ghost var started: bool
    ghost var latest: int
    ghost var orderly: bool

    ghost function Settings(): Config {
      Config(limit, window)
    }

    // Slices fit their buffers, which are the limiter's own, and no two keys share one.
    ghost predicate Separate()
      reads this`hits, this`buffers
    {
      && (forall key :: key in hits ==> hits[key].buf in buffers && hits[key].len <= hits[key].buf.Length)
      && (forall k, l :: k in hits && l in hits && k != l ==> hits[k].buf != hits[l].buf)
    }

    // Every key but `key` holds what the book says.
    ghost predicate ValidBut(key: string)
      reads this`hits, this`book, this`buffers, buffers
    {
      && Separate() && hits.Keys == book.Keys
      && forall k :: k in hits && k != key ==> hits[k].buf[..hits[k].len] == book[k]
    }

    ghost predicate Valid()
      reads this`hits, this`book, this`buffers, buffers
    {
      && Separate() && hits.Keys == book.Keys
      && forall k :: k in hits ==> hits[k].buf[..hits[k].len] == book[k]
    }

    constructor (limit: int, window: int)
      ensures Valid() && Faithful() && buffers == {} && book == map[]
      ensures Settings() == Config(limit, window) && orderly && ledger == map[]
    {
      this.limit := limit;
      this.window := window;
      hits := map[];
      book := map[];
      buffers := {};
      ledger, started, latest, orderly := map[], false, 0, true;
    }

    // The live stamps of `key`, compacted in its own buffer.
    method Prune(key: string, cutoff: int) returns (pruned: Slice)
      requires Valid()
      modifies buffers
      ensures ValidBut(key)
      ensures pruned.len <= pruned.buf.Length
      ensures if key in hits then pruned.buf == hits[key].buf else fresh(pruned.buf)
      ensures pruned.buf[..pruned.len] == Live(Stamps(book, key), cutoff)
    {
      hide Live;
      var stamps;
      if key in hits {
        stamps := hits[key];
      } else {
        var none := new int[0];
        stamps := Slice(none, 0);
        assert none[..0] == Stamps(book, key);
      }
      pruned := Compact(stamps, cutoff);
    }

    method Put(key: string, stamps: Slice)
      requires ValidBut(key) && stamps.len <= stamps.buf.Length
      requires forall k :: k in hits && k != key ==> hits[k].buf != stamps.buf
      modifies this`hits, this`book, this`buffers
      ensures Valid() && buffers == old(buffers) + {stamps.buf}
      ensures book == old(book)[key := stamps.buf[..stamps.len]]
    {
      hits := hits[key := stamps];
      book := book[key := stamps.buf[..stamps.len]];
      buffers := buffers + {stamps.buf};
    }

    method Drop(key: string)
      requires ValidBut(key)
      modifies this`hits, this`book
      ensures Valid() && buffers == old(buffers)
      ensures book == old(book) - {key}
    {
      hits := hits - {key};
      book := book - {key};
    }

    // Allow, under the lock.
    method AllowLocked(key: string, now: int) returns (ok: bool)
      requires Valid()
      modifies this`hits, this`book, this`buffers, buffers
      ensures Valid() && fresh(buffers - old(buffers))
      ensures (book, ok) == LazyStep(Settings(), old(book), RateLimitSpec.Allow(key, now))
    {
      hide Live, Sweep, Stamps, Valid;
      var cutoff := now - window;
      SameKeys();
      if key !in hits && |hits| >= MAX_KEYS {
        GcAllLocked(cutoff);
        SameKeys();
        if |hits| >= MAX_KEYS {
          return false;
        }
      }
      ok := Record(key, cutoff, now);
    }

    // The rest of Allow, once there is room for the key.
    method Record(key: string, cutoff: int, now: int) returns (ok: bool)
      requires Valid()
      modifies this`hits, this`book, this`buffers, buffers
      ensures Valid() && fresh(buffers - old(buffers))
      ensures ok <==> |Live(Stamps(old(book), key), cutoff)| < limit
      ensures var live := Live(Stamps(old(book), key), cutoff);
              book == old(book)[key := if ok then live + [now] else live]
    {
      hide Live;
      var pruned := Prune(key, cutoff);
      if pruned.len >= limit {
        Put(key, pruned);
        return false;
      }
      pruned := Append(pruned, now);
      Put(key, pruned);
      return true;
    }

    method ResetLocked(key: string)
      requires Valid()
      modifies this`hits, this`book
      ensures Valid() && buffers == old(buffers)
      ensures book == LazyStep(Settings(), old(book), RateLimitSpec.Reset(key)).0
    {
      Drop(key);
    }

    // Prunes one key and drops it when nothing of it is live.
    method Refresh(key: string, cutoff: int) returns (live: nat)
      requires Valid()
      modifies this`hits, this`book, this`buffers, buffers
      ensures Valid() && fresh(buffers - old(buffers)) && old(buffers) <= buffers
      ensures old(key in hits) ==> buffers == old(buffers)
      ensures var stamps := Live(Stamps(old(book), key), cutoff);
              live == |stamps| && book == if stamps == [] then old(book) - {key} else old(book)[key := stamps]
    {
      hide Live;
      var pruned := Prune(key, cutoff);
      live := pruned.len;
      if live == 0 {
        Drop(key);
      } else {
        Put(key, pruned);
      }
    }

    method HitLimitLocked(key: string, now: int) returns (hit: bool)
      requires Valid()
      modifies this`hits, this`book, this`buffers, buffers
      ensures Valid() && fresh(buffers - old(buffers))
      ensures (book, hit) == LazyStep(Settings(), old(book), RateLimitSpec.HitLimit(key, now))
    {
      var live := Refresh(key, now - window);
      hit := live != 0 && live >= limit;
    }

    method GcAllLocked(cutoff: int)
      requires Valid()
      modifies this`hits, this`book, this`buffers, buffers
      ensures Valid() && buffers == old(buffers)
      ensures book == Sweep(old(book), cutoff)
    {
      hide Live, HalfSwept, Sweep, Stamps;
      HalfSweptEnds(book, cutoff);
      var todo := hits.Keys;
      while todo != {}
        invariant Valid() && buffers == old(buffers)
        invariant todo <= old(book).Keys && book == HalfSwept(old(book), todo, cutoff)
      {
        var key :| key in todo;
        HalfSweptNext(old(book), todo, key, cutoff);
        var _ := Refresh(key, cutoff);
        todo := todo - {key};
      }
    }

    // ----- the three operations, as their callers see them -----

    ghost predicate InOrder(op: Op)
      reads this
    {
      op.Reset? || !started || latest <= op.now
    }

    // The book is within its bounds and, as long as the clock has not run back, shows the
    // live entries of the ledger.
    ghost predicate Faithful()
      reads this
    {
      && Bounded(Settings(), book)
      && (!started ==> book == map[] && ledger == map[])
      && (orderly ==> SameLive(book, ledger, latest - window))
    }

    // While the clock does not run back, an attempt is allowed exactly when fewer than
    // `limit` accepted ones are live and the key is live or fewer than MAX_KEYS keys are.
    method Allow(key: string, now: int) returns (ok: bool)
      requires Valid() && Faithful()
      modifies this, buffers
      ensures Valid() && Faithful() && fresh(buffers - old(buffers))
      ensures orderly == (old(orderly) && old(InOrder(RateLimitSpec.Allow(key, now))))
      ensures orderly ==>
                var live := Live(Stamps(old(ledger), key), now - window);
                ok <==> |live| < limit && (live != [] || |Sweep(old(ledger), now - window)| < MAX_KEYS)
      ensures ledger == if ok then old(ledger)[key := Stamps(old(ledger), key) + [now]] else old(ledger)
    {
      hide Valid, Live, Sweep, Stamps, SameLive, Bounded, LazyStep;
      ghost var before := book;
      ok := AllowLocked(key, now);
      Log(RateLimitSpec.Allow(key, now), ok, before);
    }

    // Whether the key has reached the limit with accepted attempts that are live.
    method HitLimit(key: string, now: int) returns (hit: bool)
      requires Valid() && Faithful()
      modifies this, buffers
      ensures Valid() && Faithful() && fresh(buffers - old(buffers))
      ensures orderly == (old(orderly) && old(InOrder(RateLimitSpec.HitLimit(key, now))))
      ensures orderly ==>
                var live := Live(Stamps(old(ledger), key), now - window);
                hit <==> live != [] && |live| >= limit
      ensures ledger == old(ledger)
    {
      hide Valid, Live, Sweep, Stamps, SameLive, Bounded, LazyStep;
      ghost var before := book;
      hit := HitLimitLocked(key, now);
      Log(RateLimitSpec.HitLimit(key, now), hit, before);
    }

    method Reset(key: string)
      requires Valid() && Faithful()
      modifies this
      ensures Valid() && Faithful() && buffers == old(buffers)
      ensures orderly == old(orderly) && ledger == old(ledger) - {key}
    {
      hide Valid, Live, Sweep, Stamps, SameLive, Bounded;
      ghost var before := book;
      ResetLocked(key);
      Log(RateLimitSpec.Reset(key), true, before);
    }

    // Enters an answer in the ledger.
    ghost method Log(op: Op, answer: bool, before: Book)
      requires (book, answer) == LazyStep(Settings(), before, op)
      requires Bounded(Settings(), before) && (!started ==> before == map[] && ledger == map[])
      requires orderly ==> SameLive(before, ledger, latest - window)
      modifies this`ledger, this`started, this`latest, this`orderly
      ensures Faithful()
      ensures orderly == (old(orderly) && old(InOrder(op)))
      ensures orderly ==> answer == LedgerAnswer(Settings(), old(ledger), op)
      ensures ledger == Enter(old(ledger), op, answer)
    {
      hide LazyStep, Live, Sweep, SameLive, Bounded, Stamps;
      orderly := orderly && InOrder(op);
      var since := if started || op.Reset? then latest else op.now;
      if !started {
        NothingRecorded(Settings(), since - window, op);
      }
      BoundedStep(Settings(), before, op);
      if orderly {
        StepAgrees(Settings(), before, ledger, op, since);
      }
      started := started || !op.Reset?;
      latest := RateLimitSpec.After(since, op);
      ledger := Enter(ledger, op, answer);
    }

    lemma SameKeys()
      requires Valid()
      ensures book.Keys == hits.Keys && |book| == |hits|
    {
    }
  }

  // The book halfway through a sweep: the keys of `todo` are still as they were.
  ghost function HalfSwept(book: Book, todo: set<string>, cutoff: int): Book {
    map key | key in book && (key in todo || Live(book[key], cutoff) != []) ::
      if key in todo then book[key] else Live(book[key], cutoff)
  }

  lemma HalfSweptEnds(book: Book, cutoff: int)
    ensures HalfSwept(book, book.Keys, cutoff) == book
    ensures HalfSwept(book, {}, cutoff) == Sweep(book, cutoff)
  {
  }

  lemma HalfSweptNext(book: Book, todo: set<string>, key: string, cutoff: int)
    requires key in todo && todo <= book.Keys
    ensures var half := HalfSwept(book, todo, cutoff);
            var live := Live(Stamps(half, key), cutoff);
            key in half && HalfSwept(book, todo - {key}, cutoff) == if live == [] then half - {key} else half[key := live]
  {
  }
}
