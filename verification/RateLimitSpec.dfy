// What the login limiter of apps/hellingd/internal/auth/ratelimit.go promises,
// stated on values: the lazy book the limiter keeps, and the ledger of accepted
// attempts that it must behave like.
module RateLimitSpec {

  const MAX_KEYS := 4096

  datatype Config = Config(limit: int, window: int)

  // Stamps recorded per key, oldest first.
  type Book = map<string, seq<int>>

  datatype Op =
    | Allow(key: string, now: int)
    | HitLimit(key: string, now: int)
    | Reset(key: string)

  // ----- stamps -----

  // The stamps strictly after `cutoff`, in order.
  function Live(stamps: seq<int>, cutoff: int): (live: seq<int>)
    ensures |live| <= |stamps|
  {
    if stamps == [] then []
    else
      var last := |stamps| - 1;
      var earlier := Live(stamps[..last], cutoff);
      if stamps[last] > cutoff then earlier + [stamps[last]] else earlier
  }

  function Stamps(book: Book, key: string): seq<int> {
    if key in book then book[key] else []
  }

  // Every key that still has a live stamp, with its live stamps only.
  function Sweep(book: Book, cutoff: int): Book {
    map key | key in book && Live(book[key], cutoff) != [] :: Live(book[key], cutoff)
  }

  // ----- the lazy book: what the limiter stores -----

  // A full book is swept when a key it does not hold turns up.
  function Swept(book: Book, key: string, cutoff: int): Book {
    if key !in book && |book| >= MAX_KEYS then Sweep(book, cutoff) else book
  }

  function LazyStep(c: Config, book: Book, op: Op): (Book, bool) {
    match op
    case Allow(key, now) =>
      var swept := Swept(book, key, now - c.window);
      if key !in book && |swept| >= MAX_KEYS then (swept, false)
      else
        var live := Live(Stamps(swept, key), now - c.window);
        if |live| >= c.limit then (swept[key := live], false) else (swept[key := live + [now]], true)
    case HitLimit(key, now) =>
      var live := Live(Stamps(book, key), now - c.window);
      if live == [] then (book - {key}, false) else (book[key := live], |live| >= c.limit)
    case Reset(key) => (book - {key}, true)
  }

  function LazyRun(c: Config, book: Book, ops: seq<Op>): Book
    decreases |ops|
  {
    if ops == [] then book else LazyRun(c, LazyStep(c, book, ops[0]).0, ops[1..])
  }

  // What a run answers, one answer per operation (Reset answers true).
  function Answers(c: Config, book: Book, ops: seq<Op>): (answers: seq<bool>)
    ensures |answers| == |ops|
    decreases |ops|
  {
    if ops == [] then []
    else [LazyStep(c, book, ops[0]).1] + Answers(c, LazyStep(c, book, ops[0]).0, ops[1..])
  }

  // ----- the ledger: every accepted attempt since the key's last Reset -----

  function LedgerAnswer(c: Config, ledger: Book, op: Op): bool {
    match op
    case Allow(key, now) =>
      var live := Live(Stamps(ledger, key), now - c.window);
      |live| < c.limit && (live != [] || |Sweep(ledger, now - c.window)| < MAX_KEYS)
    case HitLimit(key, now) =>
      var live := Live(Stamps(ledger, key), now - c.window);
      live != [] && |live| >= c.limit
    case Reset(key) => true
  }

  // Nothing is ever pruned: only an accepted attempt and a Reset touch the ledger.
  function Enter(ledger: Book, op: Op, answer: bool): Book {
    match op
    case Allow(key, now) => if answer then ledger[key := Stamps(ledger, key) + [now]] else ledger
    case HitLimit(_, _) => ledger
    case Reset(key) => ledger - {key}
  }

  function LedgerAnswers(c: Config, ledger: Book, ops: seq<Op>): (answers: seq<bool>)
    ensures |answers| == |ops|
    decreases |ops|
  {
    if ops == [] then []
    else
      var answer := LedgerAnswer(c, ledger, ops[0]);
      [answer] + LedgerAnswers(c, Enter(ledger, ops[0], answer), ops[1..])
  }

  // The ledger that a run with these answers leaves behind.
  function Ledger(ledger: Book, ops: seq<Op>, answers: seq<bool>): Book
    requires |answers| == |ops|
    decreases |ops|
  {
    if ops == [] then ledger else Ledger(Enter(ledger, ops[0], answers[0]), ops[1..], answers[1..])
  }

  // The moment of the latest clock reading once `op` has run.
  function After(since: int, op: Op): int {
    if op.Reset? then since else op.now
  }

  // Readings of the clock never go back, starting from `since`.
  predicate Timed(ops: seq<Op>, since: int) {
    ops == [] ||
    (since <= After(since, ops[0]) && Timed(ops[1..], After(since, ops[0])))
  }

  function Max0(n: int): nat { if n < 0 then 0 else n }

  // The book stays within its bounds: at most MAX_KEYS keys, at most `limit` stamps a key.
  ghost predicate Bounded(c: Config, book: Book) {
    |book| <= MAX_KEYS && forall key :: key in book ==> |book[key]| <= Max0(c.limit)
  }

  // ----- pruning forgets only what no later cutoff can see -----

  lemma {:induction false} LiveTwice(stamps: seq<int>, cutoff: int, later: int)
    requires cutoff <= later
    ensures Live(Live(stamps, cutoff), later) == Live(stamps, later)
  {
    if stamps != [] {
      var last := |stamps| - 1;
      var earlier := Live(stamps[..last], cutoff);
      LiveTwice(stamps[..last], cutoff, later);
      assert (earlier + [stamps[last]])[..|earlier|] == earlier;
    }
  }

  lemma EmptyLive(cutoff: int)
    ensures Live([], cutoff) == []
  {
  }

  lemma LiveSnoc(stamps: seq<int>, t: int, cutoff: int)
    ensures Live(stamps + [t], cutoff) == if t > cutoff then Live(stamps, cutoff) + [t] else Live(stamps, cutoff)
  {
  }

  // The two books show the same live stamps for every key.
  ghost predicate SameLive(book: Book, ledger: Book, cutoff: int) {
    forall key :: Live(Stamps(book, key), cutoff) == Live(Stamps(ledger, key), cutoff)
  }

  lemma SameLiveAt(book: Book, ledger: Book, cutoff: int, key: string)
    requires SameLive(book, ledger, cutoff)
    ensures Live(Stamps(book, key), cutoff) == Live(Stamps(ledger, key), cutoff)
  {
  }

  lemma SameLiveLater(book: Book, ledger: Book, cutoff: int, later: int)
    requires SameLive(book, ledger, cutoff) && cutoff <= later
    ensures SameLive(book, ledger, later)
  {
    forall key ensures Live(Stamps(book, key), later) == Live(Stamps(ledger, key), later) {
      LiveTwice(Stamps(book, key), cutoff, later);
      LiveTwice(Stamps(ledger, key), cutoff, later);
    }
  }

  lemma SameSweep(book: Book, ledger: Book, cutoff: int)
    requires SameLive(book, ledger, cutoff)
    ensures Sweep(book, cutoff) == Sweep(ledger, cutoff)
  {
    var a, b := Sweep(book, cutoff), Sweep(ledger, cutoff);
    forall key ensures key in a <==> key in b {
      assert Live(Stamps(book, key), cutoff) == Live(Stamps(ledger, key), cutoff);
    }
    forall key | key in a ensures a[key] == b[key] {
      assert Live(Stamps(book, key), cutoff) == Live(Stamps(ledger, key), cutoff);
    }
  }

  lemma SweepSize(book: Book, cutoff: int)
    ensures |Sweep(book, cutoff)| <= |book|
    ensures forall key :: key in book && Live(book[key], cutoff) == [] ==> |Sweep(book, cutoff)| < |book|
  {
    var swept := Sweep(book, cutoff);
    assert swept.Keys <= book.Keys;
    SubsetSize(swept.Keys, book.Keys);
    assert |swept| == |swept.Keys| && |book| == |book.Keys|;
    forall key | key in book && Live(book[key], cutoff) == [] ensures |swept| < |book| {
      SubsetSize(swept.Keys, book.Keys - {key});
    }
  }

  lemma SubsetSize<T>(a: set<T>, b: set<T>)
    requires a <= b
    ensures |a| <= |b|
  {
    assert b == a + (b - a);
  }

  lemma SweepSameLive(book: Book, cutoff: int)
    ensures SameLive(Sweep(book, cutoff), book, cutoff)
  {
    forall key ensures Live(Stamps(Sweep(book, cutoff), key), cutoff) == Live(Stamps(book, key), cutoff) {
      LiveTwice(Stamps(book, key), cutoff, cutoff);
    }
  }

  // ----- one step of the lazy book against one step of the ledger -----

  lemma PutBounded(c: Config, book: Book, key: string, stamps: seq<int>)
    requires Bounded(c, book) && |stamps| <= Max0(c.limit)
    requires key in book || |book| < MAX_KEYS
    ensures Bounded(c, book[key := stamps])
  {
  }

  lemma DropBounded(c: Config, book: Book, key: string)
    requires Bounded(c, book)
    ensures Bounded(c, book - {key})
  {
  }

  lemma PutSameLive(book: Book, ledger: Book, cutoff: int, key: string, stamps: seq<int>, entries: seq<int>)
    requires SameLive(book, ledger, cutoff)
    requires Live(stamps, cutoff) == Live(entries, cutoff)
    ensures SameLive(book[key := stamps], ledger[key := entries], cutoff)
  {
    var book', ledger' := book[key := stamps], ledger[key := entries];
    forall k ensures Live(Stamps(book', k), cutoff) == Live(Stamps(ledger', k), cutoff) {
      assert Live(Stamps(book, k), cutoff) == Live(Stamps(ledger, k), cutoff);
    }
  }

  lemma KeepSameLive(book: Book, ledger: Book, cutoff: int, key: string, stamps: seq<int>)
    requires SameLive(book, ledger, cutoff)
    requires Live(stamps, cutoff) == Live(Stamps(ledger, key), cutoff)
    ensures SameLive(book[key := stamps], ledger, cutoff)
    ensures stamps == [] ==> SameLive(book - {key}, ledger, cutoff)
  {
    var kept, dropped := book[key := stamps], book - {key};
    forall k ensures Live(Stamps(kept, k), cutoff) == Live(Stamps(ledger, k), cutoff) {
      assert Live(Stamps(book, k), cutoff) == Live(Stamps(ledger, k), cutoff);
    }
    if stamps == [] {
      forall k ensures Live(Stamps(dropped, k), cutoff) == Live(Stamps(ledger, k), cutoff) {
        assert Live(Stamps(book, k), cutoff) == Live(Stamps(ledger, k), cutoff);
      }
    }
  }

  lemma BoundedAt(c: Config, book: Book, key: string)
    requires Bounded(c, book)
    ensures |Stamps(book, key)| <= Max0(c.limit)
    ensures key !in book ==> Stamps(book, key) == []
  {
  }

  lemma BoundedAllow(c: Config, book: Book, key: string, now: int)
    requires Bounded(c, book)
    ensures Bounded(c, LazyStep(c, book, Allow(key, now)).0)
  {
    hide Bounded, Live, Swept;
    var cutoff := now - c.window;
    SweptBounded(c, book, key, cutoff);
    var swept := Swept(book, key, cutoff);
    if key in book || |swept| < MAX_KEYS {
      BoundedAt(c, swept, key);
      var live := Live(Stamps(swept, key), cutoff);
      PutBounded(c, swept, key, if |live| >= c.limit then live else live + [now]);
    }
  }

  lemma BoundedHitLimit(c: Config, book: Book, key: string, now: int)
    requires Bounded(c, book)
    ensures Bounded(c, LazyStep(c, book, HitLimit(key, now)).0)
  {
  }

  lemma BoundedStep(c: Config, book: Book, op: Op)
    requires Bounded(c, book)
    ensures Bounded(c, LazyStep(c, book, op).0)
  {
    hide Bounded, Live, Sweep, Swept;
    match op
    case Allow(key, now) => BoundedAllow(c, book, key, now);
    case HitLimit(key, now) => BoundedHitLimit(c, book, key, now);
    case Reset(key) => DropBounded(c, book, key);
  }

  lemma SweptBounded(c: Config, book: Book, key: string, cutoff: int)
    requires Bounded(c, book)
    ensures Bounded(c, Swept(book, key, cutoff))
    ensures key in book ==> key in Swept(book, key, cutoff)
  {
    SweepSize(book, cutoff);
  }

  lemma SweptSameLive(book: Book, ledger: Book, key: string, cutoff: int)
    requires SameLive(book, ledger, cutoff)
    ensures SameLive(Swept(book, key, cutoff), ledger, cutoff)
  {
    SweepSameLive(book, cutoff);
    var swept := Swept(book, key, cutoff);
    forall k ensures Live(Stamps(swept, k), cutoff) == Live(Stamps(ledger, k), cutoff) {
      assert Live(Stamps(book, k), cutoff) == Live(Stamps(ledger, k), cutoff);
    }
  }

  // The two capacity tests agree although the book may hold keys that are no longer live.
  lemma SameAnswer(c: Config, book: Book, ledger: Book, key: string, now: int)
    requires Bounded(c, book) && SameLive(book, ledger, now - c.window)
    ensures LazyStep(c, book, Allow(key, now)).1 == LedgerAnswer(c, ledger, Allow(key, now))
  {
    hide Live, SameLive;
    var cutoff := now - c.window;
    SweptSameLive(book, ledger, key, cutoff);
    SameSweep(book, ledger, cutoff);
    SweepSize(book, cutoff);
    SameLiveAt(Swept(book, key, cutoff), ledger, cutoff, key);
    SameLiveAt(book, ledger, cutoff, key);
    assert key !in book ==> Live(Stamps(book, key), cutoff) == [] by { EmptyLive(cutoff); }
  }

  lemma AllowSameLive(c: Config, book: Book, ledger: Book, key: string, now: int)
    requires SameLive(book, ledger, now - c.window)
    ensures var (book', answer) := LazyStep(c, book, Allow(key, now));
            SameLive(book', Enter(ledger, Allow(key, now), answer), now - c.window)
  {
    hide Live, SameLive, Swept;
    var cutoff := now - c.window;
    SweptSameLive(book, ledger, key, cutoff);
    var swept := Swept(book, key, cutoff);
    var live := Live(Stamps(swept, key), cutoff);
    SameLiveAt(swept, ledger, cutoff, key);
    LiveTwice(Stamps(swept, key), cutoff, cutoff);
    if key in book || |swept| < MAX_KEYS {
      if |live| >= c.limit {
        KeepSameLive(swept, ledger, cutoff, key, live);
      } else {
        LiveSnoc(live, now, cutoff);
        LiveSnoc(Stamps(ledger, key), now, cutoff);
        PutSameLive(swept, ledger, cutoff, key, live + [now], Stamps(ledger, key) + [now]);
      }
    }
  }

  lemma ResetSameLive(book: Book, ledger: Book, key: string, cutoff: int)
    requires SameLive(book, ledger, cutoff)
    ensures SameLive(book - {key}, ledger - {key}, cutoff)
  {
    var book', ledger' := book - {key}, ledger - {key};
    forall k ensures Live(Stamps(book', k), cutoff) == Live(Stamps(ledger', k), cutoff) {
      assert Live(Stamps(book, k), cutoff) == Live(Stamps(ledger, k), cutoff);
    }
  }

  lemma HitLimitAgrees(c: Config, book: Book, ledger: Book, key: string, now: int)
    requires SameLive(book, ledger, now - c.window)
    ensures var (book', answer) := LazyStep(c, book, HitLimit(key, now));
            answer == LedgerAnswer(c, ledger, HitLimit(key, now)) && SameLive(book', ledger, now - c.window)
  {
    var cutoff := now - c.window;
    assert Live(Stamps(book, key), cutoff) == Live(Stamps(ledger, key), cutoff);
    LiveTwice(Stamps(book, key), cutoff, cutoff);
    KeepSameLive(book, ledger, cutoff, key, Live(Stamps(book, key), cutoff));
  }

  lemma StepAnswer(c: Config, book: Book, ledger: Book, op: Op)
    requires Bounded(c, book)
    requires op.Reset? || SameLive(book, ledger, op.now - c.window)
    ensures LazyStep(c, book, op).1 == LedgerAnswer(c, ledger, op)
  {
    match op
    case Allow(key, now) => SameAnswer(c, book, ledger, key, now);
    case HitLimit(key, now) => HitLimitAgrees(c, book, ledger, key, now);
    case Reset(_) =>
  }

  lemma StepSameLive(c: Config, book: Book, ledger: Book, op: Op, cutoff: int)
    requires SameLive(book, ledger, cutoff)
    requires op.Reset? || cutoff == op.now - c.window
    ensures SameLive(LazyStep(c, book, op).0, Enter(ledger, op, LazyStep(c, book, op).1), cutoff)
  {
    hide Live, SameLive, Swept;
    match op
    case Allow(key, now) => AllowSameLive(c, book, ledger, key, now);
    case HitLimit(key, now) => HitLimitAgrees(c, book, ledger, key, now);
    case Reset(key) => ResetSameLive(book, ledger, key, cutoff);
  }

  // ----- whole runs -----

  lemma StepAgrees(c: Config, book: Book, ledger: Book, op: Op, since: int)
    requires Bounded(c, book) && SameLive(book, ledger, since - c.window)
    requires since <= After(since, op)
    ensures var (book', answer) := LazyStep(c, book, op);
            && answer == LedgerAnswer(c, ledger, op)
            && SameLive(book', Enter(ledger, op, answer), After(since, op) - c.window)
  {
    hide LazyStep, LedgerAnswer, Enter, SameLive, Bounded;
    SameLiveLater(book, ledger, since - c.window, After(since, op) - c.window);
    StepAnswer(c, book, ledger, op);
    StepSameLive(c, book, ledger, op, After(since, op) - c.window);
  }

  lemma NothingRecorded(c: Config, cutoff: int, op: Op)
    ensures SameLive(map[], map[], cutoff)
    ensures op.Reset? ==> LazyStep(c, map[], op).0 == map[] && Enter(map[], op, true) == map[]
  {
  }

  // However late the book prunes, drops keys and sweeps, its answers are the ledger's.
  lemma {:induction false} AnswersFrom(c: Config, book: Book, ledger: Book, ops: seq<Op>, since: int)
    requires Bounded(c, book) && SameLive(book, ledger, since - c.window)
    requires Timed(ops, since)
    ensures Answers(c, book, ops) == LedgerAnswers(c, ledger, ops)
    decreases |ops|
  {
    hide LazyStep, LedgerAnswer, Enter, SameLive, Bounded;
    if ops != [] {
      var now := After(since, ops[0]);
      StepAgrees(c, book, ledger, ops[0], since);
      BoundedStep(c, book, ops[0]);
      AnswersFrom(c, LazyStep(c, book, ops[0]).0, Enter(ledger, ops[0], LedgerAnswer(c, ledger, ops[0])), ops[1..], now);
    }
  }

  lemma LimiterBehavesLikeLedger(c: Config, ops: seq<Op>, since: int)
    requires Timed(ops, since)
    ensures Answers(c, map[], ops) == LedgerAnswers(c, map[], ops)
  {
    AnswersFrom(c, map[], map[], ops, since);
  }

  // No run, whatever the clock does, takes the book past its bounds.
  lemma {:induction false} MemoryBound(c: Config, book: Book, ops: seq<Op>)
    requires Bounded(c, book)
    ensures Bounded(c, LazyRun(c, book, ops))
    ensures var end := LazyRun(c, book, ops);
            |end| <= 4096 && forall key :: key in end ==> |end[key]| <= if c.limit < 0 then 0 else c.limit
    decreases |ops|
  {
    if ops != [] {
      BoundedStep(c, book, ops[0]);
      MemoryBound(c, LazyStep(c, book, ops[0]).0, ops[1..]);
    }
  }

  // The book that a run leaves is the one its next answer comes from.
  lemma {:induction false} NextAnswer(c: Config, book: Book, ops: seq<Op>, op: Op)
    ensures Answers(c, book, ops + [op])[|ops|] == LazyStep(c, LazyRun(c, book, ops), op).1
    ensures LazyRun(c, book, ops + [op]) == LazyStep(c, LazyRun(c, book, ops), op).0
    decreases |ops|
  {
    if ops == [] {
      assert [] + [op] == [op];
    } else {
      assert (ops + [op])[1..] == ops[1..] + [op];
      NextAnswer(c, LazyStep(c, book, ops[0]).0, ops[1..], op);
    }
  }

  // ----- the sliding-window bound -----

  // The stamps in the half-open interval [from, until).
  function Between(stamps: seq<int>, from: int, until: int): seq<int> {
    if stamps == [] then []
    else
      var last := |stamps| - 1;
      var earlier := Between(stamps[..last], from, until);
      if from <= stamps[last] < until then earlier + [stamps[last]] else earlier
  }

  // Each stamp was accepted while fewer than `limit` earlier ones were live.
  predicate Paced(c: Config, stamps: seq<int>) {
    stamps == [] ||
    var last := |stamps| - 1;
    Paced(c, stamps[..last]) && |Live(stamps[..last], stamps[last] - c.window)| < c.limit
  }

  lemma {:induction false} BetweenIsLive(stamps: seq<int>, from: int, until: int, cutoff: int)
    requires cutoff < from
    ensures |Between(stamps, from, until)| <= |Live(stamps, cutoff)|
  {
    if stamps != [] {
      BetweenIsLive(stamps[..|stamps| - 1], from, until, cutoff);
    }
  }

  lemma {:induction false} PacedBound(c: Config, stamps: seq<int>, from: int)
    requires Paced(c, stamps)
    ensures |Between(stamps, from, from + c.window)| <= Max0(c.limit)
  {
    if stamps != [] {
      var last := |stamps| - 1;
      PacedBound(c, stamps[..last], from);
      if from <= stamps[last] < from + c.window {
        BetweenIsLive(stamps[..last], from, from + c.window, stamps[last] - c.window);
      }
    }
  }

  ghost predicate AllPaced(c: Config, ledger: Book) {
    forall key :: key in ledger ==> Paced(c, ledger[key])
  }

  lemma {:induction false} LedgerPaced(c: Config, ledger: Book, ops: seq<Op>)
    requires AllPaced(c, ledger)
    ensures AllPaced(c, Ledger(ledger, ops, LedgerAnswers(c, ledger, ops)))
    decreases |ops|
  {
    if ops != [] {
      var op := ops[0];
      var answer := LedgerAnswer(c, ledger, op);
      var ledger' := Enter(ledger, op, answer);
      if op.Allow? && answer {
        var stamps := Stamps(ledger, op.key);
        assert (stamps + [op.now])[..|stamps|] == stamps;
      }
      LedgerPaced(c, ledger', ops[1..]);
    }
  }

  // In every half-open interval one window long, a key has at most `limit` accepted
  // attempts since its last Reset.
  lemma WindowBound(c: Config, ops: seq<Op>, since: int, key: string, from: int)
    requires Timed(ops, since)
    ensures var accepted := Stamps(Ledger(map[], ops, Answers(c, map[], ops)), key);
            |Between(accepted, from, from + c.window)| <= if c.limit < 0 then 0 else c.limit
  {
    LimiterBehavesLikeLedger(c, ops, since);
    LedgerPaced(c, map[], ops);
    PacedBound(c, Stamps(Ledger(map[], ops, Answers(c, map[], ops)), key), from);
  }

  lemma FirstAllow(window: int, key: string, now: int)
    ensures LazyStep(Config(1, window), map[], Allow(key, now)) == (map[key := [now]], true)
  {
    assert [] + [now] == [now];
  }

  // The interval cannot be closed: an attempt exactly one window after another is allowed.
  lemma WindowIsHalfOpen(window: nat, key: string, start: int)
    ensures var c := Config(1, window);
            var ops := [Allow(key, start), Allow(key, start + window)];
            Timed(ops, start) && Answers(c, map[], ops) == [true, true]
  {
  }

  // The clock is read before the lock is taken, so a call can enter with an older reading
  // than one before it. Whatever the two readings are, the bound is then lost: with limit 1
  // a key gets two attempts in one window.
  lemma ClockMustNotRunBack(window: int, key: string, reading: int, older: int)
    requires window >= 1 && older < reading
    ensures var c := Config(1, window);
            var start := if older < reading - window then older else reading - window;
            var ops := [Allow(key, start), HitLimit(key, reading), Allow(key, older)];
            var accepted := Stamps(Ledger(map[], ops, Answers(c, map[], ops)), key);
            !Timed(ops, start) && |Between(accepted, start, start + window)| == 2
  {
    var c := Config(1, window);
    var start := if older < reading - window then older else reading - window;
    var ops := [Allow(key, start), HitLimit(key, reading), Allow(key, older)];
    FirstAllow(window, key, start);
    FirstAllow(window, key, older);
    LiveSnoc([], start, reading - window);
    assert LazyStep(c, map[key := [start]], ops[1]) == (map[], false);
    assert ops[1..] == [ops[1], ops[2]] && ops[1..][1..] == [ops[2]] && ops[1..][1..][1..] == [];
    assert Answers(c, map[], [ops[2]]) == [true];
    assert Answers(c, map[key := [start]], [ops[1], ops[2]]) == [false] + Answers(c, map[], [ops[2]]);
    assert Answers(c, map[], ops) == [true] + Answers(c, map[key := [start]], [ops[1], ops[2]]);
    assert Answers(c, map[], ops) == [true, false, true];
    assert !Timed([ops[2]], reading) && !Timed(ops[1..], start);
    TwoLedgerEntries(key, start, reading, older);
    TwoBetween(start, older, start + window);
  }

  lemma TwoLedgerEntries(key: string, first: int, looked: int, second: int)
    ensures var ops := [Allow(key, first), HitLimit(key, looked), Allow(key, second)];
            Stamps(Ledger(map[], ops, [true, false, true]), key) == [first, second]
  {
    var ops := [Allow(key, first), HitLimit(key, looked), Allow(key, second)];
    var answers := [true, false, true];
    assert ops[1..] == [ops[1], ops[2]] && ops[1..][1..] == [ops[2]] && ops[1..][1..][1..] == [];
    assert answers[1..] == [false, true] && answers[1..][1..] == [true];
    assert [] + [first] == [first] && [first] + [second] == [first, second];
    var one: Book := map[key := [first]];
    assert Ledger(one, [ops[2]], [true]) == Enter(one, ops[2], true);
    assert Ledger(one, [ops[1], ops[2]], [false, true]) == Ledger(one, [ops[2]], [true]);
    assert Ledger(map[], ops, answers) == Ledger(one, [ops[1], ops[2]], [false, true]);
  }

  lemma TwoBetween(a: int, b: int, until: int)
    requires a <= b < until
    ensures |Between([a, b], a, until)| == 2
  {
    assert [a, b][..1] == [a] && [a][..0] == [];
    assert Between([a], a, until) == Between([], a, until) + [a];
    assert Between([a, b], a, until) == Between([a], a, until) + [b];
  }

  // ----- denied attempts leave no trace -----

  // The run without the Allow calls that were denied, and the answers that remain.
  function WithoutDenied(ops: seq<Op>, answers: seq<bool>): seq<Op>
    requires |answers| == |ops|
  {
    if ops == [] then []
    else if ops[0].Allow? && !answers[0] then WithoutDenied(ops[1..], answers[1..])
    else [ops[0]] + WithoutDenied(ops[1..], answers[1..])
  }

  function AnswersWithoutDenied(ops: seq<Op>, answers: seq<bool>): seq<bool>
    requires |answers| == |ops|
  {
    if ops == [] then []
    else if ops[0].Allow? && !answers[0] then AnswersWithoutDenied(ops[1..], answers[1..])
    else [answers[0]] + AnswersWithoutDenied(ops[1..], answers[1..])
  }

  lemma {:induction false} TimedEarlier(ops: seq<Op>, since: int, earlier: int)
    requires Timed(ops, since) && earlier <= since
    ensures Timed(ops, earlier)
  {
    if ops != [] && ops[0].Reset? {
      TimedEarlier(ops[1..], since, earlier);
    }
  }

  lemma {:induction false} TimedWithoutDenied(ops: seq<Op>, answers: seq<bool>, since: int)
    requires |answers| == |ops| && Timed(ops, since)
    ensures Timed(WithoutDenied(ops, answers), since)
  {
    if ops != [] {
      var now := After(since, ops[0]);
      TimedWithoutDenied(ops[1..], answers[1..], now);
      var rest := WithoutDenied(ops[1..], answers[1..]);
      TimedEarlier(rest, now, since);
      assert ([ops[0]] + rest)[1..] == rest;
    }
  }

  lemma {:induction false} LedgerWithoutDenied(c: Config, ledger: Book, ops: seq<Op>)
    ensures var answers := LedgerAnswers(c, ledger, ops);
            LedgerAnswers(c, ledger, WithoutDenied(ops, answers)) == AnswersWithoutDenied(ops, answers)
    decreases |ops|
  {
    if ops != [] {
      var answers := LedgerAnswers(c, ledger, ops);
      var ledger' := Enter(ledger, ops[0], answers[0]);
      assert answers[1..] == LedgerAnswers(c, ledger', ops[1..]);
      LedgerWithoutDenied(c, ledger', ops[1..]);
      var rest := WithoutDenied(ops[1..], answers[1..]);
      assert ([ops[0]] + rest)[1..] == rest;
    }
  }

  // Dropping every denied attempt from a run changes no other answer in it.
  lemma DeniedLeaveNoTrace(c: Config, ops: seq<Op>, since: int)
    requires Timed(ops, since)
    ensures var answers := Answers(c, map[], ops);
            Answers(c, map[], WithoutDenied(ops, answers)) == AnswersWithoutDenied(ops, answers)
  {
    var answers := Answers(c, map[], ops);
    LimiterBehavesLikeLedger(c, ops, since);
    TimedWithoutDenied(ops, answers, since);
    LimiterBehavesLikeLedger(c, WithoutDenied(ops, answers), since);
    LedgerWithoutDenied(c, map[], ops);
  }

  // ----- when a lockout ends -----

  predicate Sorted(stamps: seq<int>) {
    forall i, j :: 0 <= i < j < |stamps| ==> stamps[i] <= stamps[j]
  }

  lemma {:induction false} LiveIsSuffix(stamps: seq<int>, cutoff: int, n: nat)
    requires Sorted(stamps) && 1 <= n
    ensures |Live(stamps, cutoff)| >= n <==> |stamps| >= n && stamps[|stamps| - n] > cutoff
  {
    if stamps != [] {
      var last := |stamps| - 1;
      var earlier := stamps[..last];
      if stamps[last] > cutoff {
        if n > 1 {
          LiveIsSuffix(earlier, cutoff, n - 1);
        }
      } else {
        LiveIsSuffix(earlier, cutoff, n);
        assert |earlier| >= n ==> earlier[|earlier| - n] <= stamps[last];
      }
    }
  }

  // Every list of the ledger is sorted and no later than `since`.
  ghost predicate Chronological(ledger: Book, since: int) {
    forall key :: key in ledger ==> Sorted(ledger[key]) && forall t :: t in ledger[key] ==> t <= since
  }

  function Latest(ops: seq<Op>, since: int): int {
    if ops == [] then since else Latest(ops[1..], After(since, ops[0]))
  }

  lemma SortedSnoc(stamps: seq<int>, now: int)
    requires Sorted(stamps) && forall t :: t in stamps ==> t <= now
    ensures Sorted(stamps + [now])
  {
    forall i, j | 0 <= i < j < |stamps + [now]| ensures (stamps + [now])[i] <= (stamps + [now])[j] {
      assert stamps[i] in stamps;
    }
  }

  lemma {:induction false} LedgerChronological(ledger: Book, ops: seq<Op>, answers: seq<bool>, since: int)
    requires |answers| == |ops| && Timed(ops, since) && Chronological(ledger, since)
    ensures Chronological(Ledger(ledger, ops, answers), Latest(ops, since))
    decreases |ops|
  {
    if ops != [] {
      var op := ops[0];
      var now := After(since, op);
      var ledger' := Enter(ledger, op, answers[0]);
      assert Chronological(ledger', now) by {
        forall key | key in ledger'
          ensures Sorted(ledger'[key]) && forall t :: t in ledger'[key] ==> t <= now
        {
          if op.Allow? && answers[0] && key == op.key {
            SortedSnoc(Stamps(ledger, key), now);
          }
        }
      }
      LedgerChronological(ledger', ops[1..], answers[1..], now);
    }
  }

  // What the run answers to one more operation at its end.
  lemma {:induction false} LastLedgerAnswer(c: Config, ledger: Book, ops: seq<Op>, op: Op)
    ensures LedgerAnswers(c, ledger, ops + [op])[|ops|] ==
              LedgerAnswer(c, Ledger(ledger, ops, LedgerAnswers(c, ledger, ops)), op)
    decreases |ops|
  {
    if ops == [] {
      assert [] + [op] == [op];
    } else {
      var ledger' := Enter(ledger, ops[0], LedgerAnswer(c, ledger, ops[0]));
      assert (ops + [op])[1..] == ops[1..] + [op];
      LastLedgerAnswer(c, ledger', ops[1..], op);
      assert LedgerAnswers(c, ledger, ops)[1..] == LedgerAnswers(c, ledger', ops[1..]);
    }
  }

  lemma {:induction false} TimedAppend(ops: seq<Op>, op: Op, since: int)
    requires Timed(ops, since) && (op.Reset? || Latest(ops, since) <= op.now)
    ensures Timed(ops + [op], since)
  {
    if ops == [] {
      assert [op][1..] == [];
    } else {
      assert (ops + [op])[1..] == ops[1..] + [op];
      TimedAppend(ops[1..], op, After(since, ops[0]));
    }
  }

  // A key is locked out exactly while the oldest of its last `limit` accepted
  // attempts is inside the window; while fewer than MAX_KEYS keys are live, nothing else
  // makes Allow refuse it.
  lemma LockoutEnds(c: Config, ops: seq<Op>, since: int, key: string, now: int)
    requires c.limit >= 1
    requires Timed(ops, since) && Latest(ops, since) <= now
    ensures var accepted := Stamps(Ledger(map[], ops, Answers(c, map[], ops)), key);
            var locked := |accepted| >= c.limit && accepted[|accepted| - c.limit] > now - c.window;
            && Answers(c, map[], ops + [HitLimit(key, now)])[|ops|] == locked
            && var allowed := Answers(c, map[], ops + [Allow(key, now)])[|ops|];
            && (locked ==> !allowed)
            && (|Sweep(Ledger(map[], ops, Answers(c, map[], ops)), now - c.window)| < MAX_KEYS ==> allowed == !locked)
  {
    hide *;
    var answers := Answers(c, map[], ops);
    var ledger := Ledger(map[], ops, answers);
    LastAnswer(c, ops, since, HitLimit(key, now));
    LastAnswer(c, ops, since, Allow(key, now));
    assert Chronological(ledger, Latest(ops, since)) by {
      EmptyChronological(since);
      LedgerChronological(map[], ops, answers, since);
    }
    LedgerLockout(c, ledger, Latest(ops, since), key, now);
  }

  lemma EmptyChronological(since: int)
    ensures Chronological(map[], since)
  {
  }

  lemma LedgerLockout(c: Config, ledger: Book, since: int, key: string, now: int)
    requires c.limit >= 1 && Chronological(ledger, since)
    ensures var accepted := Stamps(ledger, key);
            var locked := |accepted| >= c.limit && accepted[|accepted| - c.limit] > now - c.window;
            && LedgerAnswer(c, ledger, HitLimit(key, now)) == locked
            && var allowed := LedgerAnswer(c, ledger, Allow(key, now));
            && (locked ==> !allowed)
            && (|Sweep(ledger, now - c.window)| < MAX_KEYS ==> allowed == !locked)
  {
    LiveIsSuffix(Stamps(ledger, key), now - c.window, c.limit);
  }

  lemma LastAnswer(c: Config, ops: seq<Op>, since: int, op: Op)
    requires Timed(ops, since) && (op.Reset? || Latest(ops, since) <= op.now)
    ensures Answers(c, map[], ops + [op])[|ops|] ==
              LedgerAnswer(c, Ledger(map[], ops, Answers(c, map[], ops)), op)
  {
    TimedAppend(ops, op, since);
    LimiterBehavesLikeLedger(c, ops, since);
    LimiterBehavesLikeLedger(c, ops + [op], since);
    LastLedgerAnswer(c, map[], ops, op);
  }
}
