// Exactly-once dispatch of polled events, although only the last ids are kept.
module EventsSpec {
  import opened Numerals

  // How many ids the hook keeps, and how many events a poll asks for. What follows is about
  // any cap and any window.
  const SEEN_LIMIT := 1000
  const POLL_WINDOW := 50

  datatype Event = Event(id: string, kind: string)

  // The last n elements of s, or all of them when there are fewer.
  function LastOf<T>(s: seq<T>, n: nat): (r: seq<T>)
    ensures |r| == if |s| <= n then |s| else n
  {
    if |s| <= n then s else s[|s| - n..]
  }

  // The query keys that an event type makes stale.
  function DispatchKeys(kind: string): seq<seq<string>> {
    if "instance." <= kind || "incus.instance." <= kind then [["incus", "instances"]]
    else if "container." <= kind || "podman." <= kind then [["podman", "containers"]]
    else if "storage." <= kind then [["incus", "storage-pools"]]
    else if "network." <= kind then [["incus", "networks"]]
    else if "image." <= kind then [["incus", "images"]]
    else if "operation." <= kind || "task." <= kind then [["incus", "operations"]]
    else []
  }

  lemma NotBefore(kind: string)
    requires kind != ""
    ensures kind[0] != 'i' ==> !("instance." <= kind) && !("incus.instance." <= kind) && !("image." <= kind)
    ensures kind[0] != 'c' ==> !("container." <= kind)
    ensures kind[0] != 'p' ==> !("podman." <= kind)
    ensures kind[0] != 's' ==> !("storage." <= kind)
    ensures kind[0] != 'n' ==> !("network." <= kind)
  {
    assert "instance."[0] == 'i' && "incus.instance."[0] == 'i' && "image."[0] == 'i';
    assert "container."[0] == 'c' && "podman."[0] == 'p' && "storage."[0] == 's' && "network."[0] == 'n';
  }

  // Each family of event types makes its query stale, ...
  lemma InstanceEvents(kind: string)
    requires "instance." <= kind || "incus.instance." <= kind
    ensures DispatchKeys(kind) == [["incus", "instances"]]
  {
  }

  lemma ContainerEvents(kind: string)
    requires "container." <= kind || "podman." <= kind
    ensures DispatchKeys(kind) == [["podman", "containers"]]
  {
    assert kind[0] == "container."[0] || kind[0] == "podman."[0];
    assert "instance."[0] == 'i' && "incus.instance."[0] == 'i';
  }

  lemma StorageEvents(kind: string)
    requires "storage." <= kind
    ensures DispatchKeys(kind) == [["incus", "storage-pools"]]
  {
    assert kind[0] == "storage."[0];
    NotBefore(kind);
  }

  lemma NetworkEvents(kind: string)
    requires "network." <= kind
    ensures DispatchKeys(kind) == [["incus", "networks"]]
  {
    assert kind[0] == "network."[0];
    NotBefore(kind);
  }

  lemma ImageEvents(kind: string)
    requires "image." <= kind
    ensures DispatchKeys(kind) == [["incus", "images"]]
  {
    assert kind[0] == "image."[0] && kind[1] == "image."[1];
    assert "instance."[1] == 'n' && "incus.instance."[1] == 'n';
    NotBefore(kind);
  }

  lemma OperationEvents(kind: string)
    requires "operation." <= kind || "task." <= kind
    ensures DispatchKeys(kind) == [["incus", "operations"]]
  {
    assert kind[0] == "operation."[0] || kind[0] == "task."[0];
    NotBefore(kind);
  }

  // ... and no other event makes any.
  lemma OtherEvents(kind: string)
    ensures DispatchKeys(kind) == [] <==>
              !("instance." <= kind
                || "incus.instance." <= kind
                || "container." <= kind
                || "podman." <= kind
                || "storage." <= kind
                || "network." <= kind
                || "image." <= kind
                || "operation." <= kind
                || "task." <= kind)
  {
  }

  // Every key made stale by these events, in order.
  function AllKeys(events: seq<Event>): seq<seq<string>> {
    if events == [] then [] else AllKeys(events[..|events| - 1]) + DispatchKeys(events[|events| - 1].kind)
  }

  function Ids(events: seq<Event>): (ids: seq<string>)
    ensures |ids| == |events|
    ensures forall i :: 0 <= i < |events| ==> ids[i] == events[i].id
  {
    seq(|events|, i requires 0 <= i < |events| => events[i].id)
  }

  // ----- what the hook keeps and what it has dispatched -----

  // Ids seen, oldest first, and every event dispatched so far.
  datatype Stream = Stream(seen: seq<string>, dispatched: seq<Event>)

  const FRESH := Stream([], [])

  function Offer(cap: nat, s: Stream, ev: Event): Stream {
    if ev.id in s.seen then s else Stream(LastOf(s.seen + [ev.id], cap), s.dispatched + [ev])
  }

  function OfferAll(cap: nat, s: Stream, events: seq<Event>): Stream {
    if events == [] then s else Offer(cap, OfferAll(cap, s, events[..|events| - 1]), events[|events| - 1])
  }

  lemma OfferSnoc(cap: nat, s: Stream, events: seq<Event>, ev: Event)
    ensures OfferAll(cap, s, events + [ev]) == Offer(cap, OfferAll(cap, s, events), ev)
  {
    assert (events + [ev])[..|events|] == events;
  }

  // A poll that failed, or the batch it fetched when the feed had `length` events.
  datatype Poll = Failed | Fetched(length: nat, batch: seq<Event>)

  function AfterPoll(cap: nat, s: Stream, p: Poll): Stream {
    match p
    case Failed => s
    case Fetched(_, batch) => OfferAll(cap, s, batch)
  }

  function AfterPolls(cap: nat, s: Stream, polls: seq<Poll>): Stream {
    if polls == [] then s else AfterPoll(cap, AfterPolls(cap, s, polls[..|polls| - 1]), polls[|polls| - 1])
  }

  // ----- whatever is fetched, the seen ids are the last ones dispatched -----

  ghost predicate Remembers(cap: nat, s: Stream) {
    && s.seen == LastOf(Ids(s.dispatched), cap)
    && forall i, j :: 0 <= i < j < |s.dispatched| && j - i <= cap ==> s.dispatched[i].id != s.dispatched[j].id
  }

  lemma InLast(cap: nat, s: Stream, i: int)
    requires Remembers(cap, s) && 0 <= i < |s.dispatched| && |s.dispatched| - i <= cap
    ensures s.dispatched[i].id in s.seen
  {
  }

  lemma OfferRemembers(cap: nat, s: Stream, ev: Event)
    requires Remembers(cap, s)
    ensures Remembers(cap, Offer(cap, s, ev))
  {
  }

  lemma {:induction false} OfferAllRemembers(cap: nat, s: Stream, events: seq<Event>)
    requires Remembers(cap, s)
    ensures Remembers(cap, OfferAll(cap, s, events))
  {
    if events != [] {
      OfferAllRemembers(cap, s, events[..|events| - 1]);
      OfferRemembers(cap, OfferAll(cap, s, events[..|events| - 1]), events[|events| - 1]);
    }
  }

  // After any polls whatever, the seen ids are those of the last `cap` events dispatched,
  // and any `cap` + 1 events dispatched in a row have different ids.
  lemma {:induction false} SeenIsTheLastDispatched(cap: nat, polls: seq<Poll>)
    ensures Remembers(cap, AfterPolls(cap, FRESH, polls))
  {
    if polls != [] {
      var before := polls[..|polls| - 1];
      SeenIsTheLastDispatched(cap, before);
      if polls[|polls| - 1].Fetched? {
        OfferAllRemembers(cap, AfterPolls(cap, FRESH, before), polls[|polls| - 1].batch);
      }
    }
  }

  // ----- a feed polled through a window -----

  ghost predicate UniqueIds(feed: seq<Event>) {
    forall i, j :: 0 <= i < j < |feed| ==> feed[i].id != feed[j].id
  }

  // ev is at position p of the feed and among its last `window` events at this length.
  predicate InWindow(window: nat, feed: seq<Event>, length: nat, p: nat, ev: Event) {
    p < length <= |feed| && length <= p + window && feed[p] == ev
  }

  ghost predicate WindowBatch(window: nat, feed: seq<Event>, length: nat, batch: seq<Event>) {
    forall ev :: ev in batch ==> Windowed(window, feed, length, ev)
  }

  ghost predicate Windowed(window: nat, feed: seq<Event>, length: nat, ev: Event) {
    exists p :: InWindow(window, feed, length, p, ev)
  }

  // Each fetched batch holds events of the window, in any order; the feed only grows.
  ghost predicate Polls(window: nat, feed: seq<Event>, polls: seq<Poll>, length: nat) {
    if polls == [] then true
    else
      var last := polls[|polls| - 1];
      if last.Failed? then Polls(window, feed, polls[..|polls| - 1], length)
      else
        && last.length <= length
        && WindowBatch(window, feed, last.length, last.batch)
        && Polls(window, feed, polls[..|polls| - 1], last.length)
  }

  // The dispatched events are distinct events of feed[..length], at these positions, and
  // none is more than a window older than one dispatched before it.
  ghost predicate Placed(window: nat, feed: seq<Event>, s: Stream, places: seq<nat>, length: nat) {
    && |places| == |s.dispatched|
    && (forall i :: 0 <= i < |places| ==> places[i] < length && places[i] < |feed| && feed[places[i]] == s.dispatched[i])
    && (forall i, j :: 0 <= i < j < |places| ==> places[i] != places[j] && places[i] < places[j] + window)
  }

  // Distinct numbers of an interval are no more than its length.
  lemma {:induction false} Pigeonhole(places: seq<nat>, low: int, high: int)
    requires low <= high
    requires forall i :: 0 <= i < |places| ==> low <= places[i] < high
    requires forall i, j :: 0 <= i < j < |places| ==> places[i] != places[j]
    ensures |places| <= high - low
    decreases high - low
  {
    if places != [] {
      assert low <= places[0] < high;
      if i :| 0 <= i < |places| && places[i] == high - 1 {
        Pigeonhole(places[..i] + places[i + 1..], low, high - 1);
      } else {
        Pigeonhole(places, low, high - 1);
      }
    }
  }

  // Since it was dispatched, less than a window of older events and less than a window of
  // newer ones have been.
  lemma StillSeen(cap: nat, window: nat, feed: seq<Event>, s: Stream, places: seq<nat>, length: nat, p: nat, i: nat)
    requires Remembers(cap, s) && Placed(window, feed, s, places, length) && cap >= 2 * window - 1
    requires length <= p + window && i < |places| && places[i] == p
    ensures s.dispatched[i].id in s.seen
  {
    var later := places[i..];
    forall j | 0 <= j < |later| ensures p - window < later[j] < p + window {
      assert later[j] == places[i + j];
    }
    assert window > 0;
    Pigeonhole(later, p - window + 1, p + window);
    InLast(cap, s, i);
  }

  // An event of the window is among the seen ids exactly when it was dispatched.
  lemma SeenInWindow(cap: nat, window: nat, feed: seq<Event>, s: Stream, places: seq<nat>, length: nat, p: nat, ev: Event)
    requires UniqueIds(feed) && Remembers(cap, s) && Placed(window, feed, s, places, length)
    requires InWindow(window, feed, length, p, ev) && cap >= 2 * window - 1
    ensures ev.id in s.seen <==> p in places
    ensures ev.id in s.seen <==> ev in s.dispatched
  {
    if i :| 0 <= i < |places| && places[i] == p {
      StillSeen(cap, window, feed, s, places, length, p, i);
    }
    if ev.id in s.seen {
      var k :| 0 <= k < |s.seen| && s.seen[k] == ev.id;
      var i := |s.dispatched| - |s.seen| + k;
      assert Ids(s.dispatched)[i] == s.seen[k];
      assert s.dispatched[i] == feed[places[i]];
    }
    if ev in s.dispatched {
      var i :| 0 <= i < |s.dispatched| && s.dispatched[i] == ev;
      assert feed[places[i]] == feed[p];
    }
  }

  lemma OfferPlaced(cap: nat, window: nat, feed: seq<Event>, s: Stream, places: seq<nat>, length: nat, p: nat, ev: Event)
    returns (places': seq<nat>)
    requires UniqueIds(feed) && Remembers(cap, s) && Placed(window, feed, s, places, length)
    requires InWindow(window, feed, length, p, ev) && cap >= 2 * window - 1
    ensures Remembers(cap, Offer(cap, s, ev)) && Placed(window, feed, Offer(cap, s, ev), places', length)
    ensures ev in Offer(cap, s, ev).dispatched && forall e :: e in s.dispatched ==> e in Offer(cap, s, ev).dispatched
    ensures forall e :: e in Offer(cap, s, ev).dispatched ==> e in s.dispatched || e == ev
  {
    OfferRemembers(cap, s, ev);
    SeenInWindow(cap, window, feed, s, places, length, p, ev);
    places' := if ev.id in s.seen then places else places + [p];
  }

  // The events of these batches.
  predicate Polled(polls: seq<Poll>, ev: Event) {
    exists i :: 0 <= i < |polls| && polls[i].Fetched? && ev in polls[i].batch
  }

  lemma {:induction false} BatchPlaced(
      cap: nat, window: nat, feed: seq<Event>, s: Stream, places: seq<nat>, length: nat, batch: seq<Event>)
    returns (places': seq<nat>)
    requires UniqueIds(feed) && Remembers(cap, s) && Placed(window, feed, s, places, length) && cap >= 2 * window - 1
    requires WindowBatch(window, feed, length, batch)
    ensures Remembers(cap, OfferAll(cap, s, batch)) && Placed(window, feed, OfferAll(cap, s, batch), places', length)
    ensures forall e :: e in OfferAll(cap, s, batch).dispatched <==> e in s.dispatched || e in batch
  {
    places' := places;
    if batch != [] {
      var last := |batch| - 1;
      assert forall e :: e in batch <==> e in batch[..last] || e == batch[last] by {
        assert batch == batch[..last] + [batch[last]];
      }
      assert WindowBatch(window, feed, length, batch[..last]) && Windowed(window, feed, length, batch[last]);
      places' := BatchPlaced(cap, window, feed, s, places, length, batch[..last]);
      var p :| InWindow(window, feed, length, p, batch[last]);
      places' := OfferPlaced(cap, window, feed, OfferAll(cap, s, batch[..last]), places', length, p, batch[last]);
    }
  }

  lemma {:induction false} PollsPlaced(cap: nat, window: nat, feed: seq<Event>, polls: seq<Poll>, length: nat)
    returns (places: seq<nat>)
    requires UniqueIds(feed) && Polls(window, feed, polls, length) && cap >= 2 * window - 1
    ensures var s := AfterPolls(cap, FRESH, polls);
            && Remembers(cap, s) && Placed(window, feed, s, places, length)
            && forall e :: e in s.dispatched <==> Polled(polls, e)
    decreases |polls|
  {
    places := [];
    if polls != [] {
      var last := |polls| - 1;
      var before := polls[..last];
      forall e ensures Polled(polls, e) <==> Polled(before, e) || (polls[last].Fetched? && e in polls[last].batch) {
        if Polled(before, e) {
          var i :| 0 <= i < |before| && before[i].Fetched? && e in before[i].batch;
          assert polls[i] == before[i];
        }
        if Polled(polls, e) {
          var i :| 0 <= i < |polls| && polls[i].Fetched? && e in polls[i].batch;
          assert i < last ==> before[i] == polls[i];
        }
      }
      if polls[last].Failed? {
        places := PollsPlaced(cap, window, feed, before, length);
      } else {
        places := PollsPlaced(cap, window, feed, before, polls[last].length);
        places := BatchPlaced(cap, window, feed, AfterPolls(cap, FRESH, before), places, polls[last].length, polls[last].batch);
      }
    }
  }

  // Over any run of polls, failed ones included, every event of some polled batch is
  // dispatched once, and nothing else is, if the cap is at least two windows less one.
  lemma ExactlyOnce(cap: nat, window: nat, feed: seq<Event>, polls: seq<Poll>, length: nat, ev: Event)
    requires UniqueIds(feed) && Polls(window, feed, polls, length) && cap >= 2 * window - 1
    ensures multiset(AfterPolls(cap, FRESH, polls).dispatched)[ev] == if Polled(polls, ev) then 1 else 0
  {
    var places := PollsPlaced(cap, window, feed, polls, length);
    var dispatched := AfterPolls(cap, FRESH, polls).dispatched;
    forall i, j | 0 <= i < j < |dispatched| ensures dispatched[i] != dispatched[j] {
      assert places[i] != places[j] && feed[places[i]] == dispatched[i] && feed[places[j]] == dispatched[j];
    }
    Multiplicity(dispatched, ev);
  }

  lemma {:induction false} Multiplicity(s: seq<Event>, ev: Event)
    requires forall i, j :: 0 <= i < j < |s| ==> s[i] != s[j]
    ensures multiset(s)[ev] == if ev in s then 1 else 0
  {
    if s != [] {
      var last := |s| - 1;
      Multiplicity(s[..last], ev);
      assert s == s[..last] + [s[last]];
    }
  }

  // The set of seen ids alone is no exact memory: an id that comes back after `cap`
  // others have been dispatched since is dispatched again.
  lemma ForgottenIdReturns(cap: nat, s: Stream, i: int)
    requires Remembers(cap, s) && 0 <= i < |s.dispatched|
    requires forall j :: i < j < |s.dispatched| ==> s.dispatched[j].id != s.dispatched[i].id
    ensures Offer(cap, s, s.dispatched[i]) != s <==> |s.dispatched| - i > cap
  {
  }

  // ----- a smaller cap is not enough -----

  function NewestFirst(events: seq<Event>): (r: seq<Event>)
    ensures |r| == |events| && forall i :: 0 <= i < |r| ==> r[i] == events[|events| - 1 - i]
  {
    seq(|events|, i requires 0 <= i < |events| => events[|events| - 1 - i])
  }

  lemma OfferNew(cap: nat, s: Stream, ev: Event)
    requires Remembers(cap, s) && forall i :: 0 <= i < |s.dispatched| ==> s.dispatched[i].id != ev.id
    ensures Offer(cap, s, ev).dispatched == s.dispatched + [ev]
  {
  }

  lemma {:induction false} OfferNews(cap: nat, s: Stream, batch: seq<Event>)
    requires Remembers(cap, s) && UniqueIds(s.dispatched + batch)
    ensures OfferAll(cap, s, batch).dispatched == s.dispatched + batch
  {
    hide Remembers, Offer, LastOf, Ids;
    if batch != [] {
      var last := |batch| - 1;
      var all := s.dispatched + batch;
      var before := s.dispatched + batch[..last];
      assert all == before + [batch[last]];
      forall i | 0 <= i < |before| ensures before[i].id != batch[last].id {
        assert before[i] == all[i] && batch[last] == all[|before|];
      }
      assert UniqueIds(before) by {
        assert forall i :: 0 <= i < |before| ==> before[i] == all[i];
      }
      OfferNews(cap, s, batch[..last]);
      OfferAllRemembers(cap, s, batch[..last]);
      OfferNew(cap, OfferAll(cap, s, batch[..last]), batch[last]);
    }
  }

  // Two polls of a growing feed, newest events first, with one event in both windows.
  function TwoPolls(window: nat, feed: seq<Event>): seq<Poll>
    requires 1 <= window && 2 * window - 1 <= |feed|
  {
    [Fetched(window, NewestFirst(feed[..window])),
     Fetched(2 * window - 1, NewestFirst(feed[window - 1..2 * window - 1]))]
  }

  lemma TwoPollsArePolls(window: nat, feed: seq<Event>)
    requires 1 <= window && 2 * window - 1 <= |feed|
    ensures Polls(window, feed, TwoPolls(window, feed), 2 * window - 1)
  {
    var polls := TwoPolls(window, feed);
    forall ev | ev in polls[0].batch ensures Windowed(window, feed, window, ev) {
      var i :| 0 <= i < window && polls[0].batch[i] == ev;
      assert InWindow(window, feed, window, window - 1 - i, ev);
    }
    forall ev | ev in polls[1].batch ensures Windowed(window, feed, 2 * window - 1, ev) {
      var i :| 0 <= i < window && polls[1].batch[i] == ev;
      assert InWindow(window, feed, 2 * window - 1, 2 * window - 2 - i, ev);
    }
    assert polls[..1] == [polls[0]] && polls[..1][..0] == [];
    assert Polls(window, feed, [], window) && Polls(window, feed, [polls[0]], 2 * window - 1);
  }

  // Together the two windows show each event once, but for the one they share.
  lemma TwoWindows(window: nat, feed: seq<Event>)
    requires UniqueIds(feed) && 1 <= window && 2 * window - 1 <= |feed|
    ensures var first, newer := NewestFirst(feed[..window]), NewestFirst(feed[window..2 * window - 1]);
            && UniqueIds(first + newer) && (first + newer)[0] == feed[window - 1]
            && NewestFirst(feed[window - 1..2 * window - 1]) == newer + [feed[window - 1]]
  {
    var first, newer := NewestFirst(feed[..window]), NewestFirst(feed[window..2 * window - 1]);
    var both: seq<Event> := first + newer;
    forall i, j | 0 <= i < j < |both| ensures both[i].id != both[j].id {
      assert both[i] == feed[if i < window then window - 1 - i else 3 * window - 2 - i];
      assert both[j] == feed[if j < window then window - 1 - j else 3 * window - 2 - j];
    }
  }

  // What is offered first comes again after all the rest.
  lemma OfferedAgain(cap: nat, first: seq<Event>, newer: seq<Event>)
    requires first != [] && UniqueIds(first + newer) && cap < |first + newer|
    ensures OfferAll(cap, OfferAll(cap, FRESH, first), newer + [first[0]]).dispatched == first + newer + [first[0]]
  {
    hide Offer, OfferAll, Remembers;
    assert FRESH.dispatched + first == first;
    assert forall i :: 0 <= i < |first| ==> first[i] == (first + newer)[i];
    NothingDispatched(cap);
    OfferNews(cap, FRESH, first);
    OfferAllRemembers(cap, FRESH, first);
    var s := OfferAll(cap, FRESH, first);
    OfferNews(cap, s, newer);
    OfferAllRemembers(cap, s, newer);
    assert (first + newer)[0] == first[0];
    OfferForgotten(cap, OfferAll(cap, s, newer));
    OfferSnoc(cap, s, newer, first[0]);
  }

  lemma NothingDispatched(cap: nat)
    ensures Remembers(cap, FRESH)
  {
  }

  lemma OfferForgotten(cap: nat, s: Stream)
    requires Remembers(cap, s) && UniqueIds(s.dispatched) && cap < |s.dispatched|
    ensures Offer(cap, s, s.dispatched[0]).dispatched == s.dispatched + [s.dispatched[0]]
  {
    ForgottenIdReturns(cap, s, 0);
  }

  // Below that cap the event in both windows is dispatched twice.
  lemma TwiceBelow(cap: nat, window: nat, feed: seq<Event>)
    requires UniqueIds(feed) && 1 <= window && 2 * window - 1 <= |feed| && cap < 2 * window - 1
    ensures multiset(AfterPolls(cap, FRESH, TwoPolls(window, feed)).dispatched)[feed[window - 1]] == 2
  {
    hide OfferAll, UniqueIds;
    var polls := TwoPolls(window, feed);
    var first, newer := NewestFirst(feed[..window]), NewestFirst(feed[window..2 * window - 1]);
    TwoWindows(window, feed);
    OfferedAgain(cap, first, newer);
    assert polls[..1] == [polls[0]] && polls[..1][..0] == [];
    assert AfterPolls(cap, FRESH, []) == FRESH && AfterPolls(cap, FRESH, [polls[0]]) == OfferAll(cap, FRESH, first);
    assert forall i, j :: 0 <= i < j < |first + newer| ==> (first + newer)[i] != (first + newer)[j] by {
      Distinct(first + newer);
    }
    Multiplicity(first + newer, feed[window - 1]);
  }

  lemma Distinct(events: seq<Event>)
    requires UniqueIds(events)
    ensures forall i, j :: 0 <= i < j < |events| ==> events[i] != events[j]
  {
  }

  // Every event of some polled batch is dispatched once and nothing else is, on this run.
  ghost predicate Once(cap: nat, polls: seq<Poll>) {
    forall ev :: multiset(AfterPolls(cap, FRESH, polls).dispatched)[ev] == if Polled(polls, ev) then 1 else 0
  }

  ghost predicate AlwaysOnce(cap: nat, window: nat) {
    forall feed, polls, length :: UniqueIds(feed) && Polls(window, feed, polls, length) ==> Once(cap, polls)
  }

  function Numbered(n: nat): (feed: seq<Event>)
    ensures |feed| == n && forall i :: 0 <= i < n ==> feed[i].id == Decimal(i)
  {
    seq(n, i requires 0 <= i < n => Event(Decimal(i), ""))
  }

  // The cap that is needed, exactly.
  lemma CapNeeded(cap: nat, window: nat)
    ensures AlwaysOnce(cap, window) <==> cap >= 2 * window - 1
  {
    if cap >= 2 * window - 1 {
      forall feed, polls, length | UniqueIds(feed) && Polls(window, feed, polls, length) ensures Once(cap, polls) {
        forall ev ensures multiset(AfterPolls(cap, FRESH, polls).dispatched)[ev] == if Polled(polls, ev) then 1 else 0 {
          ExactlyOnce(cap, window, feed, polls, length, ev);
        }
      }
    } else {
      var feed := Numbered(2 * window - 1);
      forall i, j | 0 <= i < j < |feed| ensures feed[i].id != feed[j].id {
        if feed[i].id == feed[j].id {
          DecimalInjective(i, j);
        }
      }
      TwoPollsArePolls(window, feed);
      TwiceBelow(cap, window, feed);
      assert !Once(cap, TwoPolls(window, feed));
    }
  }

  // Twice the poll window is far below the limit the hook has.
  lemma HookDispatchesOnce()
    ensures AlwaysOnce(SEEN_LIMIT, POLL_WINDOW) && AlwaysOnce(1000, 50)
  {
    CapNeeded(SEEN_LIMIT, POLL_WINDOW);
  }
}
