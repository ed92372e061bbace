// The hook's state: the ids it has seen, in insertion order, and the invalidations it made.
module EventsStream {
  import opened EventsSpec

  class EventsStream {
    var seen: seq<string>
    // The query keys invalidated, oldest first.
    var invalidated: seq<seq<string>>
    ghost var dispatched: seq<Event>

    ghost function State(): Stream
      reads this
    {
      Stream(seen, dispatched)
    }

    constructor ()
      ensures State() == FRESH && invalidated == []
    {
      seen, invalidated, dispatched := [], [], [];
    }

    // Drops the oldest ids; a Set keeps insertion order, so they are the first it yields.
    method TrimSeenEvents()
      modifies this`seen
      ensures seen == LastOf(old(seen), 1000)
    {
      if |seen| <= SEEN_LIMIT {
        return;
      }
      var toDrop := |seen| - SEEN_LIMIT;
      for i := 0 to toDrop
        invariant seen == old(seen)[i..]
      {
        if seen == [] {
          break;
        }
        seen := seen[1..];
      }
    }

    method Invalidate(kind: string)
      modifies this`invalidated
      ensures invalidated == old(invalidated) + DispatchKeys(kind)
    {
      var keys := DispatchKeys(kind);
      for k := 0 to |keys|
        invariant invalidated == old(invalidated) + keys[..k]
      {
        invalidated := invalidated + [keys[k]];
      }
      assert keys[..|keys|] == keys;
    }

    method InvalidateEventQueries(events: seq<Event>)
      modifies this
      ensures State() == OfferAll(SEEN_LIMIT, old(State()), events)
      ensures old(dispatched) <= dispatched
      ensures invalidated == old(invalidated) + AllKeys(dispatched[|old(dispatched)|..])
    {
      hide DispatchKeys, AllKeys, OfferAll, LastOf;
      NothingOffered(old(State()));
      assert events[..0] == [] && dispatched[|dispatched|..] == [];
      for i := 0 to |events|
        invariant State() == OfferAll(SEEN_LIMIT, old(State()), events[..i])
        invariant old(dispatched) <= dispatched
        invariant invalidated == old(invalidated) + AllKeys(dispatched[|old(dispatched)|..])
      {
        var ev := events[i];
        OneMoreOffered(old(State()), events, i);
        if ev.id in seen {
          continue;
        }
        ghost var news := dispatched[|old(dispatched)|..];
        seen := seen + [ev.id];
        TrimSeenEvents();
        dispatched := dispatched + [ev];
        Invalidate(ev.kind);
        assert dispatched[|old(dispatched)|..] == news + [ev];
        OneMoreDispatched(news, ev);
      }
      assert events[..|events|] == events;
    }

    // One tick of the poll loop; a poll that threw is swallowed.
    method Tick(poll: Poll)
      modifies this
      ensures State() == AfterPoll(SEEN_LIMIT, old(State()), poll)
      ensures old(dispatched) <= dispatched
      ensures invalidated == old(invalidated) + AllKeys(dispatched[|old(dispatched)|..])
    {
      match poll {
        case Failed =>
        case Fetched(_, batch) => InvalidateEventQueries(batch);
      }
    }
  }

  lemma NothingOffered(s: Stream)
    ensures OfferAll(SEEN_LIMIT, s, []) == s && AllKeys([]) == []
  {
  }

  lemma OneMoreOffered(s: Stream, events: seq<Event>, i: nat)
    requires i < |events|
    ensures OfferAll(SEEN_LIMIT, s, events[..i + 1]) == Offer(SEEN_LIMIT, OfferAll(SEEN_LIMIT, s, events[..i]), events[i])
  {
    OfferSnoc(SEEN_LIMIT, s, events[..i], events[i]);
    assert events[..i + 1] == events[..i] + [events[i]];
  }

  lemma OneMoreDispatched(news: seq<Event>, ev: Event)
    ensures AllKeys(news + [ev]) == AllKeys(news) + DispatchKeys(ev.kind)
  {
    assert (news + [ev])[..|news|] == news;
  }
}
