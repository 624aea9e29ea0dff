/** Queues of time-stamped events that forget old entries from the front. */
module TimeWindow {

  datatype Event<T> = Event(time: real, what: T)

  ghost predicate Ordered<T(!new)>(events: seq<Event<T>>) {
    forall i, j :: 0 <= i < j < |events| ==> events[i].time <= events[j].time
  }

  /** The entries that are not older than `cutoff`, wherever they stand. */
  function Recent<T(!new)>(events: seq<Event<T>>, cutoff: real): (r: seq<Event<T>>)
    decreases |events|
  {
    if events == [] then []
    else
      var last := events[|events| - 1];
      var front := Recent(events[..|events| - 1], cutoff);
      if last.time >= cutoff then front + [last] else front
  }

  lemma {:induction false} RecentMembers<T(!new)>(events: seq<Event<T>>, cutoff: real)
    ensures forall e :: e in Recent(events, cutoff) <==> e in events && e.time >= cutoff
    decreases |events|
  {
    if events != [] {
      var n := |events| - 1;
      RecentMembers(events[..n], cutoff);
      assert events == events[..n] + [events[n]];
    }
  }

  /** What is left after dropping old entries from the front only. */
  function DropOld<T>(events: seq<Event<T>>, cutoff: real): seq<Event<T>>
    decreases |events|
  {
    if events == [] || events[0].time >= cutoff then events else DropOld(events[1..], cutoff)
  }

  /** The pruning loop. */
  method Prune<T(!new)>(events: seq<Event<T>>, cutoff: real) returns (r: seq<Event<T>>)
    ensures r == DropOld(events, cutoff)
  {
    r := events;
    while r != [] && r[0].time < cutoff
      invariant DropOld(r, cutoff) == DropOld(events, cutoff)
      decreases |r|
    {
      r := r[1..];
    }
  }

  lemma {:induction false} RecentAll<T(!new)>(events: seq<Event<T>>, cutoff: real)
    requires forall e :: e in events ==> e.time >= cutoff
    ensures Recent(events, cutoff) == events
    decreases |events|
  {
    if events != [] {
      var n := |events| - 1;
      assert forall e :: e in events[..n] ==> e in events;
      assert events[n] in events;
      RecentAll(events[..n], cutoff);
      assert events == events[..n] + [events[n]];
    }
  }

  lemma {:induction false} RecentSkipsFirst<T(!new)>(events: seq<Event<T>>, cutoff: real)
    requires events != [] && events[0].time < cutoff
    ensures Recent(events, cutoff) == Recent(events[1..], cutoff)
    decreases |events|
  {
    var n := |events| - 1;
    if n > 0 {
      RecentSkipsFirst(events[..n], cutoff);
      assert events[..n][1..] == events[1..][..n - 1];
    }
  }

  /** No old entry stands behind a recent one. */
  ghost predicate OldFirst<T(!new)>(events: seq<Event<T>>, cutoff: real) {
    forall i, j :: 0 <= i < j < |events| && events[i].time >= cutoff ==> events[j].time >= cutoff
  }

  /** Pruning the front leaves exactly the recent entries if and only if the old ones stand first. */
  lemma {:induction false} PruneIsFilterExactly<T(!new)>(events: seq<Event<T>>, cutoff: real)
    ensures DropOld(events, cutoff) == Recent(events, cutoff) <==> OldFirst(events, cutoff)
    decreases |events|
  {
    if events != [] {
      if events[0].time >= cutoff {
        RecentMembers(events, cutoff);
        assert forall k :: 0 <= k < |events| ==> events[k] in events;
        if OldFirst(events, cutoff) { RecentAll(events, cutoff); }
      } else {
        var rest := events[1..];
        PruneIsFilterExactly(rest, cutoff);
        RecentSkipsFirst(events, cutoff);
        OldFirstTail(events, cutoff);
      }
    }
  }

  lemma OldFirstTail<T(!new)>(events: seq<Event<T>>, cutoff: real)
    requires events != [] && events[0].time < cutoff
    ensures OldFirst(events, cutoff) <==> OldFirst(events[1..], cutoff)
  {
    var rest := events[1..];
    assert forall k :: 0 <= k < |rest| ==> rest[k] == events[k + 1];
    if OldFirst(rest, cutoff) {
      forall i, j | 0 <= i < j < |events| && events[i].time >= cutoff ensures events[j].time >= cutoff {
        assert rest[i - 1].time >= cutoff && rest[j - 1] == events[j];
      }
    }
  }

  lemma PruneIsFilter<T(!new)>(events: seq<Event<T>>, cutoff: real)
    requires Ordered(events)
    ensures DropOld(events, cutoff) == Recent(events, cutoff)
  {
    PruneIsFilterExactly(events, cutoff);
  }

  /** Forgetting in two steps is forgetting in one. */
  lemma {:induction false} RecentTwice<T(!new)>(events: seq<Event<T>>, early: real, late: real)
    requires early <= late
    ensures Recent(Recent(events, early), late) == Recent(events, late)
    decreases |events|
  {
    if events != [] {
      var n := |events| - 1;
      var front, e := events[..n], events[n];
      assert events == front + [e];
      RecentTwice(front, early, late);
      RecentAppend(front, e, early);
      RecentAppend(front, e, late);
      RecentAppend(Recent(front, early), e, late);
    }
  }

  lemma RecentAppend<T(!new)>(events: seq<Event<T>>, e: Event<T>, cutoff: real)
    ensures Recent(events + [e], cutoff) ==
              if e.time >= cutoff then Recent(events, cutoff) + [e] else Recent(events, cutoff)
  {
    assert (events + [e])[..|events|] == events;
  }

  // ----- A window over a whole history -----

  lemma {:induction false} RecentOrdered<T(!new)>(events: seq<Event<T>>, cutoff: real)
    requires Ordered(events)
    ensures Ordered(Recent(events, cutoff))
    decreases |events|
  {
    if events != [] {
      var n := |events| - 1;
      RecentOrdered(events[..n], cutoff);
      RecentMembers(events[..n], cutoff);
      assert forall x :: x in events[..n] ==> x.time <= events[n].time;
      AppendOrdered(Recent(events[..n], cutoff), events[n]);
    }
  }

  lemma AppendOrdered<T(!new)>(events: seq<Event<T>>, e: Event<T>)
    requires Ordered(events) && forall x :: x in events ==> x.time <= e.time
    ensures Ordered(events + [e])
  {
    assert forall k :: 0 <= k < |events| ==> events[k] in events;
  }

  lemma AddIsFilter<T(!new)>(all: seq<Event<T>>, e: Event<T>, cutoff: real, late: real)
    requires Ordered(all) && cutoff <= late && forall x :: x in all ==> x.time <= e.time
    ensures DropOld(Recent(all, cutoff) + [e], late) == Recent(all + [e], late)
  {
    var kept := Recent(all, cutoff);
    RecentOrdered(all, cutoff);
    RecentMembers(all, cutoff);
    AppendOrdered(kept, e);
    PruneIsFilter(kept + [e], late);
    RecentAppend(kept, e, late);
    RecentAppend(all, e, late);
    RecentTwice(all, cutoff, late);
  }

  lemma LookIsFilter<T(!new)>(all: seq<Event<T>>, cutoff: real, late: real)
    requires Ordered(all) && cutoff <= late
    ensures DropOld(Recent(all, cutoff), late) == Recent(all, late)
  {
    RecentOrdered(all, cutoff);
    PruneIsFilter(Recent(all, cutoff), late);
    RecentTwice(all, cutoff, late);
  }

  /** The clock of a history of calls: not read yet, at its latest reading, or known to have run
      backwards at some call. */
  datatype Clock = NotRead | At(time: real) | RanBackwards

  function Advance(c: Clock, now: real): Clock {
    match c
    case NotRead => At(now)
    case At(time) => if now < time then RanBackwards else At(now)
    case RanBackwards => RanBackwards
  }

  /** Unless the clock ran backwards, the window holds exactly the entries ever added that are not
      older than the window at the latest call, in the order of addition. */
  ghost predicate Covers<T(!new)>(events: seq<Event<T>>, added: seq<Event<T>>, clock: Clock, window: real) {
    match clock
    case NotRead => events == [] && added == []
    case At(time) =>
      && Ordered(added) && (forall e :: e in added ==> e.time <= time)
      && events == Recent(added, time - window)
    case RanBackwards => true
  }

  /** Main result, for an addition followed by pruning. */
  lemma AddKeepsCover<T(!new)>(events: seq<Event<T>>, added: seq<Event<T>>, clock: Clock, window: real, e: Event<T>)
    requires Covers(events, added, clock, window)
    ensures Covers(DropOld(events + [e], e.time - window), added + [e], Advance(clock, e.time), window)
  {
    if clock.NotRead? {
      FirstAdd(e, window);
      assert events + [e] == [e] && added + [e] == [e];
    } else if clock.At? && clock.time <= e.time {
      AppendOrdered(added, e);
      AddIsFilter(added, e, clock.time - window, e.time - window);
    }
  }

  lemma FirstAdd<T(!new)>(e: Event<T>, window: real)
    ensures Covers(DropOld([e], e.time - window), [e], At(e.time), window)
  {
    PruneIsFilter([e], e.time - window);
  }

  /** Main result, for pruning alone. */
  lemma LookKeepsCover<T(!new)>(events: seq<Event<T>>, added: seq<Event<T>>, clock: Clock, window: real, now: real)
    requires Covers(events, added, clock, window)
    ensures Covers(DropOld(events, now - window), added, Advance(clock, now), window)
  {
    if Advance(clock, now).At? && clock.At? {
      LookIsFilter(added, clock.time - window, now - window);
    }
  }
}
