/** The filter that recognises the controller's own frames when they come back from the bus: a
    queue of at most 512 sent frames that is pruned by age only when a frame is looked up.
    Calls are taken one after the other. The object keeps, as ghost state, everything ever sent
    and the clock readings of its calls. */
module EchoFilter {
  import opened Bytes
  import opened TimeWindow

  const TX_ECHO_REJECT_WINDOW_S := 0.25
  const CAPACITY := 512

  datatype Frame = Frame(canId: int, data: seq<byte>)

  /** `append` on a queue with a maximal length. */
  function Push(queue: seq<Event<Frame>>, e: Event<Frame>): (r: seq<Event<Frame>>)
    ensures |queue| <= CAPACITY ==> |r| <= CAPACITY
  {
    if |queue| < CAPACITY then queue + [e] else queue[1..] + [e]
  }

  function Last512(events: seq<Event<Frame>>): (r: seq<Event<Frame>>)
    ensures |r| <= CAPACITY
  {
    if |events| <= 512 then events else events[|events| - 512..]
  }

  /** One of the last 512 frames sent has the same identifier and data and is at most 0.25 s old. */
  ghost predicate IsEcho(sent: seq<Event<Frame>>, frame: Frame, now: real) {
    exists e :: e in Last512(sent) && e.what == frame && now - e.time <= 0.25
  }

  /** The queue is the end of the last 512 sent entries, and what it lacks of them is old. */
  ghost predicate Agrees(queue: seq<Event<Frame>>, last: seq<Event<Frame>>, cutoff: real) {
    && |queue| <= |last|
    && queue == last[|last| - |queue|..]
    && forall i :: 0 <= i < |last| - |queue| ==> last[i].time < cutoff
  }

  lemma PushAgrees(queue: seq<Event<Frame>>, sent: seq<Event<Frame>>, e: Event<Frame>, cutoff: real)
    requires Agrees(queue, Last512(sent), cutoff)
    ensures Agrees(Push(queue, e), Last512(sent + [e]), cutoff)
  {
    var last := Last512(sent);
    assert Last512(sent + [e]) == if |last| < CAPACITY then last + [e] else last[1..] + [e];
  }

  /** Pruning drops a stretch of old entries from the front, and stops at a recent one. */
  lemma {:induction false} DropOldFront(events: seq<Event<Frame>>, cutoff: real) returns (k: nat)
    ensures k <= |events| && DropOld(events, cutoff) == events[k..]
    ensures forall i :: 0 <= i < k ==> events[i].time < cutoff
    ensures k < |events| ==> events[k].time >= cutoff
    decreases |events|
  {
    k := 0;
    if events != [] && events[0].time < cutoff {
      var j := DropOldFront(events[1..], cutoff);
      k := j + 1;
      assert events[1..][j..] == events[k..];
    }
  }

  lemma DropAgrees(queue: seq<Event<Frame>>, last: seq<Event<Frame>>, early: real, late: real)
    requires Agrees(queue, last, early) && early <= late
    ensures Agrees(DropOld(queue, late), last, late)
  {
    var k := DropOldFront(queue, late);
    var n := |last| - |queue|;
    forall i | 0 <= i < n + k ensures last[i].time < late {
      if i >= n { assert last[i] == queue[i - n]; }
    }
  }

  /** What the queue has to do with everything ever sent, unless the clock ran backwards. */
  ghost predicate Follows(queue: seq<Event<Frame>>, sent: seq<Event<Frame>>, clock: Clock) {
    match clock
    case NotRead => queue == [] && sent == []
    case At(time) =>
      && Ordered(sent) && (forall e :: e in sent ==> e.time <= time)
      && Agrees(queue, Last512(sent), time - TX_ECHO_REJECT_WINDOW_S)
    case RanBackwards => true
  }

  lemma AgreesLater(queue: seq<Event<Frame>>, last: seq<Event<Frame>>, early: real, late: real)
    requires Agrees(queue, last, early) && early <= late
    ensures Agrees(queue, last, late)
  {
  }

  lemma SendFollows(queue: seq<Event<Frame>>, sent: seq<Event<Frame>>, clock: Clock, e: Event<Frame>)
    requires Follows(queue, sent, clock)
    ensures Follows(Push(queue, e), sent + [e], Advance(clock, e.time))
  {
    if Advance(clock, e.time).At? {
      var cutoff := e.time - TX_ECHO_REJECT_WINDOW_S;
      AppendOrdered(sent, e);
      if clock.At? { AgreesLater(queue, Last512(sent), clock.time - TX_ECHO_REJECT_WINDOW_S, cutoff); }
      PushAgrees(queue, sent, e, cutoff);
    }
  }

  lemma QueryFollows(queue: seq<Event<Frame>>, sent: seq<Event<Frame>>, clock: Clock, now: real)
    requires Follows(queue, sent, clock)
    ensures Follows(DropOld(queue, now - TX_ECHO_REJECT_WINDOW_S), sent, Advance(clock, now))
  {
    if Advance(clock, now).At? && clock.At? {
      DropAgrees(queue, Last512(sent), clock.time - TX_ECHO_REJECT_WINDOW_S, now - TX_ECHO_REJECT_WINDOW_S);
    }
  }

  lemma Last512Ordered(sent: seq<Event<Frame>>)
    requires Ordered(sent)
    ensures Ordered(Last512(sent))
  {
  }

  /** Main result: the queue that a query leaves holds the queried frame exactly if it is an echo,
      although old entries are dropped late and only from the front. */
  lemma QueryIsExact(queue: seq<Event<Frame>>, sent: seq<Event<Frame>>, clock: Clock, frame: Frame, now: real)
    requires Follows(queue, sent, clock) && Advance(clock, now) != RanBackwards
    ensures (exists e :: e in DropOld(queue, now - TX_ECHO_REJECT_WINDOW_S) && e.what == frame)
            <==> IsEcho(sent, frame, now)
  {
    var cutoff := now - TX_ECHO_REJECT_WINDOW_S;
    var rest, last := DropOld(queue, cutoff), Last512(sent);
    QueryFollows(queue, sent, clock, now);
    Last512Ordered(sent);
    if IsEcho(sent, frame, now) {
      var e :| e in last && e.what == frame && now - e.time <= TX_ECHO_REJECT_WINDOW_S;
      RecentIsKept(rest, last, cutoff, e);
    }
    if e :| e in rest && e.what == frame {
      EndIsRecent(queue, last, cutoff, e);
    }
  }

  lemma RecentIsKept(rest: seq<Event<Frame>>, last: seq<Event<Frame>>, cutoff: real, e: Event<Frame>)
    requires Agrees(rest, last, cutoff) && e in last && e.time >= cutoff
    ensures e in rest
  {
    var i :| 0 <= i < |last| && last[i] == e;
    assert rest[i - (|last| - |rest|)] == e;
  }

  lemma EndIsRecent(queue: seq<Event<Frame>>, last: seq<Event<Frame>>, cutoff: real, e: Event<Frame>)
    requires Ordered(last) && Agrees(DropOld(queue, cutoff), last, cutoff) && e in DropOld(queue, cutoff)
    ensures e in last && e.time >= cutoff
  {
    var k := DropOldFront(queue, cutoff);
    var rest := DropOld(queue, cutoff);
    var i :| 0 <= i < |rest| && rest[i] == e;
    var n := |last| - |rest|;
    assert last[n + i] == e && last[n] == rest[0] == queue[k];
  }

  class TxEchoFilter {
    var recentTxFrames: seq<Event<Frame>>
    ghost var sent: seq<Event<Frame>>
    ghost var clock: Clock

    constructor ()
      ensures Valid() && sent == [] && clock == NotRead
    {
      recentTxFrames, sent, clock := [], [], NotRead;
    }

    ghost predicate Valid()
      reads this
    {
      |recentTxFrames| <= CAPACITY && Follows(recentTxFrames, sent, clock)
    }

    method RememberTxFrame(frame: Frame, now: real)
      requires Valid()
      modifies this
      ensures Valid() && sent == old(sent) + [Event(now, frame)] && clock == Advance(old(clock), now)
    {
      SendFollows(recentTxFrames, sent, clock, Event(now, frame));
      recentTxFrames := Push(recentTxFrames, Event(now, frame));
      sent, clock := sent + [Event(now, frame)], Advance(clock, now);
    }

    method IsRecentTxEcho(frame: Frame, now: real) returns (r: bool)
      requires Valid()
      modifies this
      ensures Valid() && sent == old(sent) && clock == Advance(old(clock), now)
      ensures clock != RanBackwards ==> (r <==> IsEcho(sent, frame, now))
    {
      var cutoff := now - TX_ECHO_REJECT_WINDOW_S;
      QueryFollows(recentTxFrames, sent, clock, now);
      if Advance(clock, now) != RanBackwards { QueryIsExact(recentTxFrames, sent, clock, frame, now); }
      ghost var k := DropOldFront(recentTxFrames, cutoff);
      recentTxFrames := Prune(recentTxFrames, cutoff);
      clock := Advance(clock, now);
      r := exists k :: 0 <= k < |recentTxFrames| && recentTxFrames[k].what == frame;
      assert r <==> exists e :: e in recentTxFrames && e.what == frame;
    }
  }
}
