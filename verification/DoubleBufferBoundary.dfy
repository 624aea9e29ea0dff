/** Where the promise of the double buffer ends: which abandonments of a writer make a read return a
    payload that was not the published one at any instant of its attempt, and that the bound of
    2^63 writes during an attempt is needed. */
module DoubleBufferBoundary {
  import opened Bytes
  import opened DoubleBufferProtocol
  import opened DoubleBufferReads

  /** `p` is not the published payload in any of the states `i`, ..., `j`. */
  ghost predicate NeverShown(trace: seq<State>, i: nat, j: nat, p: Payload) {
    forall t :: i <= t <= j && t < |trace| ==> trace[t].TwoSlots() && trace[t].Published() != p
  }

  lemma ShownIsPublishedSince(trace: seq<State>, labels: seq<Label>, i: nat, t: nat, j: nat)
    requires IsRun(trace, labels) && i <= t <= j < |trace|
    ensures trace[t].TwoSlots() && PublishedSince(trace[j], trace[t].Published(), |trace[i].published|)
  {
    RunKeepsInv(trace, labels, i);
    RunKeepsInv(trace, labels, t);
    HistoryGrows(trace, labels, i, t);
    HistoryGrows(trace, labels, t, j);
    var last := |trace[t].published| - 1;
    assert trace[j].published[last] == trace[t].published[last];
  }

  lemma NotSinceIsNeverShown(trace: seq<State>, labels: seq<Label>, i: nat, j: nat, p: Payload)
    requires IsRun(trace, labels) && i <= j < |trace|
    requires !PublishedSince(trace[j], p, |trace[i].published|)
    ensures NeverShown(trace, i, j, p)
  {
    forall t | i <= t <= j ensures trace[t].TwoSlots() && trace[t].Published() != p {
      ShownIsPublishedSince(trace, labels, i, t, j);
    }
  }

  // ----- A dangerous abandonment -----

  /** Reader `id` has looked twice, and both looks found what is there. */
  ghost predicate SawSlot(s: State, id: ReaderId, x: nat) {
    && s.TwoSlots() && x < 2 && id in s.readers
    && var pc := s.readers[id].pc;
       && pc.Checking? && pc.slot == x && pc.buffer == s.memory.slots[x].payload
       && pc.first == pc.second == s.memory.slots[x].sequence
  }

  predicate Looks(l: Label, id: ReaderId) {
    (l.ReadFirst? || l.CopyByte? || l.ReadSecond?) && l.id == id
  }

  lemma LookAlone(s: State, id: ReaderId, x: nat) returns (labels: seq<Label>, s': State)
    requires Inv(s) && SeesSlot(s, id, x) && s.memory.slots[x].sequence % 2 == 0
    ensures Reaches(s, labels, s') && forall l :: l in labels ==> Looks(l, id)
    ensures SawSlot(s', id, x) && s' == s.(readers := s'.readers)
  {
    var pc := s.readers[id].pc;
    assert ReaderInv(s, s.readers[id]);
    if pc.Indexed? {
      var s1 := Step(s, ReadFirst(id));
      StepKeepsInv(s, ReadFirst(id));
      labels, s' := CopyAndLook(s1, id, x);
      labels := [ReadFirst(id)] + labels;
    } else if pc.Copying? {
      labels, s' := CopyAndLook(s, id, x);
    } else {
      labels, s' := [], s;
    }
  }

  lemma CopyAndLook(s: State, id: ReaderId, x: nat) returns (labels: seq<Label>, s': State)
    requires Inv(s) && SeesSlot(s, id, x) && s.readers[id].pc.Copying?
    ensures Reaches(s, labels, s') && forall l :: l in labels ==> Looks(l, id)
    ensures SawSlot(s', id, x) && s' == s.(readers := s'.readers)
  {
    assert ReaderInv(s, s.readers[id]);
    labels, s' := CopyAlone(s, id, s.Size());
    ReachesKeepsInv(s, labels, s');
    assert ReaderInv(s', s'.readers[id]);
    assert s'.readers[id].pc.buffer == s'.readers[id].pc.snapshot;
    ReachesOneMore(s, labels, s', ReadSecond(id));
    labels, s' := labels + [ReadSecond(id)], Step(s', ReadSecond(id));
  }

  /** A reader that has looked twice at an inactive slot returns what it saw as soon as the
      index has been flipped to that slot, whatever was written there in the meantime. */
  lemma PublishOther(s: State, id: ReaderId, x: nat) returns (labels: seq<Label>, s': State)
    requires s.TwoSlots() && s.Size() == |s.memory.slots[1].payload| && s.writer.Idle? && x == 1 - s.memory.Active()
    requires SawSlot(s, id, x) && s.memory.slots[x].sequence % 2 == 0
    ensures Reaches(s, labels, s') && |labels| > 0 && labels[|labels| - 1] == ReadIndexAgain(id)
    ensures forall k :: 0 <= k < |labels| - 1 ==> WriterLabel(labels[k]) && labels[k] != Abandon
    ensures s'.TwoSlots() && s'.attempts[x] == s.attempts[x] + 1 && s'.published == s.published + [s.Published()]
    ensures id in s'.readers && s'.readers[id].pc == Returned(s.memory.slots[x].payload)
  {
    var s1;
    labels, s1 := WriteAlone(s, s.Published());
    s' := Step(s1, ReadIndexAgain(id));
    ReachesOneMore(s, labels, s1, ReadIndexAgain(id));
    labels := labels + [ReadIndexAgain(id)];
  }

  /** The steps between the last look at the index before them and the one that ends them: of the
      writer, or of the reader inside its attempt. */
  predicate Inside(l: Label, id: ReaderId) {
    (WriterLabel(l) && l != Abandon) || Looks(l, id)
  }

  /** From `s` to `s'` the writer was abandoned, one more write hit its slot and published again what
      was published already, and the reader returned the payload of the abandoned write. */
  ghost predicate Misled(s: State, s': State, id: ReaderId)
    requires s.writer.Stored? && s.writer.slot < 2 && s.TwoSlots()
  {
    && s'.TwoSlots() && s'.attempts[s.writer.slot] == s.attempts[s.writer.slot] + 1
    && s'.published == s.published + [s.Published()]
    && id in s'.readers && s'.readers[id].pc == Returned(s.writer.next)
  }

  lemma MisleadingSteps(s: State, id: ReaderId) returns (labels: seq<Label>, s': State)
    requires Inv(s) && Dangerous(s, id)
    ensures Reaches(s, labels, s') && |labels| > 1 && labels[0] == Abandon && labels[|labels| - 1] == ReadIndexAgain(id)
    ensures forall k :: 0 < k < |labels| - 1 ==> Inside(labels[k], id)
    ensures Misled(s, s', id)
  {
    var x := s.writer.slot;
    WordParity(2 * s.attempts[x]);
    var s1 := Step(s, Abandon);
    StepKeepsInv(s, Abandon);
    var looks, s2 := LookAlone(s1, id, x);
    var rest;
    rest, s' := PublishOther(s2, id, x);
    assert Reaches(s, [Abandon], s1);
    ReachesJoin(s, [Abandon], s1, looks, s2);
    ReachesJoin(s, [Abandon] + looks, s2, rest, s');
    labels := [Abandon] + looks + rest;
  }

  /** What publishing the published payload once more adds to a history. */
  lemma StillNotSince(s: State, s': State, p: Payload, begun: nat)
    requires MemoryInv(s) && 0 < begun <= |s.published| && !PublishedSince(s, p, begun)
    requires s'.published == s.published + [s.Published()]
    ensures !PublishedSince(s', p, begun)
  {
    var n := |s.published|;
    forall k | 0 <= begun - 1 <= k < |s'.published| ensures s'.published[k] != p {
      var was := if k < n then k else n - 1;
      assert s.published[was] != p;
    }
  }

  lemma Insides(labels: seq<Label>, more: seq<Label>, id: ReaderId)
    requires |more| > 1 && more[0] == Abandon && more[|more| - 1] == ReadIndexAgain(id)
    requires forall k :: 0 < k < |more| - 1 ==> Inside(more[k], id)
    ensures Within(labels + more, id, |labels|, |labels + more| - 1)
    ensures forall k :: |labels| < k < |labels + more| ==> (labels + more)[k] != Abandon
    ensures labels + [Abandon] <= labels + more && (labels + more)[|labels + more| - 1] == ReadIndexAgain(id)
  {
    var all := labels + more;
    forall k | |labels| < k < |all| - 1 ensures Inside(all[k], id) {
      assert all[k] == more[k - |labels|];
    }
    assert all[|labels|] == more[0] && all[|all| - 1] == more[|more| - 1];
  }

  /** Main result, the converse of `ReadIsLinearizable`. From every reachable state in which it is
      dangerous for a reader to abandon the writer, some continuation that begins with abandoning it,
      and abandons no writer again, makes that very attempt return the writer's payload, with one
      more write to the slot, although the payload was not the published one at any instant of
      the attempt. */
  lemma AbandonmentMisleads(trace: seq<State>, labels: seq<Label>, id: ReaderId)
    returns (trace': seq<State>, labels': seq<Label>, i: nat)
    requires IsRun(trace, labels) && Dangerous(trace[|labels|], id)
    ensures IsRun(trace', labels') && trace <= trace' && labels + [Abandon] <= labels'
    ensures forall k :: |labels| < k < |labels'| ==> labels'[k] != Abandon
    ensures i < |labels| && IsAttempt(labels', id, i, |labels'| - 1)
    ensures Misled(trace[|labels|], trace'[|labels'|], id)
    ensures NeverShown(trace', i, |labels'|, trace[|labels|].writer.next)
  {
    trace', labels' := Mislead(trace, labels, id);
    i := AttemptBegan(trace, labels, id, |labels|);
    MisledFromStart(trace, labels, id, i, trace', labels');
  }

  lemma Mislead(trace: seq<State>, labels: seq<Label>, id: ReaderId) returns (trace': seq<State>, labels': seq<Label>)
    requires IsRun(trace, labels) && Dangerous(trace[|labels|], id)
    ensures IsRun(trace', labels') && trace <= trace' && labels + [Abandon] <= labels' && |labels| < |labels'| - 1
    ensures forall k :: |labels| < k < |labels'| ==> labels'[k] != Abandon
    ensures Within(labels', id, |labels|, |labels'| - 1) && labels'[|labels'| - 1] == ReadIndexAgain(id)
    ensures Misled(trace[|labels|], trace'[|labels'|], id)
  {
    var s := trace[|labels|];
    assert Inv(s) by { RunKeepsInv(trace, labels, |labels|); }
    var more, s' := MisleadingSteps(s, id);
    Insides(labels, more, id);
    labels' := labels + more;
    trace' := Follow(trace, labels, more, s');
    assert trace'[|labels'|] == s' && trace'[|labels|] == s;
  }

  lemma MisledFromStart(trace: seq<State>, labels: seq<Label>, id: ReaderId, i: nat,
                        trace': seq<State>, labels': seq<Label>)
    requires IsRun(trace, labels) && Dangerous(trace[|labels|], id)
    requires IsRun(trace', labels') && trace <= trace' && labels <= labels' && |labels| < |labels'| - 1
    requires i < |labels| && labels[i] == ReadIndex(id) && Within(labels, id, i + 1, |labels|)
    requires Within(labels', id, |labels|, |labels'| - 1) && labels'[|labels'| - 1] == ReadIndexAgain(id)
    requires trace[|labels|].readers[id].pc.begun == |trace[i].published|
    requires Misled(trace[|labels|], trace'[|labels'|], id)
    ensures IsAttempt(labels', id, i, |labels'| - 1)
    ensures NeverShown(trace', i, |labels'|, trace[|labels|].writer.next)
  {
    RunKeepsInv(trace, labels, |labels|);
    var s := trace[|labels|];
    assert forall k :: 0 <= k < |labels| ==> labels'[k] == labels[k];
    assert ReaderInv(s, s.readers[id]);
    StillNotSince(s, trace'[|labels'|], s.writer.next, s.readers[id].pc.begun);
    assert trace'[i] == trace[i];
    NotSinceIsNeverShown(trace', labels', i, |labels'|, s.writer.next);
  }

  // ----- The exact condition -----

  /** The run ends with reader `id` inside an attempt that began at step `i`. */
  ghost predicate OpenAttempt(trace: seq<State>, labels: seq<Label>, id: ReaderId, i: nat) {
    && IsRun(trace, labels) && i < |labels| && labels[i] == ReadIndex(id) && Within(labels, id, i + 1, |labels|)
    && id in trace[|labels|].readers && InAttempt(trace[|labels|].readers[id].pc)
    && trace[i].TwoSlots() && trace[|labels|].TwoSlots()
  }

  /** How many writes were begun on the slot of an attempt from state `i` to state `j`. */
  function SlotWrites(trace: seq<State>, i: nat, j: nat): int
    requires i < |trace| && j < |trace| && trace[i].TwoSlots() && trace[j].TwoSlots()
  {
    var x := trace[i].memory.Active();
    var before: int, now: int := trace[i].attempts[x], trace[j].attempts[x];
    now - before
  }

  /** The last step of the run ends the attempt that began at step `i`, within the bound on writes, and
      returns what was not the published payload at any instant of it. */
  ghost predicate Misread(trace: seq<State>, labels: seq<Label>, id: ReaderId, i: nat) {
    && IsRun(trace, labels) && |labels| > 0 && IsAttempt(labels, id, i, |labels| - 1)
    && trace[i].TwoSlots() && trace[|labels| - 1].TwoSlots() && SlotWrites(trace, i, |labels| - 1) < TWO_63
    && id in trace[|labels|].readers && trace[|labels|].readers[id].pc.Returned?
    && NeverShown(trace, i, |labels| - 1, trace[|labels|].readers[id].pc.payload)
  }

  /** The longer run goes on by abandoning the writer, abandons none again where that is dangerous, and
      ends with a misread. */
  ghost predicate LeadsToMisread(trace: seq<State>, labels: seq<Label>, id: ReaderId, i: nat,
                                 trace': seq<State>, labels': seq<Label>)
  {
    && Misread(trace', labels', id, i) && trace <= trace' && labels + [Abandon] <= labels'
    && Harmless(trace', labels', id, |labels| + 1, |labels'|)
  }

  /** Main result, the exact condition. In an attempt that has met no dangerous abandonment so far,
      abandoning the writer now can lead to a misread, without another dangerous abandonment, if
      and only if to abandon it now is dangerous. */
  lemma AbandonmentMisleadsExactly(trace: seq<State>, labels: seq<Label>, id: ReaderId, i: nat)
    requires OpenAttempt(trace, labels, id, i) && Harmless(trace, labels, id, i, |labels|)
    requires SlotWrites(trace, i, |labels|) < TWO_63 - 1
    ensures Dangerous(trace[|labels|], id) <==>
            exists trace', labels' :: LeadsToMisread(trace, labels, id, i, trace', labels')
  {
    if Dangerous(trace[|labels|], id) {
      var trace', labels' := DangerLeadsToMisread(trace, labels, id, i);
      assert LeadsToMisread(trace, labels, id, i, trace', labels');
    }
    if trace', labels' :| LeadsToMisread(trace, labels, id, i, trace', labels') {
      MisreadNeedsDanger(trace, labels, id, i, trace', labels');
    }
  }

  /** Two attempts of one reader that end at the same step are the same. */
  lemma SameStart(labels: seq<Label>, id: ReaderId, i: nat, i': nat, j: nat)
    requires IsAttempt(labels, id, i, j) && IsAttempt(labels, id, i', j)
    ensures i == i'
  {
  }

  lemma MisreadNeedsDanger(trace: seq<State>, labels: seq<Label>, id: ReaderId, i: nat,
                           trace': seq<State>, labels': seq<Label>)
    requires OpenAttempt(trace, labels, id, i) && Harmless(trace, labels, id, i, |labels|)
    requires LeadsToMisread(trace, labels, id, i, trace', labels')
    ensures Dangerous(trace[|labels|], id)
  {
    if !Dangerous(trace[|labels|], id) {
      var j := |labels'| - 1;
      assert Harmless(trace', labels', id, i, j) by {
        forall k | i <= k < j && labels'[k] == Abandon ensures !Dangerous(trace'[k], id) {
          assert k <= |labels| ==> trace'[k] == trace[k];
          assert k < |labels| ==> labels'[k] == labels[k];
        }
      }
      var i', t := ReadIsLinearizable(trace', labels', id, j);
      SameStart(labels', id, i, i', j);
      assert false;
    }
  }

  lemma DangerLeadsToMisread(trace: seq<State>, labels: seq<Label>, id: ReaderId, i: nat)
    returns (trace': seq<State>, labels': seq<Label>)
    requires OpenAttempt(trace, labels, id, i) && SlotWrites(trace, i, |labels|) < TWO_63 - 1
    requires Dangerous(trace[|labels|], id)
    ensures LeadsToMisread(trace, labels, id, i, trace', labels')
  {
    var i';
    trace', labels', i' := AbandonmentMisleads(trace, labels, id);
    var j := |labels'| - 1;
    assert forall k :: 0 <= k < |labels| ==> labels'[k] == labels[k];
    assert IsAttempt(labels', id, i, j);
    SameStart(labels', id, i, i', j);
    AttemptSlot(trace, labels, id, i);
    HistoryGrows(trace', labels', j, j + 1);
    assert trace'[i] == trace[i] && trace'[|labels|] == trace[|labels|];
  }

  lemma AttemptSlot(trace: seq<State>, labels: seq<Label>, id: ReaderId, i: nat)
    requires OpenAttempt(trace, labels, id, i)
    ensures trace[|labels|].readers[id].pc.slot == trace[i].memory.Active()
  {
    var i' := AttemptBegan(trace, labels, id, |labels|);
    assert i' == i;
  }

  // ----- Two instances -----

  /** In particular, a payload that was not published at all is returned while it is still unpublished. */
  lemma UnpublishedMisleads(trace: seq<State>, labels: seq<Label>, id: ReaderId)
    returns (trace': seq<State>, labels': seq<Label>)
    requires IsRun(trace, labels) && trace[|labels|].writer.Stored?
    requires SeesSlot(trace[|labels|], id, trace[|labels|].writer.slot)
    requires trace[|labels|].writer.next !in trace[|labels|].published
    ensures IsRun(trace', labels') && trace <= trace' && labels + [Abandon] <= labels'
    ensures labels'[|labels'| - 1] == ReadIndexAgain(id) && Within(labels', id, |labels|, |labels'| - 1)
    ensures var s, s' := trace[|labels|], trace'[|labels'|];
            && id in s'.readers && s'.readers[id].pc == Returned(s.writer.next) && s.writer.next !in s'.published
  {
    assert Dangerous(trace[|labels|], id);
    var i;
    trace', labels', i := AbandonmentMisleads(trace, labels, id);
    RunKeepsInv(trace, labels, |labels|);
  }

  /** A run goes on with one undisturbed write. */
  lemma AlsoWrite(trace: seq<State>, labels: seq<Label>, next: Payload)
    returns (trace': seq<State>, labels': seq<Label>)
    requires IsRun(trace, labels) && trace[|labels|].writer.Idle?
    requires trace[|labels|].TwoSlots() && trace[|labels|].Size() == |next|
    ensures IsRun(trace', labels') && labels <= labels' && trace <= trace'
    ensures var s, s' := trace[|labels|], trace'[|labels'|];
            && s'.TwoSlots() && s'.Size() == |next| && s'.writer == Idle && s'.readers == s.readers
            && s'.memory == AfterWrite(s.memory, next) && s'.published == s.published + [next]
  {
    RunKeepsInv(trace, labels, |labels|);
    var more, s' := WriteAlone(trace[|labels|], next);
    trace' := Follow(trace, labels, more, s');
    labels' := labels + more;
  }

  /** It goes on with one write that has not flipped the index yet. */
  lemma AlsoStore(trace: seq<State>, labels: seq<Label>, next: Payload)
    returns (trace': seq<State>, labels': seq<Label>)
    requires IsRun(trace, labels) && trace[|labels|].writer.Idle?
    requires trace[|labels|].TwoSlots() && trace[|labels|].Size() == |next|
    ensures IsRun(trace', labels') && labels <= labels' && trace <= trace'
    ensures var s, s' := trace[|labels|], trace'[|labels'|];
            && s'.TwoSlots() && s'.writer == Stored(1 - s.memory.Active(), next)
            && s'.readers == s.readers && s'.published == s.published
  {
    RunKeepsInv(trace, labels, |labels|);
    var more, s' := StoreAlone(trace[|labels|], next);
    trace' := Follow(trace, labels, more, s');
    labels' := labels + more;
  }

  lemma Cleared() returns (trace: seq<State>, labels: seq<Label>)
    ensures IsRun(trace, labels)
    ensures var s := trace[|labels|];
            && s.TwoSlots() && s.Size() == 1 && s.writer == Idle && s.memory.activeWord == 0
            && s.published == [[0]] && s.readers == map[]
  {
    trace, labels := [State(Memory(0, [Slot(0, [0]), Slot(0, [0])]), Idle, map[], [0, 0], {[0]}, [[0]])], [];
  }

  /** Reader 0 begins a call and looks at the index. */
  lemma LookAtIndex(trace: seq<State>, labels: seq<Label>) returns (trace': seq<State>, labels': seq<Label>)
    requires IsRun(trace, labels) && trace[|labels|].TwoSlots() && trace[|labels|].readers == map[]
    ensures IsRun(trace', labels') && labels <= labels' && trace <= trace'
    ensures var s, s' := trace[|labels|], trace'[|labels'|];
            && s' == s.(readers := s'.readers) && 0 in s'.readers
            && s'.readers[0].pc == Indexed(s.memory.Active(), |s.published|)
  {
    trace', labels' := Extend(trace, labels, Call(0, 1));
    trace', labels' := Extend(trace', labels', ReadIndex(0));
  }

  /** From `clear`, with payloads of one byte: a run in which `read_consistent` returns a payload that
      was never the published one. */
  lemma EarlyAbandonBreaksLinearizability() returns (trace: seq<State>, labels: seq<Label>)
    ensures IsRun(trace, labels) && |labels| > 0 && labels[|labels| - 1] == ReadIndexAgain(0)
    ensures 0 in trace[|labels|].readers && trace[|labels|].readers[0].pc == Returned([7])
    ensures [7] !in trace[|labels|].published
  {
    trace, labels := Cleared();
    trace, labels := LookAtIndex(trace, labels);
    trace, labels := AlsoWrite(trace, labels, [1]);
    trace, labels := AlsoStore(trace, labels, [7]);
    trace, labels := UnpublishedMisleads(trace, labels, 0);
  }

  /** From `clear`: a run in which it returns a payload that had been published, but only before the
      attempt began. A controller that sends the same payload again does this. */
  lemma RepeatedPayloadMisleads() returns (trace: seq<State>, labels: seq<Label>, i: nat)
    ensures IsRun(trace, labels) && |labels| > 0 && IsAttempt(labels, 0, i, |labels| - 1)
    ensures 0 in trace[|labels|].readers && trace[|labels|].readers[0].pc == Returned([1])
    ensures [1] in trace[i].published && NeverShown(trace, i, |labels|, [1])
  {
    var trace0, labels0 := RepeatStored();
    trace, labels, i := AbandonmentMisleads(trace0, labels0, 0);
    BegunAt(trace0, labels0, trace, labels, 0, i);
    assert trace[i].published[1] == [1];
  }

  /** [1] was published before the attempt began, and now waits for its flip once more. */
  lemma RepeatStored() returns (trace: seq<State>, labels: seq<Label>)
    ensures IsRun(trace, labels) && Dangerous(trace[|labels|], 0)
    ensures var s := trace[|labels|];
            s.published == [[0], [1], [2], [3]] && s.readers[0].pc.begun == 3 && s.writer.next == [1]
  {
    trace, labels := LookedAfterTwo();
    trace, labels := AlsoWrite(trace, labels, [3]);
    trace, labels := AlsoStore(trace, labels, [1]);
  }

  lemma LookedAfterTwo() returns (trace: seq<State>, labels: seq<Label>)
    ensures IsRun(trace, labels)
    ensures var s := trace[|labels|];
            && s.TwoSlots() && s.Size() == 1 && s.writer == Idle && s.memory.activeWord == 0
            && s.published == [[0], [1], [2]]
            && 0 in s.readers && s.readers[0].pc == Indexed(0, 3)
  {
    trace, labels := Cleared();
    trace, labels := AlsoWrite(trace, labels, [1]);
    trace, labels := AlsoWrite(trace, labels, [2]);
    trace, labels := LookAtIndex(trace, labels);
  }

  /** How much was published when the attempt began, of a run and of a longer one. */
  lemma BegunAt(trace: seq<State>, labels: seq<Label>, trace': seq<State>, labels': seq<Label>, id: ReaderId, i: nat)
    requires IsRun(trace, labels) && trace <= trace' && labels <= labels' && |labels| < |labels'|
    requires id in trace[|labels|].readers && InAttempt(trace[|labels|].readers[id].pc)
    requires i < |labels| && IsAttempt(labels', id, i, |labels'| - 1)
    ensures |trace'[i].published| == trace[|labels|].readers[id].pc.begun
    ensures trace'[i].published <= trace[|labels|].published
  {
    var i' := AttemptBegan(trace, labels, id, |labels|);
    assert labels'[i'] == labels[i'] && labels'[i] == labels[i] && trace'[i] == trace[i];
    assert i' == i;
    HistoryGrows(trace, labels, i, |labels|);
  }

  // ----- The bound on writes is needed -----

  /** A reader is in the middle of an attempt: nothing was published since it began, and it has copied
      byte `a` but not byte `b`. */
  ghost predicate HalfCopied(s: State, id: ReaderId, a: nat, b: nat) {
    && s.TwoSlots() && a < s.Size() && b < s.Size() && id in s.readers
    && var pc := s.readers[id].pc;
       pc.Copying? && pc.begun == |s.published| && a in pc.got && b !in pc.got
  }

  /** `s'` is `s` after `n` undisturbed writes of `next` to each slot. */
  ghost predicate WrittenTwice(s: State, s': State, next: Payload, n: nat)
    requires s.TwoSlots()
  {
    var x := s.memory.Active();
    && s'.TwoSlots() && s'.memory.Active() == x && s'.writer.Idle? && s'.readers == s.readers
    && s'.attempts[x] == s.attempts[x] + n
    && s'.memory.slots[x].sequence == Word64(2 * (s.attempts[x] + n))
    && (n > 0 ==> s'.memory.slots[x].payload == next)
    && s'.Size() == |s'.memory.slots[1].payload| == s.Size()
    && s'.published == s.published + Repeated(next, 2 * n)
  }

  lemma WritePair(s: State, next: Payload) returns (labels: seq<Label>, s': State)
    requires s.TwoSlots() && s.writer.Idle? && |next| == s.Size() == |s.memory.slots[1].payload|
    requires var x := s.memory.Active(); s.memory.slots[x].sequence == Word64(2 * s.attempts[x])
    ensures Reaches(s, labels, s') && forall l :: l in labels ==> WriterLabel(l) && l != Abandon
    ensures WrittenTwice(s, s', next, 1)
  {
    var x := s.memory.Active();
    var first, s1 := WriteAlone(s, next);
    OneWrite(s.memory, next);
    var second;
    second, s' := WriteAlone(s1, next);
    OneWrite(s1.memory, next);
    NextSequences(s.memory.slots[x].sequence, s.attempts[x]);
    ReachesJoin(s, first, s1, second, s');
    labels := first + second;
    assert s.published + [next] + [next] == s.published + Repeated(next, 2);
  }

  lemma {:induction false} WritePairs(s: State, next: Payload, n: nat) returns (labels: seq<Label>, s': State)
    requires s.TwoSlots() && s.writer.Idle? && |next| == s.Size() == |s.memory.slots[1].payload|
    requires var x := s.memory.Active(); s.memory.slots[x].sequence == Word64(2 * s.attempts[x])
    ensures Reaches(s, labels, s') && forall l :: l in labels ==> WriterLabel(l) && l != Abandon
    ensures WrittenTwice(s, s', next, n)
    decreases n
  {
    if n == 0 {
      labels, s' := [], s;
      assert s.published + Repeated(next, 0) == s.published;
    } else {
      var before, s1 := WritePairs(s, next, n - 1);
      var last;
      last, s' := WritePair(s1, next);
      ReachesJoin(s, before, s1, last, s');
      labels := before + last;
      assert s.published + Repeated(next, 2 * (n - 1)) + Repeated(next, 2) == s.published + Repeated(next, 2 * n);
    }
  }

  /** The reader copies those of the first `n` bytes that it has not copied yet. */
  lemma {:induction false} CopyMissing(s: State, id: ReaderId, n: nat) returns (labels: seq<Label>, s': State)
    requires s.TwoSlots() && id in s.readers && n <= s.Size()
    requires var pc := s.readers[id].pc;
             pc.Copying? && pc.slot < 2 && |pc.buffer| == |s.memory.slots[pc.slot].payload| == s.Size()
    ensures Reaches(s, labels, s') && forall l :: l in labels ==> l.CopyByte? && l.id == id
    ensures id in s'.readers && s' == s.(readers := s.readers[id := s'.readers[id]])
    ensures var pc, pc' := s.readers[id].pc, s'.readers[id].pc;
            && pc'.Copying? && pc' == pc.(buffer := pc'.buffer, got := pc'.got) && |pc'.buffer| == s.Size()
            && (forall k: nat :: k in pc'.got <==> k in pc.got || k < n)
            && forall k :: 0 <= k < s.Size() ==>
                 pc'.buffer[k] == if k < n && k !in pc.got then s.memory.slots[pc.slot].payload[k] else pc.buffer[k]
    decreases n
  {
    labels, s' := [], s;
    if n > 0 {
      labels, s' := CopyMissing(s, id, n - 1);
      if n - 1 !in s.readers[id].pc.got {
        ReachesOneMore(s, labels, s', CopyByte(id, n - 1));
        labels, s' := labels + [CopyByte(id, n - 1)], Step(s', CopyByte(id, n - 1));
      }
    }
  }

  /** 2^63 writes to each slot, of a payload that differs in every byte, and then the rest of the copy. */
  lemma WriteThenCopy(s: State, id: ReaderId) returns (labels: seq<Label>, s': State)
    requires Inv(s) && s.writer.Idle? && id in s.readers
    requires s.readers[id].pc.Copying? && s.readers[id].pc.begun == |s.published|
    ensures Reaches(s, labels, s') && forall l :: l in labels ==> Inside(l, id)
    ensures s'.TwoSlots() && s'.memory.Active() == s.memory.Active() && s'.Size() == s.Size() && id in s'.readers
    ensures s'.published == s.published + Repeated(Other(s.Published()), 2 * TWO_63)
    ensures var x := s.memory.Active();
            && s'.attempts[x] == s.attempts[x] + TWO_63
            && var pc, pc' := s.readers[id].pc, s'.readers[id].pc;
               && pc'.Copying? && pc'.slot == x && pc'.first == s'.memory.slots[x].sequence && pc'.first % 2 == 0
               && |pc'.buffer| == s.Size() && (forall k: nat :: k < s.Size() ==> k in pc'.got)
               && forall k :: 0 <= k < s.Size() ==>
                    pc'.buffer[k] == if k in pc.got then s.Published()[k] else Other(s.Published())[k]
  {
    var x := s.memory.Active();
    assert ReaderInv(s, s.readers[id]);
    ActiveIsEven(s);
    WrapsAround(s.attempts[x]);
    var writes, s1 := WritePairs(s, Other(s.Published()), TWO_63);
    var copies;
    copies, s' := CopyMissing(s1, id, s.Size());
    ReachesJoin(s, writes, s1, copies, s');
    labels := writes + copies;
  }

  /** From `s` to `s'` exactly 2^63 writes hit the slot that was active, no payload was published but
      `other`, and the reader returned `torn`, which is neither the payload that was the published
      one in `s` nor `other`. */
  ghost predicate Torn(s: State, s': State, id: ReaderId, torn: Payload)
    requires s.TwoSlots()
  {
    var x := s.memory.Active();
    && s'.TwoSlots() && s'.attempts[x] == s.attempts[x] + TWO_63
    && id in s'.readers && s'.readers[id].pc == Returned(torn)
    && !PublishedSince(s', torn, |s.published|)
  }

  lemma TearingSteps(s: State, id: ReaderId, a: nat, b: nat) returns (labels: seq<Label>, s': State, torn: Payload)
    requires Inv(s) && s.writer.Idle? && HalfCopied(s, id, a, b)
    ensures Reaches(s, labels, s') && |labels| > 0 && labels[|labels| - 1] == ReadIndexAgain(id)
    ensures forall k :: 0 <= k < |labels| - 1 ==> Inside(labels[k], id)
    ensures Torn(s, s', id, torn)
  {
    var before, s1 := WriteThenCopy(s, id);
    torn := s1.readers[id].pc.buffer;
    assert torn[a] == s.Published()[a] && torn[b] == Other(s.Published())[b];
    NeitherOf(s, s1, torn, a, b);
    var s2 := Step(s1, ReadSecond(id));
    s' := Step(s2, ReadIndexAgain(id));
    ReachesOneMore(s, before, s1, ReadSecond(id));
    ReachesOneMore(s, before + [ReadSecond(id)], s2, ReadIndexAgain(id));
    labels := before + [ReadSecond(id)] + [ReadIndexAgain(id)];
    assert forall k :: 0 <= k < |before| ==> labels[k] == before[k] && before[k] in before;
  }

  lemma NeitherOf(s: State, s': State, torn: Payload, a: nat, b: nat)
    requires MemoryInv(s) && a < s.Size() && b < s.Size() && |torn| == s.Size()
    requires torn[a] == s.Published()[a] && torn[b] == Other(s.Published())[b]
    requires s'.published == s.published + Repeated(Other(s.Published()), 2 * TWO_63)
    ensures !PublishedSince(s', torn, |s.published|)
  {
    assert s.published[|s.published| - 1] != torn && Other(s.Published()) != torn;
  }

  /** Main result. From every reachable state with an idle writer and a reader in the middle of an attempt
      that has met no flip, for payloads of any size of at least two bytes, exactly 2^63 undisturbed
      writes to the reader's slot lead to a run in which that attempt returns a mix that was not the
      published payload at any instant of the attempt, although no writer was abandoned. */
  lemma BoundIsNeeded(trace: seq<State>, labels: seq<Label>, id: ReaderId, a: nat, b: nat)
    returns (trace': seq<State>, labels': seq<Label>, i: nat, torn: Payload)
    requires IsRun(trace, labels) && trace[|labels|].writer.Idle? && HalfCopied(trace[|labels|], id, a, b)
    ensures IsRun(trace', labels') && trace <= trace' && labels <= labels' && |labels| < |labels'|
    ensures forall k :: |labels| <= k < |labels'| ==> labels'[k] != Abandon
    ensures i < |labels| && IsAttempt(labels', id, i, |labels'| - 1)
    ensures Torn(trace[|labels|], trace'[|labels'|], id, torn) && NeverShown(trace', i, |labels'|, torn)
  {
    trace', labels', torn := Tear(trace, labels, id, a, b);
    i := TornFromStart(trace, labels, id, trace', labels', torn);
  }

  lemma Tear(trace: seq<State>, labels: seq<Label>, id: ReaderId, a: nat, b: nat)
    returns (trace': seq<State>, labels': seq<Label>, torn: Payload)
    requires IsRun(trace, labels) && trace[|labels|].writer.Idle? && HalfCopied(trace[|labels|], id, a, b)
    ensures IsRun(trace', labels') && trace <= trace' && labels <= labels' && |labels| < |labels'|
    ensures labels'[|labels'| - 1] == ReadIndexAgain(id)
    ensures forall k :: |labels| <= k < |labels'| - 1 ==> Inside(labels'[k], id)
    ensures Torn(trace[|labels|], trace'[|labels'|], id, torn)
  {
    var s := trace[|labels|];
    assert Inv(s) by { RunKeepsInv(trace, labels, |labels|); }
    var more, s';
    more, s', torn := TearingSteps(s, id, a, b);
    trace' := Follow(trace, labels, more, s');
    labels' := labels + more;
    assert trace'[|labels'|] == s' && trace'[|labels|] == s;
    forall k | |labels| <= k < |labels'| - 1 ensures Inside(labels'[k], id) {
      assert labels'[k] == more[k - |labels|];
    }
  }

  lemma TornFromStart(trace: seq<State>, labels: seq<Label>, id: ReaderId, trace': seq<State>, labels': seq<Label>,
                      torn: Payload)
    returns (i: nat)
    requires IsRun(trace, labels) && trace[|labels|].TwoSlots() && id in trace[|labels|].readers
    requires trace[|labels|].readers[id].pc.Copying?
    requires trace[|labels|].readers[id].pc.begun == |trace[|labels|].published|
    requires IsRun(trace', labels') && trace <= trace' && labels <= labels' && |labels| < |labels'|
    requires labels'[|labels'| - 1] == ReadIndexAgain(id)
    requires forall k :: |labels| <= k < |labels'| - 1 ==> Inside(labels'[k], id)
    requires !PublishedSince(trace'[|labels'|], torn, |trace[|labels|].published|)
    ensures i < |labels| && IsAttempt(labels', id, i, |labels'| - 1)
    ensures NeverShown(trace', i, |labels'|, torn)
  {
    i := AttemptBegan(trace, labels, id, |labels|);
    assert forall k :: 0 <= k < |labels| ==> labels'[k] == labels[k];
    assert trace'[i] == trace[i];
    NotSinceIsNeverShown(trace', labels', i, |labels'|, torn);
  }

  /** Such states are reachable: here is one, right after `clear`, with two bytes. */
  lemma HalfCopiedFromClear() returns (trace: seq<State>, labels: seq<Label>)
    ensures IsRun(trace, labels) && trace[|labels|].writer.Idle? && HalfCopied(trace[|labels|], 0, 0, 1)
  {
    trace, labels :=
      [State(Memory(0, [Slot(0, [0, 0]), Slot(0, [0, 0])]), Idle, map[], [0, 0], {[0, 0]}, [[0, 0]])], [];
    trace, labels := LookAtIndex(trace, labels);
    trace, labels := Extend(trace, labels, ReadFirst(0));
    trace, labels := Extend(trace, labels, CopyByte(0, 0));
  }
}
