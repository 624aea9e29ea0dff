/** What `read_consistent` of the double buffer promises under every interleaving: when a read is
    linearizable, that it is whole, and that readers make progress. */
module DoubleBufferReads {
  import opened Bytes
  import opened DoubleBufferProtocol

  // ----- Linearizability -----

  /** `p` is the payload that was the published one when `begun` had been published, or a later one. */
  ghost predicate PublishedSince(s: State, p: Payload, begun: nat) {
    exists k :: 0 <= begun - 1 <= k < |s.published| && s.published[k] == p
  }

  /** Reader `id` is in an attempt on slot `x`, and whatever it has seen of the slot is there still. */
  ghost predicate SeesSlot(s: State, id: ReaderId, x: nat) {
    && s.TwoSlots() && x < 2 && id in s.readers
    && var pc := s.readers[id].pc;
       InAttempt(pc) && pc.slot == x && (!pc.Indexed? ==> pc.mark == s.attempts[x])
  }

  /** To abandon the writer here is dangerous for reader `id`: it stands between its even store and its
      flip, on a slot of which the reader has seen nothing older, and with a payload that has
      not been the published one since the reader's attempt began. */
  ghost predicate Dangerous(s: State, id: ReaderId) {
    && s.writer.Stored? && SeesSlot(s, id, s.writer.slot)
    && !PublishedSince(s, s.writer.next, s.readers[id].pc.begun)
  }

  /** In the steps `lo`, ..., `hi - 1` no writer is abandoned where that is dangerous for `id`. */
  ghost predicate Harmless(trace: seq<State>, labels: seq<Label>, id: ReaderId, lo: nat, hi: nat)
    requires |trace| == |labels| + 1
  {
    forall k :: lo <= k < hi && k < |labels| && labels[k] == Abandon ==> !Dangerous(trace[k], id)
  }

  /** If slot `x` is inactive, even and not waiting for its flip, it holds what was published since. */
  ghost predicate SlotLinked(s: State, x: nat, begun: nat)
    requires s.TwoSlots() && x < 2
  {
    x != s.memory.Active() && !s.writer.Stored? && s.memory.slots[x].sequence % 2 == 0 ==>
      PublishedSince(s, s.memory.slots[x].payload, begun)
  }

  /** What a reader saw is either published since, or untouched and about to be flipped in. */
  ghost predicate SawLinked(s: State, pc: Pc)
    requires s.TwoSlots() && Looked(pc) && pc.slot < 2
  {
    || PublishedSince(s, pc.snapshot, pc.begun)
    || (pc.mark == s.attempts[pc.slot] && s.writer == Stored(pc.slot, pc.snapshot) && s.memory.Active() != pc.slot)
  }

  lemma PublishedStays(s: State, l: Label, p: Payload, begun: nat)
    requires Enabled(s, l)
    ensures PublishedSince(s, p, begun) ==> PublishedSince(Step(s, l), p, begun)
    ensures l == Flip && 0 < begun <= |s.published| + 1 ==> PublishedSince(Step(s, l), s.writer.next, begun)
  {
    var s' := Step(s, l);
    StepGrows(s, l);
    if k :| 0 <= begun - 1 <= k < |s.published| && s.published[k] == p {
      assert s'.published[k] == p;
    }
    if l == Flip { assert s'.published[|s.published|] == s.writer.next; }
  }

  lemma NextParity(s: State)
    requires WriterInv(s) && s.writer.Loaded?
    ensures s.writer.odd % 2 == 1
  {
    OddWord(s.attempts[s.writer.slot]);
  }

  lemma StepKeepsSlot(s: State, l: Label, x: nat, begun: nat)
    requires Inv(s) && x < 2 && 0 < begun <= |s.published| && SlotLinked(s, x, begun) && Enabled(s, l)
    requires l == Abandon && s.writer.Stored? && s.writer.slot == x ==> PublishedSince(s, s.writer.next, begun)
    ensures Step(s, l).TwoSlots() && SlotLinked(Step(s, l), x, begun)
  {
    PublishedStays(s, l, s.memory.slots[x].payload, begun);
    if s.attempts[1 - s.memory.Active()] > 0 { WordParity(2 * s.attempts[1 - s.memory.Active()] - 1); }
    if l.StoreOdd? { NextParity(s); }
    if s.memory.Active() == x { assert s.published[|s.published| - 1] == s.memory.slots[x].payload; }
  }

  lemma StepKeepsSaw(s: State, l: Label, pc: Pc)
    requires Inv(s) && Enabled(s, l) && Looked(pc) && pc.slot < 2 && 0 < pc.begun <= |s.published| && SawLinked(s, pc)
    requires l == Abandon && s.writer.Stored? && s.writer.slot == pc.slot && pc.mark == s.attempts[pc.slot] ==>
               PublishedSince(s, s.writer.next, pc.begun)
    ensures Step(s, l).TwoSlots() && SawLinked(Step(s, l), pc)
  {
    PublishedStays(s, l, pc.snapshot, pc.begun);
  }

  /** The first look at an even word: what it sees is linked from the start. */
  lemma FirstLookLinked(s: State, x: nat, begun: nat)
    requires Inv(s) && x < 2 && SlotLinked(s, x, begun) && s.memory.slots[x].sequence % 2 == 0
    requires 0 < begun <= |s.published| && (begun == |s.published| ==> s.memory.Active() == x)
    ensures var p := s.memory.slots[x].payload;
            PublishedSince(s, p, begun) || (s.writer == Stored(x, p) && s.memory.Active() != x)
  {
    if s.memory.Active() == x {
      assert s.published[|s.published| - 1] == s.memory.slots[x].payload;
    }
  }

  ghost predicate AttemptLinked(s: State, id: ReaderId) {
    s.TwoSlots() && id in s.readers && InAttempt(s.readers[id].pc) && s.readers[id].pc.slot < 2 ==>
      var pc := s.readers[id].pc;
      if pc.Indexed? then SlotLinked(s, pc.slot, pc.begun) else SawLinked(s, pc)
  }

  lemma StepKeepsAttempt(s: State, l: Label, id: ReaderId)
    requires Inv(s) && Enabled(s, l) && (l == Abandon ==> !Dangerous(s, id))
    requires l == ReadIndex(id) || AttemptLinked(s, id)
    ensures AttemptLinked(Step(s, l), id)
  {
    var s' := Step(s, l);
    if id in s'.readers && InAttempt(s'.readers[id].pc) {
      StayInAttempt(s, l, id);
      if l != ReadIndex(id) {
        var pc := s.readers[id].pc;
        assert ReaderInv(s, s.readers[id]);
        if pc.Indexed? {
          StepKeepsSlot(s, l, pc.slot, pc.begun);
          if l == ReadFirst(id) { FirstLookLinked(s, pc.slot, pc.begun); }
        } else {
          StepKeepsSaw(s, l, pc);
          SameSight(s, l, id);
        }
      }
    }
  }

  /** Once a reader has looked, the rest of its attempt does not change what it saw. */
  lemma SameSight(s: State, l: Label, id: ReaderId)
    requires Enabled(s, l) && id in s.readers && Looked(s.readers[id].pc)
    requires id in Step(s, l).readers && InAttempt(Step(s, l).readers[id].pc)
    ensures var pc, pc' := s.readers[id].pc, Step(s, l).readers[id].pc;
            && Looked(pc') && pc'.slot == pc.slot && pc'.begun == pc.begun
            && pc'.snapshot == pc.snapshot && pc'.mark == pc.mark
  {
  }

  /** From the start of an attempt on, whatever happened before, as long as no writer is abandoned
      where that is dangerous, what the reader saw stays linked to what was published since. */
  lemma {:induction false} AttemptStaysLinked(trace: seq<State>, labels: seq<Label>, id: ReaderId, i: nat, m: nat)
    requires IsRun(trace, labels) && i < m < |trace| && labels[i] == ReadIndex(id)
    requires Harmless(trace, labels, id, i, m)
    ensures AttemptLinked(trace[m], id)
    decreases m
  {
    if m - 1 > i { AttemptStaysLinked(trace, labels, id, i, m - 1); }
    RunKeepsInv(trace, labels, m - 1);
    StepKeepsAttempt(trace[m - 1], labels[m - 1], id);
  }

  /** Whatever has been published between two instants was, at some instant between them,
      the payload of the active slot. */
  lemma {:induction false} PublishedAtSomeInstant(trace: seq<State>, labels: seq<Label>, i: nat, j: nat, k: nat)
    returns (t: nat)
    requires IsRun(trace, labels) && i <= j < |trace|
    requires |trace[i].published| - 1 <= k < |trace[j].published|
    ensures i <= t <= j && trace[t].TwoSlots() && trace[t].Published() == trace[j].published[k]
    decreases j
  {
    RunKeepsInv(trace, labels, j);
    if k == |trace[j].published| - 1 {
      t := j;
    } else {
      assert i < j;
      HistoryGrows(trace, labels, j - 1, j);
      t := PublishedAtSomeInstant(trace, labels, i, j - 1, k);
    }
  }

  /** The step j at which a call returns ends an attempt that began at step i. */
  lemma ReturnEndsAttempt(trace: seq<State>, labels: seq<Label>, id: ReaderId, j: nat) returns (i: nat)
    requires IsRun(trace, labels) && j < |labels|
    requires labels[j] == ReadIndexAgain(id) && trace[j + 1].readers[id].pc.Returned?
    ensures IsAttempt(labels, id, i, j) && trace[i].TwoSlots() && trace[j].TwoSlots()
    ensures trace[i].memory.Active() == trace[j].memory.Active()
    ensures var x := trace[i].memory.Active();
            var pc := trace[j].readers[id].pc;
            && pc.Checking? && pc.slot == x && pc.begun == |trace[i].published|
            && (trace[j].attempts[x] - trace[i].attempts[x] < TWO_63 ==>
                  trace[j + 1].readers[id].pc.payload == pc.snapshot && pc.snapshot in trace[j].completed)
  {
    RunKeepsInv(trace, labels, j);
    ReturnsSnapshot(trace[j], id);
    i := AttemptBegan(trace, labels, id, j);
  }

  /** The reader returns what it saw at its first look, unless 2^63 attempts on the slot lie between. */
  lemma ReturnsSnapshot(s: State, id: ReaderId)
    requires Inv(s) && Enabled(s, ReadIndexAgain(id)) && Step(s, ReadIndexAgain(id)).readers[id].pc.Returned?
    ensures var pc := s.readers[id].pc;
            && pc.Checking? && pc.slot == s.memory.Active() && pc.mark <= s.attempts[pc.slot]
            && (s.attempts[pc.slot] - pc.mark < TWO_63 ==>
                  Step(s, ReadIndexAgain(id)).readers[id].pc.payload == pc.snapshot && pc.snapshot in s.completed)
  {
    assert ReaderInv(s, s.readers[id]);
  }

  /** Main result. When no writer is abandoned, during the attempt that returns, at a point where that is
      dangerous for the reader, the returned payload was the published one at some instant of that
      attempt, provided fewer than 2^63 writes hit its slot during the attempt. */
  lemma ReadIsLinearizable(trace: seq<State>, labels: seq<Label>, id: ReaderId, j: nat) returns (i: nat, t: nat)
    requires IsRun(trace, labels) && j < |labels|
    requires labels[j] == ReadIndexAgain(id) && trace[j + 1].readers[id].pc.Returned?
    ensures IsAttempt(labels, id, i, j) && trace[i].TwoSlots() && trace[j].TwoSlots()
    ensures i <= t <= j && trace[t].TwoSlots()
    ensures var x := trace[i].memory.Active();
            Harmless(trace, labels, id, i, j) && trace[j].attempts[x] - trace[i].attempts[x] < TWO_63 ==>
              trace[j + 1].readers[id].pc.payload == trace[t].Published()
  {
    i := ReturnEndsAttempt(trace, labels, id, j);
    t := i;
    if Harmless(trace, labels, id, i, j) {
      AttemptStaysLinked(trace, labels, id, i, j);
      RunKeepsInv(trace, labels, j);
      var s, pc := trace[j], trace[j].readers[id].pc;
      assert PublishedSince(s, pc.snapshot, pc.begun);
      var k :| 0 <= pc.begun - 1 <= k < |s.published| && s.published[k] == pc.snapshot;
      t := PublishedAtSomeInstant(trace, labels, i, j, k);
    }
  }

  /** In the steps `lo`, ..., `hi - 1` no writer is abandoned between its even store and its flip. */
  ghost predicate FlipsWhatItStores(trace: seq<State>, labels: seq<Label>, lo: nat, hi: nat)
    requires |trace| == |labels| + 1
  {
    forall k :: lo <= k < hi && k < |labels| && labels[k] == Abandon ==> !trace[k].writer.Stored?
  }

  /** So an attempt in which no writer stops between even store and flip is linearizable. */
  lemma FlippedReadIsLinearizable(trace: seq<State>, labels: seq<Label>, id: ReaderId, j: nat) returns (i: nat, t: nat)
    requires IsRun(trace, labels) && j < |labels|
    requires labels[j] == ReadIndexAgain(id) && trace[j + 1].readers[id].pc.Returned?
    ensures IsAttempt(labels, id, i, j) && trace[i].TwoSlots() && trace[j].TwoSlots()
    ensures i <= t <= j && trace[t].TwoSlots()
    ensures var x := trace[i].memory.Active();
            FlipsWhatItStores(trace, labels, i, j) && trace[j].attempts[x] - trace[i].attempts[x] < TWO_63 ==>
              trace[j + 1].readers[id].pc.payload == trace[t].Published()
  {
    i, t := ReadIsLinearizable(trace, labels, id, j);
    if FlipsWhatItStores(trace, labels, i, j) {
      assert Harmless(trace, labels, id, i, j);
    }
  }

  /** And a writer that never stops there makes every read linearizable. */
  lemma EveryReadIsLinearizable(trace: seq<State>, labels: seq<Label>, id: ReaderId, j: nat) returns (i: nat, t: nat)
    requires IsRun(trace, labels) && FlipsWhatItStores(trace, labels, 0, |labels|) && j < |labels|
    requires labels[j] == ReadIndexAgain(id) && trace[j + 1].readers[id].pc.Returned?
    ensures IsAttempt(labels, id, i, j) && trace[i].TwoSlots() && trace[j].TwoSlots()
    ensures i <= t <= j && trace[t].TwoSlots()
    ensures var x := trace[i].memory.Active();
            trace[j].attempts[x] - trace[i].attempts[x] < TWO_63 ==>
              trace[j + 1].readers[id].pc.payload == trace[t].Published()
  {
    i, t := FlippedReadIsLinearizable(trace, labels, id, j);
    assert FlipsWhatItStores(trace, labels, i, j);
  }

  lemma StayLooked(s: State, l: Label, id: ReaderId)
    requires Enabled(s, l) && id in Step(s, l).readers && Looked(Step(s, l).readers[id].pc)
    ensures id in s.readers && l != ReadIndex(id) && l != ReadIndexAgain(id) && !(l.Call? && l.id == id)
    ensures var pc, pc' := s.readers[id].pc, Step(s, l).readers[id].pc;
            if l == ReadFirst(id) then
              && pc'.slot < 2 && s.memory.slots[pc'.slot] == Slot(pc'.first, pc'.snapshot)
              && pc'.first % 2 == 0 && s.attempts[pc'.slot] == pc'.mark
            else
              && Looked(pc) && pc'.slot == pc.slot && pc'.first == pc.first
              && pc'.snapshot == pc.snapshot && pc'.mark == pc.mark
  {
  }

  /** A reader that has looked at its slot did so in some earlier step of the same attempt. */
  lemma {:induction false} FirstLook(trace: seq<State>, labels: seq<Label>, id: ReaderId, j: nat) returns (f: nat)
    requires IsRun(trace, labels) && j < |trace| && id in trace[j].readers && Looked(trace[j].readers[id].pc)
    ensures f < j && labels[f] == ReadFirst(id) && Within(labels, id, f, j)
    ensures var pc := trace[j].readers[id].pc;
            && trace[f].TwoSlots() && pc.slot < 2
            && trace[f].memory.slots[pc.slot] == Slot(pc.first, pc.snapshot) && pc.first % 2 == 0
            && trace[f].attempts[pc.slot] == pc.mark
    decreases j
  {
    assert trace[j] == Step(trace[j - 1], labels[j - 1]);
    StayLooked(trace[j - 1], labels[j - 1], id);
    if labels[j - 1] == ReadFirst(id) {
      f := j - 1;
    } else {
      f := FirstLook(trace, labels, id, j - 1);
    }
  }

  /** Wherever writers are abandoned, a returned payload is whole: at some instant of the attempt it
      stood in the attempt's slot under an even word, and it is the cleared payload or one
      that some write had stored completely by then. */
  lemma ReadIsWhole(trace: seq<State>, labels: seq<Label>, id: ReaderId, j: nat) returns (i: nat, f: nat)
    requires IsRun(trace, labels) && j < |labels|
    requires labels[j] == ReadIndexAgain(id) && trace[j + 1].readers[id].pc.Returned?
    ensures IsAttempt(labels, id, i, j) && trace[i].TwoSlots() && trace[j].TwoSlots()
    ensures i < f < j && labels[f] == ReadFirst(id) && trace[f].TwoSlots()
    ensures var x := trace[i].memory.Active();
            trace[j].attempts[x] - trace[i].attempts[x] < TWO_63 ==>
              && trace[f].memory.slots[x].sequence % 2 == 0
              && trace[f].memory.slots[x].payload == trace[j + 1].readers[id].pc.payload
              && trace[j + 1].readers[id].pc.payload in trace[f].completed
  {
    i := ReturnEndsAttempt(trace, labels, id, j);
    f := FirstLook(trace, labels, id, j);
    assert i != f && !(f < i < j);
    RunKeepsInv(trace, labels, f);
    EvenMeansWhole(trace[f], trace[i].memory.Active());
  }

  // ----- Progress -----

  /** In every reachable state, whoever was abandoned wherever, the active slot is stable. */
  lemma ActiveSlotStable(trace: seq<State>, labels: seq<Label>, k: nat)
    requires IsRun(trace, labels) && k < |trace|
    ensures var s := trace[k];
            && s.TwoSlots() && s.memory.slots[s.memory.Active()].sequence % 2 == 0
            && |s.published| > 0 && s.Published() == s.published[|s.published| - 1]
            && (s.writer.Storing? ==> s.writer.slot != s.memory.Active())
  {
    RunKeepsInv(trace, labels, k);
    ActiveIsEven(trace[k]);
  }

  /** A failed attempt met a flip of the index. */
  lemma FailedAttemptMetFlip(trace: seq<State>, labels: seq<Label>, id: ReaderId, j: nat) returns (i: nat)
    requires IsRun(trace, labels) && j < |labels|
    requires labels[j] == ReadFirst(id) || labels[j] == ReadIndexAgain(id)
    requires trace[j + 1].readers[id].pc.Ready? || trace[j + 1].readers[id].pc.Raised?
    ensures i < j && labels[i] == ReadIndex(id) && Within(labels, id, i + 1, j)
    ensures Flips(labels, i, j) >= 1
  {
    RunKeepsInv(trace, labels, j);
    ActiveIsEven(trace[j]);
    i := AttemptBegan(trace, labels, id, j);
    HistoryGrows(trace, labels, i, j);
    assert ReaderInv(trace[j], trace[j].readers[id]);
  }

  /** An attempt that meets no flip succeeds, and returns the payload that is published
      throughout it. So a writer that stalls, wherever it stalls, never blocks a reader. */
  lemma QuietAttemptSucceeds(trace: seq<State>, labels: seq<Label>, id: ReaderId, i: nat, j: nat)
    requires IsRun(trace, labels) && IsAttempt(labels, id, i, j) && Flips(labels, i, j) == 0
    ensures trace[i].TwoSlots() && id in trace[j + 1].readers
    ensures trace[j + 1].readers[id].pc == Returned(trace[i].Published())
  {
    RunKeepsInv(trace, labels, i);
    RunKeepsInv(trace, labels, j);
    ActiveIsEven(trace[j]);
    var b := AttemptBegan(trace, labels, id, j);
    assert b == i;
    HistoryGrows(trace, labels, i, j);
    assert ReaderInv(trace[j], trace[j].readers[id]);
  }

  lemma StaysCalled(s: State, l: Label, id: ReaderId)
    requires Enabled(s, l) && id in Step(s, l).readers
    ensures l.Call? && l.id == id ==> CalledBy(Step(s, l).readers[id], |s.published|, l.maxRetries)
    ensures !(l.Call? && l.id == id) ==>
              && id in s.readers
              && forall called: nat, limit: int ::
                   CalledBy(s.readers[id], called, limit) ==> CalledBy(Step(s, l).readers[id], called, limit)
  {
  }

  /** The call was for `limit` attempts and began when `called` payloads had been published. */
  predicate CalledBy(r: Reader, called: nat, limit: int) {
    r.called == called && (if limit > 0 then r.maxRetries == limit else r.pc.Rejected?)
  }

  lemma {:induction false} CallBegan(trace: seq<State>, labels: seq<Label>, id: ReaderId, j: nat) returns (c: nat)
    requires IsRun(trace, labels) && j < |trace| && id in trace[j].readers
    ensures c < j && labels[c].Call? && labels[c].id == id
    ensures forall k :: c < k < j ==> !(labels[k].Call? && labels[k].id == id)
    ensures CalledBy(trace[j].readers[id], |trace[c].published|, labels[c].maxRetries)
    decreases j
  {
    var l := labels[j - 1];
    assert trace[j] == Step(trace[j - 1], l);
    StaysCalled(trace[j - 1], l, id);
    if l.Call? && l.id == id {
      c := j - 1;
    } else {
      c := CallBegan(trace, labels, id, j - 1);
    }
  }

  /** A call that gave up after `max_retries` attempts lived through at least that many flips. */
  lemma RaisedMetFlips(trace: seq<State>, labels: seq<Label>, id: ReaderId, j: nat) returns (c: nat)
    requires IsRun(trace, labels) && j < |trace| && id in trace[j].readers && trace[j].readers[id].pc.Raised?
    ensures c < j && labels[c].Call? && labels[c].id == id && labels[c].maxRetries > 0
    ensures forall k :: c < k < j ==> !(labels[k].Call? && labels[k].id == id)
    ensures Flips(labels, c, j) >= labels[c].maxRetries
  {
    RunKeepsInv(trace, labels, j);
    c := CallBegan(trace, labels, id, j);
    HistoryGrows(trace, labels, c, j);
    assert ReaderInv(trace[j], trace[j].readers[id]);
  }

  lemma StartCopying(trace: seq<State>, labels: seq<Label>, id: ReaderId)
    returns (trace': seq<State>, labels': seq<Label>)
    requires IsRun(trace, labels) && id in trace[|labels|].readers && trace[|labels|].readers[id].pc.Ready?
    ensures IsRun(trace', labels') && labels' == labels + [ReadIndex(id), ReadFirst(id)] && trace <= trace'
    ensures id in trace'[|labels'|].readers && trace'[|labels'|].readers[id].pc.Copying?
    ensures Inv(trace'[|labels'|])
  {
    RunKeepsInv(trace, labels, |labels|);
    ActiveIsEven(trace[|labels|]);
    trace', labels' := Extend(trace, labels, ReadIndex(id));
    trace', labels' := Extend(trace', labels', ReadFirst(id));
    RunKeepsInv(trace', labels', |labels'|);
  }

  lemma FinishCopying(trace: seq<State>, labels: seq<Label>, id: ReaderId)
    returns (trace': seq<State>, labels': seq<Label>)
    requires IsRun(trace, labels) && id in trace[|labels|].readers && trace[|labels|].readers[id].pc.Copying?
    requires Inv(trace[|labels|])
    ensures IsRun(trace', labels') && labels <= labels' && trace <= trace'
    ensures |labels| < |labels'| - 1 && labels'[|labels'| - 1] == ReadIndexAgain(id)
    ensures forall k :: |labels| <= k < |labels'| - 1 ==>
              (labels'[k].CopyByte? || labels'[k].ReadSecond?) && labels'[k].id == id
  {
    assert ReaderInv(trace[|labels|], trace[|labels|].readers[id]);
    var more, s' := CopyAlone(trace[|labels|], id, trace[|labels|].Size());
    trace' := Follow(trace, labels, more, s');
    labels' := labels + more;
    trace', labels' := Extend(trace', labels', ReadSecond(id));
    trace', labels' := Extend(trace', labels', ReadIndexAgain(id));
  }

  /** From any reachable state a reader that is about to start an attempt finishes the call with
      its own steps alone, and gets the published payload. */
  lemma ReaderAloneFinishes(trace: seq<State>, labels: seq<Label>, id: ReaderId)
    returns (trace': seq<State>, labels': seq<Label>)
    requires IsRun(trace, labels) && id in trace[|labels|].readers && trace[|labels|].readers[id].pc.Ready?
    ensures IsRun(trace', labels') && labels <= labels' && trace <= trace'
    ensures forall k :: |labels| <= k < |labels'| ==> !WriterLabel(labels'[k]) && labels'[k].id == id
    ensures trace[|labels|].TwoSlots() && |labels'| > 0 && labels'[|labels'| - 1] == ReadIndexAgain(id)
    ensures id in trace'[|labels'|].readers
    ensures trace'[|labels'|].readers[id].pc == Returned(trace[|labels|].Published())
  {
    trace', labels' := StartCopying(trace, labels, id);
    var labels1 := labels';
    trace', labels' := FinishCopying(trace', labels', id);
    LoneAttempt(labels, labels1, labels', id);
    QuietAttemptSucceeds(trace', labels', id, |labels|, |labels'| - 1);
  }

  lemma LoneAttempt(labels: seq<Label>, labels1: seq<Label>, labels2: seq<Label>, id: ReaderId)
    requires labels1 == labels + [ReadIndex(id), ReadFirst(id)] && labels1 <= labels2
    requires |labels1| < |labels2| - 1 && labels2[|labels2| - 1] == ReadIndexAgain(id)
    requires forall k :: |labels1| <= k < |labels2| - 1 ==>
               (labels2[k].CopyByte? || labels2[k].ReadSecond?) && labels2[k].id == id
    ensures labels <= labels2
    ensures forall k :: |labels| <= k < |labels2| ==> !WriterLabel(labels2[k]) && labels2[k].id == id
    ensures IsAttempt(labels2, id, |labels|, |labels2| - 1) && Flips(labels2, |labels|, |labels2| - 1) == 0
  {
    var i, j := |labels|, |labels2| - 1;
    assert labels2[i] == labels1[i] && labels2[i + 1] == labels1[i + 1];
    forall k | i <= k < |labels2| ensures !WriterLabel(labels2[k]) && labels2[k].id == id {
      assert k == i || k == i + 1 || k == j || |labels1| <= k < j;
    }
    NoFlips(labels2, i, j);
  }

  lemma {:induction false} NoFlips(labels: seq<Label>, lo: nat, hi: nat)
    requires lo <= hi <= |labels| && forall k :: lo <= k < hi ==> labels[k] != Flip
    ensures Flips(labels, lo, hi) == 0
    decreases hi
  {
    if lo < hi { NoFlips(labels, lo, hi - 1); }
  }
}
