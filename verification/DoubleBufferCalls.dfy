/** How long a call of the double buffer's `read_consistent` goes on, and when it gives up. What an attempt
    saw, and whether it failed, is told from the steps and the memory alone. */
module DoubleBufferCalls {
  import opened Bytes
  import opened DoubleBufferProtocol

  /** The active index that reader `id` saw at its latest first look at the index, before step `n`. */
  function SeenIndex(trace: seq<State>, labels: seq<Label>, id: ReaderId, n: nat): (x: nat)
    requires n <= |labels| < |trace|
    ensures x < 2
  {
    if n == 0 then 0
    else if labels[n - 1] == ReadIndex(id) then trace[n - 1].memory.Active()
    else SeenIndex(trace, labels, id, n - 1)
  }

  /** The word that it saw in the slot of that index at its latest `look`, before step `n`. */
  function SeenWord(trace: seq<State>, labels: seq<Label>, id: ReaderId, look: Label, n: nat): nat
    requires n <= |labels| < |trace|
  {
    if n == 0 then 0
    else if labels[n - 1] == look && trace[n - 1].TwoSlots() then
      trace[n - 1].memory.slots[SeenIndex(trace, labels, id, n - 1)].sequence
    else SeenWord(trace, labels, id, look, n - 1)
  }

  /** Step `n` ends an attempt of reader `id` in failure: the first look meets an odd word, or the last
      look finds that the index has changed, or that the words of the two looks differ or are odd. */
  predicate FailsAt(trace: seq<State>, labels: seq<Label>, id: ReaderId, n: nat)
    requires n < |labels| < |trace|
  {
    var s, x := trace[n], SeenIndex(trace, labels, id, n);
    var first, second := SeenWord(trace, labels, id, ReadFirst(id), n), SeenWord(trace, labels, id, ReadSecond(id), n);
    || (labels[n] == ReadFirst(id) && s.TwoSlots() && s.memory.slots[x].sequence % 2 == 1)
    || (labels[n] == ReadIndexAgain(id) && !(s.memory.Active() == x && first == second && second % 2 == 0))
  }

  /** Which steps end an attempt of reader `id` in failure. */
  function Fails(trace: seq<State>, labels: seq<Label>, id: ReaderId): (fails: seq<bool>)
    requires |labels| < |trace|
    ensures |fails| == |labels| && forall k :: 0 <= k < |fails| ==> fails[k] == FailsAt(trace, labels, id, k)
  {
    seq(|labels|, k requires 0 <= k < |labels| => FailsAt(trace, labels, id, k))
  }

  /** How many of the steps `lo`, ..., `hi - 1` begin an attempt. */
  function Begun(labels: seq<Label>, id: ReaderId, lo: nat, hi: nat): nat
    requires lo <= hi <= |labels|
  {
    if lo == hi then 0 else Begun(labels, id, lo, hi - 1) + if labels[hi - 1] == ReadIndex(id) then 1 else 0
  }

  // ----- What a reader remembers is what it saw -----

  ghost predicate Remembers(pc: Pc, x: nat, first: nat, second: nat) {
    && (InAttempt(pc) ==> pc.slot == x)
    && (Looked(pc) ==> pc.first == first)
    && (pc.Checking? ==> pc.second == second)
  }

  lemma StepRemembers(s: State, l: Label, id: ReaderId, x: nat, first: nat, second: nat)
    requires Enabled(s, l) && id in Step(s, l).readers && x < 2
    requires id in s.readers ==> Remembers(s.readers[id].pc, x, first, second)
    ensures Remembers(Step(s, l).readers[id].pc,
                      if l == ReadIndex(id) then s.memory.Active() else x,
                      if l == ReadFirst(id) then s.memory.slots[x].sequence else first,
                      if l == ReadSecond(id) then s.memory.slots[x].sequence else second)
  {
  }

  lemma {:induction false} ReaderRemembers(trace: seq<State>, labels: seq<Label>, id: ReaderId, n: nat)
    requires IsRun(trace, labels) && n <= |labels| && id in trace[n].readers
    ensures Remembers(trace[n].readers[id].pc, SeenIndex(trace, labels, id, n),
                      SeenWord(trace, labels, id, ReadFirst(id), n), SeenWord(trace, labels, id, ReadSecond(id), n))
    decreases n
  {
    if n > 0 {
      if id in trace[n - 1].readers { ReaderRemembers(trace, labels, id, n - 1); }
      StepRemembers(trace[n - 1], labels[n - 1], id, SeenIndex(trace, labels, id, n - 1),
                    SeenWord(trace, labels, id, ReadFirst(id), n - 1),
                    SeenWord(trace, labels, id, ReadSecond(id), n - 1));
    }
  }

  // ----- The length of a call -----

  /** Where a call for `limit` attempts stands after `begun` first looks at the index and `failed` failures. */
  ghost predicate Stands(r: Reader, limit: int, begun: nat, failed: nat) {
    match r.pc
    case Ready => limit > 0 && r.maxRetries == limit && begun == failed == r.tries < limit
    case Returned(_) => begun == failed + 1 <= limit
    case Raised => 0 < begun == failed == limit
    case Rejected => limit <= 0 && begun == failed == 0
    case _ => limit > 0 && r.maxRetries == limit && begun == failed + 1 && failed == r.tries < limit
  }

  lemma StepStands(s: State, l: Label, id: ReaderId, limit: int, begun: nat, failed: nat,
                   x: nat, first: nat, second: nat)
    requires Enabled(s, l) && id in s.readers && !(l.Call? && l.id == id) && x < 2
    requires Remembers(s.readers[id].pc, x, first, second) && Stands(s.readers[id], limit, begun, failed)
    ensures id in Step(s, l).readers
    ensures var fails := || (l == ReadFirst(id) && s.memory.slots[x].sequence % 2 == 1)
                         || (l == ReadIndexAgain(id)
                             && !(s.memory.Active() == x && first == second && second % 2 == 0));
            Stands(Step(s, l).readers[id], limit, begun + (if l == ReadIndex(id) then 1 else 0),
                   failed + if fails then 1 else 0)
  {
  }

  /** Reader `id` was called at step `c`, for `limit` attempts, and not again before state `n`. */
  predicate CalledAt(labels: seq<Label>, id: ReaderId, limit: int, c: nat, n: nat) {
    && c < n <= |labels| && labels[c] == Call(id, limit)
    && forall k :: c < k < n ==> !(labels[k].Call? && labels[k].id == id)
  }

  lemma CallStarts(s: State, id: ReaderId, limit: int)
    requires Enabled(s, Call(id, limit))
    ensures id in Step(s, Call(id, limit)).readers && Stands(Step(s, Call(id, limit)).readers[id], limit, 0, 0)
  {
  }

  lemma NextStands(trace: seq<State>, labels: seq<Label>, id: ReaderId, limit: int, begun: nat, failed: nat, n: nat)
    requires IsRun(trace, labels) && n < |labels| && !(labels[n].Call? && labels[n].id == id)
    requires id in trace[n].readers && Stands(trace[n].readers[id], limit, begun, failed)
    ensures id in trace[n + 1].readers
    ensures Stands(trace[n + 1].readers[id], limit, begun + (if labels[n] == ReadIndex(id) then 1 else 0),
                   failed + if FailsAt(trace, labels, id, n) then 1 else 0)
  {
    ReaderRemembers(trace, labels, id, n);
    StepStands(trace[n], labels[n], id, limit, begun, failed, SeenIndex(trace, labels, id, n),
               SeenWord(trace, labels, id, ReadFirst(id), n), SeenWord(trace, labels, id, ReadSecond(id), n));
  }

  ghost predicate FlagAt(trace: seq<State>, labels: seq<Label>, id: ReaderId, fails: seq<bool>, k: nat)
    requires k < |fails| == |labels| < |trace|
  {
    fails[k] == FailsAt(trace, labels, id, k)
  }

  lemma OneStepFurther(trace: seq<State>, labels: seq<Label>, id: ReaderId, fails: seq<bool>, limit: int,
                       c: nat, n: nat)
    requires IsRun(trace, labels) && c < n < |labels| == |fails| && !(labels[n].Call? && labels[n].id == id)
    requires FlagAt(trace, labels, id, fails, n)
    requires id in trace[n].readers
    requires Stands(trace[n].readers[id], limit, Begun(labels, id, c, n), HowMany(fails, c, n))
    ensures id in trace[n + 1].readers
    ensures Stands(trace[n + 1].readers[id], limit, Begun(labels, id, c, n + 1), HowMany(fails, c, n + 1))
  {
    NextStands(trace, labels, id, limit, Begun(labels, id, c, n), HowMany(fails, c, n), n);
  }

  lemma FirstStep(trace: seq<State>, labels: seq<Label>, id: ReaderId, fails: seq<bool>, limit: int, c: nat)
    requires IsRun(trace, labels) && c < |labels| == |fails| && labels[c] == Call(id, limit)
    requires FlagAt(trace, labels, id, fails, c)
    ensures id in trace[c + 1].readers
    ensures Stands(trace[c + 1].readers[id], limit, Begun(labels, id, c, c + 1), HowMany(fails, c, c + 1))
  {
    CallStarts(trace[c], id, limit);
    assert Begun(labels, id, c, c) == 0 && HowMany(fails, c, c) == 0;
  }

  lemma {:induction false} CallStands(trace: seq<State>, labels: seq<Label>, id: ReaderId, fails: seq<bool>, limit: int,
                                      c: nat, n: nat)
    requires IsRun(trace, labels) && CalledAt(labels, id, limit, c, n) && |fails| == |labels|
    requires forall k: nat :: k < |labels| ==> FlagAt(trace, labels, id, fails, k)
    ensures id in trace[n].readers
    ensures Stands(trace[n].readers[id], limit, Begun(labels, id, c, n), HowMany(fails, c, n))
    decreases n
  {
    if c < n - 1 {
      CallStands(trace, labels, id, fails, limit, c, n - 1);
      OneStepFurther(trace, labels, id, fails, limit, c, n - 1);
    } else {
      FirstStep(trace, labels, id, fails, limit, c);
    }
  }

  /** Main result. A call for `max_retries` attempts begins at most that many. It has raised if and only if that
      many have failed, it has returned if and only if it has begun one more than have failed and is
      in none, and it is refused if and only if `max_retries` is not positive. */
  lemma CallIsBounded(trace: seq<State>, labels: seq<Label>, id: ReaderId, limit: int, c: nat, n: nat)
    requires IsRun(trace, labels) && CalledAt(labels, id, limit, c, n)
    ensures id in trace[n].readers
    ensures var pc, begun := trace[n].readers[id].pc, Begun(labels, id, c, n);
            var failed := HowMany(Fails(trace, labels, id), c, n);
            && (limit <= 0 <==> pc.Rejected?)
            && (limit > 0 ==> failed <= begun <= limit && (pc.Raised? <==> failed == limit))
            && (pc.Returned? <==> begun == failed + 1 && !InAttempt(pc))
  {
    CallStands(trace, labels, id, Fails(trace, labels, id), limit, c, n);
  }
}
