/** How long a call of the sequence lock's `read_consistent` goes on, and when it gives up. What an attempt
    saw, and whether it failed, is told from the steps and the memory alone. */
module SeqLockCalls {
  import opened Bytes
  import opened SeqLockProtocol

  /** The word that reader `id` saw at its latest first look, before step `n`. */
  function SeenFirst(trace: seq<State>, labels: seq<Label>, id: ReaderId, n: nat): nat
    requires n <= |labels| < |trace|
  {
    if n == 0 then 0
    else if labels[n - 1] == ReadFirst(id) then trace[n - 1].memory.sequence
    else SeenFirst(trace, labels, id, n - 1)
  }

  /** Step `n` ends an attempt of reader `id` in failure: the first look meets an odd word, or the second
      one another word than the first, or an odd one. */
  predicate FailsAt(trace: seq<State>, labels: seq<Label>, id: ReaderId, n: nat)
    requires n < |labels| < |trace|
  {
    var word := trace[n].memory.sequence;
    || (labels[n] == ReadFirst(id) && word % 2 == 1)
    || (labels[n] == ReadSecond(id) && !(SeenFirst(trace, labels, id, n) == word && word % 2 == 0))
  }

  /** Which steps end an attempt of reader `id` in failure. */
  function Fails(trace: seq<State>, labels: seq<Label>, id: ReaderId): (fails: seq<bool>)
    requires |labels| < |trace|
    ensures |fails| == |labels| && forall k :: 0 <= k < |fails| ==> fails[k] == FailsAt(trace, labels, id, k)
  {
    seq(|labels|, k requires 0 <= k < |labels| => FailsAt(trace, labels, id, k))
  }

  /** How many of the steps `lo`, ..., `hi - 1` begin an attempt. */
  function Begun(labels: seq<Label>, id: ReaderId, lo: nat, hi: nat): nat
    requires lo <= hi <= |labels|
  {
    if lo == hi then 0 else Begun(labels, id, lo, hi - 1) + if labels[hi - 1] == ReadFirst(id) then 1 else 0
  }

  lemma {:induction false} ReaderRemembers(trace: seq<State>, labels: seq<Label>, id: ReaderId, n: nat)
    requires IsRun(trace, labels) && n <= |labels| && id in trace[n].readers && trace[n].readers[id].Copying?
    ensures trace[n].readers[id].first == SeenFirst(trace, labels, id, n)
    decreases n
  {
    assert trace[n] == Step(trace[n - 1], labels[n - 1]);
    if labels[n - 1] != ReadFirst(id) { ReaderRemembers(trace, labels, id, n - 1); }
  }

  /** Where a call for `limit` attempts stands after `begun` first looks and `failed` failures. */
  ghost predicate Stands(r: Reader, limit: int, begun: nat, failed: nat) {
    match r
    case Ready(tries, maxRetries) => maxRetries == limit && begun == failed == tries < limit
    case Copying(tries, maxRetries, _, _, _, _, _) =>
      maxRetries == limit && begun == failed + 1 && failed == tries < limit
    case Returned(_) => begun == failed + 1 <= limit
    case Raised => 0 < begun == failed == limit
    case Rejected => limit <= 0 && begun == failed == 0
  }

  lemma StepStands(s: State, l: Label, id: ReaderId, limit: int, begun: nat, failed: nat)
    requires Enabled(s, l) && id in s.readers && !(l.Call? && l.id == id)
    requires Stands(s.readers[id], limit, begun, failed)
    ensures id in Step(s, l).readers
    ensures var word := s.memory.sequence;
            var fails := || (l == ReadFirst(id) && word % 2 == 1)
                         || (l == ReadSecond(id) && !(s.readers[id].first == word && word % 2 == 0));
            Stands(Step(s, l).readers[id], limit, begun + (if l == ReadFirst(id) then 1 else 0),
                   failed + if fails then 1 else 0)
  {
  }

  lemma CallStarts(s: State, id: ReaderId, limit: int)
    requires Enabled(s, Call(id, limit))
    ensures id in Step(s, Call(id, limit)).readers && Stands(Step(s, Call(id, limit)).readers[id], limit, 0, 0)
  {
  }

  /** Reader `id` was called at step `c`, for `limit` attempts, and not again before state `n`. */
  predicate CalledAt(labels: seq<Label>, id: ReaderId, limit: int, c: nat, n: nat) {
    && c < n <= |labels| && labels[c] == Call(id, limit)
    && forall k :: c < k < n ==> !(labels[k].Call? && labels[k].id == id)
  }

  ghost predicate FlagAt(trace: seq<State>, labels: seq<Label>, id: ReaderId, fails: seq<bool>, k: nat)
    requires k < |fails| == |labels| < |trace|
  {
    fails[k] == FailsAt(trace, labels, id, k)
  }

  lemma OneStepFurther(trace: seq<State>, labels: seq<Label>, id: ReaderId, fails: seq<bool>, limit: int,
                       c: nat, n: nat)
    requires IsRun(trace, labels) && c < n < |labels| == |fails| && !(labels[n].Call? && labels[n].id == id)
    requires FlagAt(trace, labels, id, fails, n)
    requires id in trace[n].readers
    requires Stands(trace[n].readers[id], limit, Begun(labels, id, c, n), HowMany(fails, c, n))
    ensures id in trace[n + 1].readers
    ensures Stands(trace[n + 1].readers[id], limit, Begun(labels, id, c, n + 1), HowMany(fails, c, n + 1))
  {
    if trace[n].readers[id].Copying? { ReaderRemembers(trace, labels, id, n); }
    StepStands(trace[n], labels[n], id, limit, Begun(labels, id, c, n), HowMany(fails, c, n));
  }

  lemma FirstStep(trace: seq<State>, labels: seq<Label>, id: ReaderId, fails: seq<bool>, limit: int, c: nat)
    requires IsRun(trace, labels) && c < |labels| == |fails| && labels[c] == Call(id, limit)
    requires FlagAt(trace, labels, id, fails, c)
    ensures id in trace[c + 1].readers
    ensures Stands(trace[c + 1].readers[id], limit, Begun(labels, id, c, c + 1), HowMany(fails, c, c + 1))
  {
    CallStarts(trace[c], id, limit);
    assert Begun(labels, id, c, c) == 0 && HowMany(fails, c, c) == 0;
  }

  lemma {:induction false} CallStands(trace: seq<State>, labels: seq<Label>, id: ReaderId, fails: seq<bool>, limit: int,
                                      c: nat, n: nat)
    requires IsRun(trace, labels) && CalledAt(labels, id, limit, c, n) && |fails| == |labels|
    requires forall k: nat :: k < |labels| ==> FlagAt(trace, labels, id, fails, k)
    ensures id in trace[n].readers
    ensures Stands(trace[n].readers[id], limit, Begun(labels, id, c, n), HowMany(fails, c, n))
    decreases n
  {
    if c < n - 1 {
      CallStands(trace, labels, id, fails, limit, c, n - 1);
      OneStepFurther(trace, labels, id, fails, limit, c, n - 1);
    } else {
      FirstStep(trace, labels, id, fails, limit, c);
    }
  }

  /** Main result. A call for `max_retries` attempts begins at most that many. It has raised if and only if that
      many have failed, it has returned if and only if it has begun one more than have failed and is
      not copying, and it is refused if and only if `max_retries` is not positive. */
  lemma CallIsBounded(trace: seq<State>, labels: seq<Label>, id: ReaderId, limit: int, c: nat, n: nat)
    requires IsRun(trace, labels) && CalledAt(labels, id, limit, c, n)
    ensures id in trace[n].readers
    ensures var r, begun := trace[n].readers[id], Begun(labels, id, c, n);
            var failed := HowMany(Fails(trace, labels, id), c, n);
            && (limit <= 0 <==> r.Rejected?)
            && (limit > 0 ==> failed <= begun <= limit && (r.Raised? <==> failed == limit))
            && (r.Returned? <==> begun == failed + 1 && !r.Copying?)
  {
    CallStands(trace, labels, id, Fails(trace, labels, id), limit, c, n);
  }
}
