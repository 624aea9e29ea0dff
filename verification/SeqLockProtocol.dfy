/** `SeqLockBuffer` as a concurrent protocol: one writer, which may be abandoned at any point
    and started again, and any number of readers, interleaved step by step over one sequence
    word and one payload. Bytes are copied one at a time, in any order. Memory is assumed to be
    sequentially consistent and the access to the sequence word to be atomic. */
module SeqLockProtocol {
  import opened Bytes

  type Payload = seq<byte>
  type ReaderId = nat

  datatype Memory = Memory(sequence: nat, payload: Payload)

  /** Where the writer stands in `write`. */
  datatype Writer =
    | Idle
    | Loaded(odd: nat, even: nat, next: Payload)
    | Storing(even: nat, next: Payload, done: set<nat>)

  /** Where a reader stands in `read_consistent`. `mark` and `snapshot` are history variables
      that no step consults: the number of write attempts and the payload in memory when the
      sequence word was first read. */
  datatype Reader =
    | Ready(tries: nat, maxRetries: nat)
    | Copying(tries: nat, maxRetries: nat, first: nat, buffer: Payload, got: set<nat>,
              mark: nat, snapshot: Payload)
    | Returned(payload: Payload)
    | Raised
    | Rejected

  /** `attempts` and `log` are history variables: the number of odd stores so far, and the
      payload of every completed write, oldest first, starting with the cleared one. */
  datatype State = State(memory: Memory, writer: Writer, readers: map<ReaderId, Reader>,
                         attempts: nat, log: seq<Payload>)
  {
    function Size(): nat { |memory.payload| }

    /** `p` is the payload of the last completed write. */
    predicate LastCompleted(p: Payload) { |log| > 0 && p == log[|log| - 1] }
  }

  datatype Label =
    | Begin(next: Payload)
    | StoreOdd
    | StoreByte(k: nat)
    | StoreEven
    | Abandon
    | Call(id: ReaderId, maxRetries: int)
    | ReadFirst(id: ReaderId)
    | CopyByte(id: ReaderId, k: nat)
    | ReadSecond(id: ReaderId)

  predicate Finished(r: Reader) {
    r.Returned? || r.Raised? || r.Rejected?
  }

  predicate Enabled(s: State, l: Label) {
    match l
    case Begin(next) => s.writer.Idle? && |next| == s.Size()
    case StoreOdd => s.writer.Loaded?
    case StoreByte(k) => s.writer.Storing? && k < s.Size() && k < |s.writer.next|
    case StoreEven => s.writer.Storing? && forall k: nat :: k < s.Size() ==> k in s.writer.done
    case Abandon => !s.writer.Idle?
    case Call(id, _) => id in s.readers ==> Finished(s.readers[id])
    case ReadFirst(id) => id in s.readers && s.readers[id].Ready?
    case CopyByte(id, k) =>
      id in s.readers && s.readers[id].Copying? && k < s.Size() && k < |s.readers[id].buffer|
    case ReadSecond(id) =>
      id in s.readers && s.readers[id].Copying? && forall k: nat :: k < s.Size() ==> k in s.readers[id].got
  }

  /** One failed attempt: `continue`, or the end of the loop. */
  function Retry(tries: nat, maxRetries: nat): Reader {
    if tries + 1 < maxRetries then Ready(tries + 1, maxRetries) else Raised
  }

  function ReaderStep(s: State, l: Label): Reader
    requires Enabled(s, l)
    requires l.Call? || l.ReadFirst? || l.CopyByte? || l.ReadSecond?
  {
    match l
    case Call(_, maxRetries) => if maxRetries <= 0 then Rejected else Ready(0, maxRetries)
    case ReadFirst(id) =>
      var r := s.readers[id];
      if s.memory.sequence % 2 != 0 then Retry(r.tries, r.maxRetries)
      else Copying(r.tries, r.maxRetries, s.memory.sequence, seq(s.Size(), _ => 0), {},
                   s.attempts, s.memory.payload)
    case CopyByte(id, k) =>
      var r := s.readers[id];
      r.(buffer := r.buffer[k := s.memory.payload[k]], got := r.got + {k})
    case ReadSecond(id) =>
      var r := s.readers[id];
      if r.first == s.memory.sequence && s.memory.sequence % 2 == 0 then Returned(r.buffer)
      else Retry(r.tries, r.maxRetries)
  }

  function Step(s: State, l: Label): State
    requires Enabled(s, l)
  {
    match l
    case Begin(next) =>
      var odd := NextOddSequence(s.memory.sequence);
      s.(writer := Loaded(odd, NextEvenSequence(odd), next))
    case StoreOdd =>
      s.(memory := s.memory.(sequence := s.writer.odd),
         writer := Storing(s.writer.even, s.writer.next, {}),
         attempts := s.attempts + 1)
    case StoreByte(k) =>
      s.(memory := s.memory.(payload := s.memory.payload[k := s.writer.next[k]]),
         writer := s.writer.(done := s.writer.done + {k}))
    case StoreEven =>
      s.(memory := s.memory.(sequence := s.writer.even), writer := Idle, log := s.log + [s.writer.next])
    case Abandon => s.(writer := Idle)
    case _ => s.(readers := s.readers[l.id := ReaderStep(s, l)])
  }

  /** The state after `clear` on a buffer for payloads of `size` bytes. */
  predicate Init(s: State) {
    && s.Size() > 0
    && s.memory.sequence == 0
    && (forall k :: 0 <= k < s.Size() ==> s.memory.payload[k] == 0)
    && s.writer == Idle && s.readers == map[]
    && s.attempts == 0 && s.log == [s.memory.payload]
  }

  /** A finite interleaving: `trace[k]` is the state before the step `labels[k]`. */
  ghost predicate IsRun(trace: seq<State>, labels: seq<Label>) {
    && |trace| == |labels| + 1
    && Init(trace[0])
    && forall k :: 0 <= k < |labels| ==>
        Enabled(trace[k], labels[k]) && trace[k + 1] == Step(trace[k], labels[k])
  }

  // ----- What every step keeps -----

  ghost predicate WriterInv(s: State) {
    && |s.log| > 0
    && |s.log[|s.log| - 1]| == s.Size()
    && match s.writer
       case Storing(even, next, done) =>
         && s.attempts > 0
         && s.memory.sequence == Word64(2 * s.attempts - 1)
         && even == Word64(2 * s.attempts)
         && |next| == s.Size()
         && (forall k :: k in done && k < s.Size() ==> s.memory.payload[k] == next[k])
       case Loaded(odd, even, next) =>
         && Resting(s)
         && odd == Word64(2 * (s.attempts + 1) - 1)
         && even == Word64(2 * (s.attempts + 1))
         && |next| == s.Size()
       case Idle => Resting(s)
  }

  /** No store is under way: either the last attempt completed, or it was abandoned while odd. */
  ghost predicate Resting(s: State) {
    || (s.memory.sequence == Word64(2 * s.attempts) && s.LastCompleted(s.memory.payload))
    || (s.attempts > 0 && s.memory.sequence == Word64(2 * s.attempts - 1))
  }

  ghost predicate ReaderInv(s: State, r: Reader) {
    r.Copying? ==>
      && r.mark <= s.attempts
      && r.first == Word64(2 * r.mark)
      && |r.buffer| == |r.snapshot| == s.Size()
      && (r.mark == s.attempts ==>
            && !s.writer.Storing?
            && s.memory == Memory(r.first, r.snapshot)
            && forall k :: k in r.got && k < s.Size() ==> r.buffer[k] == r.snapshot[k])
  }

  ghost predicate Inv(s: State) {
    WriterInv(s) && forall id :: id in s.readers ==> ReaderInv(s, s.readers[id])
  }

  lemma StepKeepsWriter(s: State, l: Label)
    requires WriterInv(s) && Enabled(s, l)
    ensures WriterInv(Step(s, l))
  {
    match l {
      case Begin(_) => NextSequences(s.memory.sequence, s.attempts);
      case StoreEven =>
        assert s.memory.payload == s.writer.next;
      case _ =>
    }
  }

  lemma EvenMeansComplete(s: State)
    requires WriterInv(s) && s.memory.sequence % 2 == 0
    ensures !s.writer.Storing? && s.memory.sequence == Word64(2 * s.attempts)
    ensures s.LastCompleted(s.memory.payload)
  {
    if s.attempts > 0 { WordParity(2 * s.attempts - 1); }
  }

  lemma StepKeepsReader(s: State, l: Label, id: ReaderId)
    requires Inv(s) && Enabled(s, l) && id in Step(s, l).readers
    ensures ReaderInv(Step(s, l), Step(s, l).readers[id])
  {
    if l == ReadFirst(id) && s.memory.sequence % 2 == 0 {
      EvenMeansComplete(s);
    }
    if id in s.readers { assert ReaderInv(s, s.readers[id]); }
  }

  lemma StepKeepsInv(s: State, l: Label)
    requires Inv(s) && Enabled(s, l)
    ensures Inv(Step(s, l))
  {
    StepKeepsWriter(s, l);
    forall id | id in Step(s, l).readers ensures ReaderInv(Step(s, l), Step(s, l).readers[id]) {
      StepKeepsReader(s, l, id);
    }
  }

  lemma {:induction false} RunKeepsInv(trace: seq<State>, labels: seq<Label>, k: nat)
    requires IsRun(trace, labels) && k < |trace|
    ensures Inv(trace[k])
    decreases k
  {
    if k > 0 {
      RunKeepsInv(trace, labels, k - 1);
      StepKeepsInv(trace[k - 1], labels[k - 1]);
    }
  }

  // ----- The sequence word over whole runs -----

  /** After n write attempts the word is 2n when the last one completed (and then the payload
      is the one it wrote) and 2n - 1 when it is under way or was abandoned, modulo 2^64. */
  lemma SequenceCountsAttempts(trace: seq<State>, labels: seq<Label>, k: nat)
    requires IsRun(trace, labels) && k < |trace|
    ensures var s := trace[k];
            if s.memory.sequence % 2 == 0
            then s.memory.sequence == Word64(2 * s.attempts) && s.LastCompleted(s.memory.payload)
            else s.attempts > 0 && s.memory.sequence == Word64(2 * s.attempts - 1)
  {
    RunKeepsInv(trace, labels, k);
    var s := trace[k];
    WordParity(2 * s.attempts);
    if s.memory.sequence % 2 == 0 {
      EvenMeansComplete(s);
    }
  }

  lemma {:induction false} AttemptsGrow(trace: seq<State>, labels: seq<Label>, i: nat, j: nat)
    requires IsRun(trace, labels) && i <= j < |trace|
    ensures trace[i].attempts <= trace[j].attempts
    decreases j
  {
    if i < j { AttemptsGrow(trace, labels, i, j - 1); }
  }

  /** Two equal even readings of the word lie a multiple of 2^63 write attempts apart. */
  lemma EqualEvenReadings(trace: seq<State>, labels: seq<Label>, i: nat, j: nat)
    requires IsRun(trace, labels) && i <= j < |trace|
    requires trace[i].memory.sequence == trace[j].memory.sequence
    requires trace[i].memory.sequence % 2 == 0
    ensures trace[i].attempts <= trace[j].attempts
    ensures (trace[j].attempts - trace[i].attempts) % TWO_63 == 0
  {
    AttemptsGrow(trace, labels, i, j);
    SequenceCountsAttempts(trace, labels, i);
    SequenceCountsAttempts(trace, labels, j);
    EqualEvenWords(trace[i].attempts, trace[j].attempts);
  }

  // ----- Consistent reads over whole runs -----

  /** Steps i to j are one attempt of reader `id`: its first look at the sequence word, then
      only byte copies, then its second look. Other parties may do anything in between. */
  ghost predicate IsAttempt(labels: seq<Label>, id: ReaderId, i: nat, j: nat) {
    && i < j < |labels|
    && labels[i] == ReadFirst(id) && labels[j] == ReadSecond(id)
    && OnlyCopies(labels, id, i + 1, j)
  }

  ghost predicate OnlyCopies(labels: seq<Label>, id: ReaderId, lo: nat, hi: nat) {
    forall k :: lo <= k < hi && k < |labels| ==>
      labels[k] != ReadFirst(id) && labels[k] != ReadSecond(id) && !(labels[k].Call? && labels[k].id == id)
  }

  /** A reader that is copying began its attempt at some earlier step, and its history
      variables hold what was in memory then. */
  lemma {:induction false} AttemptBegan(trace: seq<State>, labels: seq<Label>, id: ReaderId, j: nat) returns (i: nat)
    requires IsRun(trace, labels) && j < |trace|
    requires id in trace[j].readers && trace[j].readers[id].Copying?
    ensures i < j && labels[i] == ReadFirst(id) && OnlyCopies(labels, id, i + 1, j)
    ensures trace[i].memory.sequence % 2 == 0
    ensures var r := trace[j].readers[id];
            && r.first == trace[i].memory.sequence && r.mark == trace[i].attempts
            && r.snapshot == trace[i].memory.payload
    decreases j
  {
    var l := labels[j - 1];
    assert trace[j] == Step(trace[j - 1], l);
    if l == ReadFirst(id) {
      i := j - 1;
    } else {
      i := AttemptBegan(trace, labels, id, j - 1);
    }
  }

  /** Main result. Whatever `read_consistent` returns comes from one attempt. Unless a positive
      multiple of 2^63 write attempts happened during that attempt, it is exactly the payload of
      the last write completed when the word was first read, and nobody stored anything meanwhile. */
  lemma ReadReturnsLastCompletedWrite(trace: seq<State>, labels: seq<Label>, id: ReaderId, j: nat) returns (i: nat)
    requires IsRun(trace, labels) && j < |labels|
    requires labels[j] == ReadSecond(id) && trace[j + 1].readers[id].Returned?
    ensures IsAttempt(labels, id, i, j)
    ensures trace[i].attempts <= trace[j].attempts
    ensures (trace[j].attempts - trace[i].attempts) % TWO_63 == 0
    ensures trace[j].attempts - trace[i].attempts < TWO_63 ==>
              && trace[j].attempts == trace[i].attempts
              && trace[i].LastCompleted(trace[j + 1].readers[id].payload)
              && trace[j + 1].readers[id].payload == trace[i].memory.payload == trace[j].memory.payload
  {
    RunKeepsInv(trace, labels, j);
    var s, r := trace[j], trace[j].readers[id];
    i := AttemptBegan(trace, labels, id, j);
    assert r.first == s.memory.sequence && s.memory.sequence % 2 == 0;
    EqualEvenReadings(trace, labels, i, j);
    SequenceCountsAttempts(trace, labels, i);
    if s.attempts - trace[i].attempts < TWO_63 {
      assert ReaderInv(s, r);
      assert r.buffer == r.snapshot;
    }
  }

  // ----- What a failure has met -----

  /** A second look finds what the first one found, unless a write attempt began in between. */
  lemma SecondLookFails(s: State, id: ReaderId)
    requires Inv(s) && Enabled(s, ReadSecond(id)) && !Step(s, ReadSecond(id)).readers[id].Returned?
    ensures s.readers[id].mark < s.attempts
  {
    assert ReaderInv(s, s.readers[id]);
    WordParity(2 * s.readers[id].mark);
  }

  /** Every failed attempt met an odd word at its first look, or the odd store of some write
      between its two looks. */
  lemma FailedAttemptMetWriter(trace: seq<State>, labels: seq<Label>, id: ReaderId, j: nat) returns (i: nat, k: nat)
    requires IsRun(trace, labels) && j < |labels|
    requires labels[j] == ReadFirst(id) || labels[j] == ReadSecond(id)
    requires trace[j + 1].readers[id].Ready? || trace[j + 1].readers[id].Raised?
    ensures labels[j] == ReadFirst(id) ==> trace[j].memory.sequence % 2 != 0
    ensures labels[j] == ReadSecond(id) ==> IsAttempt(labels, id, i, j) && i < k < j && labels[k] == StoreOdd
  {
    i, k := j, j;
    if labels[j] == ReadSecond(id) {
      RunKeepsInv(trace, labels, j);
      SecondLookFails(trace[j], id);
      i := AttemptBegan(trace, labels, id, j);
      k := StoreBetween(trace, labels, i, j);
    }
  }

  lemma {:induction false} StoreBetween(trace: seq<State>, labels: seq<Label>, i: nat, j: nat) returns (k: nat)
    requires IsRun(trace, labels) && i <= j < |trace| && trace[i].attempts < trace[j].attempts
    ensures i <= k < j && labels[k] == StoreOdd
    decreases j
  {
    k := j - 1;
    if labels[k] != StoreOdd { k := StoreBetween(trace, labels, i, j - 1); }
  }

  /** How many of the steps `lo`, ..., `hi - 1` are first looks of reader `id` at an odd word. */
  function OddLooks(trace: seq<State>, labels: seq<Label>, id: ReaderId, lo: nat, hi: nat): nat
    requires lo <= hi <= |labels| <= |trace|
  {
    if lo == hi then 0
    else OddLooks(trace, labels, id, lo, hi - 1)
         + if labels[hi - 1] == ReadFirst(id) && trace[hi - 1].memory.sequence % 2 != 0 then 1 else 0
  }

  /** The failed attempts of a call for `limit` attempts are covered by `odd` looks at an odd word and
      by the write attempts begun since there were `begun` of them. */
  predicate Covered(r: Reader, limit: int, odd: nat, begun: nat, attempts: nat) {
    match r
    case Ready(tries, maxRetries) =>
      tries < maxRetries == limit && begun <= attempts && tries <= odd + (attempts - begun)
    case Copying(tries, maxRetries, _, _, _, mark, _) =>
      tries < maxRetries == limit && begun <= mark <= attempts && tries <= odd + (mark - begun)
    case Raised => begun <= attempts && 0 < limit <= odd + (attempts - begun)
    case _ => true
  }

  lemma StepKeepsCovered(s: State, l: Label, id: ReaderId, limit: int, odd: nat, begun: nat)
    requires Inv(s) && Enabled(s, l) && id in s.readers && !(l.Call? && l.id == id)
    requires Covered(s.readers[id], limit, odd, begun, s.attempts)
    ensures id in Step(s, l).readers
    ensures Covered(Step(s, l).readers[id], limit,
                    odd + (if l == ReadFirst(id) && s.memory.sequence % 2 != 0 then 1 else 0),
                    begun, Step(s, l).attempts)
  {
    if l == ReadSecond(id) && !Step(s, l).readers[id].Returned? { SecondLookFails(s, id); }
  }

  lemma StaysCalled(s: State, l: Label, id: ReaderId)
    requires Enabled(s, l) && id in Step(s, l).readers
    ensures if l.Call? && l.id == id
            then Covered(Step(s, l).readers[id], l.maxRetries, 0, s.attempts, Step(s, l).attempts)
            else id in s.readers
  {
  }

  lemma {:induction false} CallBegan(trace: seq<State>, labels: seq<Label>, id: ReaderId, j: nat) returns (c: nat)
    requires IsRun(trace, labels) && j < |trace| && id in trace[j].readers
    ensures c < j && labels[c].Call? && labels[c].id == id
    ensures forall k :: c < k < j ==> !(labels[k].Call? && labels[k].id == id)
    ensures Covered(trace[j].readers[id], labels[c].maxRetries, OddLooks(trace, labels, id, c, j),
                    trace[c].attempts, trace[j].attempts)
    decreases j
  {
    var s, l := trace[j - 1], labels[j - 1];
    assert trace[j] == Step(s, l);
    StaysCalled(s, l, id);
    if l.Call? && l.id == id {
      c := j - 1;
    } else {
      c := CallBegan(trace, labels, id, j - 1);
      RunKeepsInv(trace, labels, j - 1);
      StepKeepsCovered(s, l, id, labels[c].maxRetries, OddLooks(trace, labels, id, c, j - 1), trace[c].attempts);
    }
  }

  /** A call that gave up after `max_retries` attempts met, taken together, at least that many odd
      words at first looks and odd stores. */
  lemma RaisedMetWriter(trace: seq<State>, labels: seq<Label>, id: ReaderId, j: nat) returns (c: nat)
    requires IsRun(trace, labels) && j < |trace| && id in trace[j].readers && trace[j].readers[id].Raised?
    ensures c < j && labels[c].Call? && labels[c].id == id && labels[c].maxRetries > 0
    ensures forall k :: c < k < j ==> !(labels[k].Call? && labels[k].id == id)
    ensures trace[c].attempts <= trace[j].attempts
    ensures OddLooks(trace, labels, id, c, j) + (trace[j].attempts - trace[c].attempts) >= labels[c].maxRetries
  {
    c := CallBegan(trace, labels, id, j);
  }

  // ----- A stalled writer -----

  predicate WriterLabel(l: Label) {
    l.Begin? || l.StoreOdd? || l.StoreByte? || l.StoreEven? || l.Abandon?
  }

  lemma {:induction false} StalledMemory(trace: seq<State>, labels: seq<Label>, i: nat, j: nat)
    requires IsRun(trace, labels) && i <= j <= |labels|
    requires forall k :: i <= k < j ==> !WriterLabel(labels[k])
    ensures trace[j].memory == trace[i].memory && trace[j].attempts == trace[i].attempts
    decreases j
  {
    if i < j { StalledMemory(trace, labels, i, j - 1); }
  }

  /** While the writer stands still, an attempt succeeds if and only if the word is even: then
      it returns the payload in memory, and otherwise it fails at its first step. */
  lemma StalledWriter(trace: seq<State>, labels: seq<Label>, id: ReaderId, i: nat, j: nat)
    requires IsRun(trace, labels) && i < j < |labels| && labels[i] == ReadFirst(id)
    requires forall k :: i <= k <= j ==> !WriterLabel(labels[k])
    ensures trace[i].memory.sequence % 2 != 0 ==> !trace[i + 1].readers[id].Copying?
    ensures IsAttempt(labels, id, i, j) ==>
              trace[i].memory.sequence % 2 == 0 && trace[j + 1].readers[id] == Returned(trace[i].memory.payload)
  {
    if IsAttempt(labels, id, i, j) {
      var b := AttemptBegan(trace, labels, id, j);
      assert b == i;
      StalledMemory(trace, labels, i, j);
      RunKeepsInv(trace, labels, j);
      var s, r := trace[j], trace[j].readers[id];
      assert ReaderInv(s, r);
      assert r.buffer == r.snapshot;
    }
  }

  // ----- A write that nobody disturbs -----

  /** What a whole `write` does to the memory. */
  function AfterWrite(m: Memory, next: Payload): Memory {
    Memory(NextEvenSequence(NextOddSequence(m.sequence)), next)
  }

  /** The steps `labels`, taken one after the other from `s`, lead to `s'`. */
  predicate Reaches(s: State, labels: seq<Label>, s': State)
    decreases |labels|
  {
    if labels == [] then s == s'
    else Enabled(s, labels[0]) && Reaches(Step(s, labels[0]), labels[1..], s')
  }

  lemma {:induction false} ReachesOneMore(s: State, labels: seq<Label>, s': State, l: Label)
    requires Reaches(s, labels, s') && Enabled(s', l)
    ensures Reaches(s, labels + [l], Step(s', l))
    decreases |labels|
  {
    if labels == [] {
      assert Reaches(Step(s', l), [], Step(s', l));
    } else {
      ReachesOneMore(Step(s, labels[0]), labels[1..], s', l);
      assert (labels + [l])[1..] == labels[1..] + [l];
    }
  }

  lemma {:induction false} StoreBytesAlone(s: State, k: nat) returns (labels: seq<Label>, s': State)
    requires s.writer.Storing? && |s.writer.next| == s.Size() && k <= s.Size()
    ensures Reaches(s, labels, s') && forall l :: l in labels ==> l.StoreByte?
    ensures s'.writer.Storing? && s' == s.(memory := s'.memory, writer := s'.writer)
    ensures s'.writer == s.writer.(done := s'.writer.done)
    ensures s'.memory == s.memory.(payload := s.writer.next[..k] + s.memory.payload[k..])
    ensures forall i: nat :: i < k ==> i in s'.writer.done
    decreases k
  {
    if k == 0 {
      labels, s' := [], s;
    } else {
      labels, s' := StoreBytesAlone(s, k - 1);
      ReachesOneMore(s, labels, s', StoreByte(k - 1));
      labels, s' := labels + [StoreByte(k - 1)], Step(s', StoreByte(k - 1));
    }
  }

  /** The steps of an undisturbed writer turn any memory into `AfterWrite` of it. */
  lemma WriteAlone(s: State, next: Payload) returns (labels: seq<Label>, s': State)
    requires s.writer.Idle? && |next| == s.Size()
    ensures Reaches(s, labels, s') && forall l :: l in labels ==> WriterLabel(l) && l != Abandon
    ensures s' == s.(memory := AfterWrite(s.memory, next), attempts := s.attempts + 1, log := s.log + [next])
  {
    var s1 := Step(s, Begin(next));
    var s2 := Step(s1, StoreOdd);
    labels, s' := StoreBytesAlone(s2, s.Size());
    assert s'.memory.payload == next;
    ReachesOneMore(s2, labels, s', StoreEven);
    labels, s' := labels + [StoreEven], Step(s', StoreEven);
    assert ([Begin(next), StoreOdd] + labels)[1..] == [StoreOdd] + labels;
    assert ([StoreOdd] + labels)[1..] == labels;
    labels := [Begin(next), StoreOdd] + labels;
  }
}
