/** `DoubleBuffer` as a concurrent protocol: one writer that fills the inactive slot and then
    flips the active index, and any number of readers, interleaved step by step. Bytes are
    copied one at a time, in any order. The writer may be abandoned at any point and started
    again. Memory is assumed to be sequentially consistent and the access to the active index
    and to the sequence words to be atomic. */
module DoubleBufferProtocol {
  import opened Bytes

  type Payload = seq<byte>
  type ReaderId = nat

  datatype Slot = Slot(sequence: nat, payload: Payload)

  datatype Memory = Memory(activeWord: nat, slots: seq<Slot>) {
    function Active(): (x: nat)
      ensures x < 2
    {
      activeWord % 2
    }
  }

  /** Where the writer stands in `write`; `slot` is the slot it took for inactive. */
  datatype Writer =
    | Idle
    | Chosen(slot: nat, next: Payload)
    | Loaded(slot: nat, next: Payload, odd: nat, even: nat)
    | Storing(slot: nat, next: Payload, even: nat, done: set<nat>)
    | Stored(slot: nat, next: Payload)

  /** Where a reader stands in one attempt of `read_consistent`. `begun`, `mark`, `snapshot` and
      `secondMark` are history variables that no step consults: how many payloads had been
      published when the index was first read, how many attempts there had been on the slot and
      what it held when its word was first read, and the attempts at the second look. */
  datatype Pc =
    | Ready
    | Indexed(slot: nat, begun: nat)
    | Copying(slot: nat, begun: nat, first: nat, buffer: Payload, got: set<nat>, mark: nat, snapshot: Payload)
    | Checking(slot: nat, begun: nat, first: nat, second: nat, buffer: Payload,
               mark: nat, snapshot: Payload, secondMark: nat)
    | Returned(payload: Payload)
    | Raised
    | Rejected

  /** `called` is a history variable: how many payloads had been published when the call began. */
  datatype Reader = Reader(tries: nat, maxRetries: nat, called: nat, pc: Pc)

  /** History variables: `attempts` counts the odd stores on each slot; `completed` holds the
      cleared payload and every payload that was stored whole; `published` lists the payloads
      that became the active one, oldest first. */
  datatype State = State(memory: Memory, writer: Writer, readers: map<ReaderId, Reader>,
                         attempts: seq<nat>, completed: set<Payload>, published: seq<Payload>)
  {
    predicate TwoSlots() { |memory.slots| == 2 && |attempts| == 2 }

    function Size(): nat
      requires TwoSlots()
    {
      |memory.slots[0].payload|
    }

    /** The published payload: what the active slot holds. */
    function Published(): Payload
      requires TwoSlots()
    {
      memory.slots[memory.Active()].payload
    }
  }

  datatype Label =
    | Begin(next: Payload)
    | LoadSequence
    | StoreOdd
    | StoreByte(k: nat)
    | StoreEven
    | Flip
    | Abandon
    | Call(id: ReaderId, maxRetries: int)
    | ReadIndex(id: ReaderId)
    | ReadFirst(id: ReaderId)
    | CopyByte(id: ReaderId, k: nat)
    | ReadSecond(id: ReaderId)
    | ReadIndexAgain(id: ReaderId)

  predicate WriterLabel(l: Label) {
    l.Begin? || l.LoadSequence? || l.StoreOdd? || l.StoreByte? || l.StoreEven? || l.Flip? || l.Abandon?
  }

  predicate Finished(r: Reader) {
    r.pc.Returned? || r.pc.Raised? || r.pc.Rejected?
  }

  predicate Enabled(s: State, l: Label) {
    && s.TwoSlots()
    && match l
       case Begin(next) => s.writer.Idle? && |next| == s.Size()
       case LoadSequence => s.writer.Chosen? && s.writer.slot < 2
       case StoreOdd => s.writer.Loaded? && s.writer.slot < 2
       case StoreByte(k) =>
         && s.writer.Storing? && s.writer.slot < 2
         && k < s.Size() && k < |s.writer.next| && k < |s.memory.slots[s.writer.slot].payload|
       case StoreEven =>
         s.writer.Storing? && s.writer.slot < 2 && forall k: nat :: k < s.Size() ==> k in s.writer.done
       case Flip => s.writer.Stored? && s.writer.slot < 2
       case Abandon => !s.writer.Idle?
       case Call(id, _) => id in s.readers ==> Finished(s.readers[id])
       case ReadIndex(id) => id in s.readers && s.readers[id].pc.Ready?
       case ReadFirst(id) => id in s.readers && s.readers[id].pc.Indexed? && s.readers[id].pc.slot < 2
       case CopyByte(id, k) =>
         && id in s.readers && s.readers[id].pc.Copying? && s.readers[id].pc.slot < 2
         && k < s.Size() && k < |s.readers[id].pc.buffer|
         && k < |s.memory.slots[s.readers[id].pc.slot].payload|
       case ReadSecond(id) =>
         && id in s.readers && s.readers[id].pc.Copying? && s.readers[id].pc.slot < 2
         && forall k: nat :: k < s.Size() ==> k in s.readers[id].pc.got
       case ReadIndexAgain(id) => id in s.readers && s.readers[id].pc.Checking?
  }

  /** One failed attempt: the next round of the loop, or its end. */
  function Retry(r: Reader): Reader {
    if r.tries + 1 < r.maxRetries then r.(tries := r.tries + 1, pc := Ready) else r.(pc := Raised)
  }

  function ReaderStep(s: State, l: Label): Reader
    requires Enabled(s, l) && !WriterLabel(l)
  {
    match l
    case Call(_, maxRetries) =>
      if maxRetries <= 0 then Reader(0, 0, |s.published|, Rejected)
      else Reader(0, maxRetries, |s.published|, Ready)
    case ReadIndex(id) => s.readers[id].(pc := Indexed(s.memory.Active(), |s.published|))
    case ReadFirst(id) =>
      var r := s.readers[id];
      var slot := s.memory.slots[r.pc.slot];
      if slot.sequence % 2 != 0 then Retry(r)
      else r.(pc := Copying(r.pc.slot, r.pc.begun, slot.sequence, seq(s.Size(), _ => 0), {},
                            s.attempts[r.pc.slot], slot.payload))
    case CopyByte(id, k) =>
      var r := s.readers[id];
      r.(pc := r.pc.(buffer := r.pc.buffer[k := s.memory.slots[r.pc.slot].payload[k]], got := r.pc.got + {k}))
    case ReadSecond(id) =>
      var r := s.readers[id];
      r.(pc := Checking(r.pc.slot, r.pc.begun, r.pc.first, s.memory.slots[r.pc.slot].sequence, r.pc.buffer,
                        r.pc.mark, r.pc.snapshot, s.attempts[r.pc.slot]))
    case ReadIndexAgain(id) =>
      var r := s.readers[id];
      if r.pc.slot == s.memory.Active() && r.pc.first == r.pc.second && r.pc.second % 2 == 0
      then r.(pc := Returned(r.pc.buffer))
      else Retry(r)
  }

  function SetSequence(m: Memory, x: nat, sequence: nat): Memory
    requires x < |m.slots|
  {
    m.(slots := m.slots[x := m.slots[x].(sequence := sequence)])
  }

  function Step(s: State, l: Label): State
    requires Enabled(s, l)
  {
    match l
    case Begin(next) => s.(writer := Chosen(1 - s.memory.Active(), next))
    case LoadSequence =>
      var odd := NextOddSequence(s.memory.slots[s.writer.slot].sequence);
      s.(writer := Loaded(s.writer.slot, s.writer.next, odd, NextEvenSequence(odd)))
    case StoreOdd =>
      var x := s.writer.slot;
      s.(memory := SetSequence(s.memory, x, s.writer.odd),
         writer := Storing(x, s.writer.next, s.writer.even, {}),
         attempts := s.attempts[x := s.attempts[x] + 1])
    case StoreByte(k) =>
      var x := s.writer.slot;
      var slot := s.memory.slots[x];
      s.(memory := s.memory.(slots := s.memory.slots[x := slot.(payload := slot.payload[k := s.writer.next[k]])]),
         writer := s.writer.(done := s.writer.done + {k}))
    case StoreEven =>
      var x := s.writer.slot;
      s.(memory := SetSequence(s.memory, x, s.writer.even),
         writer := Stored(x, s.writer.next),
         completed := s.completed + {s.writer.next})
    case Flip =>
      s.(memory := s.memory.(activeWord := s.writer.slot),
         writer := Idle,
         published := s.published + [s.writer.next])
    case Abandon => s.(writer := Idle)
    case _ => s.(readers := s.readers[l.id := ReaderStep(s, l)])
  }

  /** The state after `clear`. */
  predicate Init(s: State) {
    && s.TwoSlots() && s.Size() > 0
    && s.memory.activeWord == 0
    && s.memory.slots[0] == s.memory.slots[1]
    && s.memory.slots[0].sequence == 0
    && (forall k :: 0 <= k < s.Size() ==> s.memory.slots[0].payload[k] == 0)
    && s.writer == Idle && s.readers == map[] && s.attempts == [0, 0]
    && s.completed == {s.Published()} && s.published == [s.Published()]
  }

  /** A finite interleaving: `trace[k]` is the state before the step `labels[k]`. */
  ghost predicate IsRun(trace: seq<State>, labels: seq<Label>) {
    && |trace| == |labels| + 1
    && Init(trace[0])
    && forall k :: 0 <= k < |labels| ==>
        Enabled(trace[k], labels[k]) && trace[k + 1] == Step(trace[k], labels[k])
  }

  // ----- What every step keeps -----

  ghost predicate MemoryInv(s: State) {
    && s.TwoSlots() && s.memory.activeWord < 2
    && |s.memory.slots[1].payload| == s.Size()
    && |s.published| > 0
    && s.memory.slots[s.memory.Active()].sequence == Word64(2 * s.attempts[s.memory.Active()])
    && s.Published() == s.published[|s.published| - 1]
    && s.Published() in s.completed
  }

  /** The last attempt on slot `x` completed, or it was abandoned while odd. */
  ghost predicate Resting(s: State, x: nat)
    requires s.TwoSlots() && x < 2
  {
    || (s.memory.slots[x].sequence == Word64(2 * s.attempts[x]) && s.memory.slots[x].payload in s.completed)
    || (s.attempts[x] > 0 && s.memory.slots[x].sequence == Word64(2 * s.attempts[x] - 1))
  }

  ghost predicate WriterInv(s: State) {
    && MemoryInv(s)
    && var x := 1 - s.memory.Active();
    && (!s.writer.Idle? ==> s.writer.slot == x && |s.writer.next| == s.Size())
    && match s.writer
       case Storing(_, next, even, done) =>
         && s.attempts[x] > 0
         && s.memory.slots[x].sequence == Word64(2 * s.attempts[x] - 1)
         && even == Word64(2 * s.attempts[x])
         && (forall k :: k in done && k < s.Size() ==> s.memory.slots[x].payload[k] == next[k])
       case Loaded(_, _, odd, even) =>
         && Resting(s, x)
         && odd == Word64(2 * (s.attempts[x] + 1) - 1)
         && even == Word64(2 * (s.attempts[x] + 1))
       case Stored(_, next) =>
         && s.memory.slots[x] == Slot(Word64(2 * s.attempts[x]), next) && next in s.completed
       case _ => Resting(s, x)
  }

  /** The reader's slot has not been touched since the reader first looked at its word. */
  ghost predicate Untouched(s: State, x: nat, first: nat, mark: nat, snapshot: Payload)
    requires s.TwoSlots() && x < 2
  {
    mark == s.attempts[x] ==>
      && s.memory.slots[x] == Slot(first, snapshot)
      && !(s.writer.Storing? && s.writer.slot == x)
  }

  ghost predicate ReaderInv(s: State, r: Reader)
    requires s.TwoSlots()
  {
    match r.pc
    case Ready => r.tries < r.maxRetries && r.called + r.tries <= |s.published|
    case Indexed(x, begun) => Attempting(s, r, x, begun)
    case Copying(x, begun, first, buffer, got, mark, snapshot) =>
      && Attempting(s, r, x, begun)
      && mark <= s.attempts[x] && first == Word64(2 * mark)
      && |buffer| == |snapshot| == s.Size() && snapshot in s.completed
      && Untouched(s, x, first, mark, snapshot)
      && (mark == s.attempts[x] ==> forall k :: k in got && k < s.Size() ==> buffer[k] == snapshot[k])
      && (begun == |s.published| ==> mark == s.attempts[x])
    case Checking(x, begun, first, second, buffer, mark, snapshot, secondMark) =>
      && Attempting(s, r, x, begun)
      && mark <= secondMark <= s.attempts[x] && first == Word64(2 * mark)
      && snapshot in s.completed
      && (second == first ==> (secondMark - mark) % TWO_63 == 0)
      && (secondMark == mark ==> buffer == snapshot && second == first)
      && Untouched(s, x, first, mark, snapshot)
      && (begun == |s.published| ==> mark == s.attempts[x])
    case Raised => r.called + r.maxRetries <= |s.published|
    case _ => true
  }

  /** Every failed attempt so far met a flip; if none was met in this one, the slot is active. */
  ghost predicate Attempting(s: State, r: Reader, x: nat, begun: nat)
    requires s.TwoSlots()
  {
    && x < 2 && 0 < begun && r.tries < r.maxRetries
    && r.called + r.tries <= begun <= |s.published|
    && (begun == |s.published| ==> s.memory.Active() == x)
  }

  ghost predicate Inv(s: State) {
    WriterInv(s) && forall id :: id in s.readers ==> ReaderInv(s, s.readers[id])
  }

  lemma StepKeepsWriter(s: State, l: Label)
    requires WriterInv(s) && Enabled(s, l)
    ensures WriterInv(Step(s, l))
  {
    match l {
      case LoadSequence => NextSequences(s.memory.slots[s.writer.slot].sequence, s.attempts[s.writer.slot]);
      case StoreOdd | StoreByte(_) | StoreEven => StoreKeepsWriter(s, l);
      case _ =>
    }
  }

  lemma StoreKeepsWriter(s: State, l: Label)
    requires WriterInv(s) && Enabled(s, l) && (l.StoreOdd? || l.StoreByte? || l.StoreEven?)
    ensures WriterInv(Step(s, l))
  {
    if l.StoreEven? { assert s.memory.slots[s.writer.slot].payload == s.writer.next; }
  }

  lemma EvenMeansWhole(s: State, x: nat)
    requires WriterInv(s) && x < 2 && s.memory.slots[x].sequence % 2 == 0
    ensures s.memory.slots[x].sequence == Word64(2 * s.attempts[x])
    ensures s.memory.slots[x].payload in s.completed && |s.memory.slots[x].payload| == s.Size()
    ensures !(s.writer.Storing? && s.writer.slot == x)
  {
    if s.attempts[x] > 0 { WordParity(2 * s.attempts[x] - 1); }
  }

  lemma ActiveIsEven(s: State)
    requires WriterInv(s)
    ensures s.memory.slots[s.memory.Active()].sequence % 2 == 0
  {
    WordParity(2 * s.attempts[s.memory.Active()]);
  }

  lemma OthersKeepReader(s: State, l: Label, r: Reader)
    requires WriterInv(s) && Enabled(s, l) && ReaderInv(s, r)
    ensures Step(s, l).TwoSlots() && ReaderInv(Step(s, l), r)
  {
    StepKeepsWriter(s, l);
  }

  lemma OwnStepKeepsReader(s: State, l: Label)
    requires Inv(s) && Enabled(s, l) && !WriterLabel(l)
    ensures ReaderInv(s, ReaderStep(s, l))
  {
    if !l.Call? {
      var r := s.readers[l.id];
      assert ReaderInv(s, r);
      ActiveIsEven(s);
      match l {
        case ReadFirst(_) =>
          if s.memory.slots[r.pc.slot].sequence % 2 == 0 { EvenMeansWhole(s, r.pc.slot); }
        case ReadSecond(_) =>
          var x := r.pc.slot;
          if s.memory.slots[x].sequence == r.pc.first {
            WordParity(2 * r.pc.mark);
            EvenMeansWhole(s, x);
            EqualEvenWords(r.pc.mark, s.attempts[x]);
          }
          if r.pc.mark == s.attempts[x] { assert r.pc.buffer == r.pc.snapshot; }
        case ReadIndexAgain(_) => WordParity(2 * r.pc.mark);
        case _ =>
      }
    }
  }

  lemma StepKeepsInv(s: State, l: Label)
    requires Inv(s) && Enabled(s, l)
    ensures Inv(Step(s, l))
  {
    StepKeepsWriter(s, l);
    var s' := Step(s, l);
    if !WriterLabel(l) { OwnStepKeepsReader(s, l); }
    forall id | id in s'.readers ensures ReaderInv(s', s'.readers[id]) {
      if WriterLabel(l) || id != l.id {
        OthersKeepReader(s, l, s.readers[id]);
      }
    }
  }

  lemma {:induction false} RunKeepsInv(trace: seq<State>, labels: seq<Label>, k: nat)
    requires IsRun(trace, labels) && k < |trace|
    ensures Inv(trace[k])
    decreases k
  {
    if k > 0 {
      RunKeepsInv(trace, labels, k - 1);
      StepKeepsInv(trace[k - 1], labels[k - 1]);
    }
  }

  // ----- Histories over whole runs -----

  lemma StepGrows(s: State, l: Label)
    requires Enabled(s, l)
    ensures Step(s, l).TwoSlots()
    ensures forall x :: 0 <= x < 2 ==> s.attempts[x] <= Step(s, l).attempts[x]
    ensures s.published <= Step(s, l).published && s.completed <= Step(s, l).completed
    ensures |Step(s, l).published| == |s.published| + (if l == Flip then 1 else 0)
  {
  }

  /** Counters only grow, and what was published stays published. */
  lemma {:induction false} HistoryGrows(trace: seq<State>, labels: seq<Label>, i: nat, j: nat)
    requires IsRun(trace, labels) && i <= j < |trace|
    ensures trace[i].TwoSlots() && trace[j].TwoSlots()
    ensures forall x :: 0 <= x < 2 ==> trace[i].attempts[x] <= trace[j].attempts[x]
    ensures trace[i].published <= trace[j].published
    ensures |trace[j].published| == |trace[i].published| + Flips(labels, i, j)
    ensures trace[i].completed <= trace[j].completed
    decreases j
  {
    if i < j {
      HistoryGrows(trace, labels, i, j - 1);
      StepGrows(trace[j - 1], labels[j - 1]);
    } else {
      RunKeepsInv(trace, labels, i);
    }
  }

  /** How many of the steps `lo`, ..., `hi - 1` flip the active index. */
  function Flips(labels: seq<Label>, lo: nat, hi: nat): nat
    requires lo <= hi <= |labels|
  {
    if lo == hi then 0 else Flips(labels, lo, hi - 1) + (if labels[hi - 1] == Flip then 1 else 0)
  }

  /** Steps i to j are one attempt of reader `id`, from its first look at the index to its last. */
  ghost predicate IsAttempt(labels: seq<Label>, id: ReaderId, i: nat, j: nat) {
    i < j < |labels| && labels[i] == ReadIndex(id) && labels[j] == ReadIndexAgain(id) && Within(labels, id, i + 1, j)
  }

  /** Reader `id` neither begins nor ends an attempt in the steps `lo`, ..., `hi - 1`. */
  ghost predicate Within(labels: seq<Label>, id: ReaderId, lo: nat, hi: nat) {
    forall k :: lo <= k < hi && k < |labels| ==>
      labels[k] != ReadIndex(id) && labels[k] != ReadIndexAgain(id) && !(labels[k].Call? && labels[k].id == id)
  }

  predicate InAttempt(pc: Pc) {
    pc.Indexed? || pc.Copying? || pc.Checking?
  }

  predicate Looked(pc: Pc) {
    pc.Copying? || pc.Checking?
  }

  lemma StayInAttempt(s: State, l: Label, id: ReaderId)
    requires Enabled(s, l) && id in Step(s, l).readers && InAttempt(Step(s, l).readers[id].pc)
    ensures id in s.readers
    ensures var r, r' := s.readers[id], Step(s, l).readers[id];
            && r'.tries == r.tries && r'.called == r.called
            && (if l == ReadIndex(id) then r'.pc == Indexed(s.memory.Active(), |s.published|)
                else && InAttempt(r.pc) && r'.pc.slot == r.pc.slot && r'.pc.begun == r.pc.begun
                     && l != ReadIndexAgain(id) && !(l.Call? && l.id == id)
                     && (!r'.pc.Indexed? ==>
                           if r.pc.Indexed? then r.pc.slot < 2 && r'.pc.mark == s.attempts[r.pc.slot]
                           else r'.pc.mark == r.pc.mark))
  {
  }

  /** A reader inside an attempt began it at some earlier step, whose index and history it remembers. */
  lemma {:induction false} AttemptBegan(trace: seq<State>, labels: seq<Label>, id: ReaderId, j: nat) returns (i: nat)
    requires IsRun(trace, labels) && j < |trace|
    requires id in trace[j].readers
    requires InAttempt(trace[j].readers[id].pc)
    ensures i < j && labels[i] == ReadIndex(id) && Within(labels, id, i + 1, j)
    ensures id in trace[i].readers && trace[j].readers[id].tries == trace[i].readers[id].tries
    ensures trace[j].readers[id].called == trace[i].readers[id].called
    ensures var pc := trace[j].readers[id].pc;
            && pc.slot == trace[i].memory.Active() && pc.begun == |trace[i].published|
            && (!pc.Indexed? ==> trace[i].TwoSlots() && trace[i].attempts[pc.slot] <= pc.mark)
    decreases j
  {
    var s, l := trace[j - 1], labels[j - 1];
    StayInAttempt(s, l, id);
    if l == ReadIndex(id) {
      i := j - 1;
    } else {
      i := AttemptBegan(trace, labels, id, j - 1);
      HistoryGrows(trace, labels, i, j - 1);
    }
  }

  // ----- A write that nobody disturbs -----

  /** What a whole `write` does to the memory. */
  function AfterWrite(m: Memory, next: Payload): Memory
    requires |m.slots| == 2
  {
    var x := 1 - m.Active();
    Memory(x, m.slots[x := Slot(NextEvenSequence(NextOddSequence(m.slots[x].sequence)), next)])
  }

  /** The steps `labels`, taken one after the other from `s`, lead to `s'`. */
  predicate Reaches(s: State, labels: seq<Label>, s': State)
    decreases |labels|
  {
    if labels == [] then s == s'
    else Enabled(s, labels[0]) && Reaches(Step(s, labels[0]), labels[1..], s')
  }

  lemma {:induction false} ReachesOneMore(s: State, labels: seq<Label>, s': State, l: Label)
    requires Reaches(s, labels, s') && Enabled(s', l)
    ensures Reaches(s, labels + [l], Step(s', l))
    decreases |labels|
  {
    if labels == [] {
      assert Reaches(Step(s', l), [], Step(s', l));
    } else {
      ReachesOneMore(Step(s, labels[0]), labels[1..], s', l);
      assert (labels + [l])[1..] == labels[1..] + [l];
    }
  }

  lemma {:induction false} ReachesJoin(s: State, labels: seq<Label>, s1: State, more: seq<Label>, s2: State)
    requires Reaches(s, labels, s1) && Reaches(s1, more, s2)
    ensures Reaches(s, labels + more, s2)
    decreases |labels|
  {
    if labels == [] {
      assert labels + more == more;
    } else {
      ReachesJoin(Step(s, labels[0]), labels[1..], s1, more, s2);
      assert (labels + more)[1..] == labels[1..] + more;
    }
  }

  lemma {:induction false} StoreBytesAlone(s: State, k: nat) returns (labels: seq<Label>, s': State)
    requires s.TwoSlots() && s.writer.Storing? && s.writer.slot < 2
    requires |s.writer.next| == |s.memory.slots[s.writer.slot].payload| == s.Size() && k <= s.Size()
    ensures Reaches(s, labels, s') && forall l :: l in labels ==> l.StoreByte?
    ensures s'.writer.Storing? && s' == s.(memory := s'.memory, writer := s'.writer)
    ensures s'.writer == s.writer.(done := s'.writer.done)
    ensures var x := s.writer.slot;
            s'.memory == s.memory.(slots := s.memory.slots[x := s.memory.slots[x].(
              payload := s.writer.next[..k] + s.memory.slots[x].payload[k..])])
    ensures forall i: nat :: i < k ==> i in s'.writer.done
    decreases k
  {
    var x := s.writer.slot;
    if k == 0 {
      labels, s' := [], s;
      assert s.writer.next[..k] + s.memory.slots[x].payload[k..] == s.memory.slots[x].payload;
    } else {
      labels, s' := StoreBytesAlone(s, k - 1);
      assert (s.writer.next[..k - 1] + s.memory.slots[x].payload[k - 1..])[k - 1 := s.writer.next[k - 1]]
          == s.writer.next[..k] + s.memory.slots[x].payload[k..];
      ReachesOneMore(s, labels, s', StoreByte(k - 1));
      labels, s' := labels + [StoreByte(k - 1)], Step(s', StoreByte(k - 1));
    }
  }

  /** The steps of an undisturbed writer turn any memory into `AfterWrite` of it, and publish
      exactly the payload they wrote. */
  lemma WriteAlone(s: State, next: Payload) returns (labels: seq<Label>, s': State)
    requires s.TwoSlots() && s.writer.Idle? && |next| == s.Size() == |s.memory.slots[1].payload|
    ensures Reaches(s, labels, s') && forall l :: l in labels ==> WriterLabel(l) && l != Abandon
    ensures s'.memory == AfterWrite(s.memory, next) && s'.writer == Idle && s'.readers == s.readers
    ensures s'.published == s.published + [next] && s'.completed == s.completed + {next}
    ensures var x := 1 - s.memory.Active();
            |s'.attempts| == 2 && s'.attempts == s.attempts[x := s.attempts[x] + 1]
  {
    labels, s' := StoreAlone(s, next);
    ReachesOneMore(s, labels, s', Flip);
    labels, s' := labels + [Flip], Step(s', Flip);
  }

  /** The same steps up to the flip. */
  lemma StoreAlone(s: State, next: Payload) returns (labels: seq<Label>, s': State)
    requires s.TwoSlots() && s.writer.Idle? && |next| == s.Size() == |s.memory.slots[1].payload|
    ensures Reaches(s, labels, s') && forall l :: l in labels ==> WriterLabel(l) && l != Abandon
    ensures var x := 1 - s.memory.Active();
            s' == s.(memory := s.memory.(slots := AfterWrite(s.memory, next).slots),
                     writer := Stored(x, next), completed := s.completed + {next},
                     attempts := s.attempts[x := s.attempts[x] + 1])
  {
    var s3 := WriteBegins(s, next);
    labels, s' := StoreBytesAlone(s3, s.Size());
    assert s'.memory.slots[s'.writer.slot].payload == next;
    ReachesOneMore(s3, labels, s', StoreEven);
    labels, s' := labels + [StoreEven], Step(s', StoreEven);
    ReachesJoin(s, [Begin(next), LoadSequence, StoreOdd], s3, labels, s');
    labels := [Begin(next), LoadSequence, StoreOdd] + labels;
  }

  lemma WriteBegins(s: State, next: Payload) returns (s': State)
    requires s.TwoSlots() && s.writer.Idle? && |next| == s.Size()
    ensures Reaches(s, [Begin(next), LoadSequence, StoreOdd], s')
    ensures var x := 1 - s.memory.Active();
            var odd := NextOddSequence(s.memory.slots[x].sequence);
            && s'.memory == SetSequence(s.memory, x, odd)
            && s'.writer == Storing(x, next, NextEvenSequence(odd), {})
            && s' == s.(memory := s'.memory, writer := s'.writer, attempts := s.attempts[x := s.attempts[x] + 1])
            && s'.TwoSlots()
  {
    var s1 := Step(s, Begin(next));
    var s2 := Step(s1, LoadSequence);
    s' := Step(s2, StoreOdd);
    assert Reaches(s', [], s');
    ReachesOneMore(s, [], s, Begin(next));
    ReachesOneMore(s, [Begin(next)], s1, LoadSequence);
    ReachesOneMore(s, [Begin(next), LoadSequence], s2, StoreOdd);
    assert [Begin(next), LoadSequence] + [StoreOdd] == [Begin(next), LoadSequence, StoreOdd];
  }

  /** The memory after a series of undisturbed writes, in order. */
  function AfterWrites(m: Memory, payloads: seq<Payload>): (r: Memory)
    requires |m.slots| == 2
    ensures |r.slots| == 2
  {
    if payloads == [] then m
    else AfterWrite(AfterWrites(m, payloads[..|payloads| - 1]), payloads[|payloads| - 1])
  }

  lemma Alternates(k: nat, index: nat)
    requires index == k % 2
    ensures index < 2 && 1 - index % 2 == (k + 1) % 2
  {
  }

  lemma OneWrite(m: Memory, next: Payload)
    requires |m.slots| == 2
    ensures var r := AfterWrite(m, next);
            && |r.slots| == 2 && r.activeWord == r.Active() == 1 - m.Active()
            && r.slots[r.Active()].payload == next
            && r.slots[1 - r.Active()] == m.slots[m.Active()]
  {
  }

  /** After k writes on cleared memory the active index is k mod 2, the active slot holds the
      last payload, and the other slot still holds the one before it. */
  lemma {:induction false} WritesAlternate(m: Memory, payloads: seq<Payload>)
    requires |m.slots| == 2 && m.activeWord == 0
    ensures var r := AfterWrites(m, payloads);
            && r.activeWord == |payloads| % 2
            && (|payloads| > 0 ==> r.slots[r.Active()].payload == payloads[|payloads| - 1])
            && (|payloads| > 1 ==> r.slots[1 - r.Active()].payload == payloads[|payloads| - 2])
    decreases |payloads|
  {
    if payloads != [] {
      var k := |payloads| - 1;
      var r := AfterWrites(m, payloads[..k]);
      WritesAlternate(m, payloads[..k]);
      OneWrite(r, payloads[k]);
      Alternates(k, r.activeWord);
    }
  }

  // ----- How a run goes on -----

  lemma Extend(trace: seq<State>, labels: seq<Label>, l: Label) returns (trace': seq<State>, labels': seq<Label>)
    requires IsRun(trace, labels) && Enabled(trace[|labels|], l)
    ensures IsRun(trace', labels') && labels' == labels + [l]
    ensures trace' == trace + [Step(trace[|labels|], l)]
  {
    trace', labels' := trace + [Step(trace[|labels|], l)], labels + [l];
  }

  /** A run goes on with any steps that lead on from its last state. */
  lemma {:induction false} Follow(trace: seq<State>, labels: seq<Label>, more: seq<Label>, s': State)
    returns (trace': seq<State>)
    requires IsRun(trace, labels) && Reaches(trace[|labels|], more, s')
    ensures IsRun(trace', labels + more) && trace <= trace' && trace'[|labels| + |more|] == s'
    decreases |more|
  {
    if more == [] {
      trace' := trace;
      assert labels + more == labels;
    } else {
      var trace1, labels1 := Extend(trace, labels, more[0]);
      trace' := Follow(trace1, labels1, more[1..], s');
      assert labels1 + more[1..] == labels + more;
    }
  }

  lemma {:induction false} ReachesKeepsInv(s: State, labels: seq<Label>, s': State)
    requires Inv(s) && Reaches(s, labels, s')
    ensures Inv(s')
    decreases |labels|
  {
    if labels != [] {
      StepKeepsInv(s, labels[0]);
      ReachesKeepsInv(Step(s, labels[0]), labels[1..], s');
    }
  }

  lemma {:induction false} CopyAlone(s: State, id: ReaderId, n: nat) returns (labels: seq<Label>, s': State)
    requires s.TwoSlots() && id in s.readers && n <= s.Size()
    requires var pc := s.readers[id].pc;
             pc.Copying? && pc.slot < 2 && |pc.buffer| == |s.memory.slots[pc.slot].payload| == s.Size()
    ensures Reaches(s, labels, s') && forall l :: l in labels ==> l.CopyByte? && l.id == id
    ensures id in s'.readers && s' == s.(readers := s.readers[id := s'.readers[id]])
    ensures var pc, pc' := s.readers[id].pc, s'.readers[id].pc;
            && pc'.Copying? && pc' == pc.(buffer := pc'.buffer, got := pc'.got) && |pc'.buffer| == s.Size()
            && s'.readers[id] == s.readers[id].(pc := pc')
            && forall k: nat :: k < n ==> k in pc'.got
    decreases n
  {
    labels, s' := [], s;
    if n > 0 {
      labels, s' := CopyAlone(s, id, n - 1);
      ReachesOneMore(s, labels, s', CopyByte(id, n - 1));
      labels, s' := labels + [CopyByte(id, n - 1)], Step(s', CopyByte(id, n - 1));
    }
  }
}
