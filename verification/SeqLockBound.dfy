/** The bound of 2^63 write attempts, below which the sequence lock is consistent, cannot be raised: with
    exactly that many during one attempt a reader that was half done returns a mix. */
module SeqLockBound {
  import opened Bytes
  import opened SeqLockProtocol

  // ----- How a run goes on -----

  lemma Extend(trace: seq<State>, labels: seq<Label>, l: Label) returns (trace': seq<State>, labels': seq<Label>)
    requires IsRun(trace, labels) && Enabled(trace[|labels|], l)
    ensures IsRun(trace', labels') && labels' == labels + [l]
    ensures trace' == trace + [Step(trace[|labels|], l)]
  {
    trace', labels' := trace + [Step(trace[|labels|], l)], labels + [l];
  }

  /** A run goes on with any steps that lead on from its last state. */
  lemma {:induction false} Follow(trace: seq<State>, labels: seq<Label>, more: seq<Label>, s': State)
    returns (trace': seq<State>)
    requires IsRun(trace, labels) && Reaches(trace[|labels|], more, s')
    ensures IsRun(trace', labels + more) && trace <= trace' && trace'[|labels| + |more|] == s'
    decreases |more|
  {
    if more == [] {
      trace' := trace;
      assert labels + more == labels;
    } else {
      var trace1, labels1 := Extend(trace, labels, more[0]);
      trace' := Follow(trace1, labels1, more[1..], s');
      assert labels1 + more[1..] == labels + more;
    }
  }

  lemma {:induction false} ReachesJoin(s: State, labels: seq<Label>, s1: State, more: seq<Label>, s2: State)
    requires Reaches(s, labels, s1) && Reaches(s1, more, s2)
    ensures Reaches(s, labels + more, s2)
    decreases |labels|
  {
    if labels == [] {
      assert labels + more == more;
    } else {
      ReachesJoin(Step(s, labels[0]), labels[1..], s1, more, s2);
      assert (labels + more)[1..] == labels[1..] + more;
    }
  }

  // ----- Many writes, and the rest of a copy -----

  /** `n` undisturbed writes of one payload. */
  lemma {:induction false} WriteMany(s: State, next: Payload, n: nat) returns (labels: seq<Label>, s': State)
    requires WriterInv(s) && s.writer.Idle? && |next| == s.Size()
    ensures Reaches(s, labels, s') && forall l :: l in labels ==> WriterLabel(l) && l != Abandon
    ensures s' == s.(memory := s'.memory, attempts := s.attempts + n, log := s.log + Repeated(next, n))
    ensures s'.memory == if n == 0 then s.memory else Memory(Word64(2 * (s.attempts + n)), next)
    decreases n
  {
    if n == 0 {
      labels, s' := [], s;
      assert s.log + Repeated(next, 0) == s.log;
    } else {
      var before, s1 := WriteMany(s, next, n - 1);
      var last;
      last, s' := WriteAlone(s1, next);
      NextSequences(s1.memory.sequence, s1.attempts);
      ReachesJoin(s, before, s1, last, s');
      labels := before + last;
      assert s.log + Repeated(next, n) == s.log + Repeated(next, n - 1) + [next];
    }
  }

  /** The reader copies those of the first `n` bytes that it has not copied yet. */
  lemma {:induction false} CopyMissing(s: State, id: ReaderId, n: nat) returns (labels: seq<Label>, s': State)
    requires id in s.readers && s.readers[id].Copying? && |s.readers[id].buffer| == s.Size() && n <= s.Size()
    ensures Reaches(s, labels, s') && forall l :: l in labels ==> l.CopyByte? && l.id == id
    ensures id in s'.readers && s' == s.(readers := s.readers[id := s'.readers[id]])
    ensures var r, r' := s.readers[id], s'.readers[id];
            && r'.Copying? && r' == r.(buffer := r'.buffer, got := r'.got) && |r'.buffer| == s.Size()
            && (forall k: nat :: k in r'.got <==> k in r.got || k < n)
            && forall k :: 0 <= k < s.Size() ==>
                 r'.buffer[k] == if k < n && k !in r.got then s.memory.payload[k] else r.buffer[k]
    decreases n
  {
    labels, s' := [], s;
    if n > 0 {
      labels, s' := CopyMissing(s, id, n - 1);
      if n - 1 !in s.readers[id].got {
        ReachesOneMore(s, labels, s', CopyByte(id, n - 1));
        labels, s' := labels + [CopyByte(id, n - 1)], Step(s', CopyByte(id, n - 1));
      }
    }
  }

  // ----- A torn read -----

  /** The reader is in the middle of an attempt: nothing was stored since it began, and it has copied
      byte `a` but not byte `b`. */
  ghost predicate HalfCopied(s: State, id: ReaderId, a: nat, b: nat) {
    && a < s.Size() && b < s.Size() && id in s.readers
    && var r := s.readers[id];
       r.Copying? && r.mark == s.attempts && a in r.got && b !in r.got
  }

  /** From `s` to `s'` there were exactly 2^63 write attempts, and the reader returned `torn`, which is
      neither what had been completed last in `s` nor anything completed since. */
  ghost predicate Torn(s: State, s': State, id: ReaderId, torn: Payload) {
    && s'.attempts == s.attempts + TWO_63
    && id in s'.readers && s'.readers[id] == Returned(torn)
    && 0 < |s.log| <= |s'.log| && s.log <= s'.log
    && forall k :: |s.log| - 1 <= k < |s'.log| ==> s'.log[k] != torn
  }

  /** 2^63 writes of a payload that differs in every byte, and then the rest of the copy. */
  lemma WriteThenCopy(s: State, id: ReaderId) returns (labels: seq<Label>, s': State)
    requires Inv(s) && s.writer.Idle? && id in s.readers && s.readers[id].Copying? && s.readers[id].mark == s.attempts
    ensures Reaches(s, labels, s') && forall l :: l in labels ==> Between(l, id)
    ensures s'.attempts == s.attempts + TWO_63 && s'.log == s.log + Repeated(Other(s.memory.payload), TWO_63)
    ensures s'.memory.sequence == s.memory.sequence && s'.memory.sequence % 2 == 0 && id in s'.readers
    ensures var r, r' := s.readers[id], s'.readers[id];
            && r'.Copying? && r'.first == s.memory.sequence && |r'.buffer| == s.Size() == s'.Size()
            && (forall k: nat :: k < s.Size() ==> k in r'.got)
            && forall k :: 0 <= k < s.Size() ==>
                 r'.buffer[k] == if k in r.got then s.memory.payload[k] else Other(s.memory.payload)[k]
  {
    assert ReaderInv(s, s.readers[id]);
    WordParity(2 * s.attempts);
    WrapsAround(s.attempts);
    var writes, s1 := WriteMany(s, Other(s.memory.payload), TWO_63);
    var copies;
    copies, s' := CopyMissing(s1, id, s.Size());
    ReachesJoin(s, writes, s1, copies, s');
    labels := writes + copies;
  }

  lemma TearingSteps(s: State, id: ReaderId, a: nat, b: nat) returns (labels: seq<Label>, s': State, torn: Payload)
    requires Inv(s) && s.writer.Idle? && HalfCopied(s, id, a, b)
    ensures Reaches(s, labels, s') && |labels| > 0 && labels[|labels| - 1] == ReadSecond(id)
    ensures forall k :: 0 <= k < |labels| - 1 ==> Between(labels[k], id)
    ensures Torn(s, s', id, torn)
  {
    var before, s1 := WriteThenCopy(s, id);
    torn := s1.readers[id].buffer;
    assert torn[a] == s.memory.payload[a] && torn[b] == Other(s.memory.payload)[b];
    NeitherOf(s, torn, a, b);
    s' := Step(s1, ReadSecond(id));
    ReachesOneMore(s, before, s1, ReadSecond(id));
    labels := before + [ReadSecond(id)];
    assert forall k :: 0 <= k < |before| ==> labels[k] == before[k] && before[k] in before;
  }

  lemma NeitherOf(s: State, torn: Payload, a: nat, b: nat)
    requires Inv(s) && s.memory.sequence % 2 == 0 && a < s.Size() && b < s.Size() && |torn| == s.Size()
    requires torn[a] == s.memory.payload[a] && torn[b] == Other(s.memory.payload)[b]
    ensures var log := s.log + Repeated(Other(s.memory.payload), TWO_63);
            0 < |s.log| && forall k :: |s.log| - 1 <= k < |log| ==> log[k] != torn
  {
    EvenMeansComplete(s);
  }

  /** A step of the writer other than being abandoned, or a copy step of reader `id`. */
  predicate Between(l: Label, id: ReaderId) {
    (WriterLabel(l) && l != Abandon) || (l.CopyByte? && l.id == id)
  }

  /** Main result. From every reachable state with an idle writer and a reader in the middle of an
      attempt, for payloads of any size of at least two bytes, exactly 2^63 undisturbed writes lead
      to a run in which that attempt returns a mix: neither the payload that was completed last
      when the attempt began, nor anything completed during it. */
  lemma BoundIsExact(trace: seq<State>, labels: seq<Label>, id: ReaderId, a: nat, b: nat)
    returns (trace': seq<State>, labels': seq<Label>, torn: Payload)
    requires IsRun(trace, labels) && trace[|labels|].writer.Idle? && HalfCopied(trace[|labels|], id, a, b)
    ensures IsRun(trace', labels') && trace <= trace' && labels <= labels' && |labels| < |labels'|
    ensures labels'[|labels'| - 1] == ReadSecond(id)
    ensures forall k :: |labels| <= k < |labels'| - 1 ==> Between(labels'[k], id)
    ensures Torn(trace[|labels|], trace'[|labels'|], id, torn)
  {
    var s := trace[|labels|];
    assert Inv(s) by { RunKeepsInv(trace, labels, |labels|); }
    var more, s';
    more, s', torn := TearingSteps(s, id, a, b);
    trace' := Follow(trace, labels, more, s');
    labels' := labels + more;
    forall k | |labels| <= k < |labels'| - 1 ensures Between(labels'[k], id) {
      assert labels'[k] == more[k - |labels|];
    }
  }

  /** An instance from `clear`, with two bytes: the mix is a payload that no write ever stored. */
  lemma TornFromClear() returns (trace: seq<State>, labels: seq<Label>, torn: Payload)
    ensures IsRun(trace, labels) && |labels| > 0 && labels[|labels| - 1] == ReadSecond(0)
    ensures 0 in trace[|labels|].readers && trace[|labels|].readers[0] == Returned(torn)
    ensures torn !in trace[|labels|].log && trace[|labels|].attempts == TWO_63
  {
    var trace0, labels0 := HalfCopiedFromClear();
    trace, labels, torn := BoundIsExact(trace0, labels0, 0, 0, 1);
    assert |trace0[|labels0|].log| == 1;
  }

  lemma HalfCopiedFromClear() returns (trace: seq<State>, labels: seq<Label>)
    ensures IsRun(trace, labels) && trace[|labels|].writer.Idle? && HalfCopied(trace[|labels|], 0, 0, 1)
    ensures trace[|labels|].attempts == 0 && |trace[|labels|].log| == 1
  {
    trace, labels := [State(Memory(0, [0, 0]), Idle, map[], 0, [[0, 0]])], [];
    trace, labels := Extend(trace, labels, Call(0, 1));
    trace, labels := Extend(trace, labels, ReadFirst(0));
    trace, labels := Extend(trace, labels, CopyByte(0, 0));
  }
}
