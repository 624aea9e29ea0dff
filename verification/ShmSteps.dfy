/** Every single store and load of the byte code, as a step of its protocol. With it, a run of a protocol
    is a run on the flat bytes: whatever is proved of all interleavings there holds of the bytes here. */
module ShmSteps {
  import opened Bytes
  import opened ShmBuffers
  import SeqLock = SeqLockProtocol
  import Double = DoubleBufferProtocol

  /** Copying a stretch of bytes is copying them one at a time. */
  lemma SpliceOneMore(bytes: seq<byte>, offset: nat, data: seq<byte>, k: nat)
    requires offset + |data| <= |bytes| && k < |data|
    ensures Splice(bytes, offset, data[..k + 1]) == Splice(Splice(bytes, offset, data[..k]), offset + k, [data[k]])
    ensures Splice(bytes, offset, data[..0]) == bytes && data[..|data|] == data
  {
  }

  /** The byte stored at `at` shows in a window around it at its own place, and in no other window. */
  lemma ByteWindow(bytes: seq<byte>, at: nat, v: byte, lo: nat, hi: nat)
    requires at < |bytes| && lo <= hi <= |bytes|
    ensures lo <= at < hi ==> Splice(bytes, at, [v])[lo..hi] == bytes[lo..hi][at - lo := v]
    ensures !(lo <= at < hi) ==> Splice(bytes, at, [v])[lo..hi] == bytes[lo..hi]
  {
    var r := Splice(bytes, at, [v]);
    assert forall k :: 0 <= k < |bytes| ==> r[k] == if k == at then v else bytes[k];
  }

  // ----- The sequence lock -----

  /** The bytes after the one store that step `l` makes; steps that store nothing leave them alone. */
  function SeqLockStore(b: SeqLockBuffer, bytes: seq<byte>, s: SeqLock.State, l: SeqLock.Label): (after: seq<byte>)
    requires |bytes| >= b.TotalSize() && SeqLock.Enabled(s, l) && s.Size() == b.payloadSize
    ensures |after| == |bytes|
  {
    match l
    case StoreOdd => Splice(bytes, 0, EncodeLE(Word64(s.writer.odd), 8))
    case StoreByte(k) => Splice(bytes, 8 + k, [s.writer.next[k]])
    case StoreEven => Splice(bytes, 0, EncodeLE(Word64(s.writer.even), 8))
    case _ => bytes
  }

  lemma SeqLockWord(b: SeqLockBuffer, bytes: seq<byte>, value: nat)
    requires |bytes| >= b.TotalSize() && value < TWO_64
    ensures var after := Splice(bytes, 0, EncodeLE(Word64(value), 8));
            && b.Contents(after) == b.Contents(bytes).(sequence := value)
            && after[b.TotalSize()..] == bytes[b.TotalSize()..]
  {
    var word := EncodeLE(Word64(value), 8);
    var after := Splice(bytes, 0, word);
    WordBytes(value);
    SpliceWindow(bytes, 0, word, 0, 8);
    SpliceWindow(bytes, 0, word, 8, b.TotalSize());
    SpliceWindow(bytes, 0, word, b.TotalSize(), |bytes|);
    assert after[b.TotalSize()..] == after[b.TotalSize()..|bytes|];
    assert bytes[b.TotalSize()..] == bytes[b.TotalSize()..|bytes|];
  }

  lemma SeqLockByte(b: SeqLockBuffer, bytes: seq<byte>, k: nat, v: byte)
    requires |bytes| >= b.TotalSize() && k < b.payloadSize
    ensures var after := Splice(bytes, 8 + k, [v]);
            && b.Contents(after) == b.Contents(bytes).(payload := b.Contents(bytes).payload[k := v])
            && after[b.TotalSize()..] == bytes[b.TotalSize()..]
  {
    var after := Splice(bytes, 8 + k, [v]);
    ByteWindow(bytes, 8 + k, v, 0, 8);
    ByteWindow(bytes, 8 + k, v, 8, b.TotalSize());
    ByteWindow(bytes, 8 + k, v, b.TotalSize(), |bytes|);
    assert after[b.TotalSize()..] == after[b.TotalSize()..|bytes|];
    assert bytes[b.TotalSize()..] == bytes[b.TotalSize()..|bytes|];
  }

  /** Each store changes the bytes as its step changes the memory, and nothing beyond the total size. */
  lemma SeqLockStoreIsStep(b: SeqLockBuffer, bytes: seq<byte>, s: SeqLock.State, l: SeqLock.Label)
    requires |bytes| >= b.TotalSize() && s.memory == b.Contents(bytes)
    requires SeqLock.WriterInv(s) && SeqLock.Enabled(s, l)
    ensures var after := SeqLockStore(b, bytes, s, l);
            && b.Contents(after) == SeqLock.Step(s, l).memory
            && after[b.TotalSize()..] == bytes[b.TotalSize()..]
  {
    match l {
      case StoreOdd => SeqLockWord(b, bytes, s.writer.odd);
      case StoreByte(k) => SeqLockByte(b, bytes, k, s.writer.next[k]);
      case StoreEven => SeqLockWord(b, bytes, s.writer.even);
      case _ =>
    }
  }

  /** Each load reads what the step reads: the word, or one byte of the payload. */
  lemma SeqLockLoads(b: SeqLockBuffer, bytes: seq<byte>, s: SeqLock.State)
    requires |bytes| >= b.TotalSize() && s.memory == b.Contents(bytes)
    ensures DecodeLE(bytes[0..8]) == s.memory.sequence && s.Size() == b.payloadSize
    ensures forall k :: 0 <= k < b.payloadSize ==> bytes[8 + k] == s.memory.payload[k]
  {
  }

  /** One step of a run on the bytes: they hold the memory before it and after it, and change by its one
      store, which is inside the total size. */
  ghost predicate SeqLockStepOnBytes(b: SeqLockBuffer, bytes: seq<byte>, after: seq<byte>,
                                    s: SeqLock.State, s': SeqLock.State, l: SeqLock.Label)
  {
    && |bytes| >= b.TotalSize() && s.memory == b.Contents(bytes) && SeqLock.Enabled(s, l) && s.Size() == b.payloadSize
    && after == SeqLockStore(b, bytes, s, l)
    && b.Contents(after) == s'.memory && after[b.TotalSize()..] == bytes[b.TotalSize()..]
  }

  /** `flat` is the bytes in the first states of the run, one for each. */
  ghost predicate SeqLockOnBytes(b: SeqLockBuffer, flat: seq<seq<byte>>, trace: seq<SeqLock.State>,
                                labels: seq<SeqLock.Label>)
  {
    && 0 < |flat| <= |trace| == |labels| + 1
    && |flat[|flat| - 1]| >= b.TotalSize() && b.Contents(flat[|flat| - 1]) == trace[|flat| - 1].memory
    && forall k :: 0 <= k < |flat| - 1 ==>
         SeqLockStepOnBytes(b, flat[k], flat[k + 1], trace[k], trace[k + 1], labels[k])
  }

  lemma SeqLockExtended(b: SeqLockBuffer, flat: seq<seq<byte>>, trace: seq<SeqLock.State>, labels: seq<SeqLock.Label>,
                      next: seq<byte>)
    requires SeqLockOnBytes(b, flat, trace, labels) && |flat| <= |labels|
    requires |next| >= b.TotalSize()
    requires var n := |flat|; SeqLockStepOnBytes(b, flat[n - 1], next, trace[n - 1], trace[n], labels[n - 1])
    ensures SeqLockOnBytes(b, flat + [next], trace, labels)
  {
    var more := flat + [next];
    forall k | 0 <= k < |more| - 1
      ensures SeqLockStepOnBytes(b, more[k], more[k + 1], trace[k], trace[k + 1], labels[k])
    {
      assert more[k] == flat[k] && (k < |flat| - 1 ==> more[k + 1] == flat[k + 1]);
    }
  }

  lemma SeqLockNext(b: SeqLockBuffer, bytes: seq<byte>, s: SeqLock.State, l: SeqLock.Label) returns (after: seq<byte>)
    requires |bytes| >= b.TotalSize() && s.memory == b.Contents(bytes)
    requires SeqLock.WriterInv(s) && SeqLock.Enabled(s, l)
    ensures |after| == |bytes| && SeqLockStepOnBytes(b, bytes, after, s, SeqLock.Step(s, l), l)
  {
    after := SeqLockStore(b, bytes, s, l);
    SeqLockStoreIsStep(b, bytes, s, l);
  }

  lemma SeqLockOneMore(b: SeqLockBuffer, flat: seq<seq<byte>>, trace: seq<SeqLock.State>, labels: seq<SeqLock.Label>)
    returns (more: seq<seq<byte>>)
    requires SeqLock.IsRun(trace, labels) && SeqLockOnBytes(b, flat, trace, labels) && |flat| <= |labels|
    ensures SeqLockOnBytes(b, more, trace, labels) && flat <= more && |more| == |flat| + 1
  {
    var n := |flat|;
    var s, l := trace[n - 1], labels[n - 1];
    assert SeqLock.WriterInv(s) by { SeqLock.RunKeepsInv(trace, labels, n - 1); }
    assert SeqLock.Enabled(s, l) && trace[n] == SeqLock.Step(s, l);
    var next := SeqLockNext(b, flat[n - 1], s, l);
    SeqLockExtended(b, flat, trace, labels, next);
    more := flat + [next];
  }

  lemma {:induction false} SeqLockFirstStepsOnBytes(b: SeqLockBuffer, bytes: seq<byte>, trace: seq<SeqLock.State>,
                                             labels: seq<SeqLock.Label>, n: nat) returns (flat: seq<seq<byte>>)
    requires SeqLock.IsRun(trace, labels) && |bytes| >= b.TotalSize() && b.Contents(bytes) == trace[0].memory
    requires n <= |labels|
    ensures |flat| == n + 1 && SeqLockOnBytes(b, flat, trace, labels) && flat[0] == bytes
    decreases n
  {
    flat := [bytes];
    if n > 0 {
      flat := SeqLockFirstStepsOnBytes(b, bytes, trace, labels, n - 1);
      flat := SeqLockOneMore(b, flat, trace, labels);
    }
  }

  /** Every run of the protocol whose initial memory some bytes hold is a run on those bytes. */
  lemma SeqLockRunOnBytes(b: SeqLockBuffer, bytes: seq<byte>, trace: seq<SeqLock.State>, labels: seq<SeqLock.Label>)
    returns (flat: seq<seq<byte>>)
    requires SeqLock.IsRun(trace, labels) && |bytes| >= b.TotalSize() && b.Contents(bytes) == trace[0].memory
    ensures |flat| == |trace| && SeqLockOnBytes(b, flat, trace, labels) && flat[0] == bytes
  {
    flat := SeqLockFirstStepsOnBytes(b, bytes, trace, labels, |labels|);
  }

  // ----- The double buffer -----

  function DoubleStore(b: DoubleBuffer, bytes: seq<byte>, s: Double.State, l: Double.Label): (after: seq<byte>)
    requires |bytes| >= b.TotalSize() && Double.Enabled(s, l) && s.Size() == b.payloadSize
    ensures |after| == |bytes|
  {
    match l
    case StoreOdd => Splice(bytes, b.SlotBase(s.writer.slot), EncodeLE(Word64(s.writer.odd), 8))
    case StoreByte(k) => Splice(bytes, b.SlotBase(s.writer.slot) + 8 + k, [s.writer.next[k]])
    case StoreEven => Splice(bytes, b.SlotBase(s.writer.slot), EncodeLE(Word64(s.writer.even), 8))
    case Flip => Splice(bytes, 0, EncodeLE(s.writer.slot % 0x1_0000_0000, 4))
    case _ => bytes
  }

  lemma SlotsApart(b: DoubleBuffer, x: nat)
    requires x < 2
    ensures b.SlotBase(x) + b.SlotSize() <= b.SlotBase(1 - x) || b.SlotBase(1 - x) + b.SlotSize() <= b.SlotBase(x)
  {
    assert x == 0 || x == 1;
  }

  /** Outside slot `x` and the index nothing changed. */
  lemma OtherParts(b: DoubleBuffer, bytes: seq<byte>, x: nat, offset: nat, data: seq<byte>)
    requires |bytes| >= b.TotalSize() && x < 2
    requires b.SlotBase(x) <= offset && offset + |data| <= b.SlotBase(x) + b.SlotSize()
    ensures var after := Splice(bytes, offset, data);
            && after[0..4] == bytes[0..4] && b.SlotAt(after, 1 - x) == b.SlotAt(bytes, 1 - x)
            && after[b.TotalSize()..] == bytes[b.TotalSize()..]
  {
    var after := Splice(bytes, offset, data);
    var other := b.SlotBase(1 - x);
    SlotsApart(b, x);
    SpliceWindow(bytes, offset, data, 0, 4);
    SpliceWindow(bytes, offset, data, other, other + b.SlotSize());
    SpliceWindow(bytes, offset, data, b.TotalSize(), |bytes|);
    b.SameSlot(bytes, after, 1 - x);
    assert after[b.TotalSize()..] == after[b.TotalSize()..|bytes|];
    assert bytes[b.TotalSize()..] == bytes[b.TotalSize()..|bytes|];
  }

  lemma DoubleWord(b: DoubleBuffer, bytes: seq<byte>, x: nat, value: nat)
    requires |bytes| >= b.TotalSize() && x < 2 && value < TWO_64
    ensures var after := Splice(bytes, b.SlotBase(x), EncodeLE(Word64(value), 8));
            && b.Contents(after) == Double.SetSequence(b.Contents(bytes), x, value)
            && after[b.TotalSize()..] == bytes[b.TotalSize()..]
  {
    var base, word := b.SlotBase(x), EncodeLE(Word64(value), 8);
    var after := Splice(bytes, base, word);
    WordBytes(value);
    OtherParts(b, bytes, x, base, word);
    SpliceWindow(bytes, base, word, base, base + 8);
    SpliceWindow(bytes, base, word, base + 8, base + b.SlotSize());
    b.TwoSlots(bytes, x);
    b.TwoSlots(after, x);
  }

  lemma DoubleByte(b: DoubleBuffer, bytes: seq<byte>, x: nat, k: nat, v: byte)
    requires |bytes| >= b.TotalSize() && x < 2 && k < b.payloadSize
    ensures var after := Splice(bytes, b.SlotBase(x) + 8 + k, [v]);
            var m := b.Contents(bytes);
            && b.Contents(after) == m.(slots := m.slots[x := m.slots[x].(payload := m.slots[x].payload[k := v])])
            && after[b.TotalSize()..] == bytes[b.TotalSize()..]
  {
    var base := b.SlotBase(x);
    var after := Splice(bytes, base + 8 + k, [v]);
    OtherParts(b, bytes, x, base + 8 + k, [v]);
    SlotByte(b, bytes, x, k, v);
    b.TwoSlots(bytes, x);
    b.TwoSlots(after, x);
  }

  lemma SlotByte(b: DoubleBuffer, bytes: seq<byte>, x: nat, k: nat, v: byte)
    requires |bytes| >= b.TotalSize() && x < 2 && k < b.payloadSize
    ensures var slot := b.SlotAt(bytes, x);
            b.SlotAt(Splice(bytes, b.SlotBase(x) + 8 + k, [v]), x) == slot.(payload := slot.payload[k := v])
  {
    var base := b.SlotBase(x);
    ByteWindow(bytes, base + 8 + k, v, base, base + 8);
    ByteWindow(bytes, base + 8 + k, v, base + 8, base + b.SlotSize());
  }

  lemma DoubleIndex(b: DoubleBuffer, bytes: seq<byte>, x: nat)
    requires |bytes| >= b.TotalSize() && x < 2
    ensures var after := Splice(bytes, 0, EncodeLE(x % 0x1_0000_0000, 4));
            && b.Contents(after) == b.Contents(bytes).(activeWord := x)
            && after[b.TotalSize()..] == bytes[b.TotalSize()..]
  {
    var index := EncodeLE(x % 0x1_0000_0000, 4);
    var after := Splice(bytes, 0, index);
    var base0, base1 := b.SlotBase(0), b.SlotBase(1);
    IndexBytes(x);
    SpliceWindow(bytes, 0, index, 0, 4);
    SpliceWindow(bytes, 0, index, base0, base0 + b.SlotSize());
    SpliceWindow(bytes, 0, index, base1, base1 + b.SlotSize());
    SpliceWindow(bytes, 0, index, b.TotalSize(), |bytes|);
    b.SameSlot(bytes, after, 0);
    b.SameSlot(bytes, after, 1);
    assert after[b.TotalSize()..] == after[b.TotalSize()..|bytes|];
    assert bytes[b.TotalSize()..] == bytes[b.TotalSize()..|bytes|];
  }

  /** The words that the writer is about to store fit in 64 bits. */
  predicate WordsFit(w: Double.Writer) {
    (w.Loaded? ==> w.odd < TWO_64) && (w.Storing? ==> w.even < TWO_64)
  }

  /** Each store changes the bytes as its step changes the memory, and nothing beyond the total size. */
  lemma DoubleStoreIsStep(b: DoubleBuffer, bytes: seq<byte>, s: Double.State, l: Double.Label)
    requires |bytes| >= b.TotalSize() && s.memory == b.Contents(bytes)
    requires WordsFit(s.writer) && Double.Enabled(s, l)
    ensures var after := DoubleStore(b, bytes, s, l);
            && b.Contents(after) == Double.Step(s, l).memory
            && after[b.TotalSize()..] == bytes[b.TotalSize()..]
  {
    match l {
      case StoreOdd => DoubleWord(b, bytes, s.writer.slot, s.writer.odd);
      case StoreByte(k) => DoubleByte(b, bytes, s.writer.slot, k, s.writer.next[k]);
      case StoreEven => DoubleWord(b, bytes, s.writer.slot, s.writer.even);
      case Flip => DoubleIndex(b, bytes, s.writer.slot);
      case _ =>
    }
  }

  /** Each load reads what the step reads: the index, the word of a slot, or one byte of its payload. */
  lemma DoubleLoads(b: DoubleBuffer, bytes: seq<byte>, s: Double.State, x: nat)
    requires |bytes| >= b.TotalSize() && s.memory == b.Contents(bytes) && x < 2
    ensures DecodeLE(bytes[0..4]) % 2 == s.memory.Active()
    ensures DecodeLE(bytes[b.SlotBase(x)..b.SlotBase(x) + 8]) == s.memory.slots[x].sequence
    ensures |s.memory.slots[x].payload| == b.payloadSize
    ensures forall k :: 0 <= k < b.payloadSize ==> bytes[b.SlotBase(x) + 8 + k] == s.memory.slots[x].payload[k]
  {
    b.TwoSlots(bytes, x);
  }

  /** One step of a run on the bytes: they hold the memory before it and after it, and change by its one
      store, which is inside the total size. */
  ghost predicate DoubleStepOnBytes(b: DoubleBuffer, bytes: seq<byte>, after: seq<byte>,
                                    s: Double.State, s': Double.State, l: Double.Label)
  {
    && |bytes| >= b.TotalSize() && s.memory == b.Contents(bytes) && Double.Enabled(s, l) && s.Size() == b.payloadSize
    && after == DoubleStore(b, bytes, s, l)
    && b.Contents(after) == s'.memory && after[b.TotalSize()..] == bytes[b.TotalSize()..]
  }

  /** `flat` is the bytes in the first states of the run, one for each. */
  ghost predicate DoubleOnBytes(b: DoubleBuffer, flat: seq<seq<byte>>, trace: seq<Double.State>,
                                labels: seq<Double.Label>)
  {
    && 0 < |flat| <= |trace| == |labels| + 1
    && |flat[|flat| - 1]| >= b.TotalSize() && b.Contents(flat[|flat| - 1]) == trace[|flat| - 1].memory
    && forall k :: 0 <= k < |flat| - 1 ==>
         DoubleStepOnBytes(b, flat[k], flat[k + 1], trace[k], trace[k + 1], labels[k])
  }

  lemma DoubleExtended(b: DoubleBuffer, flat: seq<seq<byte>>, trace: seq<Double.State>, labels: seq<Double.Label>,
                      next: seq<byte>)
    requires DoubleOnBytes(b, flat, trace, labels) && |flat| <= |labels|
    requires |next| >= b.TotalSize()
    requires var n := |flat|; DoubleStepOnBytes(b, flat[n - 1], next, trace[n - 1], trace[n], labels[n - 1])
    ensures DoubleOnBytes(b, flat + [next], trace, labels)
  {
    var more := flat + [next];
    forall k | 0 <= k < |more| - 1
      ensures DoubleStepOnBytes(b, more[k], more[k + 1], trace[k], trace[k + 1], labels[k])
    {
      assert more[k] == flat[k] && (k < |flat| - 1 ==> more[k + 1] == flat[k + 1]);
    }
  }

  lemma DoubleNext(b: DoubleBuffer, bytes: seq<byte>, s: Double.State, l: Double.Label) returns (after: seq<byte>)
    requires |bytes| >= b.TotalSize() && s.memory == b.Contents(bytes)
    requires WordsFit(s.writer) && Double.Enabled(s, l)
    ensures |after| == |bytes| && DoubleStepOnBytes(b, bytes, after, s, Double.Step(s, l), l)
  {
    after := DoubleStore(b, bytes, s, l);
    DoubleStoreIsStep(b, bytes, s, l);
  }

  lemma DoubleOneMore(b: DoubleBuffer, flat: seq<seq<byte>>, trace: seq<Double.State>, labels: seq<Double.Label>)
    returns (more: seq<seq<byte>>)
    requires Double.IsRun(trace, labels) && DoubleOnBytes(b, flat, trace, labels) && |flat| <= |labels|
    ensures DoubleOnBytes(b, more, trace, labels) && flat <= more && |more| == |flat| + 1
  {
    var n := |flat|;
    var s, l := trace[n - 1], labels[n - 1];
    assert WordsFit(s.writer) by { Double.RunKeepsInv(trace, labels, n - 1); }
    assert Double.Enabled(s, l) && trace[n] == Double.Step(s, l);
    var next := DoubleNext(b, flat[n - 1], s, l);
    DoubleExtended(b, flat, trace, labels, next);
    more := flat + [next];
  }

  lemma {:induction false} DoubleFirstStepsOnBytes(b: DoubleBuffer, bytes: seq<byte>, trace: seq<Double.State>,
                                             labels: seq<Double.Label>, n: nat) returns (flat: seq<seq<byte>>)
    requires Double.IsRun(trace, labels) && |bytes| >= b.TotalSize() && b.Contents(bytes) == trace[0].memory
    requires n <= |labels|
    ensures |flat| == n + 1 && DoubleOnBytes(b, flat, trace, labels) && flat[0] == bytes
    decreases n
  {
    flat := [bytes];
    if n > 0 {
      flat := DoubleFirstStepsOnBytes(b, bytes, trace, labels, n - 1);
      flat := DoubleOneMore(b, flat, trace, labels);
    }
  }

  /** Every run of the protocol whose initial memory some bytes hold is a run on those bytes. */
  lemma DoubleRunOnBytes(b: DoubleBuffer, bytes: seq<byte>, trace: seq<Double.State>, labels: seq<Double.Label>)
    returns (flat: seq<seq<byte>>)
    requires Double.IsRun(trace, labels) && |bytes| >= b.TotalSize() && b.Contents(bytes) == trace[0].memory
    ensures |flat| == |trace| && DoubleOnBytes(b, flat, trace, labels) && flat[0] == bytes
  {
    flat := DoubleFirstStepsOnBytes(b, bytes, trace, labels, |labels|);
  }
}
