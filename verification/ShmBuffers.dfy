/** The three shared-memory backends as they work on one flat byte buffer, with no one else
    writing to it. `Contents` reads the flat bytes as the memory of the concurrent protocol; what
    happens under interleaving is the subject of `SeqLockProtocol` and `DoubleBufferProtocol`. */
module ShmBuffers {
  import opened Bytes
  import opened Options
  import SeqLock = SeqLockProtocol
  import Double = DoubleBufferProtocol

  datatype Error = ValueError | RuntimeError | NotImplementedError

  /** `payload` is returned, or the read is refused. */
  type ReadResult = Result<seq<byte>, Error>

  function Zeros(n: nat): (s: seq<byte>)
    ensures |s| == n && forall k :: 0 <= k < n ==> s[k] == 0
  {
    seq(n, _ => 0)
  }

  lemma ZeroWindow(bytes: seq<byte>, n: nat, lo: nat, hi: nat)
    requires lo <= hi <= n <= |bytes| && bytes[..n] == Zeros(n)
    ensures bytes[lo..hi] == Zeros(hi - lo)
  {
    assert forall k :: 0 <= k < n ==> bytes[k] == bytes[..n][k];
  }

  lemma {:induction false} DecodeZeros(n: nat)
    ensures DecodeLE(Zeros(n)) == 0
  {
    if n > 0 {
      DecodeZeros(n - 1);
      assert Zeros(n)[1..] == Zeros(n - 1);
    }
  }

  // ----- Stores and loads -----

  /** `buf[offset : offset + len(data)] = data` */
  method Store(buf: array<byte>, offset: nat, data: seq<byte>)
    requires offset + |data| <= buf.Length
    modifies buf
    ensures buf[..] == Splice(old(buf[..]), offset, data)
  {
    forall k | 0 <= k < |data| {
      buf[offset + k] := data[k];
    }
  }

  method WriteU32(buf: array<byte>, offset: nat, value: nat)
    requires offset + 4 <= buf.Length
    modifies buf
    ensures buf[..] == Splice(old(buf[..]), offset, EncodeLE(value % 0x1_0000_0000, 4))
  {
    Store(buf, offset, EncodeLE(value % 0x1_0000_0000, 4));
  }

  method WriteU64(buf: array<byte>, offset: nat, value: nat)
    requires offset + 8 <= buf.Length
    modifies buf
    ensures buf[..] == Splice(old(buf[..]), offset, EncodeLE(Word64(value), 8))
  {
    Store(buf, offset, EncodeLE(Word64(value), 8));
  }

  function ReadU32(buf: array<byte>, offset: nat): nat
    requires offset + 4 <= buf.Length
    reads buf
  {
    DecodeLE(buf[offset..offset + 4])
  }

  function ReadU64(buf: array<byte>, offset: nat): nat
    requires offset + 8 <= buf.Length
    reads buf
  {
    DecodeLE(buf[offset..offset + 8])
  }

  /** A word that fits in 64 bits reads back as it was stored. */
  lemma WordBytes(value: nat)
    requires value < TWO_64
    ensures DecodeLE(EncodeLE(Word64(value), 8)) == value
  {
    assert Word64(value) == value;
    assert value < Pow256(8) by { Widths(); }
    DecodeEncode(value, 8);
  }

  lemma IndexBytes(value: nat)
    requires value < 2
    ensures DecodeLE(EncodeLE(value % 0x1_0000_0000, 4)) == value
  {
    Widths();
    DecodeEncode(value, 4);
  }

  // ----- PlainBuffer -----

  class PlainBuffer {
    const payloadSize: nat

    constructor (payloadSize: nat)
      requires payloadSize > 0
      ensures this.payloadSize == payloadSize
    {
      this.payloadSize := payloadSize;
    }

    /** `__init__`, which refuses a size that is not positive. */
    static method Create(size: int) returns (r: Result<PlainBuffer, Error>)
      ensures size <= 0 ==> r == Err(ValueError)
      ensures size > 0 ==> r.Ok? && r.value.payloadSize == size
    {
      if size <= 0 {
        return Err(ValueError);
      }
      var b := new PlainBuffer(size);
      r := Ok(b);
    }

    function TotalSize(): nat { payloadSize }

    method Clear(buf: array<byte>) returns (r: Result<(), Error>)
      modifies buf
      ensures r == if buf.Length < TotalSize() then Err(RuntimeError) else Ok(())
      ensures r.Err? ==> buf[..] == old(buf[..])
      ensures r.Ok? ==> buf[..] == Zeros(TotalSize()) + old(buf[TotalSize()..])
    {
      if buf.Length < TotalSize() {
        return Err(RuntimeError);
      }
      Store(buf, 0, Zeros(TotalSize()));
      r := Ok(());
    }

    method Write(buf: array<byte>, payload: seq<byte>) returns (r: Result<(), Error>)
      modifies buf
      ensures r == if buf.Length < TotalSize() then Err(RuntimeError)
                   else if |payload| != payloadSize then Err(ValueError) else Ok(())
      ensures r.Err? ==> buf[..] == old(buf[..])
      ensures r.Ok? ==> buf[..] == payload + old(buf[TotalSize()..])
    {
      if buf.Length < TotalSize() {
        return Err(RuntimeError);
      }
      if |payload| != payloadSize {
        return Err(ValueError);
      }
      Store(buf, 0, payload);
      r := Ok(());
    }

    method ReadRelaxed(buf: array<byte>) returns (r: ReadResult)
      ensures r == if buf.Length < TotalSize() then Err(RuntimeError) else Ok(buf[..payloadSize])
    {
      if buf.Length < TotalSize() {
        return Err(RuntimeError);
      }
      r := Ok(buf[..payloadSize]);
    }

    method ReadConsistent(buf: array<byte>, maxRetries: int) returns (r: ReadResult)
      ensures r == Err(NotImplementedError)
    {
      r := Err(NotImplementedError);
    }
  }

  // ----- SeqLockBuffer -----

  class SeqLockBuffer {
    const payloadSize: nat

    constructor (payloadSize: nat)
      requires payloadSize > 0
      ensures this.payloadSize == payloadSize
    {
      this.payloadSize := payloadSize;
    }

    static method Create(size: int) returns (r: Result<SeqLockBuffer, Error>)
      ensures size <= 0 ==> r == Err(ValueError)
      ensures size > 0 ==> r.Ok? && r.value.payloadSize == size
    {
      if size <= 0 {
        return Err(ValueError);
      }
      var b := new SeqLockBuffer(size);
      r := Ok(b);
    }

    function TotalSize(): nat { 8 + payloadSize }

    /** The flat bytes as a sequence word and a payload. */
    function Contents(bytes: seq<byte>): SeqLock.Memory
      requires |bytes| >= TotalSize()
    {
      SeqLock.Memory(DecodeLE(bytes[0..8]), bytes[8..TotalSize()])
    }

    method Clear(buf: array<byte>) returns (r: Result<(), Error>)
      modifies buf
      ensures r == if buf.Length < TotalSize() then Err(RuntimeError) else Ok(())
      ensures r.Err? ==> buf[..] == old(buf[..])
      ensures r.Ok? ==> Contents(buf[..]) == SeqLock.Memory(0, Zeros(payloadSize))
      ensures r.Ok? ==> buf[..] == Zeros(TotalSize()) + old(buf[TotalSize()..])
    {
      if buf.Length < TotalSize() {
        return Err(RuntimeError);
      }
      Store(buf, 0, Zeros(TotalSize()));
      assert buf[0..8] == Zeros(8);
      DecodeZeros(8);
      r := Ok(());
    }

    method Write(buf: array<byte>, payload: seq<byte>) returns (r: Result<(), Error>)
      modifies buf
      ensures r == if buf.Length < TotalSize() then Err(RuntimeError)
                   else if |payload| != payloadSize then Err(ValueError) else Ok(())
      ensures r.Err? ==> buf[..] == old(buf[..])
      ensures r.Ok? ==> Contents(buf[..]) == SeqLock.AfterWrite(Contents(old(buf[..])), payload)
      ensures r.Ok? ==> buf[TotalSize()..] == old(buf[TotalSize()..])
    {
      if buf.Length < TotalSize() {
        return Err(RuntimeError);
      }
      if |payload| != payloadSize {
        return Err(ValueError);
      }
      ghost var bytes := buf[..];
      var sequence := ReadU64(buf, 0);
      var odd := NextOddSequence(sequence);
      var even := NextEvenSequence(odd);
      WriteU64(buf, 0, odd);
      Store(buf, 8, payload);
      WriteU64(buf, 0, even);
      assert bytes[0..8] == old(buf[0..8]);
      WordBytes(even);
      Written(bytes, EncodeLE(Word64(odd), 8), EncodeLE(Word64(even), 8), payload);
      r := Ok(());
    }

    /** The three stores of `Write`, with the two words as bytes. */
    lemma Written(bytes: seq<byte>, odd: seq<byte>, even: seq<byte>, payload: seq<byte>)
      requires |bytes| >= TotalSize() && |payload| == payloadSize && |odd| == |even| == 8
      ensures var after := Splice(Splice(Splice(bytes, 0, odd), 8, payload), 0, even);
              Contents(after) == SeqLock.Memory(DecodeLE(even), payload) && after[TotalSize()..] == bytes[TotalSize()..]
    {
      var first := Splice(bytes, 0, odd);
      var second := Splice(first, 8, payload);
      var after := Splice(second, 0, even);
      SpliceWindow(second, 0, even, 0, 8);
      SpliceWindow(first, 8, payload, 8, TotalSize());
      SpliceWindow(second, 0, even, 8, TotalSize());
      SpliceWindow(bytes, 0, odd, TotalSize(), |bytes|);
      SpliceWindow(first, 8, payload, TotalSize(), |bytes|);
      SpliceWindow(second, 0, even, TotalSize(), |bytes|);
      assert after[TotalSize()..] == after[TotalSize()..|bytes|] && bytes[TotalSize()..] == bytes[TotalSize()..|bytes|];
    }

    method ReadRelaxed(buf: array<byte>) returns (r: ReadResult)
      ensures r == if buf.Length < TotalSize() then Err(RuntimeError) else Ok(Contents(buf[..]).payload)
    {
      if buf.Length < TotalSize() {
        return Err(RuntimeError);
      }
      assert buf[8..TotalSize()] == buf[..][8..TotalSize()];
      r := Ok(buf[8..TotalSize()]);
    }

    /** Alone on the buffer, the retry loop returns the payload exactly when the word is even. */
    method ReadConsistent(buf: array<byte>, maxRetries: int) returns (r: ReadResult)
      ensures r == if buf.Length < TotalSize() then Err(RuntimeError)
                   else if maxRetries <= 0 then Err(ValueError)
                   else if Contents(buf[..]).sequence % 2 == 0 then Ok(Contents(buf[..]).payload)
                   else Err(RuntimeError)
    {
      if buf.Length < TotalSize() {
        return Err(RuntimeError);
      }
      if maxRetries <= 0 {
        return Err(ValueError);
      }
      assert buf[0..8] == buf[..][0..8] && buf[8..TotalSize()] == buf[..][8..TotalSize()];
      for attempt := 0 to maxRetries
        invariant attempt > 0 ==> Contents(buf[..]).sequence % 2 != 0
      {
        var first := ReadU64(buf, 0);
        if first % 2 == 0 {
          var payload := buf[8..TotalSize()];
          var second := ReadU64(buf, 0);
          if first == second && second % 2 == 0 {
            return Ok(payload);
          }
        }
      }
      r := Err(RuntimeError);
    }
  }

  // ----- DoubleBuffer -----

  class DoubleBuffer {
    const payloadSize: nat

    constructor (payloadSize: nat)
      requires payloadSize > 0
      ensures this.payloadSize == payloadSize
    {
      this.payloadSize := payloadSize;
    }

    static method Create(size: int) returns (r: Result<DoubleBuffer, Error>)
      ensures size <= 0 ==> r == Err(ValueError)
      ensures size > 0 ==> r.Ok? && r.value.payloadSize == size
    {
      if size <= 0 {
        return Err(ValueError);
      }
      var b := new DoubleBuffer(size);
      r := Ok(b);
    }

    function SlotSize(): nat { 8 + payloadSize }

    function TotalSize(): nat { 8 + 2 * SlotSize() }

    function SlotBase(x: nat): (offset: nat)
      requires x < 2
      ensures 8 <= offset && offset + SlotSize() <= TotalSize()
    {
      8 + x * SlotSize()
    }

    /** The index word, the reserved word, and then each slot: its sequence word and its payload. */
    lemma Layout()
      ensures SlotBase(0) == 8 && SlotBase(1) == 8 + (8 + payloadSize) && TotalSize() == 8 + 2 * (8 + payloadSize)
    {
    }

    function SlotAt(bytes: seq<byte>, x: nat): Double.Slot
      requires |bytes| >= TotalSize() && x < 2
    {
      Double.Slot(DecodeLE(bytes[SlotBase(x)..SlotBase(x) + 8]),
                  bytes[SlotBase(x) + 8..SlotBase(x) + SlotSize()])
    }

    /** The flat bytes as an index word and two slots. */
    function Contents(bytes: seq<byte>): Double.Memory
      requires |bytes| >= TotalSize()
    {
      Double.Memory(DecodeLE(bytes[0..4]), [SlotAt(bytes, 0), SlotAt(bytes, 1)])
    }

    function ActiveIndex(buf: array<byte>): (x: nat)
      requires buf.Length >= TotalSize()
      reads buf
      ensures x == Contents(buf[..]).Active()
    {
      assert buf[0..4] == buf[..][0..4];
      ReadU32(buf, 0) % 2
    }

    method Clear(buf: array<byte>) returns (r: Result<(), Error>)
      modifies buf
      ensures r == if buf.Length < TotalSize() then Err(RuntimeError) else Ok(())
      ensures r.Err? ==> buf[..] == old(buf[..])
      ensures r.Ok? ==> var slot := Double.Slot(0, Zeros(payloadSize));
                        Contents(buf[..]) == Double.Memory(0, [slot, slot])
      ensures r.Ok? ==> buf[..] == Zeros(TotalSize()) + old(buf[TotalSize()..])
    {
      if buf.Length < TotalSize() {
        return Err(RuntimeError);
      }
      Store(buf, 0, Zeros(TotalSize()));
      ghost var bytes := buf[..];
      assert bytes[..TotalSize()] == Zeros(TotalSize());
      EncodeZero();
      WriteU32(buf, 0, 0);
      Rezero(bytes, 0);
      WriteU32(buf, 4, 0);
      Rezero(bytes, 4);
      AllZero(bytes);
      r := Ok(());
    }

    lemma Rezero(bytes: seq<byte>, offset: nat)
      requires |bytes| >= TotalSize() && bytes[..TotalSize()] == Zeros(TotalSize()) && offset <= 4
      ensures Splice(bytes, offset, Zeros(4)) == bytes
    {
      assert forall k :: 0 <= k < TotalSize() ==> bytes[k] == bytes[..TotalSize()][k];
    }

    lemma EncodeZero()
      ensures EncodeLE(0 % 0x1_0000_0000, 4) == Zeros(4)
    {
      DecodeZeros(4);
      EncodeDecode(Zeros(4));
    }

    lemma AllZero(bytes: seq<byte>)
      requires |bytes| >= TotalSize() && bytes[..TotalSize()] == Zeros(TotalSize())
      ensures var slot := Double.Slot(0, Zeros(payloadSize));
              Contents(bytes) == Double.Memory(0, [slot, slot])
    {
      forall lo: nat, hi: nat | lo <= hi <= TotalSize() ensures bytes[lo..hi] == Zeros(hi - lo) {
        ZeroWindow(bytes, TotalSize(), lo, hi);
      }
      DecodeZeros(4);
      DecodeZeros(8);
      assert bytes[SlotBase(1)..SlotBase(1) + 8] == Zeros(8);
      assert bytes[SlotBase(1) + 8..SlotBase(1) + SlotSize()] == Zeros(payloadSize);
    }

    /** The write fills the inactive slot and publishes it. The slot that was active, the
        reserved word and every byte beyond the total size keep their values. */
    method Write(buf: array<byte>, payload: seq<byte>) returns (r: Result<(), Error>)
      modifies buf
      ensures r == if buf.Length < TotalSize() then Err(RuntimeError)
                   else if |payload| != payloadSize then Err(ValueError) else Ok(())
      ensures r.Err? ==> buf[..] == old(buf[..])
      ensures r.Ok? ==> Contents(buf[..]) == Double.AfterWrite(Contents(old(buf[..])), payload)
      ensures r.Ok? ==> SameElsewhere(old(buf[..]), buf[..], 1 - old(ActiveIndex(buf)))
    {
      if buf.Length < TotalSize() {
        return Err(RuntimeError);
      }
      if |payload| != payloadSize {
        return Err(ValueError);
      }
      ghost var bytes := buf[..];
      var inactive := 1 - ActiveIndex(buf);
      var sequence := ReadU64(buf, SlotBase(inactive));
      assert buf[SlotBase(inactive)..SlotBase(inactive) + 8] == bytes[SlotBase(inactive)..SlotBase(inactive) + 8];
      TwoSlots(bytes, inactive);
      var odd := NextOddSequence(sequence);
      var even := NextEvenSequence(odd);
      StoreAll(buf, inactive, odd, even, payload);
      r := Ok(());
    }

    /** The four stores of `Write`, in order. */
    method StoreAll(buf: array<byte>, x: nat, odd: nat, even: nat, payload: seq<byte>)
      requires buf.Length >= TotalSize() && x < 2 && |payload| == payloadSize && even < TWO_64
      modifies buf
      ensures SameElsewhere(old(buf[..]), buf[..], x)
      ensures Contents(buf[..]) ==
              Double.Memory(x, Contents(old(buf[..])).slots[x := Double.Slot(even, payload)])
    {
      ghost var bytes := buf[..];
      WriteU64(buf, SlotBase(x), odd);
      Store(buf, SlotBase(x) + 8, payload);
      WriteU64(buf, SlotBase(x), even);
      WriteU32(buf, 0, x);
      WordBytes(even);
      IndexBytes(x);
      Written(bytes, x, EncodeLE(Word64(odd), 8), EncodeLE(Word64(even), 8), payload,
              EncodeLE(x % 0x1_0000_0000, 4));
    }

    /** The bytes after the four stores of `Write`, with the words and the index as bytes. */
    function Rewritten(bytes: seq<byte>, x: nat, odd: seq<byte>, even: seq<byte>, payload: seq<byte>,
                       index: seq<byte>): (after: seq<byte>)
      requires |bytes| >= TotalSize() && x < 2
      requires |payload| == payloadSize && |odd| == |even| == 8 && |index| == 4
      ensures |after| == |bytes|
    {
      var base := SlotBase(x);
      Splice(Splice(Splice(Splice(bytes, base, odd), base + 8, payload), base, even), 0, index)
    }

    lemma Elsewhere(bytes: seq<byte>, x: nat, odd: seq<byte>, even: seq<byte>, payload: seq<byte>,
                    index: seq<byte>, lo: nat, hi: nat)
      requires |bytes| >= TotalSize() && x < 2
      requires |payload| == payloadSize && |odd| == |even| == 8 && |index| == 4
      requires 4 <= lo <= hi <= |bytes| && (hi <= SlotBase(x) || SlotBase(x) + SlotSize() <= lo)
      ensures Rewritten(bytes, x, odd, even, payload, index)[lo..hi] == bytes[lo..hi]
    {
      var base := SlotBase(x);
      var first := Splice(bytes, base, odd);
      var second := Splice(first, base + 8, payload);
      var third := Splice(second, base, even);
      SpliceWindow(bytes, base, odd, lo, hi);
      SpliceWindow(first, base + 8, payload, lo, hi);
      SpliceWindow(second, base, even, lo, hi);
      SpliceWindow(third, 0, index, lo, hi);
    }

    lemma WrittenSlot(bytes: seq<byte>, x: nat, odd: seq<byte>, even: seq<byte>, payload: seq<byte>, index: seq<byte>)
      requires |bytes| >= TotalSize() && x < 2
      requires |payload| == payloadSize && |odd| == |even| == 8 && |index| == 4
      ensures var after := Rewritten(bytes, x, odd, even, payload, index);
              && after[SlotBase(x)..SlotBase(x) + 8] == even
              && after[SlotBase(x) + 8..SlotBase(x) + SlotSize()] == payload
              && after[0..4] == index
    {
      var base := SlotBase(x);
      var first := Splice(bytes, base, odd);
      var second := Splice(first, base + 8, payload);
      var third := Splice(second, base, even);
      SpliceWindow(second, base, even, base, base + 8);
      SpliceWindow(third, 0, index, base, base + 8);
      SpliceWindow(first, base + 8, payload, base + 8, base + SlotSize());
      SpliceWindow(second, base, even, base + 8, base + SlotSize());
      SpliceWindow(third, 0, index, base + 8, base + SlotSize());
      SpliceWindow(third, 0, index, 0, 4);
    }

    /** Everything but the index and the slot that `Write` took for inactive. */
    predicate SameElsewhere(bytes: seq<byte>, after: seq<byte>, x: nat)
      requires |bytes| == |after| >= TotalSize() && x < 2
    {
      var base := SlotBase(1 - x);
      && after[base..base + SlotSize()] == bytes[base..base + SlotSize()]
      && after[4..8] == bytes[4..8]
      && after[TotalSize()..] == bytes[TotalSize()..]
    }

    lemma WrittenElsewhere(bytes: seq<byte>, x: nat, odd: seq<byte>, even: seq<byte>, payload: seq<byte>,
                           index: seq<byte>)
      requires |bytes| >= TotalSize() && x < 2
      requires |payload| == payloadSize && |odd| == |even| == 8 && |index| == 4
      ensures SameElsewhere(bytes, Rewritten(bytes, x, odd, even, payload, index), x)
    {
      var base := SlotBase(1 - x);
      Elsewhere(bytes, x, odd, even, payload, index, base, base + SlotSize());
      Elsewhere(bytes, x, odd, even, payload, index, 4, 8);
      Elsewhere(bytes, x, odd, even, payload, index, TotalSize(), |bytes|);
      var after := Rewritten(bytes, x, odd, even, payload, index);
      assert after[TotalSize()..] == after[TotalSize()..|bytes|];
      assert bytes[TotalSize()..] == bytes[TotalSize()..|bytes|];
    }

    lemma SameSlot(bytes: seq<byte>, after: seq<byte>, x: nat)
      requires |bytes| == |after| >= TotalSize() && x < 2
      requires after[SlotBase(x)..SlotBase(x) + SlotSize()] == bytes[SlotBase(x)..SlotBase(x) + SlotSize()]
      ensures SlotAt(after, x) == SlotAt(bytes, x)
    {
      var lo, hi := SlotBase(x), SlotBase(x) + SlotSize();
      assert after[lo..lo + 8] == after[lo..hi][..8] && bytes[lo..lo + 8] == bytes[lo..hi][..8];
      assert after[lo + 8..hi] == after[lo..hi][8..] && bytes[lo + 8..hi] == bytes[lo..hi][8..];
    }

    lemma Written(bytes: seq<byte>, x: nat, odd: seq<byte>, even: seq<byte>, payload: seq<byte>, index: seq<byte>)
      requires |bytes| >= TotalSize() && x < 2
      requires |payload| == payloadSize && |odd| == |even| == 8 && |index| == 4 && DecodeLE(index) == x
      ensures var after := Rewritten(bytes, x, odd, even, payload, index);
              && SameElsewhere(bytes, after, x)
              && Contents(after) == Double.Memory(x, Contents(bytes).slots[x := Double.Slot(DecodeLE(even), payload)])
    {
      WrittenElsewhere(bytes, x, odd, even, payload, index);
      WrittenSlot(bytes, x, odd, even, payload, index);
      Assembled(bytes, Rewritten(bytes, x, odd, even, payload, index), x, even, payload);
    }

    lemma Assembled(bytes: seq<byte>, after: seq<byte>, x: nat, even: seq<byte>, payload: seq<byte>)
      requires |bytes| == |after| >= TotalSize() && x < 2 && SameElsewhere(bytes, after, x)
      requires after[SlotBase(x)..SlotBase(x) + 8] == even
      requires after[SlotBase(x) + 8..SlotBase(x) + SlotSize()] == payload
      requires DecodeLE(after[0..4]) == x
      ensures Contents(after) == Double.Memory(x, Contents(bytes).slots[x := Double.Slot(DecodeLE(even), payload)])
    {
      SameSlot(bytes, after, 1 - x);
      TwoSlots(after, x);
      TwoSlots(bytes, x);
    }

    lemma TwoSlots(bytes: seq<byte>, x: nat)
      requires |bytes| >= TotalSize() && x < 2
      ensures Contents(bytes).slots[x] == SlotAt(bytes, x) && Contents(bytes).slots[1 - x] == SlotAt(bytes, 1 - x)
    {
    }

    method ReadRelaxed(buf: array<byte>) returns (r: ReadResult)
      ensures r == if buf.Length < TotalSize() then Err(RuntimeError)
                   else var m := Contents(buf[..]); Ok(m.slots[m.Active()].payload)
    {
      if buf.Length < TotalSize() {
        return Err(RuntimeError);
      }
      var base := SlotBase(ActiveIndex(buf));
      assert buf[base + 8..base + SlotSize()] == buf[..][base + 8..base + SlotSize()];
      r := Ok(buf[base + 8..base + SlotSize()]);
    }

    /** Alone on the buffer, the retry loop returns the active payload exactly when the word of
        the active slot is even. */
    method ReadConsistent(buf: array<byte>, maxRetries: int) returns (r: ReadResult)
      ensures r == if buf.Length < TotalSize() then Err(RuntimeError)
                   else if maxRetries <= 0 then Err(ValueError)
                   else var m := Contents(buf[..]);
                     if m.slots[m.Active()].sequence % 2 == 0 then Ok(m.slots[m.Active()].payload)
                     else Err(RuntimeError)
    {
      if buf.Length < TotalSize() {
        return Err(RuntimeError);
      }
      if maxRetries <= 0 {
        return Err(ValueError);
      }
      ghost var m := Contents(buf[..]);
      for attempt := 0 to maxRetries
        invariant attempt > 0 ==> m.slots[m.Active()].sequence % 2 != 0
      {
        var index := ActiveIndex(buf);
        var base := SlotBase(index);
        assert buf[base..base + 8] == buf[..][base..base + 8];
        assert buf[base + 8..base + SlotSize()] == buf[..][base + 8..base + SlotSize()];
        var first := ReadU64(buf, base);
        if first % 2 == 0 {
          var payload := buf[base + 8..base + SlotSize()];
          var second := ReadU64(buf, base);
          if index == ActiveIndex(buf) && first == second && second % 2 == 0 {
            return Ok(payload);
          }
        }
      }
      r := Err(RuntimeError);
    }
  }
}
