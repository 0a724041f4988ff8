/** The segment store of memory.c: a sequence of slots, each a live segment of words or
    unmapped (NULL), together with the queue of unmapped slot indices awaiting reuse. */
module Memory {
  import opened Words
  import opened Outcomes

  /** The largest index the store may hand out (memory.c:23). */
  const MaxIndex: int := 0xFFFF_FFFF

  datatype Slot = Mapped(words: seq<Word>) | Unmapped

  /** `slots` is the Hanson sequence `memory`; `pool` is the sequence `unmapped`,
      oldest freed index first. */
  datatype Store = Store(slots: seq<Slot>, pool: seq<nat>)

  /** A segment index together with the store that now holds it. */
  datatype Allocation = Allocation(store: Store, handle: nat)

  /** The store right after the two `Seq_new(0)` calls of the loader. */
  const Empty: Store := Store([], [])

  /** The store invariant: the pool lists exactly the unmapped slots, each once, and
      every index fits in a 32-bit register. */
  predicate Valid(st: Store)
  {
    && |st.slots| <= WordModulus
    && (forall i :: 0 <= i < |st.pool| ==> st.pool[i] < |st.slots| && st.slots[st.pool[i]].Unmapped?)
    && (forall h :: 0 <= h < |st.slots| && st.slots[h].Unmapped? ==> h in st.pool)
    && (forall i, j :: 0 <= i < j < |st.pool| ==> st.pool[i] != st.pool[j])
  }

  /** The longest segment `UArray_new` accepts: its length parameter is a C `int`, so an
      unsigned word count of 2^31 or more arrives as a negative length and is rejected. */
  const MaxSegmentWords: int := 0x7FFF_FFFF

  /** `UArray_new`: a fresh segment of `n` zero words. */
  function Zeros(n: nat): (ws: seq<Word>)
    ensures |ws| == n
    ensures forall k :: 0 <= k < n ==> ws[k] == 0
  {
    seq(n, _ => 0)
  }

  /** `segment_new`: map a zero-filled segment of `numWords` words. The oldest pooled
      index is reused first; with an empty pool a new slot is appended. A count that
      does not fit `UArray_new`'s `int` length faults. */
  function SegmentNew(st: Store, numWords: nat): (r: Result<Allocation>)
    ensures numWords == 0 || numWords > MaxSegmentWords ==> r.Fault?
    ensures Valid(st) ==> (r.Ok? <==> 0 < numWords <= MaxSegmentWords && (|st.pool| > 0 || |st.slots| <= MaxIndex))
    ensures r.Ok? ==>
              && r.value.handle <= MaxIndex
              && r.value.handle < |r.value.store.slots|
              && |st.slots| <= |r.value.store.slots|
              && r.value.store.slots[r.value.handle].Mapped?
              && |r.value.store.slots[r.value.handle].words| == numWords
              && (forall k :: 0 <= k < numWords ==> r.value.store.slots[r.value.handle].words[k] == 0)
              && (forall h :: 0 <= h < |st.slots| && h != r.value.handle ==> r.value.store.slots[h] == st.slots[h])
    ensures r.Ok? && |st.pool| == 0 ==>
              && r.value.handle == |st.slots|
              && |r.value.store.slots| == |st.slots| + 1
              && r.value.store.pool == []
    ensures r.Ok? && |st.pool| > 0 ==>
              && r.value.handle == st.pool[0]
              && r.value.store.pool == st.pool[1..]
              && |r.value.store.slots| == |st.slots|
  {
    if numWords == 0 then Fault
    // UArray_new(num_words, ...) converts the count to int and asserts it is not negative
    else if numWords > MaxSegmentWords then Fault
    else if |st.pool| == 0 then
      var slots := st.slots + [Mapped(Zeros(numWords))];
      if |slots| - 1 <= MaxIndex then Ok(Allocation(Store(slots, st.pool), |slots| - 1)) else Fault
    else
      var index := st.pool[0];
      // Seq_put rejects an index outside the sequence
      if index < |st.slots| then
        var slots := st.slots[index := Mapped(Zeros(numWords))];
        if |slots| - 1 <= MaxIndex then Ok(Allocation(Store(slots, st.pool[1..]), index)) else Fault
      else Fault
  }

  /** `segment_free`: unmap a live slot and queue its index at the back of the pool.
      Index 0 is not rejected here. */
  function SegmentFree(st: Store, index: nat): (r: Result<Store>)
    ensures r.Ok? <==> index < |st.slots| && st.slots[index].Mapped?
    ensures r.Ok? ==>
              && |r.value.slots| == |st.slots|
              && r.value.slots[index].Unmapped?
              && r.value.pool == st.pool + [index]
              && (forall h :: 0 <= h < |st.slots| && h != index ==> r.value.slots[h] == st.slots[h])
  {
    if index >= |st.slots| then Fault
    else if st.slots[index].Unmapped? then Fault
    else Ok(Store(st.slots[index := Unmapped], st.pool + [index]))
  }

  /** `load_segment`: replace slot 0 with a copy of slot `index`; index 0 is a no-op. */
  function LoadSegment(st: Store, index: nat): (r: Result<Store>)
    ensures index == 0 ==> r == Ok(st)
    ensures index != 0 ==> (r.Ok? <==> index < |st.slots| && st.slots[0].Mapped? && st.slots[index].Mapped?)
    ensures r.Ok? ==>
              && r.value.pool == st.pool
              && |r.value.slots| == |st.slots|
              && (index < |st.slots| ==> r.value.slots[0] == st.slots[index])
              && (forall h :: 0 < h < |st.slots| ==> r.value.slots[h] == st.slots[h])
  {
    if index == 0 then Ok(st)
    else if index >= |st.slots| then Fault
    // the old slot 0 must be live to be freed, and the source must be live to be copied
    else if st.slots[0].Unmapped? || st.slots[index].Unmapped? then Fault
    else Ok(Store(st.slots[0 := st.slots[index]], st.pool))
  }

  /** The bounds `segment_at` asserts before it hands out a word. */
  predicate Addressable(st: Store, index: nat, offset: nat)
  {
    index < |st.slots| && st.slots[index].Mapped? && offset < |st.slots[index].words|
  }

  /** Reading through the pointer `segment_at` returns. */
  function SegmentRead(st: Store, index: nat, offset: nat): (r: Result<Word>)
    ensures r.Ok? <==> Addressable(st, index, offset)
  {
    if Addressable(st, index, offset) then Ok(st.slots[index].words[offset]) else Fault
  }

  /** Writing through the pointer `segment_at` returns: exactly one word changes. */
  function SegmentWrite(st: Store, index: nat, offset: nat, w: Word): (r: Result<Store>)
    ensures r.Ok? <==> Addressable(st, index, offset)
    ensures r.Ok? ==>
              && r.value.pool == st.pool
              && |r.value.slots| == |st.slots|
              && r.value.slots[index].Mapped?
              && |r.value.slots[index].words| == |st.slots[index].words|
              && (forall h :: 0 <= h < |st.slots| && h != index ==> r.value.slots[h] == st.slots[h])
  {
    if Addressable(st, index, offset) then
      Ok(Store(st.slots[index := Mapped(st.slots[index].words[offset := w])], st.pool))
    else Fault
  }

  /** `num_instructions`: the length of slot 0. */
  function NumInstructions(st: Store): (r: Result<nat>)
    ensures r.Ok? <==> |st.slots| > 0 && st.slots[0].Mapped?
    ensures r.Ok? ==> forall k: nat :: k < r.value <==> Addressable(st, 0, k)
  {
    if |st.slots| == 0 || st.slots[0].Unmapped? then Fault else Ok(|st.slots[0].words|)
  }

  /** A store through `segment_at` is seen by the next read of that word and by no other. */
  lemma ReadAfterWrite(st: Store, index: nat, offset: nat, w: Word)
    requires SegmentWrite(st, index, offset, w).Ok?
    ensures SegmentRead(SegmentWrite(st, index, offset, w).value, index, offset) == Ok(w)
    ensures forall h: nat, o: nat :: h != index || o != offset ==>
              SegmentRead(SegmentWrite(st, index, offset, w).value, h, o) == SegmentRead(st, h, o)
  {
  }

  /** `segment_new` keeps the pool an exact, duplicate-free list of the unmapped slots. */
  lemma NewPreservesValid(st: Store, numWords: nat)
    requires Valid(st) && SegmentNew(st, numWords).Ok?
    ensures Valid(SegmentNew(st, numWords).value.store)
  {
    var a := SegmentNew(st, numWords).value;
    if |st.pool| > 0 {
      forall h | 0 <= h < |a.store.slots| && a.store.slots[h].Unmapped?
        ensures h in a.store.pool
      {
        assert h != st.pool[0] && h in st.pool;
        var i :| 0 <= i < |st.pool| && st.pool[i] == h;
        assert i > 0 && a.store.pool[i - 1] == h;
      }
      forall i | 0 <= i < |a.store.pool|
        ensures a.store.pool[i] < |a.store.slots| && a.store.slots[a.store.pool[i]].Unmapped?
      {
        assert a.store.pool[i] == st.pool[i + 1] != st.pool[0];
      }
    }
  }

  /** `segment_free` keeps the pool an exact, duplicate-free list of the unmapped slots. */
  lemma FreePreservesValid(st: Store, index: nat)
    requires Valid(st) && SegmentFree(st, index).Ok?
    ensures Valid(SegmentFree(st, index).value)
  {
    var s := SegmentFree(st, index).value;
    assert index !in st.pool;
    forall i | 0 <= i < |s.pool|
      ensures s.pool[i] < |s.slots| && s.slots[s.pool[i]].Unmapped?
    {
      if i < |st.pool| {
        assert s.pool[i] == st.pool[i];
      }
    }
  }

  /** Writing a word changes no slot's mapped status, so the invariant survives. */
  lemma WritePreservesValid(st: Store, index: nat, offset: nat, w: Word)
    requires Valid(st) && SegmentWrite(st, index, offset, w).Ok?
    ensures Valid(SegmentWrite(st, index, offset, w).value)
  {
    var s := SegmentWrite(st, index, offset, w).value;
    forall h | 0 <= h < |s.slots| && s.slots[h].Unmapped?
      ensures h in s.pool
    {
      assert st.slots[h].Unmapped?;
    }
  }

  /** Copying a live slot into slot 0 changes no slot's mapped status. */
  lemma LoadSegmentPreservesValid(st: Store, index: nat)
    requires Valid(st) && LoadSegment(st, index).Ok?
    ensures Valid(LoadSegment(st, index).value)
  {
    var s := LoadSegment(st, index).value;
    forall h | 0 <= h < |s.slots| && s.slots[h].Unmapped?
      ensures h in s.pool
    {
      assert st.slots[h].Unmapped?;
    }
  }

  /** While slot 0 is live, `segment_new` never hands out index 0 and leaves slot 0 alone. */
  lemma NewAvoidsSlotZero(st: Store, numWords: nat)
    requires Valid(st) && |st.slots| > 0 && st.slots[0].Mapped?
    requires SegmentNew(st, numWords).Ok?
    ensures SegmentNew(st, numWords).value.handle != 0
    ensures SegmentNew(st, numWords).value.store.slots[0] == st.slots[0]
  {
  }

  /** An index freed into an empty pool is the next one handed out, and its segment
      comes back zero-filled rather than with its old contents. */
  lemma FreeThenNewReuses(st: Store, index: nat, numWords: nat)
    requires Valid(st) && |st.pool| == 0 && 0 < numWords <= MaxSegmentWords
    requires SegmentFree(st, index).Ok?
    ensures SegmentNew(SegmentFree(st, index).value, numWords).Ok?
    ensures var a := SegmentNew(SegmentFree(st, index).value, numWords).value;
            && a.handle == index
            && forall k :: 0 <= k < numWords ==> SegmentRead(a.store, index, k) == Ok(0)
  {
    FreePreservesValid(st, index);
  }

  /** Reuse is first-in first-out: after freeing `first` and then `second`, the next two
      allocations return `first` and then `second`, whichever is the smaller number. */
  lemma ReuseIsOldestFirst(st: Store, first: nat, second: nat, n1: nat, n2: nat)
    requires Valid(st) && |st.pool| == 0 && 0 < n1 <= MaxSegmentWords && 0 < n2 <= MaxSegmentWords
    requires SegmentFree(st, first).Ok?
    requires SegmentFree(SegmentFree(st, first).value, second).Ok?
    ensures var freed := SegmentFree(SegmentFree(st, first).value, second).value;
            && SegmentNew(freed, n1).Ok?
            && SegmentNew(freed, n1).value.handle == first
            && SegmentNew(SegmentNew(freed, n1).value.store, n2).Ok?
            && SegmentNew(SegmentNew(freed, n1).value.store, n2).value.handle == second
  {
    var s1 := SegmentFree(st, first).value;
    FreePreservesValid(st, first);
    var freed := SegmentFree(s1, second).value;
    FreePreservesValid(s1, second);
    assert freed.pool == [first, second];
    NewPreservesValid(freed, n1);
  }
}
