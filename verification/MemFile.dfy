/** The shared-memory ring: a 16-byte header (item size, number of items, index of
    the newest item, type and semaphore) followed by the items, all on bytes,
    little-endian. */
module MemFile {
  import opened Prelude
  import PoolIndex

  type Byte = b: int | 0 <= b < 256

  const HEADER: nat := 16
  const SEMAPHORE_POS: nat := 14

  const BOOL: nat := 1
  const INT8: nat := 2
  const INT32: nat := 3
  const QUALITY: nat := 7
  const GENTIME: nat := 12

  const INT_MAX: int := 0x7FFF_FFFF

  // ---- 32-bit integers in memory ----

  predicate IsInt(v: int) {
    -INT_MAX - 1 <= v <= INT_MAX
  }

  function IntAt(m: seq<Byte>, o: nat): (v: int)
    requires o + 4 <= |m|
    ensures IsInt(v)
  {
    var u := m[o] as int + 0x100 * (m[o + 1] as int + 0x100 * (m[o + 2] as int + 0x100 * m[o + 3] as int));
    if u <= INT_MAX then u else u - 0x1_0000_0000
  }

  function IntBytes(v: int): (b: seq<Byte>)
    requires IsInt(v)
    ensures |b| == 4 && IntAt(b, 0) == v
  {
    var u := if v >= 0 then v else v + 0x1_0000_0000;
    var u1 := u / 0x100;
    var u2 := u1 / 0x100;
    [u % 0x100, u1 % 0x100, u2 % 0x100, u2 / 0x100]
  }

  // Byte k of a word holds its k-th group of eight bits, the sign in the last.
  lemma IntBytesAre(v: int)
    requires IsInt(v)
    ensures var u := if v >= 0 then v else v + 0x1_0000_0000;
            IntBytes(v) == [u % 0x100, u / 0x100 % 0x100, u / 0x1_0000 % 0x100, u / 0x100_0000 % 0x100]
  {
    var u, b := if v >= 0 then v else v + 0x1_0000_0000, IntBytes(v);
    IntAtIs(b, 0);
    GroupsOf(u, b[0], b[1], b[2], b[3]);
  }

  lemma GroupsOf(u: int, b0: Byte, b1: Byte, b2: Byte, b3: Byte)
    requires u == b0 + 0x100 * b1 + 0x1_0000 * b2 + 0x100_0000 * b3
    ensures u % 0x100 == b0 && u / 0x100 % 0x100 == b1
    ensures u / 0x1_0000 % 0x100 == b2 && u / 0x100_0000 % 0x100 == b3
  {
    assert u / 0x100 == b1 + 0x100 * b2 + 0x1_0000 * b3;
    assert u / 0x1_0000 == b2 + 0x100 * b3;
    assert u / 0x100_0000 == b3;
  }

  lemma IntAtIs(m: seq<Byte>, o: nat)
    requires o + 4 <= |m|
    ensures var u := m[o] as int + 0x100 * m[o + 1] as int + 0x1_0000 * m[o + 2] as int + 0x100_0000 * m[o + 3] as int;
            IntAt(m, o) == if u < 0x8000_0000 then u else u - 0x1_0000_0000
  {}

  lemma IntAtSlice(m: seq<Byte>, o: nat)
    requires o + 4 <= |m|
    ensures IntAt(m, o) == IntAt(m[o..o + 4], 0)
  {}

  // ---- the header ----

  function ReadSize(m: seq<Byte>): int
    requires |m| >= HEADER
  {
    IntAt(m, 0)
  }

  function ReadItems(m: seq<Byte>): int
    requires |m| >= HEADER
  {
    IntAt(m, 4)
  }

  function ReadIndex(m: seq<Byte>): int
    requires |m| >= HEADER
  {
    IntAt(m, 8)
  }

  // The low 16 bits of the word that also holds the semaphore.
  function ReadType(m: seq<Byte>): int
    requires |m| >= HEADER
  {
    IntAt(m, 12) % 0x1_0000
  }

  // The header's words: size, items and index, in this order.
  lemma HeaderLayout(m: seq<Byte>)
    requires |m| >= 16
    ensures ReadSize(m) == IntAt(m[0..4], 0) && ReadItems(m) == IntAt(m[4..8], 0) && ReadIndex(m) == IntAt(m[8..12], 0)
  {
    IntAtSlice(m, 0);
    IntAtSlice(m, 4);
    IntAtSlice(m, 8);
  }

  // Taking or freeing the lock does not change what type is read.
  lemma TypeIgnoresSemaphore(m: seq<Byte>, b: Byte)
    requires |m| >= HEADER
    ensures ReadType(m[SEMAPHORE_POS := b]) == ReadType(m) == m[12] as int + 0x100 * m[13] as int
  {
    TypeIsTwoBytes(m);
    TypeIsTwoBytes(m[SEMAPHORE_POS := b]);
  }

  lemma TypeIsTwoBytes(m: seq<Byte>)
    requires |m| >= HEADER
    ensures ReadType(m) == m[12] as int + 0x100 * m[13] as int
  {}

  // The remainder of non-negative operands, by repeated subtraction.
  function Mod(a: nat, n: nat): (r: nat)
    requires n > 0
    ensures r < n && r <= a
    ensures a < n ==> r == a
  {
    if a < n then a else Mod(a - n, n)
  }

  lemma {:induction false} ModIsRemainder(a: nat, n: nat)
    requires n > 0
    ensures Mod(a, n) == a % n
  {
    if a >= n {
      ModIsRemainder(a - n, n);
      PoolIndex.SlotRepeats(a - n, n);
    }
  }

  lemma {:induction false} ModStep(a: nat, n: nat)
    requires n > 0
    ensures Mod(Mod(a, n) + 1, n) == Mod(a + 1, n)
  {
    if a >= n {
      ModStep(a - n, n);
    }
  }

  lemma {:induction false} ModFar(a: nat, b: nat, n: nat)
    requires n > 0 && a < b && Mod(a, n) == Mod(b, n)
    ensures b >= a + n
  {
    if a >= n {
      ModFar(a - n, b - n, n);
    }
  }

  function CalculateBufferSize(itemSize: int, maxItems: int): int {
    HEADER + itemSize * maxItems
  }

  // ---- the ring ----

  // A ring whose header is set up, whose lock is free, and whose mapping is as
  // long as calculate_buffer_size says (OffsetIsProduct).
  ghost predicate Ring(m: seq<Byte>, width: nat) {
    && |m| >= HEADER && width > 0 && ReadSize(m) == width
    && ReadItems(m) > 0 && 0 <= ReadIndex(m) < ReadItems(m)
    && m[SEMAPHORE_POS] == 0
    && |m| == Offset(ReadItems(m), width)
  }

  // Where slot i starts; slot `items` would start where the file ends.
  function Offset(i: nat, width: nat): (o: nat)
    ensures o >= HEADER
  {
    if i == 0 then HEADER else Offset(i - 1, width) + width
  }

  lemma {:induction false} OffsetIsProduct(i: nat, width: nat)
    ensures Offset(i, width) == CalculateBufferSize(width, i) == 16 + width * i
  {
    if i > 0 {
      OffsetIsProduct(i - 1, width);
    }
  }

  lemma {:induction false} OffsetsApart(i: nat, j: nat, width: nat)
    requires i < j
    ensures Offset(i, width) + width <= Offset(j, width)
    decreases j
  {
    if i + 1 < j {
      OffsetsApart(i, j - 1, width);
    }
  }

  lemma OffsetsDisjoint(i: nat, j: nat, width: nat)
    requires i != j
    ensures Offset(i, width) + width <= Offset(j, width) || Offset(j, width) + width <= Offset(i, width)
  {
    if i < j {
      OffsetsApart(i, j, width);
    } else {
      OffsetsApart(j, i, width);
    }
  }

  lemma OffsetInRing(m: seq<Byte>, i: nat, width: nat)
    requires Ring(m, width) && i < ReadItems(m)
    ensures Offset(i, width) + width <= |m|
  {
    OffsetsApart(i, ReadItems(m), width);
  }

  ghost function Item(m: seq<Byte>, i: nat, width: nat): (item: seq<Byte>)
    requires Ring(m, width) && i < ReadItems(m)
    ensures |item| == width
  {
    OffsetInRing(m, i, width);
    m[Offset(i, width)..Offset(i, width) + width]
  }

  lemma PutElsewhere(m: seq<Byte>, o: nat, b: seq<Byte>, k: nat, v: Byte)
    requires o + |b| <= |m| && k < |m| && (k < o || o + |b| <= k)
    ensures Put(m[k := v], o, b) == Put(m, o, b)[k := v]
  {}

  function NextIndex(m: seq<Byte>): nat
    requires |m| >= HEADER && ReadItems(m) > 0 && ReadIndex(m) >= 0
  {
    Mod(ReadIndex(m) + 1, ReadItems(m))
  }

  ghost function Written(m: seq<Byte>, item: seq<Byte>): (r: seq<Byte>)
    requires |item| > 0 && Ring(m, |item|)
    ensures |r| == |m|
  {
    OffsetInRing(m, NextIndex(m), |item|);
    Put(Put(m, Offset(NextIndex(m), |item|), item), 8, IntBytes(NextIndex(m)))
  }

  // ---- waiting for the lock ----

  // The bytes when the lock is first found free, given the contents that other
  // processes leave while it is not, one after the other.
  function FirstFree(m: seq<Byte>, seen: seq<seq<Byte>>): (free: seq<Byte>)
    requires |m| >= HEADER && Frees(m, seen)
    ensures |free| == |m| && free[SEMAPHORE_POS] == 0
    decreases |seen|
  {
    if m[SEMAPHORE_POS] == 0 then m else FirstFree(seen[0], seen[1..])
  }

  // The others free the lock, and keep the mapping's length.
  ghost predicate Frees(m: seq<Byte>, seen: seq<seq<Byte>>)
    requires |m| >= HEADER
    decreases |seen|
  {
    m[SEMAPHORE_POS] == 0 || (seen != [] && |seen[0]| == |m| && Frees(seen[0], seen[1..]))
  }

  // It is the first of the contents that has the semaphore byte clear.
  lemma {:induction false} FirstFreeIsFirst(m: seq<Byte>, seen: seq<seq<Byte>>) returns (k: nat)
    requires |m| >= HEADER && Frees(m, seen)
    ensures k <= |seen| && FirstFree(m, seen) == ([m] + seen)[k]
    ensures forall j :: 0 <= j <= k ==> |([m] + seen)[j]| == |m| && (([m] + seen)[j][14] == 0 <==> j == k)
    decreases |seen|
  {
    k := 0;
    if m[SEMAPHORE_POS] != 0 {
      k := FirstFreeIsFirst(seen[0], seen[1..]);
      assert [seen[0]] + seen[1..] == seen;
      k := k + 1;
    }
  }

  // Another process has run.
  method Become(buffer: array<Byte>, m: seq<Byte>)
    requires buffer.Length == |m|
    modifies buffer
    ensures buffer[..] == m
  {
    forall k | 0 <= k < |m| {
      buffer[k] := m[k];
    }
  }

  // The busy wait of lock_buffer, and the write that takes the lock.
  method LockBuffer(buffer: array<Byte>, seen: seq<seq<Byte>>)
    requires buffer.Length >= HEADER && Frees(buffer[..], seen)
    modifies buffer
    ensures buffer[..] == FirstFree(old(buffer[..]), seen)[SEMAPHORE_POS := 1]
  {
    var rest := seen;
    ghost var m := buffer[..];
    while buffer[SEMAPHORE_POS] != 0
      invariant Frees(buffer[..], rest) && FirstFree(buffer[..], rest) == FirstFree(m, seen)
      decreases |rest|
    {
      Become(buffer, rest[0]);
      rest := rest[1..];
    }
    ghost var free := buffer[..];
    buffer[SEMAPHORE_POS] := 1;
    assert buffer[..] == free[SEMAPHORE_POS := 1];
  }

  // ---- the writers ----

  ghost predicate Accepts(m: seq<Byte>, tag: nat, width: nat) {
    |m| >= HEADER && ReadType(m) == tag && ReadSize(m) == width
  }

  // What a writer of the right type and size relies on: a ring of its width once
  // the lock is free, with as many items as before.
  ghost predicate Ready(m: seq<Byte>, tag: nat, width: nat, seen: seq<seq<Byte>>) {
    |m| >= HEADER
    && (Accepts(m, tag, width) ==>
          && Frees(m, seen)
          && Ring(FirstFree(m, seen), width) && ReadItems(FirstFree(m, seen)) == ReadItems(m))
  }

  // The five typed writers differ in the type tag and in how the value becomes
  // bytes. A writer of another type or size leaves the file alone.
  method WriteOutput(buffer: array<Byte>, tag: nat, item: seq<Byte>, seen: seq<seq<Byte>>) returns (rejected: bool)
    requires (|item| == 1 || |item| == 4) && Ready(buffer[..], tag, |item|, seen)
    modifies buffer
    ensures rejected <==> ReadType(old(buffer[..])) != tag || ReadSize(old(buffer[..])) != |item|
    ensures buffer[..] == if rejected then old(buffer[..])
                          else Written(FirstFree(old(buffer[..]), seen), item)
  {
    if ReadType(buffer[..]) != tag || ReadSize(buffer[..]) != |item| {
      return true;
    }
    rejected := false;
    var items := ReadItems(buffer[..]);
    ghost var free := FirstFree(buffer[..], seen);
    LockBuffer(buffer, seen);
    WriteNext(buffer, items, item, free);
  }

  // Under the lock: the item after the newest, then the index; then the lock is freed.
  method WriteNext(buffer: array<Byte>, items: nat, item: seq<Byte>, ghost m: seq<Byte>)
    requires |item| > 0 && Ring(m, |item|) && items == ReadItems(m)
    requires buffer[..] == m[SEMAPHORE_POS := 1]
    modifies buffer
    ensures buffer[..] == Written(m, item)
  {
    var index := Mod(ReadIndex(buffer[..]) + 1, items);
    OffsetInRing(m, index, |item|);
    StoreItem(buffer, index, item);
    WrittenUnderLock(m, item);
    ghost var locked := buffer[..];
    buffer[SEMAPHORE_POS] := 0;
    assert buffer[..] == locked[SEMAPHORE_POS := 0];
  }

  method StoreItem(buffer: array<Byte>, index: nat, item: seq<Byte>)
    requires HEADER <= buffer.Length && IsInt(index) && Offset(index, |item|) + |item| <= buffer.Length
    modifies buffer
    ensures buffer[..] == Put(Put(old(buffer[..]), Offset(index, |item|), item), 8, IntBytes(index))
  {
    Store(buffer, Offset(index, |item|), item);
    Store(buffer, 8, IntBytes(index));
  }

  lemma LockInvisible(m: seq<Byte>, o: nat, item: seq<Byte>, b: seq<Byte>)
    requires HEADER <= o && o + |item| <= |m| && |b| == 4 && m[SEMAPHORE_POS] == 0
    ensures Put(Put(m[SEMAPHORE_POS := 1], o, item), 8, b)[SEMAPHORE_POS := 0] == Put(Put(m, o, item), 8, b)
  {
    PutElsewhere(m, o, item, SEMAPHORE_POS, 1);
    PutElsewhere(Put(m, o, item), 8, b, SEMAPHORE_POS, 1);
  }

  lemma WrittenUnderLock(m: seq<Byte>, item: seq<Byte>)
    requires |item| > 0 && Ring(m, |item|)
    ensures var index := NextIndex(m);
            && Offset(index, |item|) + |item| <= |m|
            && Put(Put(m[SEMAPHORE_POS := 1], Offset(index, |item|), item), 8, IntBytes(index))[SEMAPHORE_POS := 0]
               == Written(m, item)
  {
    OffsetInRing(m, NextIndex(m), |item|);
    LockInvisible(m, Offset(NextIndex(m), |item|), item, IntBytes(NextIndex(m)));
  }

  method Store(buffer: array<Byte>, o: nat, b: seq<Byte>)
    requires o + |b| <= buffer.Length
    modifies buffer
    ensures buffer[..] == Put(old(buffer[..]), o, b)
  {
    var k := 0;
    while k < |b|
      invariant 0 <= k <= |b|
      invariant buffer[o..o + k] == b[..k]
      invariant buffer[..o] == old(buffer[..o]) && buffer[o + k..] == old(buffer[o + k..])
    {
      buffer[o + k] := b[k];
      k := k + 1;
    }
    assert buffer[..] == buffer[..o] + buffer[o..o + k] + buffer[o + k..];
  }

  method WriteOutputInt(buffer: array<Byte>, value: int, seen: seq<seq<Byte>>) returns (rejected: bool)
    requires IsInt(value) && Ready(buffer[..], INT32, 4, seen)
    modifies buffer
    ensures rejected <==> ReadType(old(buffer[..])) != 3 || ReadSize(old(buffer[..])) != 4
    ensures buffer[..] == if rejected then old(buffer[..])
                          else Written(FirstFree(old(buffer[..]), seen), IntBytes(value))
  {
    rejected := WriteOutput(buffer, INT32, IntBytes(value), seen);
  }

  method WriteOutputBool(buffer: array<Byte>, value: Byte, seen: seq<seq<Byte>>) returns (rejected: bool)
    requires Ready(buffer[..], BOOL, 1, seen)
    modifies buffer
    ensures rejected <==> ReadType(old(buffer[..])) != 1 || ReadSize(old(buffer[..])) != 1
    ensures buffer[..] == if rejected then old(buffer[..])
                          else Written(FirstFree(old(buffer[..]), seen), [value])
  {
    rejected := WriteOutput(buffer, BOOL, [value], seen);
  }

  method WriteOutputInt8(buffer: array<Byte>, value: Byte, seen: seq<seq<Byte>>) returns (rejected: bool)
    requires Ready(buffer[..], INT8, 1, seen)
    modifies buffer
    ensures rejected <==> ReadType(old(buffer[..])) != 2 || ReadSize(old(buffer[..])) != 1
    ensures buffer[..] == if rejected then old(buffer[..])
                          else Written(FirstFree(old(buffer[..]), seen), [value])
  {
    rejected := WriteOutput(buffer, INT8, [value], seen);
  }

  method WriteOutputQuality(buffer: array<Byte>, value: int, seen: seq<seq<Byte>>) returns (rejected: bool)
    requires IsInt(value) && Ready(buffer[..], QUALITY, 4, seen)
    modifies buffer
    ensures rejected <==> ReadType(old(buffer[..])) != 7 || ReadSize(old(buffer[..])) != 4
    ensures buffer[..] == if rejected then old(buffer[..])
                          else Written(FirstFree(old(buffer[..]), seen), IntBytes(value))
  {
    rejected := WriteOutput(buffer, QUALITY, IntBytes(value), seen);
  }

  method WriteOutputTime(buffer: array<Byte>, value: int, seen: seq<seq<Byte>>) returns (rejected: bool)
    requires IsInt(value) && Ready(buffer[..], GENTIME, 4, seen)
    modifies buffer
    ensures rejected <==> ReadType(old(buffer[..])) != 12 || ReadSize(old(buffer[..])) != 4
    ensures buffer[..] == if rejected then old(buffer[..])
                          else Written(FirstFree(old(buffer[..]), seen), IntBytes(value))
  {
    rejected := WriteOutput(buffer, GENTIME, IntBytes(value), seen);
  }

  // ---- what a write keeps ----

  lemma PutReads(m: seq<Byte>, o: nat, b: seq<Byte>, p: nat, n: nat)
    requires o + |b| <= |m| && p + n <= |m|
    ensures Put(m, o, b)[o..o + |b|] == b
    ensures p + n <= o || o + |b| <= p ==> Put(m, o, b)[p..p + n] == m[p..p + n]
  {
    var r := Put(m, o, b);
    forall i | 0 <= i < |m|
      ensures r[i] == if o <= i < o + |b| then b[i - o] else m[i]
    {
    }
  }

  lemma SameInt(m: seq<Byte>, r: seq<Byte>, o: nat)
    requires o + 4 <= |m| && o + 4 <= |r| && m[o..o + 4] == r[o..o + 4]
    ensures IntAt(m, o) == IntAt(r, o)
  {
    IntAtSlice(m, o);
    IntAtSlice(r, o);
  }

  // ---- the bytes of a written ring ----

  // Everything but the slot and the index is as before.
  lemma OthersKept(m: seq<Byte>, item: seq<Byte>, p: nat, n: nat)
    requires |item| > 0 && Ring(m, |item|) && p + n <= |m|
    requires p + n <= 8 || 12 <= p
    requires p + n <= Offset(NextIndex(m), |item|) || Offset(NextIndex(m), |item|) + |item| <= p
    ensures Written(m, item)[p..p + n] == m[p..p + n]
  {
    var o := Offset(NextIndex(m), |item|);
    OffsetInRing(m, NextIndex(m), |item|);
    PutReads(m, o, item, p, n);
    PutReads(Put(m, o, item), 8, IntBytes(NextIndex(m)), p, n);
  }

  lemma SlotThenIndex(m: seq<Byte>, o: nat, item: seq<Byte>, b: seq<Byte>)
    requires HEADER <= o && o + |item| <= |m| && |b| == 4
    ensures var r := Put(Put(m, o, item), 8, b);
            r[o..o + |item|] == item && r[8..12] == b
  {
    PutReads(m, o, item, 0, 0);
    PutReads(Put(m, o, item), 8, b, o, |item|);
  }

  lemma SlotWritten(m: seq<Byte>, item: seq<Byte>, o: nat)
    requires |item| > 0 && Ring(m, |item|) && o == Offset(NextIndex(m), |item|)
    ensures var r := Written(m, item);
            o + |item| <= |m| && r[o..o + |item|] == item && r[8..12] == IntBytes(NextIndex(m))
  {
    OffsetInRing(m, NextIndex(m), |item|);
    SlotThenIndex(m, o, item, IntBytes(NextIndex(m)));
  }

  lemma WrittenKeepsHeader(m: seq<Byte>, item: seq<Byte>, o: nat)
    requires |item| > 0 && Ring(m, |item|) && (o == 0 || o == 4 || o == 12)
    ensures Written(m, item)[o..o + 4] == m[o..o + 4] && IntAt(Written(m, item), o) == IntAt(m, o)
  {
    OthersKept(m, item, o, 4);
    SameInt(m, Written(m, item), o);
  }

  lemma WrittenKeepsRing(m: seq<Byte>, item: seq<Byte>)
    requires |item| > 0 && Ring(m, |item|)
    ensures var r := Written(m, item);
            && Ring(r, |item|) && ReadItems(r) == ReadItems(m) && ReadIndex(r) == NextIndex(m)
            && ReadType(r) == ReadType(m)
  {
    var r := Written(m, item);
    WrittenKeepsHeader(m, item, 0);
    WrittenKeepsHeader(m, item, 4);
    WrittenKeepsHeader(m, item, 12);
    SlotWritten(m, item, Offset(NextIndex(m), |item|));
    IntAtSlice(r, 8);
    assert r[12..16][2] == m[12..16][2];
  }

  lemma OtherSlotKept(m: seq<Byte>, item: seq<Byte>, j: nat, o: nat)
    requires |item| > 0 && Ring(m, |item|) && j < ReadItems(m) && j != NextIndex(m) && o == Offset(j, |item|)
    ensures o + |item| <= |m| && Written(m, item)[o..o + |item|] == m[o..o + |item|]
  {
    OffsetInRing(m, j, |item|);
    OffsetsDisjoint(j, NextIndex(m), |item|);
    OthersKept(m, item, o, |item|);
  }

  // ---- the ring as its readers see it ----

  datatype View = View(index: nat, slots: seq<seq<Byte>>) {
    ghost predicate Valid() {
      index < |slots|
    }

    ghost function Push(item: seq<Byte>): (v: View)
      requires Valid()
      ensures v.Valid() && |v.slots| == |slots|
    {
      var i := Mod(index + 1, |slots|);
      View(i, slots[i := item])
    }
  }

  ghost function ViewOf(m: seq<Byte>, width: nat): (v: View)
    requires Ring(m, width)
    ensures v.Valid()
  {
    View(ReadIndex(m), seq(ReadItems(m), i requires 0 <= i < ReadItems(m) => Item(m, i, width)))
  }

  // On the bytes a write moves the index on by one and stores the item in the
  // slot it moves to; the header stays a ring's and every other slot stays.
  lemma WriteRefinesPush(m: seq<Byte>, item: seq<Byte>)
    requires |item| > 0 && Ring(m, |item|)
    ensures Ring(Written(m, item), |item|) && ReadType(Written(m, item)) == ReadType(m)
    ensures ViewOf(Written(m, item), |item|) == ViewOf(m, |item|).Push(item)
  {
    WrittenKeepsRing(m, item);
    SlotWritten(m, item, Offset(NextIndex(m), |item|));
    var v, w := ViewOf(m, |item|).Push(item), ViewOf(Written(m, item), |item|);
    forall j | 0 <= j < |v.slots|
      ensures w.slots[j] == v.slots[j]
    {
      if j != NextIndex(m) {
        OtherSlotKept(m, item, j, Offset(j, |item|));
      }
    }
    assert w.slots == v.slots;
  }

  ghost function PushAll(v: View, items: seq<seq<Byte>>): (r: View)
    requires v.Valid()
    ensures r.Valid() && |r.slots| == |v.slots|
  {
    if items == [] then v else PushAll(v, items[..|items| - 1]).Push(items[|items| - 1])
  }

  // After any number of writes the index has moved by their number.
  lemma {:induction false} IndexAfterWrites(v: View, items: seq<seq<Byte>>)
    requires v.Valid()
    ensures PushAll(v, items).index == Mod(v.index + |items|, |v.slots|)
    decreases |items|
  {
    if items != [] {
      IndexAfterWrites(v, items[..|items| - 1]);
      ModStep(v.index + |items| - 1, |v.slots|);
    }
  }

  // The last |slots| values written are in their slots: the k-th value, counted
  // from 1, is k slots after the index the ring started with.
  lemma {:induction false} RingHoldsLast(v: View, items: seq<seq<Byte>>, k: nat)
    requires v.Valid() && 1 <= k <= |items| < k + |v.slots|
    ensures PushAll(v, items).slots[Mod(v.index + k, |v.slots|)] == items[k - 1]
    decreases |items|
  {
    var n, last := |v.slots|, |items| - 1;
    IndexAfterWrites(v, items);
    IndexAfterWrites(v, items[..last]);
    if k <= last {
      if Mod(v.index + k, n) == Mod(v.index + |items|, n) {
        ModFar(v.index + k, v.index + |items|, n);
      }
      RingHoldsLast(v, items[..last], k);
    }
  }

  // ---- setting a ring up ----

  // write_size, write_items and write_index, at their offsets.
  method WriteHeader(buffer: array<Byte>, o: nat, value: int, seen: seq<seq<Byte>>)
    requires IsInt(value) && buffer.Length >= HEADER && Frees(buffer[..], seen)
    requires o == 0 || o == 4 || o == 8
    modifies buffer
    ensures buffer[..] == Put(FirstFree(old(buffer[..]), seen), o, IntBytes(value)) && buffer[SEMAPHORE_POS] == 0
  {
    StoreLocked(buffer, o, IntBytes(value), seen);
  }

  // A short in two bytes; it is read back without its sign.
  function TypeBytes(tag: int): (b: seq<Byte>)
    requires IsShort(tag)
    ensures |b| == 2 && b[0] as int + 0x100 * b[1] as int == if tag >= 0 then tag else tag + 0x1_0000
  {
    var u := if tag >= 0 then tag else tag + 0x1_0000;
    [u % 0x100, u / 0x100]
  }

  predicate IsShort(v: int) {
    -0x8000 <= v < 0x8000
  }

  method WriteType(buffer: array<Byte>, tag: int, seen: seq<seq<Byte>>)
    requires IsShort(tag) && buffer.Length >= HEADER && Frees(buffer[..], seen)
    modifies buffer
    ensures buffer[..] == Put(FirstFree(old(buffer[..]), seen), 12, TypeBytes(tag)) && buffer[SEMAPHORE_POS] == 0
  {
    StoreLocked(buffer, 12, TypeBytes(tag), seen);
  }

  // The four writes with which a module prepares its output file: whatever the
  // bytes were, they become an empty ring of the type with index 0, provided that
  // the mapping has the ring's length, and that nobody else takes the lock once
  // the first write has found it free.
  method SetUpRing(buffer: array<Byte>, tag: int, width: nat, items: nat, seen: seq<seq<Byte>>)
    requires IsShort(tag) && width > 0 && items > 0 && IsInt(width) && IsInt(items)
    requires buffer.Length == Offset(items, width) && Frees(buffer[..], seen)
    modifies buffer
    ensures Ring(buffer[..], width) && ReadItems(buffer[..]) == items && ReadIndex(buffer[..]) == 0
    ensures ReadType(buffer[..]) == if tag >= 0 then tag else tag + 0x1_0000
    ensures buffer[HEADER..] == FirstFree(old(buffer[..]), seen)[HEADER..]
  {
    ghost var m := FirstFree(buffer[..], seen);
    WriteType(buffer, tag, seen);
    WriteHeader(buffer, 0, width, []);
    WriteHeader(buffer, 4, items, []);
    WriteHeader(buffer, 8, 0, []);
    HeaderMakesRing(m, tag, width, items);
    HeaderKeepsItems(m, tag, width, items);
  }

  method StoreLocked(buffer: array<Byte>, o: nat, b: seq<Byte>, seen: seq<seq<Byte>>)
    requires o + |b| <= buffer.Length && HEADER <= buffer.Length && Frees(buffer[..], seen)
    requires o + |b| <= SEMAPHORE_POS || SEMAPHORE_POS < o
    modifies buffer
    ensures buffer[..] == Put(FirstFree(old(buffer[..]), seen), o, b) && buffer[SEMAPHORE_POS] == 0
  {
    ghost var m := FirstFree(buffer[..], seen);
    LockBuffer(buffer, seen);
    Store(buffer, o, b);
    PutElsewhere(m, o, b, SEMAPHORE_POS, 1);
    ghost var locked := buffer[..];
    buffer[SEMAPHORE_POS] := 0;
    assert buffer[..] == locked[SEMAPHORE_POS := 0];
    assert buffer[..] == Put(m, o, b);
  }

  ghost function HeaderPut(m: seq<Byte>, tag: int, width: nat, items: nat): (r: seq<Byte>)
    requires |m| >= HEADER && IsShort(tag) && IsInt(width) && IsInt(items)
    ensures |r| == |m|
  {
    Put(Put(Put(Put(m, 12, TypeBytes(tag)), 0, IntBytes(width)), 4, IntBytes(items)), 8, IntBytes(0))
  }

  lemma HeaderFields(m: seq<Byte>, tag: int, width: nat, items: nat)
    requires |m| >= HEADER && IsShort(tag) && IsInt(width) && IsInt(items)
    ensures var r := HeaderPut(m, tag, width, items);
            && r[0..4] == IntBytes(width) && r[4..8] == IntBytes(items) && r[8..12] == IntBytes(0)
            && r[12..16] == TypeBytes(tag) + [m[14], m[15]]
  {
    var r1 := Put(m, 12, TypeBytes(tag));
    var r2 := Put(r1, 0, IntBytes(width));
    var r3 := Put(r2, 4, IntBytes(items));
    PutReads(r1, 0, IntBytes(width), 12, 4);
    PutReads(r2, 4, IntBytes(items), 12, 4);
    PutReads(r3, 8, IntBytes(0), 12, 4);
    assert r1[12..16] == TypeBytes(tag) + [m[14], m[15]];
  }

  lemma HeaderKeepsItems(m: seq<Byte>, tag: int, width: nat, items: nat)
    requires |m| >= HEADER && IsShort(tag) && IsInt(width) && IsInt(items)
    ensures HeaderPut(m, tag, width, items)[HEADER..] == m[HEADER..]
  {
    var r1 := Put(m, 12, TypeBytes(tag));
    var r2 := Put(r1, 0, IntBytes(width));
    var r3 := Put(r2, 4, IntBytes(items));
    var n := |m| - HEADER;
    PutReads(m, 12, TypeBytes(tag), HEADER, n);
    PutReads(r1, 0, IntBytes(width), HEADER, n);
    PutReads(r2, 4, IntBytes(items), HEADER, n);
    PutReads(r3, 8, IntBytes(0), HEADER, n);
    var r := HeaderPut(m, tag, width, items);
    assert m[HEADER..] == m[HEADER..HEADER + n] && r[HEADER..] == r[HEADER..HEADER + n];
  }

  lemma HeaderMakesRing(m: seq<Byte>, tag: int, width: nat, items: nat)
    requires IsShort(tag) && width > 0 && items > 0 && IsInt(width) && IsInt(items)
    requires |m| == Offset(items, width) && m[SEMAPHORE_POS] == 0
    ensures var r := HeaderPut(m, tag, width, items);
            && Ring(r, width) && ReadItems(r) == items && ReadIndex(r) == 0
            && ReadType(r) == if tag >= 0 then tag else tag + 0x1_0000
  {
    var r := HeaderPut(m, tag, width, items);
    HeaderFields(m, tag, width, items);
    IntAtSlice(r, 0);
    IntAtSlice(r, 4);
    IntAtSlice(r, 8);
    assert r[12..16][0] == r[12] && r[12..16][1] == r[13] && r[12..16][2] == r[14];
    TypeIsTwoBytes(r);
  }

  // The bytes of a written ring, one by one: the item in the slot after the newest,
  // the new index, and everything else as it was.
  lemma WrittenBytes(m: seq<Byte>, item: seq<Byte>)
    requires |item| > 0 && Ring(m, |item|)
    ensures var r, i := Written(m, item), if ReadIndex(m) + 1 == ReadItems(m) then 0 else ReadIndex(m) + 1;
            var o := Offset(i, |item|);
            && |r| == |m| && 16 <= o && o + |item| <= |m|
            && r[o..o + |item|] == item && r[8..12] == IntBytes(i)
            && forall k :: 0 <= k < |m| && (k < 8 || 12 <= k) && (k < o || o + |item| <= k) ==> r[k] == m[k]
  {
    var i := NextIndex(m);
    SlotWritten(m, item, Offset(i, |item|));
    forall k | 0 <= k < |m| && (k < 8 || 12 <= k) && (k < Offset(i, |item|) || Offset(i, |item|) + |item| <= k)
      ensures Written(m, item)[k] == m[k]
    {
      OthersKept(m, item, k, 1);
      assert Written(m, item)[k..k + 1][0] == m[k..k + 1][0];
    }
  }

  // On the bytes, after any number of writes to a ring with index 0: the index is
  // their number modulo the number of items, and the newest values, as many as
  // there are items, are in the slots of their numbers.
  lemma {:induction false} IndexCountsWrites(m: seq<Byte>, width: nat, values: seq<seq<Byte>>)
    requires Ring(m, width) && ReadIndex(m) == 0
    requires forall i :: 0 <= i < |values| ==> |values[i]| == width
    ensures var r, items := AllWritten(m, width, values), ReadItems(m);
            && ReadType(r) == ReadType(m) && ReadItems(r) == items && ReadIndex(r) == Mod(|values|, items)
            && forall k :: 1 <= k <= |values| < k + items ==> Item(r, Mod(k, items), width) == values[k - 1]
  {
    var v, items := ViewOf(m, width), ReadItems(m);
    AllWrittenRefines(m, width, values);
    IndexAfterWrites(v, values);
    forall k | 1 <= k <= |values| < k + items
      ensures Item(AllWritten(m, width, values), Mod(k, items), width) == values[k - 1]
    {
      RingHoldsLast(v, values, k);
    }
  }

  ghost function AllWritten(m: seq<Byte>, width: nat, values: seq<seq<Byte>>): (r: seq<Byte>)
    requires Ring(m, width) && forall i :: 0 <= i < |values| ==> |values[i]| == width
    ensures Ring(r, width) && |r| == |m| && ReadItems(r) == ReadItems(m)
    decreases |values|
  {
    if values == [] then m
    else
      var last := |values| - 1;
      var before := AllWritten(m, width, values[..last]);
      WrittenKeepsRing(before, values[last]);
      Written(before, values[last])
  }

  // A run of writes on the bytes is the run of pushes on what the readers see.
  lemma {:induction false} AllWrittenRefines(m: seq<Byte>, width: nat, values: seq<seq<Byte>>)
    requires Ring(m, width) && forall i :: 0 <= i < |values| ==> |values[i]| == width
    ensures ViewOf(AllWritten(m, width, values), width) == PushAll(ViewOf(m, width), values)
    ensures ReadType(AllWritten(m, width, values)) == ReadType(m)
    decreases |values|
  {
    if values != [] {
      var last := |values| - 1;
      AllWrittenRefines(m, width, values[..last]);
      WriteRefinesPush(AllWritten(m, width, values[..last]), values[last]);
    }
  }
}
