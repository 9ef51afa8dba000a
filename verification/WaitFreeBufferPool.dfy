/** The pool as the object that its two threads call, one whole call at a time.
    What happens when the calls' loads and stores interleave is the subject of
    PoolProtocol; WholeCallsMatch ties the two together. */
module WaitFreeBufferPool {
  import opened Prelude
  import opened PoolIndex
  import P = PoolProtocol

  datatype Indices = Indices(windex: nat, rindex: nat, overflow: nat)

  // The state that each call leaves, on 64-bit words.

  function AfterNextWritable(x: Indices, size: nat): Indices {
    if x.windex < P.Wrap(x.rindex + size) then x.(windex := x.windex + 1)
    else x.(overflow := P.Wrap(x.overflow + 1))
  }

  function AfterAttach(x: Indices): Indices {
    x.(rindex := if x.windex == 0 then 0 else x.windex - 1)
  }

  function AfterDetach(x: Indices, size: nat): Indices
    requires size < WORD
  {
    x.(rindex := ReadIndexMax(size))
  }

  function AfterNextReadable(x: Indices, holding: bool): Indices {
    if holding then x.(rindex := P.Wrap(x.rindex + 1)) else x
  }

  // Without a reader the read index is the detached one; with one, the write
  // index leads it by at most size.
  ghost predicate WellPlaced(x: Indices, size: nat) {
    && 2 <= size < UNSIGNED
    && x.windex < WORD && x.overflow < WORD
    && (x.rindex == ReadIndexMax(size) || (x.rindex <= x.windex <= x.rindex + size && x.rindex + 1 < WORD))
  }

  lemma CallsKeepPlace(x: Indices, size: nat)
    requires WellPlaced(x, size)
    ensures WellPlaced(AfterNextWritable(x, size), size)
    ensures WellPlaced(AfterAttach(x), size)
    ensures WellPlaced(AfterDetach(x, size), size)
    ensures WellPlaced(AfterNextReadable(x, false), size)
    ensures x.rindex < x.windex && x.rindex + 2 < WORD ==> WellPlaced(AfterNextReadable(x, true), size)
  {}

  function IndicesOf(s: P.State): Indices {
    Indices(s.windex, s.rindex, s.overflow)
  }

  lemma WritableMatches(s: P.State)
    requires P.Inv(s) && s.writer.Idle?
    ensures IndicesOf(P.Whole(s, P.NextWritable)) == AfterNextWritable(IndicesOf(s), s.size)
  {}

  lemma AttachMatches(s: P.State)
    requires P.Inv(s) && s.reader.Detached? && s.windex + s.size <= WORD
    ensures IndicesOf(P.Whole(s, P.Attach)) == AfterAttach(IndicesOf(s)) && P.Whole(s, P.Attach).reader.Attached?
  {}

  lemma SessionMatches(s: P.State)
    requires P.Inv(s) && s.reader.Attached?
    ensures IndicesOf(P.Whole(s, P.NextReadable)) == AfterNextReadable(IndicesOf(s), s.cur.Some?)
    ensures IndicesOf(P.Whole(s, P.Detach)) == AfterDetach(IndicesOf(s), s.size)
  {}

  // A call that runs without interference is the run of its loads and stores.
  lemma WholeCallsMatch(s: P.State)
    requires P.Inv(s)
    ensures s.writer.Idle? ==>
              IndicesOf(P.Whole(s, P.NextWritable)) == AfterNextWritable(IndicesOf(s), s.size)
    ensures s.reader.Detached? && s.windex + s.size <= WORD ==>
              var t := P.Whole(s, P.Attach);
              IndicesOf(t) == AfterAttach(IndicesOf(s)) && t.reader.Attached?
    ensures s.reader.Attached? ==>
              && IndicesOf(P.Whole(s, P.NextReadable)) == AfterNextReadable(IndicesOf(s), s.cur.Some?)
              && IndicesOf(P.Whole(s, P.Detach)) == AfterDetach(IndicesOf(s), s.size)
  {
    if s.writer.Idle? {
      WritableMatches(s);
    }
    if s.reader.Detached? && s.windex + s.size <= WORD {
      AttachMatches(s);
    }
    if s.reader.Attached? {
      SessionMatches(s);
    }
  }

  class Pool<T> {
    const bufferSize: nat
    const poolSize: nat
    var writeIndex: nat
    var readIndex: nat
    var overflowCount: nat
    const data: array<T>

    ghost function Ix(): Indices
      reads this
    {
      Indices(writeIndex, readIndex, overflowCount)
    }

    ghost predicate Valid()
      reads this
    {
      WellPlaced(Ix(), poolSize) && data.Length == poolSize * bufferSize
    }

    constructor (bufferSize: nat, poolSize: nat, initial: T)
      requires IsPoolSizeValid(poolSize) && poolSize < UNSIGNED
      ensures Valid() && fresh(data)
      ensures this.bufferSize == bufferSize && this.poolSize == poolSize
      ensures writeIndex == overflowCount == 0 && readIndex + poolSize == 0xFFFF_FFFF_FFFF_FFFF
    {
      this.bufferSize, this.poolSize := bufferSize, poolSize;
      writeIndex, readIndex, overflowCount := 0, ReadIndexMax(poolSize), 0;
      data := new T[poolSize * bufferSize](_ => initial);
    }

    // Does not return when the write index is within poolSize of 2^64
    // (PoolProtocol.AttachSpinsAtLimit); short of that the first try succeeds.
    method AttachReader() returns (rindex: nat, windex: nat)
      requires Valid() && writeIndex + poolSize <= WORD
      modifies this`readIndex
      ensures Valid()
      ensures Ix() == AfterAttach(old(Ix())) && readIndex == if writeIndex == 0 then 0 else writeIndex - 1
      ensures rindex == readIndex && windex == writeIndex
    {
      windex := writeIndex;
      rindex := 0;
      var retry := true;
      while retry
        invariant windex == writeIndex
        invariant !retry ==> rindex == readIndex && readIndex == AfterAttach(old(Ix())).rindex
        decreases retry
      {
        rindex := if windex != 0 then windex - 1 else 0;
        readIndex := rindex;
        windex := writeIndex;
        retry := windex > P.Wrap(rindex + poolSize);
      }
    }

    method DetachReader() returns (rindex: nat, windex: nat)
      requires Valid()
      modifies this`readIndex
      ensures Valid()
      ensures Ix() == AfterDetach(old(Ix()), poolSize) && readIndex + poolSize == 0xFFFF_FFFF_FFFF_FFFF
      ensures rindex == old(readIndex) && windex == writeIndex
    {
      rindex := readIndex;
      windex := writeIndex;
      readIndex := ReadIndexMax(poolSize);
    }

    // Always a buffer to write to, inside the storage and apart from every
    // buffer that the reader has not released.
    method NextWritableBuffer() returns (buffer: nat)
      requires Valid() && IsPoolSizeValid(poolSize)
      modifies this`writeIndex, this`overflowCount
      ensures Valid()
      ensures Ix() == AfterNextWritable(old(Ix()), poolSize)
      ensures old(writeIndex) < readIndex + poolSize < WORD ==>
                writeIndex == old(writeIndex) + 1 && overflowCount == old(overflowCount)
      ensures readIndex + poolSize < WORD && old(writeIndex) >= readIndex + poolSize ==>
                && writeIndex == old(writeIndex)
                && (old(overflowCount) + 1 < WORD ==> overflowCount == old(overflowCount) + 1)
      ensures buffer == BufferAt(writeIndex, bufferSize, poolSize)
      ensures buffer + bufferSize <= data.Length
      ensures forall i: nat :: readIndex < i < writeIndex ==>
                var b := BufferAt(i, bufferSize, poolSize);
                b + bufferSize <= buffer || buffer + bufferSize <= b
    {
      var windex := writeIndex;
      var rindex := readIndex;
      if windex < P.Wrap(rindex + poolSize) {
        windex := windex + 1;
        writeIndex := windex;
      } else {
        overflowCount := P.Wrap(overflowCount + 1);
      }
      buffer := BufferAt(windex, bufferSize, poolSize);
      SlicesDisjoint(windex, windex + 1, bufferSize, poolSize);
      forall i: nat | readIndex < i < writeIndex
        ensures var b := BufferAt(i, bufferSize, poolSize);
                b + bufferSize <= buffer || buffer + bufferSize <= b
      {
        SlicesDisjoint(i, writeIndex, bufferSize, poolSize);
      }
    }

    // A caller that still holds a buffer moves the read index on, also when it has
    // kept the buffer over a detach and the buffer is not the one after the read
    // index; the source asserts that it is, in debug builds. In a session the two
    // bounds hold by PoolProtocol.IndicesBounded.
    method NextReadableBuffer(cur: Option<nat>) returns (buffer: Option<nat>)
      requires Valid()
      requires cur.Some? ==> readIndex < writeIndex && readIndex + 2 < WORD
      modifies this`readIndex
      ensures Valid()
      ensures Ix() == AfterNextReadable(old(Ix()), cur.Some?)
      ensures readIndex == if cur.Some? then old(readIndex) + 1 else old(readIndex)
      ensures buffer.Some? <==> readIndex + 1 < writeIndex
      ensures buffer.Some? ==> buffer.value == BufferAt(readIndex + 1, bufferSize, poolSize)
    {
      var rindex := readIndex;
      if cur.Some? {
        rindex := P.Wrap(rindex + 1);
        readIndex := rindex;
      }
      var windex := writeIndex;
      var next := P.Wrap(rindex + 1);
      if windex > next {
        buffer := Some(BufferAt(next, bufferSize, poolSize));
      } else {
        buffer := None;
      }
    }
  }
}
