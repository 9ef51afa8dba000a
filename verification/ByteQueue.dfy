/** The growable byte queue that collects what is read from a socket. */
module ByteQueue {
  import opened Prelude

  const WIDTH: nat := 0x1_0000_0000
  const HALF: nat := 0x8000_0000

  // What a read from the socket can bring.
  datatype Incoming = Data(bytes: seq<char>) | TryAgain | Fault | EndOfFile

  // The capacity after doubling until the target fits.
  function Doubled(capacity: nat, target: nat): nat
    requires capacity > 0
    decreases target - capacity
  {
    if capacity >= target then capacity else Doubled(2 * capacity, target)
  }

  // The capacity is multiplied by the least power of two that makes it large enough.
  lemma {:induction false} DoubledIsLeast(capacity: nat, target: nat) returns (k: nat)
    requires capacity > 0
    ensures Doubled(capacity, target) == Pow2(k) * capacity >= target
    ensures forall j: nat :: j < k ==> Pow2(j) * capacity < target
    decreases target - capacity
  {
    k := 0;
    if capacity < target {
      var k' := DoubledIsLeast(2 * capacity, target);
      k := k' + 1;
      assert Pow2(k) * capacity == Pow2(k') * (2 * capacity);
      forall j: nat | j < k
        ensures Pow2(j) * capacity < target
      {
        if j > 0 {
          assert Pow2(j) * capacity == Pow2(j - 1) * (2 * capacity);
        }
      }
    }
  }

  lemma {:induction false} DoubledBound(capacity: nat, target: nat)
    requires capacity > 0
    ensures Doubled(capacity, target) < 2 * target || Doubled(capacity, target) == capacity
    decreases target - capacity
  {
    if capacity < target {
      DoubledBound(2 * capacity, target);
    }
  }

  ghost predicate SameUnread(b: seq<char>, start: nat, end: nat)
    requires start <= end <= |b|
  {
    b[start..end] == b[..end - start]
  }

  // Growing leaves the bytes where they are but takes the unread ones to start at 0:
  // whatever the bytes, they stay the same exactly when nothing was consumed or
  // nothing is unread.
  lemma {:induction false} GrowthKeepsUnread(start: nat, end: nat)
    requires start <= end
    ensures (forall b: seq<char> :: |b| >= end ==> SameUnread(b, start, end)) <==> start == 0 || start == end
  {
    if 0 < start < end {
      var b := seq(end, i => if i < start then 'a' else 'b');
      assert b[start..end][0] != b[..end - start][0];
      assert !SameUnread(b, start, end);
    }
  }

  // advanceRead on the positions, with the sum of an unsigned: None if it throws.
  function Advanced(inAt: nat, outAt: nat, size: nat): Option<nat> {
    var sum := if outAt + size < WIDTH then outAt + size else outAt + size - WIDTH;
    if sum > inAt then None else Some(sum)
  }

  // It refuses exactly to pass the end, unless the sum wraps around; then it goes
  // back, as it does in an emptied queue of one byte.
  lemma AdvanceIff(inAt: nat, outAt: nat, size: nat)
    requires outAt <= inAt < WIDTH && size < WIDTH
    ensures Advanced(inAt, outAt, size).Some? <==> size <= inAt - outAt || outAt + size >= WIDTH
    ensures Advanced(inAt, outAt, size) == Some(outAt + size) <==> size <= inAt - outAt
    ensures outAt + size >= WIDTH ==> Advanced(inAt, outAt, size).value < outAt
    ensures Advanced(1, 1, WIDTH - 1) == Some(0)
  {}

  class Buffer {
    var buffer: array<char>
    var capacity: nat
    var inAt: nat
    var outAt: nat

    predicate Valid()
      reads this
    {
      outAt <= inAt <= capacity == buffer.Length && capacity < WIDTH
    }

    function Unread(): seq<char>
      requires Valid()
      reads this, buffer
    {
      buffer[outAt..inAt]
    }

    function UsableCapacity(): nat
      requires Valid()
      reads this
    {
      capacity - inAt
    }

    constructor (capacity: nat)
      requires capacity < WIDTH
      ensures Valid() && fresh(buffer) && this.capacity == capacity && Unread() == []
    {
      this.capacity := capacity;
      inAt, outAt := 0, 0;
      buffer := new char[capacity](_ => 0 as char);
    }

    method Reset()
      requires Valid()
      modifies this`inAt, this`outAt, buffer
      ensures Valid() && Unread() == [] && UsableCapacity() == capacity
    {
      inAt, outAt := 0, 0;
      forall i | 0 <= i < buffer.Length {
        buffer[i] := 0 as char;
      }
    }

    // The socket delivers at most as many bytes as there is room for.
    method Read(incoming: Incoming) returns (status: int)
      requires Valid()
      requires incoming.Data? ==>
                 0 < |incoming.bytes| && (UsableCapacity() > 0 ==> |incoming.bytes| <= UsableCapacity())
      modifies this`inAt, buffer
      ensures Valid()
      ensures Unread() == if incoming.Data? && old(UsableCapacity()) > 0 then old(Unread()) + incoming.bytes
                          else old(Unread())
      ensures status == if old(UsableCapacity()) == 0 || incoming.TryAgain? then 0
                        else if incoming.Data? then |incoming.bytes|
                        else -1
    {
      if UsableCapacity() == 0 {
        return 0;
      }
      match incoming {
        case TryAgain => return 0;
        case Fault => return -1;
        case EndOfFile => return -1;
        case Data(bytes) =>
          forall i | 0 <= i < |bytes| {
            buffer[inAt + i] := bytes[i];
          }
          inAt := inAt + |bytes|;
          status := |bytes|;
          assert buffer[outAt..inAt] == old(buffer[outAt..inAt]) + bytes;
      }
    }

    // Consuming more than is unread is refused, unless the 32-bit sum wraps around:
    // then the position moves back over bytes that were consumed before.
    method AdvanceRead(size: nat) returns (ok: bool)
      requires Valid() && size < WIDTH
      modifies this`outAt
      ensures Valid()
      ensures Advanced(inAt, old(outAt), size) == if ok then Some(outAt) else None
      ensures ok <==> size <= |old(Unread())| || old(outAt) + size >= WIDTH
      ensures !ok ==> outAt == old(outAt)
      ensures ok && old(outAt) + size < WIDTH ==> Unread() == old(Unread())[size..]
      ensures old(outAt) + size >= WIDTH ==> outAt < old(outAt) && Unread() == buffer[outAt..old(outAt)] + old(Unread())
    {
      var sum := if outAt + size < WIDTH then outAt + size else outAt + size - WIDTH;
      if sum > inAt {
        return false;
      }
      outAt := sum;
      ok := true;
    }

    // Leaves room for size bytes, and grows to less than twice what is needed. The
    // unread bytes are moved to the front, except that growing moves only the
    // positions and so exposes the first bytes of the buffer.
    method EnsureRoom(size: nat)
      requires Valid() && capacity > 0
      requires capacity <= HALF && inAt - outAt + size <= HALF && inAt + size < WIDTH
      modifies this, buffer
      ensures Valid() && (buffer == old(buffer) || fresh(buffer))
      ensures UsableCapacity() >= size
      ensures old(inAt - outAt) + size > old(capacity) ==> capacity < 2 * (old(inAt - outAt) + size)
      ensures old(inAt - outAt) + size > old(capacity) ==>
                capacity == Doubled(old(capacity), old(inAt - outAt) + size) && Unread() == old(buffer[..inAt - outAt])
      ensures old(inAt - outAt) + size <= old(capacity) ==>
                capacity == old(capacity) && buffer == old(buffer) && Unread() == old(Unread())
      ensures old(inAt) + size <= old(capacity) ==> outAt == old(outAt) && inAt == old(inAt)
      ensures old(inAt) + size > old(capacity) ==> outAt == 0 && inAt == old(inAt - outAt)
    {
      if inAt + size > capacity {
        var needed := inAt - outAt + size - capacity;
        if needed > 0 {
          var newSize := capacity;
          while newSize < capacity + needed
            invariant 0 < newSize && Doubled(newSize, capacity + needed) == Doubled(capacity, capacity + needed)
            invariant newSize < WIDTH
          {
            newSize := newSize * 2;
          }
          var grown := new char[newSize];
          forall i | 0 <= i < capacity {
            grown[i] := buffer[i];
          }
          buffer := grown;
          DoubledBound(capacity, capacity + needed);
          capacity := newSize;
          assert buffer[..old(inAt - outAt)] == old(buffer[..inAt - outAt]);
        } else if inAt > outAt {
          forall i | 0 <= i < inAt - outAt {
            buffer[i] := buffer[outAt + i];
          }
        }
        inAt := inAt - outAt;
        outAt := 0;
      }
    }
  }
}
