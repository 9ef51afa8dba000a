/** The chain of per-thread sample buffers: threads push their buffer at the head
    at any time, a collector attaches to every buffer or to none. */
module SamplesBuffer {
  import opened Prelude
  import opened PoolIndex
  import P = PoolProtocol
  import W = WaitFreeBufferPool

  const BUFFER_SIZE: nat := 4096
  const POOL_SIZE: nat := 16

  // sizeof(Sample), Sample::maxSize() and the guard kept free at a buffer's end.
  const SAMPLE_BYTES: nat := 16
  const MAX_SAMPLE_BYTES: nat := SAMPLE_BYTES + 8 * 14
  const BUFFER_GUARD_SIZE: nat := MAX_SAMPLE_BYTES * 4 / SAMPLE_BYTES
  const BUFFER_GUARD_OFFSET: nat := BUFFER_SIZE - BUFFER_GUARD_SIZE

  lemma PoolSizeIsValid()
    ensures IsPoolSizeValid(POOL_SIZE)
  {
    assert Pow2(4) == 16;
    PoolSizeValidIffPowerOfTwo(POOL_SIZE);
  }

  // What can be seen of a buffer: whether it has a reader, and its indices.
  datatype Status = Status(attached: bool, rindex: nat, windex: nat)

  // The read index that an attach gives.
  function FirstOf(windex: nat): nat {
    if windex == 0 then 0 else windex - 1
  }

  class Buffer {
    const pool: W.Pool<int>
    var next: Buffer?
    var fd: int
    var curReadBuf: Option<nat>

    // A buffer without a reader has the detached read index.
    ghost predicate Valid()
      reads `fd, pool
    {
      && pool.Valid() && pool.poolSize == POOL_SIZE && pool.bufferSize == BUFFER_SIZE
      && (fd < 0 ==> pool.readIndex == ReadIndexMax(POOL_SIZE))
    }

    ghost predicate HasRoom()
      reads pool
    {
      pool.writeIndex + POOL_SIZE <= WORD
    }

    constructor (next: Buffer?)
      ensures Valid() && HasRoom() && fresh(pool) && fd < 0 && this.next == next && curReadBuf.None?
    {
      PoolSizeIsValid();
      this.next, fd, curReadBuf := next, -1, None;
      pool := new W.Pool(BUFFER_SIZE, POOL_SIZE, 0);
    }

    ghost function Seen(): Status
      reads `fd, pool
    {
      Status(IsReaderAttached(), pool.readIndex, pool.writeIndex)
    }

    predicate IsReaderAttached()
      reads `fd
    {
      fd >= 0
    }

    // `file` is what opening the samples file answers.
    method AttachReader(file: int) returns (ok: bool)
      requires Valid() && HasRoom()
      modifies this`fd, pool`readIndex
      ensures Valid() && HasRoom()
      ensures ok <==> !old(IsReaderAttached()) && file >= 0
      ensures ok ==> fd == file >= 0 && pool.readIndex == if pool.writeIndex == 0 then 0 else pool.writeIndex - 1
      ensures !ok ==> IsReaderAttached() == old(IsReaderAttached()) && pool.readIndex == old(pool.readIndex)
    {
      if IsReaderAttached() {
        return false;
      }
      fd := file;
      if fd < 0 {
        return false;
      }
      var rindex, windex := pool.AttachReader();
      return true;
    }

    // curReadBuf survives the detach.
    method DetachReader() returns (ok: bool)
      requires Valid()
      modifies this`fd, pool`readIndex
      ensures Valid()
      ensures ok <==> old(IsReaderAttached())
      ensures fd < 0 && pool.readIndex + 16 == 0xFFFF_FFFF_FFFF_FFFF
    {
      if !IsReaderAttached() {
        return false;
      }
      var rindex, windex := pool.DetachReader();
      fd := -1;
      return true;
    }

    // The range that samples may be started in; the guard behind it belongs to
    // the same buffer.
    method NextWritableRange() returns (begin: nat, end: nat)
      requires Valid()
      modifies pool`writeIndex, pool`overflowCount
      ensures Valid()
      ensures pool.Ix() == W.AfterNextWritable(old(pool.Ix()), POOL_SIZE)
      ensures begin == BufferAt(pool.writeIndex, BUFFER_SIZE, POOL_SIZE)
      ensures end + BUFFER_GUARD_SIZE == begin + BUFFER_SIZE <= pool.data.Length && end == begin + 4064
    {
      PoolSizeIsValid();
      begin := pool.NextWritableBuffer();
      end := begin + BUFFER_GUARD_OFFSET;
    }

    method NextReadableRange() returns (range: Option<(nat, nat)>)
      requires Valid()
      requires curReadBuf.Some? ==>
                 IsReaderAttached() && pool.readIndex < pool.writeIndex && pool.readIndex + 2 < WORD
      modifies this`curReadBuf, pool`readIndex
      ensures Valid()
      ensures pool.Ix() == W.AfterNextReadable(old(pool.Ix()), old(curReadBuf).Some?)
      ensures range.Some? <==> curReadBuf.Some?
      ensures range.Some? ==> range.value == (curReadBuf.value, curReadBuf.value + BUFFER_GUARD_OFFSET)
      ensures curReadBuf.Some? <==> pool.readIndex + 1 < pool.writeIndex
      ensures curReadBuf.Some? ==> curReadBuf.value == BufferAt(pool.readIndex + 1, BUFFER_SIZE, POOL_SIZE)
    {
      curReadBuf := pool.NextReadableBuffer(curReadBuf);
      range := if curReadBuf.Some? then Some((curReadBuf.value, curReadBuf.value + BUFFER_GUARD_OFFSET)) else None;
    }
  }

  class Chain {
    var head: Buffer?
    ghost var nodes: seq<Buffer>

    // The list from head is exactly nodes; pushing is all that ever changes it.
    ghost predicate Valid()
      reads this, nodes`next
    {
      Linked(head, nodes) && Apart(nodes)
    }

    constructor ()
      ensures Valid() && nodes == []
    {
      head := null;
      nodes := [];
    }

    // A buffer that is about to be pushed.
    ghost predicate Pending(buffer: Buffer)
      reads this, buffer`next
    {
      buffer.next == head && buffer !in nodes && (forall b: Buffer | b in nodes :: b.pool != buffer.pool)
    }

    // The compare-and-swap that succeeds.
    method Link(buffer: Buffer)
      requires Valid() && Pending(buffer)
      modifies this
      ensures Valid() && nodes == [buffer] + old(nodes) && head == buffer
    {
      head := buffer;
      nodes := [buffer] + nodes;
      assert nodes[1..] == old(nodes);
    }

    // The compare-and-swap of `buffer` is lost to another thread's push.
    method LoseTo(buffer: Buffer) returns (rival: Buffer)
      requires Valid() && Pending(buffer)
      modifies this, buffer`next
      ensures Valid() && Pending(buffer) && nodes == [rival] + old(nodes)
      ensures fresh(rival) && fresh(rival.pool) && rival.Valid() && rival.HasRoom()
    {
      rival := new Buffer(head);
      Link(rival);
      buffer.next := head;
    }

    // The constructor of SamplesBuffer: the compare-and-swap is lost to `rivals`
    // pushes of other threads before it succeeds.
    method Push(rivals: nat)
      requires Valid()
      modifies this
      ensures Valid()
      ensures |nodes| == rivals + 1 + |old(nodes)| && nodes[rivals + 1..] == old(nodes)
      ensures forall i :: 0 <= i <= rivals ==> fresh(nodes[i]) && nodes[i].Valid() && nodes[i].HasRoom()
    {
      var buffer := new Buffer(head);
      LoseToAll(buffer, rivals);
      ghost var was := nodes;
      Link(buffer);
      assert forall i :: 1 <= i <= rivals ==> nodes[i] == was[i - 1];
    }

    method LoseToAll(buffer: Buffer, rivals: nat)
      requires Valid() && Pending(buffer)
      modifies this, buffer`next
      ensures Valid() && Pending(buffer)
      ensures |nodes| == rivals + |old(nodes)| && nodes[rivals..] == old(nodes)
      ensures forall i :: 0 <= i < rivals ==> fresh(nodes[i]) && nodes[i].Valid() && nodes[i].HasRoom()
    {
      var k := 0;
      while k < rivals
        invariant 0 <= k <= rivals && Valid() && Pending(buffer)
        invariant |nodes| == k + |old(nodes)| && nodes[k..] == old(nodes)
        invariant forall i :: 0 <= i < k ==> fresh(nodes[i]) && nodes[i].Valid() && nodes[i].HasRoom()
      {
        var rival := LoseTo(buffer);
        k := k + 1;
      }
    }

    // Other threads push any number of buffers.
    method OthersPush(n: nat)
      requires Valid()
      modifies this
      ensures Valid()
    {
      if n > 0 {
        Push(n - 1);
      }
    }

    // The buffers of the chain as they were at some moment, with their states;
    // pushes of other threads do not touch them.
    ghost predicate Snapshot(begin: Buffer?, snap: seq<Buffer>, st: seq<Status>)
      reads snap`fd, snap`next, set b: Buffer | b in snap :: b.pool
    {
      Linked(begin, snap) && Apart(snap) && AllValid(snap) && StatusIs(snap, st)
    }

    // Other threads push buffers, and the threads of some buffers ask for a new
    // one to write to, while their write index is below a limit. `st` becomes `now`.
    method OthersRun(pushes: nat, writers: seq<Buffer>, limit: nat,
                     ghost begin: Buffer?, ghost snap: seq<Buffer>, ghost st: seq<Status>)
      returns (ghost now: seq<Status>)
      requires Valid() && Snapshot(begin, snap, st) && Among(writers, snap)
      modifies this
      modifies (set b: Buffer | b in snap :: b.pool)`writeIndex, (set b: Buffer | b in snap :: b.pool)`overflowCount
      ensures Valid() && Snapshot(begin, snap, now) && Grown(st, now)
      ensures Roomy(st) && limit <= ROOM ==> Roomy(now)
    {
      OthersPush(pushes);
      now := WriteEach(writers, limit, snap, st);
    }

    // One turn of the attach loop: others run, then the buffer is attached.
    method AttachTurn(ghost begin: Buffer?, buffer: Buffer, file: int, pushes: nat, writers: seq<Buffer>,
                      ghost snap: seq<Buffer>, ghost st: seq<Status>, ghost i: nat)
      returns (ok: bool, next: Buffer?, ghost now: seq<Status>)
      requires Valid() && Snapshot(begin, snap, st) && i < |snap| && buffer == snap[i]
      requires Among(writers, snap) && Roomy(st)
      modifies this, snap`fd, (set b: Buffer | b in snap :: b.pool)`readIndex
      modifies (set b: Buffer | b in snap :: b.pool)`writeIndex, (set b: Buffer | b in snap :: b.pool)`overflowCount
      ensures Valid() && Grown(st, now) && Snapshot(begin, snap, if ok then now[i := Attached(now[i])] else now)
      ensures ok <==> !st[i].attached && file >= 0
      ensures Roomy(now)
      ensures next == Nth(snap, i + 1)
    {
      now := OthersRun(pushes, writers, ROOM, begin, snap, st);
      ok := AttachAt(buffer, file, snap, now, i);
      NextLinked(begin, snap, i);
      next := buffer.next;
    }

    method DetachTurn(ghost begin: Buffer?, buffer: Buffer, pushes: nat, writers: seq<Buffer>,
                      ghost snap: seq<Buffer>, ghost st: seq<Status>, ghost i: nat)
      returns (ok: bool, next: Buffer?, ghost now: seq<Status>)
      requires Valid() && Snapshot(begin, snap, st) && i < |snap| && buffer == snap[i]
      requires Among(writers, snap)
      modifies this, snap`fd, (set b: Buffer | b in snap :: b.pool)`readIndex
      modifies (set b: Buffer | b in snap :: b.pool)`writeIndex, (set b: Buffer | b in snap :: b.pool)`overflowCount
      ensures Valid() && Grown(st, now) && Snapshot(begin, snap, now[i := Detached(now[i])])
      ensures ok <==> st[i].attached
      ensures next == Nth(snap, i + 1)
    {
      now := OthersRun(pushes, writers, WORD, begin, snap, st);
      ok := DetachAt(buffer, snap, now, i);
      NextLinked(begin, snap, i);
      next := buffer.next;
    }

    // The attach loop: the first n buffers of the snapshot are attached when it stops.
    method AttachEach(begin: Buffer?, files: nat -> int, pushes: nat -> nat, writers: nat -> seq<Buffer>,
                      ghost snap: seq<Buffer>, ghost st: seq<Status>)
      returns (n: nat, refused: Buffer?, ghost now: seq<Status>)
      requires Valid() && Snapshot(begin, snap, st) && Roomy(st)
      requires forall k: nat :: Among(writers(k), snap)
      modifies this, snap`fd, (set b: Buffer | b in snap :: b.pool)`readIndex
      modifies (set b: Buffer | b in snap :: b.pool)`writeIndex, (set b: Buffer | b in snap :: b.pool)`overflowCount
      ensures n <= |st| && refused == Nth(snap, n)
      ensures Valid() && Snapshot(begin, snap, now) && Reached(st, now, n)
      ensures n < |st| ==> st[n].attached || files(n) < 0
      ensures CanAttach(st, files, n)
    {
      refused := begin;
      n := 0;
      now := st;
      var ok, next := true, begin;
      while refused != null && ok
        invariant 0 <= n <= |snap| && refused == Nth(snap, n)
        invariant Valid() && Snapshot(begin, snap, now) && Reached(st, now, n) && Roomy(now)
        invariant !ok ==> n < |snap| && (st[n].attached || files(n) < 0)
        invariant CanAttach(st, files, n)
        decreases |snap| - n, ok
      {
        ok, next, now := AttachNext(begin, refused, files, pushes(n), writers(n), n, snap, st, now);
        if ok {
          refused := next;
          n := n + 1;
        }
      }
    }

    // The turn of the n-th buffer, seen from the start of the loop.
    method AttachNext(ghost begin: Buffer?, buffer: Buffer, files: nat -> int, pushes: nat,
                      writers: seq<Buffer>, n: nat,
                      ghost snap: seq<Buffer>, ghost st: seq<Status>, ghost before: seq<Status>)
      returns (ok: bool, next: Buffer?, ghost now: seq<Status>)
      requires Valid() && Snapshot(begin, snap, before) && Reached(st, before, n) && Roomy(before)
      requires n < |snap| && buffer == snap[n] && Among(writers, snap)
      modifies this, snap`fd, (set b: Buffer | b in snap :: b.pool)`readIndex
      modifies (set b: Buffer | b in snap :: b.pool)`writeIndex, (set b: Buffer | b in snap :: b.pool)`overflowCount
      ensures Valid() && Snapshot(begin, snap, now) && |st| == |snap| && Reached(st, now, if ok then n + 1 else n)
      ensures ok <==> !st[n].attached && files(n) >= 0
      ensures next == Nth(snap, n + 1) && Roomy(now)
      ensures CanAttach(st, files, n) && ok ==> CanAttach(st, files, n + 1)
    {
      ok, next, now := AttachTurn(begin, buffer, files(n), pushes, writers, snap, before, n);
      ReachedNext(st, before, now, n);
      CanAttachNext(st, files, n);
      if ok {
        now := now[n := Attached(now[n])];
      }
    }

    // Detaches the first n buffers of the snapshot, up to the one that refused.
    method RollBack(begin: Buffer?, refused: Buffer?, pushes: nat -> nat, writers: nat -> seq<Buffer>, n: nat,
                    ghost snap: seq<Buffer>, ghost st: seq<Status>)
      returns (ghost now: seq<Status>)
      requires Valid() && Snapshot(begin, snap, st) && n < |snap| && refused == snap[n]
      requires forall k: nat :: Among(writers(k), snap)
      modifies this, snap`fd, (set b: Buffer | b in snap :: b.pool)`readIndex
      modifies (set b: Buffer | b in snap :: b.pool)`writeIndex, (set b: Buffer | b in snap :: b.pool)`overflowCount
      ensures Valid() && Snapshot(begin, snap, now) && Released(st, now, n)
    {
      var cursor := begin;
      var k, ok := 0, true;
      now := st;
      while cursor != refused
        invariant 0 <= k <= n && cursor == Nth(snap, k)
        invariant Valid() && Snapshot(begin, snap, now) && Released(st, now, k)
        decreases n - k
      {
        ghost var before := now;
        ok, cursor, now := DetachTurn(begin, cursor, pushes(n + k), writers(n + k), snap, now, k);
        ReleasedNext(st, before, now, k);
        now := now[k := Detached(now[k])];
        k := k + 1;
      }
    }

    // Attaches to every buffer of the chain as it is when the call starts, or to
    // none of them, while other threads go on pushing and writing: `files` answers
    // the i-th open, and before the i-th step `pushes` says how many buffers appear
    // and `writers` whose threads ask for a new buffer. A reader starts one before a
    // write index that its buffer has had during the call.
    method AttachAll(files: nat -> int, pushes: nat -> nat, writers: nat -> seq<Buffer>) returns (ok: bool)
      requires Valid() && forall b | b in nodes :: b.Valid() && b.HasRoom()
      requires forall k: nat :: Among(writers(k), nodes)
      modifies this, nodes`fd, (set b: Buffer | b in nodes :: b.pool)`readIndex
      modifies (set b: Buffer | b in nodes :: b.pool)`writeIndex, (set b: Buffer | b in nodes :: b.pool)`overflowCount
      ensures Valid()
      ensures ok <==> forall j: nat :: j < |old(nodes)| ==> old(nodes[j].fd) < 0 && files(j) >= 0
      ensures ok ==> forall j: nat :: j < |old(nodes)| ==>
                var b := old(nodes[j]);
                && b.fd >= 0 && old(nodes[j].pool.writeIndex) <= b.pool.writeIndex
                && (b.pool.readIndex == 0 ==> old(nodes[j].pool.writeIndex) <= 1)
                && (b.pool.readIndex > 0 ==>
                      old(nodes[j].pool.writeIndex) <= b.pool.readIndex + 1 <= b.pool.writeIndex)
      ensures !ok ==> forall j: nat :: j < |old(nodes)| ==>
                var b := old(nodes[j]);
                (b.fd >= 0 <==> old(nodes[j].fd) >= 0) && b.pool.readIndex == old(nodes[j].pool.readIndex)
    {
      ghost var snap, st := nodes, Statuses(nodes);
      AllSeen(snap, st);
      ghost var now;
      RoomSeen(snap, st);
      ok, now := AttachOrNone(files, pushes, writers, st);
      AllSeen(snap, now);
      ReachedBounds(st, now, ok);
    }

    // The same on the states of the snapshot's buffers, `st` when the call starts
    // and `now` when it ends.
    method AttachOrNone(files: nat -> int, pushes: nat -> nat, writers: nat -> seq<Buffer>, ghost st: seq<Status>)
      returns (ok: bool, ghost now: seq<Status>)
      requires Valid() && AllValid(nodes) && StatusIs(nodes, st) && Roomy(st)
      requires forall k: nat :: Among(writers(k), nodes)
      modifies this, nodes`fd, (set b: Buffer | b in nodes :: b.pool)`readIndex
      modifies (set b: Buffer | b in nodes :: b.pool)`writeIndex, (set b: Buffer | b in nodes :: b.pool)`overflowCount
      ensures Valid() && Snapshot(old(head), old(nodes), now)
      ensures Reached(st, now, if ok then |st| else 0)
      ensures ok <==> CanAttach(st, files, |st|)
    {
      ghost var snap := nodes;
      var begin := head;
      DetachedHaveMax(snap, st);
      var n, refused;
      n, refused, now := AttachEach(begin, files, pushes, writers, snap, st);
      ok := refused == null;
      if !ok {
        ghost var before := now;
        now := RollBack(begin, refused, pushes, writers, n, snap, now);
        RolledBack(st, before, now, n);
      }
    }

    // Detaches every buffer; true means that every one of them was attached.
    method DetachAll(pushes: nat -> nat, writers: nat -> seq<Buffer>) returns (status: bool)
      requires Valid() && forall b | b in nodes :: b.Valid()
      requires forall k: nat :: Among(writers(k), nodes)
      modifies this, nodes`fd, (set b: Buffer | b in nodes :: b.pool)`readIndex
      modifies (set b: Buffer | b in nodes :: b.pool)`writeIndex, (set b: Buffer | b in nodes :: b.pool)`overflowCount
      ensures Valid()
      ensures status <==> forall j: nat :: j < |old(nodes)| ==> old(nodes[j].fd) >= 0
      ensures forall j: nat :: j < |old(nodes)| ==>
                var b := old(nodes[j]); b.fd < 0 && b.pool.readIndex + 16 == 0xFFFF_FFFF_FFFF_FFFF
    {
      ghost var snap, st := nodes, Statuses(nodes);
      AllSeen(snap, st);
      ghost var now;
      status, now := DetachEach(head, pushes, writers, nodes, st);
      AllSeen(snap, now);
    }

    method DetachEach(begin: Buffer?, pushes: nat -> nat, writers: nat -> seq<Buffer>,
                      ghost snap: seq<Buffer>, ghost st: seq<Status>)
      returns (status: bool, ghost now: seq<Status>)
      requires Valid() && Snapshot(begin, snap, st)
      requires forall k: nat :: Among(writers(k), snap)
      modifies this, snap`fd, (set b: Buffer | b in snap :: b.pool)`readIndex
      modifies (set b: Buffer | b in snap :: b.pool)`writeIndex, (set b: Buffer | b in snap :: b.pool)`overflowCount
      ensures Valid() && Snapshot(begin, snap, now) && Released(st, now, |st|)
      ensures status <==> AllAttached(st, |st|)
    {
      var buffer := begin;
      var k, ok := 0, true;
      status := true;
      now := st;
      while buffer != null
        invariant 0 <= k <= |snap| && buffer == Nth(snap, k)
        invariant Valid() && Snapshot(begin, snap, now) && Released(st, now, k)
        invariant status <==> AllAttached(st, k)
        decreases |snap| - k
      {
        ghost var before := now;
        ok, buffer, now := DetachTurn(begin, buffer, pushes(k), writers(k), snap, now, k);
        ReleasedNext(st, before, now, k);
        AllAttachedNext(st, k);
        now := now[k := Detached(now[k])];
        status := status && ok;
        k := k + 1;
      }
    }
  }

  ghost function Nth(snap: seq<Buffer>, i: nat): Buffer? {
    if i < |snap| then snap[i] else null
  }

  lemma {:induction false} NextLinked(begin: Buffer?, snap: seq<Buffer>, i: nat)
    requires Linked(begin, snap) && i < |snap|
    ensures snap[i].next == Nth(snap, i + 1)
    decreases i
  {
    if i > 0 {
      NextLinked(snap[0].next, snap[1..], i - 1);
    }
  }

  ghost function Statuses(snap: seq<Buffer>): (st: seq<Status>)
    reads snap`fd, set b: Buffer | b in snap :: b.pool
    ensures StatusIs(snap, st)
  {
    if snap == [] then [] else [snap[0].Seen()] + Statuses(snap[1..])
  }

  lemma AllSeen(snap: seq<Buffer>, st: seq<Status>)
    requires StatusIs(snap, st)
    ensures |st| == |snap|
    ensures forall j: nat :: j < |snap| ==>
              && (st[j].attached <==> snap[j].fd >= 0)
              && st[j].rindex == snap[j].pool.readIndex && st[j].windex == snap[j].pool.writeIndex
  {
    forall j: nat | j < |snap|
      ensures st[j] == snap[j].Seen()
    {
    }
  }

  lemma RoomSeen(snap: seq<Buffer>, st: seq<Status>)
    requires StatusIs(snap, st) && forall b: Buffer | b in snap :: b.HasRoom()
    ensures Roomy(st)
  {
    forall j | 0 <= j < |st|
      ensures st[j].windex <= ROOM
    {
      assert snap[j] in snap && st[j] == snap[j].Seen();
    }
  }

  lemma DetachedHaveMax(snap: seq<Buffer>, st: seq<Status>)
    requires AllValid(snap) && StatusIs(snap, st)
    ensures forall j :: 0 <= j < |st| && !st[j].attached ==> st[j] == Detached(st[j])
  {
    forall j | 0 <= j < |st| && !st[j].attached
      ensures st[j] == Detached(st[j])
    {
      assert snap[j] in snap;
      assert st[j] == snap[j].Seen();
    }
  }

  method AttachAt(buffer: Buffer, file: int, ghost snap: seq<Buffer>, ghost st: seq<Status>, ghost i: nat)
    returns (ok: bool)
    requires Apart(snap) && AllValid(snap) && StatusIs(snap, st) && Roomy(st) && i < |snap| && buffer == snap[i]
    modifies buffer`fd, buffer.pool`readIndex
    ensures AllValid(snap)
    ensures ok <==> !st[i].attached && file >= 0
    ensures StatusIs(snap, if ok then st[i := Attached(st[i])] else st)
  {
    assert snap[i] in snap;
    ok := buffer.AttachReader(file);
  }

  // The threads of the given buffers ask for a new one, in turn.
  method WriteEach(writers: seq<Buffer>, limit: nat, ghost snap: seq<Buffer>, ghost st: seq<Status>)
    returns (ghost now: seq<Status>)
    requires Apart(snap) && AllValid(snap) && StatusIs(snap, st) && Among(writers, snap)
    modifies (set b: Buffer | b in snap :: b.pool)`writeIndex, (set b: Buffer | b in snap :: b.pool)`overflowCount
    ensures AllValid(snap) && StatusIs(snap, now) && Grown(st, now)
    ensures Roomy(st) && limit <= ROOM ==> Roomy(now)
  {
    now := st;
    for k := 0 to |writers|
      invariant AllValid(snap) && StatusIs(snap, now) && Grown(st, now)
      invariant Roomy(st) && limit <= ROOM ==> Roomy(now)
    {
      assert writers[k] in snap;
      ghost var i :| 0 <= i < |snap| && snap[i] == writers[k];
      ghost var before := now;
      now := WriteAt(writers[k], limit, snap, now, i);
      GrownTwice(st, before, now);
    }
  }

  method WriteAt(buffer: Buffer, limit: nat, ghost snap: seq<Buffer>, ghost st: seq<Status>, ghost i: nat)
    returns (ghost now: seq<Status>)
    requires Apart(snap) && AllValid(snap) && StatusIs(snap, st) && i < |snap| && buffer == snap[i]
    modifies buffer.pool`writeIndex, buffer.pool`overflowCount
    ensures AllValid(snap) && StatusIs(snap, now) && Grown(st, now)
    ensures Roomy(st) && limit <= ROOM ==> Roomy(now)
  {
    assert snap[i] in snap;
    now := st;
    if buffer.pool.writeIndex < limit {
      var begin, end := buffer.NextWritableRange();
      now := st[i := buffer.Seen()];
    }
  }

  lemma GrownTwice(a: seq<Status>, b: seq<Status>, c: seq<Status>)
    requires Grown(a, b) && Grown(b, c)
    ensures Grown(a, c)
  {
    forall j | 0 <= j < |a|
      ensures Wrote(a[j], c[j])
    {
      assert Wrote(a[j], b[j]) && Wrote(b[j], c[j]);
    }
  }

  method DetachAt(buffer: Buffer, ghost snap: seq<Buffer>, ghost st: seq<Status>, ghost i: nat) returns (ok: bool)
    requires Apart(snap) && AllValid(snap) && StatusIs(snap, st) && i < |snap| && buffer == snap[i]
    modifies buffer`fd, buffer.pool`readIndex
    ensures AllValid(snap)
    ensures ok <==> st[i].attached
    ensures StatusIs(snap, st[i := Detached(st[i])])
  {
    assert snap[i] in snap;
    ok := buffer.DetachReader();
  }

  ghost predicate Linked(first: Buffer?, nodes: seq<Buffer>)
    reads nodes`next
  {
    if nodes == [] then first == null
    else first == nodes[0] && Linked(nodes[0].next, nodes[1..])
  }

  ghost predicate Apart(nodes: seq<Buffer>) {
    forall i, j :: 0 <= i < j < |nodes| ==> nodes[i] != nodes[j] && nodes[i].pool != nodes[j].pool
  }

  ghost predicate AllValid(nodes: seq<Buffer>)
    reads nodes`fd, set b: Buffer | b in nodes :: b.pool
  {
    forall b: Buffer | b in nodes :: b.Valid()
  }

  ghost function Attached(s: Status): Status {
    s.(attached := true, rindex := FirstOf(s.windex))
  }

  ghost function Detached(s: Status): Status {
    s.(attached := false, rindex := ReadIndexMax(POOL_SIZE))
  }

  // Up to this write index an attach returns.
  const ROOM: nat := WORD - POOL_SIZE

  ghost predicate Roomy(st: seq<Status>) {
    forall j :: 0 <= j < |st| ==> st[j].windex <= ROOM
  }

  // What the buffers' own threads can change.
  ghost predicate Grown(st: seq<Status>, now: seq<Status>) {
    |st| == |now| && forall j :: 0 <= j < |st| ==> Wrote(st[j], now[j])
  }

  ghost predicate Wrote(s: Status, t: Status) {
    t.attached == s.attached && t.rindex == s.rindex && s.windex <= t.windex
  }

  // The first n buffers have a reader that starts at a write index of the time
  // between st and now; the others' readers and read indices are as before.
  ghost predicate Reached(st: seq<Status>, now: seq<Status>, n: nat) {
    |st| == |now| && forall j :: 0 <= j < |st| ==> if j < n then Joined(st[j], now[j]) else Wrote(st[j], now[j])
  }

  ghost predicate Joined(s: Status, t: Status) {
    t.attached && s.windex <= t.windex && FirstOf(s.windex) <= t.rindex <= FirstOf(t.windex)
  }

  // The first n buffers have no reader; the others' are as before.
  ghost predicate Released(st: seq<Status>, now: seq<Status>, n: nat) {
    |st| == |now| && forall j :: 0 <= j < |st| ==> if j < n then Left(st[j], now[j]) else Wrote(st[j], now[j])
  }

  ghost predicate Left(s: Status, t: Status) {
    t == Detached(t) && s.windex <= t.windex
  }

  lemma ReachedNext(st: seq<Status>, before: seq<Status>, now: seq<Status>, n: nat)
    requires Reached(st, before, n) && Grown(before, now) && n < |st|
    ensures Reached(st, now, n) && Reached(st, now[n := Attached(now[n])], n + 1)
    ensures before[n].attached == st[n].attached
  {
    forall j | 0 <= j < |st|
      ensures if j < n then Joined(st[j], now[j]) else Wrote(st[j], now[j])
    {
      assert Wrote(before[j], now[j]);
    }
  }

  lemma ReachedBounds(st: seq<Status>, now: seq<Status>, all: bool)
    requires Reached(st, now, if all then |st| else 0)
    ensures |now| == |st|
    ensures all ==> forall j: nat :: j < |st| ==>
              && now[j].attached && st[j].windex <= now[j].windex
              && (now[j].rindex == 0 ==> st[j].windex <= 1)
              && (now[j].rindex > 0 ==> st[j].windex <= now[j].rindex + 1 <= now[j].windex)
    ensures !all ==> forall j: nat :: j < |st| ==>
              now[j].attached == st[j].attached && now[j].rindex == st[j].rindex
  {
    forall j: nat | j < |st|
      ensures if all then Joined(st[j], now[j]) else Wrote(st[j], now[j])
    {
    }
  }

  lemma ReleasedNext(st: seq<Status>, before: seq<Status>, now: seq<Status>, n: nat)
    requires Released(st, before, n) && Grown(before, now) && n < |st|
    ensures Released(st, now[n := Detached(now[n])], n + 1)
    ensures before[n].attached == st[n].attached
  {
    forall j | 0 <= j < |st|
      ensures if j < n then Left(st[j], now[j]) else Wrote(st[j], now[j])
    {
      assert Wrote(before[j], now[j]);
    }
  }

  ghost predicate StatusIs(nodes: seq<Buffer>, st: seq<Status>)
    reads nodes`fd, set b: Buffer | b in nodes :: b.pool
  {
    |st| == |nodes| && forall j :: 0 <= j < |nodes| ==> nodes[j].Seen() == st[j]
  }

  ghost predicate AllAttached(st: seq<Status>, n: nat)
    requires n <= |st|
  {
    forall j :: 0 <= j < n ==> st[j].attached
  }

  // None of the first n buffers has a reader, and their files can be opened.
  ghost predicate CanAttach(st: seq<Status>, files: nat -> int, n: nat)
    requires n <= |st|
  {
    forall j: nat :: j < n ==> !st[j].attached && files(j) >= 0
  }

  lemma CanAttachNext(st: seq<Status>, files: nat -> int, n: nat)
    requires n < |st|
    ensures CanAttach(st, files, n + 1) <==> CanAttach(st, files, n) && !st[n].attached && files(n) >= 0
  {}

  ghost predicate Among(writers: seq<Buffer>, snap: seq<Buffer>) {
    forall b | b in writers :: b in snap
  }

  lemma AllAttachedNext(st: seq<Status>, n: nat)
    requires n < |st|
    ensures AllAttached(st, n + 1) <==> AllAttached(st, n) && st[n].attached
  {}

  lemma RolledBack(st: seq<Status>, before: seq<Status>, now: seq<Status>, n: nat)
    requires Reached(st, before, n) && Released(before, now, n) && n <= |st|
    requires forall j :: 0 <= j < n ==> st[j] == Detached(st[j])
    ensures Reached(st, now, 0)
  {
    forall j | 0 <= j < |st|
      ensures Wrote(st[j], now[j])
    {
      assert if j < n then Joined(st[j], before[j]) && Left(before[j], now[j])
             else Wrote(st[j], before[j]) && Wrote(before[j], now[j]);
    }
  }
}
