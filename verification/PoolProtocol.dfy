/** The wait-free pool as a concurrent protocol: one writer thread and one reader
    thread, every load and store of a shared word a step of its own, sequentially
    consistent, on 64-bit words. A schedule is any sequence of actions; an action
    that its thread is not ready for leaves the state alone. */
module PoolProtocol {
  import opened Prelude
  import opened PoolIndex

  // What the writer leaves in a buffer.
  type Batch = seq<int>

  // Where the writer is inside nextWritableBuffer, and what it has loaded.
  datatype Writer = Idle | HasWindex(w: nat) | HasRindex(w: nat, r: nat)

  // Where the reader is: between sessions, inside attachReader, between calls,
  // or inside nextReadableBuffer after the read index has been advanced.
  datatype Reader = Detached | HasLoaded(w: nat) | HasStored | Attached | Polling

  datatype State = State(
    size: nat,
    windex: nat, rindex: nat, overflow: nat, slots: seq<Batch>,
    writer: Writer, reader: Reader,
    cur: Option<nat>,     // _curReadBuf, as a slot number
    // History, never read by the steps.
    calls: nat,           // completed calls of nextWritableBuffer
    overflows: nat,       // how many of them were counted as overflows
    left: seq<Batch>,     // left[i]: what the writer last left at index i
    start: nat,           // the read index when the session began
    stale: bool,          // a writer call held the detached index when attachReader returned
    kept: bool,           // the reader still held a buffer when attachReader returned
    polled: bool,         // the session has called nextReadableBuffer
    read: seq<nat>        // the indices handed to the reader in this session
  )

  datatype Action =
    | WriterLoadWindex | WriterLoadRindex | WriterCommit | WriterFill(b: Batch)
    | AttachLoad | AttachStore | AttachCheck
    | PollRelease | PollCheck
    | DetachStore

  function Slot(i: nat, size: nat): (k: nat)
    requires size > 0
    ensures k < size
  {
    BitAnd(i, size - 1)
  }

  // Unsigned 64-bit wrap-around.
  function Wrap(x: nat): (y: nat)
    ensures y < WORD && y <= x
    ensures x < WORD ==> y == x
    ensures WORD <= x < 2 * WORD ==> y == x - WORD
  {
    x % WORD
  }

  ghost predicate ValidSize(size: nat) {
    IsPoolSizeValid(size) && size < UNSIGNED
  }

  function Init(size: nat): State
    requires 0 < size < WORD
  {
    State(size, 0, ReadIndexMax(size), 0, seq(size, _ => []), Idle, Detached, None,
          0, 0, [], 0, false, false, false, [])
  }

  // ---- the steps ----

  function LoadRindex(s: State): State
    requires s.writer.HasWindex?
  {
    s.(writer := HasRindex(s.writer.w, s.rindex))
  }

  function Commit(s: State): State
    requires s.writer.HasRindex? && s.size > 0 && |s.slots| == s.size
  {
    if s.writer.w < Wrap(s.writer.r + s.size) then
      s.(windex := s.writer.w + 1,
         left := s.left + [s.slots[Slot(s.writer.w, s.size)]],
         calls := s.calls + 1, writer := Idle)
    else
      s.(overflow := Wrap(s.overflow + 1), overflows := s.overflows + 1,
         calls := s.calls + 1, writer := Idle)
  }

  function AttachExit(s: State): State
    requires s.size > 0
  {
    if s.windex > Wrap(s.rindex + s.size) then s.(reader := HasLoaded(s.windex))
    else
      s.(reader := Attached, start := s.rindex, polled := false, read := [],
         stale := s.writer.HasRindex? && s.writer.r + s.size == WORD - 1,
         kept := s.cur.Some?)
  }

  function Release(s: State): State {
    if s.cur.Some? then s.(rindex := Wrap(s.rindex + 1), cur := None, polled := true, reader := Polling)
    else s.(polled := true, reader := Polling)
  }

  function Poll(s: State): State
    requires s.size > 0
  {
    var next := Wrap(s.rindex + 1);
    if s.windex > next then s.(cur := Some(Slot(next, s.size)), read := s.read + [next], reader := Attached)
    else s.(reader := Attached)
  }

  function Step(s: State, a: Action): (t: State)
    requires 0 < s.size < WORD && |s.slots| == s.size
    ensures t.size == s.size && |t.slots| == t.size
  {
    match a
    case WriterLoadWindex => if s.writer.Idle? then s.(writer := HasWindex(s.windex)) else s
    case WriterLoadRindex => if s.writer.HasWindex? then LoadRindex(s) else s
    case WriterCommit => if s.writer.HasRindex? then Commit(s) else s
    case WriterFill(b) =>
      if s.writer.Idle? && s.calls > 0 then s.(slots := s.slots[Slot(s.windex, s.size) := b]) else s
    case AttachLoad => if s.reader.Detached? then s.(reader := HasLoaded(s.windex)) else s
    case AttachStore =>
      if s.reader.HasLoaded? then
        s.(rindex := if s.reader.w == 0 then 0 else s.reader.w - 1, reader := HasStored)
      else s
    case AttachCheck => if s.reader.HasStored? then AttachExit(s) else s
    case PollRelease => if s.reader.Attached? then Release(s) else s
    case PollCheck => if s.reader.Polling? then Poll(s) else s
    case DetachStore =>
      if s.reader.Attached? then s.(rindex := ReadIndexMax(s.size), reader := Detached) else s
  }

  function Run(s: State, schedule: seq<Action>): (t: State)
    requires 0 < s.size < WORD && |s.slots| == s.size
    ensures t.size == s.size && |t.slots| == t.size
    decreases schedule
  {
    if schedule == [] then s else Run(Step(s, schedule[0]), schedule[1..])
  }

  ghost predicate InSession(s: State) {
    s.reader.Attached? || s.reader.Polling?
  }

  // ---- the inductive invariant ----

  ghost predicate Counted(s: State) {
    && ValidSize(s.size) && |s.slots| == s.size
    && s.windex < WORD && s.rindex < WORD && |s.left| == s.windex
    && s.calls == s.windex + s.overflows
    && s.overflow == s.overflows % WORD
  }

  // The last size - 1 finished indices still have in their slots what the writer left.
  ghost predicate Window(s: State)
    requires Counted(s)
  {
    forall i: nat :: i < s.windex < i + s.size ==> s.slots[Slot(i, s.size)] == s.left[i]
  }

  // A writer call in flight either saw the current session's index, or starts
  // too far behind to overrun it, or holds the detached index.
  ghost predicate WriterInStep(s: State) {
    && (s.writer.HasWindex? ==> s.writer.w == s.windex)
    && (s.writer.HasRindex? ==>
          && s.writer.w == s.windex
          && (s.writer.r + s.size == WORD - 1 || (s.writer.r <= s.windex && Harmless(s))))
  }

  ghost predicate Harmless(s: State)
    requires s.writer.HasRindex?
  {
    match s.reader
    case Detached => true
    case HasLoaded(x) => s.windex == x || s.writer.r < x
    case _ => s.writer.r <= s.rindex || s.windex <= s.rindex + 1
  }

  ghost predicate ReaderInStep(s: State)
    requires s.size > 0
  {
    match s.reader
    case Detached => s.rindex + s.size == WORD - 1 && (s.cur.Some? ==> s.windex >= 1)
    case HasLoaded(x) =>
      && x <= s.windex && (s.rindex + s.size == WORD - 1 || s.rindex < x)
      && (s.cur.Some? ==> x >= 1)
    case HasStored => (s.rindex < s.windex || s.rindex == 0) && (s.cur.Some? ==> s.rindex < s.windex)
    case Attached => SessionBounds(s) && SessionReads(s)
    case Polling => SessionBounds(s) && s.cur.None? && s.polled && SessionReads(s)
  }

  ghost predicate SessionBounds(s: State) {
    && s.rindex <= s.windex <= s.rindex + s.size + 1
    && (s.rindex == s.windex ==> s.rindex + s.size <= WORD && (s.kept || s.rindex == 0))
    && (s.rindex == s.start ==> s.rindex + s.size < WORD)
    && s.start <= s.rindex
    && (s.windex == s.rindex + s.size + 1 ==> s.stale && s.rindex == s.start)
    && (s.writer.HasRindex? && s.writer.r > s.rindex && s.windex > s.rindex + 1 ==>
          s.stale && s.windex <= s.start + s.size)
  }

  // The first index of the session that is handed to the reader.
  function FirstRead(s: State): nat {
    s.start + 1 + if s.kept then 1 else 0
  }

  ghost predicate SessionReads(s: State)
    requires s.size > 0
  {
    && (forall k :: 0 <= k < |s.read| ==> s.read[k] == FirstRead(s) + k)
    && (s.rindex == s.windex ==> s.read == [])
    && (!s.polled ==> s.read == [] && s.rindex == s.start && s.cur.Some? == s.kept
                      && (s.kept ==> s.rindex < s.windex))
    && (s.polled ==> s.rindex + 1 == FirstRead(s) + |s.read| - (if s.cur.Some? then 1 else 0))
    && (s.polled && s.cur.Some? ==>
          |s.read| > 0 && s.rindex + 1 < s.windex && s.cur.value == Slot(s.rindex + 1, s.size))
  }

  ghost predicate Inv(s: State) {
    Counted(s) && Window(s) && WriterInStep(s) && ReaderInStep(s)
  }

  // ---- every step keeps the invariant ----

  lemma SlotsDistinct(i: nat, j: nat, size: nat)
    requires IsPoolSizeValid(size) && i < j < i + size
    ensures Slot(i, size) != Slot(j, size)
  {
    MaskIsMod(i, size);
    MaskIsMod(j, size);
    if Slot(i, size) == Slot(j, size) {
      SameSlotFarApart(i, j, size);
    }
  }

  lemma SlotsRepeat(i: nat, size: nat)
    requires IsPoolSizeValid(size)
    ensures Slot(i + size, size) == Slot(i, size)
  {
    MaskIsMod(i, size);
    MaskIsMod(i + size, size);
    SlotRepeats(i, size);
  }

  lemma SlotIs(i: nat, size: nat)
    requires IsPoolSizeValid(size)
    ensures Slot(i, size) == i % size
  {
    MaskIsMod(i, size);
  }

  lemma InitInv(size: nat)
    requires ValidSize(size)
    ensures Inv(Init(size))
  {}

  lemma CommitKeepsCount(s: State)
    requires Inv(s) && s.writer.HasRindex?
    ensures Counted(Commit(s))
  {}

  lemma CommitKeepsWindow(s: State)
    requires Inv(s) && s.writer.HasRindex?
    ensures Counted(Commit(s)) && Window(Commit(s))
  {
    CommitKeepsCount(s);
  }

  // The overrun test leaves room for one more index, or the call is the stale one.
  lemma CommitHasRoom(s: State)
    requires Counted(s) && WriterInStep(s) && ReaderInStep(s)
    requires s.writer.HasRindex? && InSession(s) && s.windex < Wrap(s.writer.r + s.size)
    ensures s.windex + 1 <= s.rindex + s.size || (s.stale && s.windex == s.start + s.size && s.rindex == s.start)
  {}

  lemma CommitKeepsBounds(s: State)
    requires Counted(s) && WriterInStep(s) && ReaderInStep(s)
    requires s.writer.HasRindex? && InSession(s)
    ensures SessionBounds(Commit(s))
  {
    if s.windex < Wrap(s.writer.r + s.size) {
      CommitHasRoom(s);
    }
  }

  lemma CommitKeepsReads(s: State)
    requires Counted(s) && WriterInStep(s) && ReaderInStep(s)
    requires s.writer.HasRindex? && InSession(s)
    ensures SessionReads(Commit(s))
  {}

  lemma CommitKeepsOutside(s: State)
    requires Counted(s) && WriterInStep(s) && ReaderInStep(s)
    requires s.writer.HasRindex? && !InSession(s)
    ensures ReaderInStep(Commit(s))
  {}

  lemma CommitKeepsSession(s: State)
    requires Counted(s) && WriterInStep(s) && ReaderInStep(s)
    requires s.writer.HasRindex? && InSession(s)
    ensures ReaderInStep(Commit(s))
  {
    CommitKeepsBounds(s);
    CommitKeepsReads(s);
  }

  lemma CommitKeepsReader(s: State)
    requires Counted(s) && WriterInStep(s) && ReaderInStep(s)
    requires s.writer.HasRindex?
    ensures WriterInStep(Commit(s)) && ReaderInStep(Commit(s))
  {
    if InSession(s) {
      CommitKeepsSession(s);
    } else {
      CommitKeepsOutside(s);
    }
  }

  lemma FillKeepsInv(s: State, b: Batch)
    requires Inv(s)
    ensures Inv(Step(s, WriterFill(b)))
  {
    FillKeepsWindow(s, b);
    assert ReaderInStep(Step(s, WriterFill(b)));
  }

  lemma FillKeepsWindow(s: State, b: Batch)
    requires Counted(s) && Window(s)
    ensures Counted(Step(s, WriterFill(b))) && Window(Step(s, WriterFill(b)))
  {
    var t := Step(s, WriterFill(b));
    forall i: nat | i < s.windex < i + s.size
      ensures t.slots[Slot(i, s.size)] == t.left[i]
    {
      SlotsDistinct(i, s.windex, s.size);
    }
  }

  lemma AttachLoadKeepsInv(s: State)
    requires Inv(s)
    ensures Inv(Step(s, AttachLoad))
  {}

  lemma AttachStoreKeepsInv(s: State)
    requires Inv(s)
    ensures Inv(Step(s, AttachStore))
  {}

  lemma AttachCheckKeepsInv(s: State)
    requires Inv(s)
    ensures Inv(Step(s, AttachCheck))
  {}

  lemma LoadWindexKeepsInv(s: State)
    requires Inv(s) && s.writer.Idle?
    ensures Inv(s.(writer := HasWindex(s.windex)))
  {}

  lemma LoadRindexKeepsWriter(s: State)
    requires Inv(s) && s.writer.HasWindex?
    ensures WriterInStep(LoadRindex(s))
  {}

  lemma LoadRindexKeepsReader(s: State)
    requires Inv(s) && s.writer.HasWindex?
    ensures ReaderInStep(LoadRindex(s))
  {}

  lemma DetachKeepsInv(s: State)
    requires Inv(s)
    ensures Inv(Step(s, DetachStore))
  {}

  lemma ReadIndexCannotWrap(s: State)
    requires Inv(s) && InSession(s)
    ensures s.rindex + 1 < WORD
    ensures s.cur.Some? ==> s.rindex < s.windex
  {}

  lemma ReleaseKeepsBounds(s: State)
    requires Inv(s) && s.reader.Attached?
    ensures SessionBounds(Release(s))
  {
    ReadIndexCannotWrap(s);
  }

  lemma ReleaseKeepsReads(s: State)
    requires Inv(s) && s.reader.Attached?
    ensures SessionReads(Release(s))
  {
    ReadIndexCannotWrap(s);
  }

  lemma ReleaseKeepsInv(s: State)
    requires Inv(s) && s.reader.Attached?
    ensures Inv(Release(s))
  {
    ReleaseKeepsBounds(s);
    ReleaseKeepsReads(s);
  }

  lemma PollKeepsReads(s: State)
    requires Inv(s) && s.reader.Polling?
    ensures SessionReads(Poll(s))
  {
    ReadIndexCannotWrap(s);
  }

  lemma PollKeepsInv(s: State)
    requires Inv(s) && s.reader.Polling?
    ensures Inv(Poll(s))
  {
    PollKeepsReads(s);
    assert SessionBounds(Poll(s));
  }

  lemma StepKeepsInv(s: State, a: Action)
    requires Inv(s)
    ensures Inv(Step(s, a))
  {
    match a
    case WriterLoadWindex => if s.writer.Idle? { LoadWindexKeepsInv(s); }
    case WriterLoadRindex =>
      if s.writer.HasWindex? {
        LoadRindexKeepsWriter(s);
        LoadRindexKeepsReader(s);
      }
    case WriterCommit => if s.writer.HasRindex? { CommitKeepsWindow(s); CommitKeepsReader(s); }
    case WriterFill(b) => FillKeepsInv(s, b);
    case AttachLoad => AttachLoadKeepsInv(s);
    case AttachStore => AttachStoreKeepsInv(s);
    case AttachCheck => AttachCheckKeepsInv(s);
    case PollRelease => if s.reader.Attached? { ReleaseKeepsInv(s); }
    case PollCheck => if s.reader.Polling? { PollKeepsInv(s); }
    case DetachStore => DetachKeepsInv(s);
  }

  lemma {:induction false} RunKeepsInv(s: State, schedule: seq<Action>)
    requires Inv(s)
    ensures Inv(Run(s, schedule))
    decreases schedule
  {
    if schedule != [] {
      StepKeepsInv(s, schedule[0]);
      RunKeepsInv(Step(s, schedule[0]), schedule[1..]);
    }
  }

  // ---- what every schedule guarantees ----

  // Invariants #1 and #2 of the header comment, in the form the code keeps: the
  // write index leads by at most size, and by size + 1 only if a stale writer
  // call was in flight when attachReader returned and nothing has been released
  // since; the indices are equal exactly on an untouched pool, or when the session
  // has released a buffer kept over a detach and nothing was written after its
  // attach; and neither index can wrap around.
  lemma IndicesBounded(size: nat, schedule: seq<Action>)
    requires ValidSize(size)
    ensures var s := Run(Init(size), schedule);
            && s.windex < WORD
            && (InSession(s) ==>
                  && s.rindex <= s.windex <= s.rindex + size + 1
                  && s.rindex + 1 < WORD
                  && (s.cur.Some? ==> s.rindex < s.windex && s.rindex + 2 < WORD)
                  && (s.windex == s.rindex + size + 1 ==> s.stale && s.rindex == s.start)
                  && (s.rindex == s.windex <==>
                        s.windex == 0 || (s.kept && s.polled && s.windex == s.start + 1)))
  {
    InitInv(size);
    RunKeepsInv(Init(size), schedule);
  }

  // The batches of a session come in order, with no gap and no duplicate; they
  // start right after the session's first read index unless a buffer was kept.
  // The held slot is the writer's slot exactly in the overrun state; otherwise it
  // holds what the writer last left there, for as long as the reader holds it.
  lemma ReadsAreFifo(size: nat, schedule: seq<Action>)
    requires ValidSize(size)
    ensures var s := Run(Init(size), schedule);
            InSession(s) ==>
              && (forall k :: 0 <= k < |s.read| ==> s.read[k] == s.start + 1 + k + (if s.kept then 1 else 0))
              && (s.polled && s.cur.Some? ==>
                    && |s.read| > 0 && s.read[|s.read| - 1] == s.rindex + 1 < s.windex
                    && (s.cur.value == Slot(s.windex, size) <==> s.windex == s.rindex + size + 1)
                    && (s.windex != s.rindex + size + 1 ==>
                          && s.cur.value < |s.slots| && s.rindex + 1 < |s.left|
                          && s.slots[s.cur.value] == s.left[s.rindex + 1]))
  {
    InitInv(size);
    RunKeepsInv(Init(size), schedule);
    var s := Run(Init(size), schedule);
    if InSession(s) && s.polled && s.cur.Some? {
      HeldSlot(s);
    }
  }

  lemma HeldSlot(s: State)
    requires Inv(s) && InSession(s) && s.polled && s.cur.Some?
    ensures |s.read| > 0 && s.read[|s.read| - 1] == s.rindex + 1 < s.windex
    ensures s.cur.value == Slot(s.windex, s.size) <==> s.windex == s.rindex + s.size + 1
    ensures s.windex != s.rindex + s.size + 1 ==> s.slots[s.cur.value] == s.left[s.rindex + 1]
  {
    if s.windex == s.rindex + 1 + s.size {
      SlotsRepeat(s.rindex + 1, s.size);
    } else {
      SlotsDistinct(s.rindex + 1, s.windex, s.size);
    }
  }

  // Every call of nextWritableBuffer either advances the write index or is counted.
  lemma CallsAreAccounted(size: nat, schedule: seq<Action>)
    requires ValidSize(size)
    ensures var s := Run(Init(size), schedule);
            s.calls == s.windex + s.overflows && s.overflow == s.overflows % WORD
  {
    InitInv(size);
    RunKeepsInv(Init(size), schedule);
  }

  // The one step that makes the write index exceed Invariant #2: the writer holds
  // the detached read index while the pool is full for the reader of a session.
  lemma OverrunExactly(s: State)
    requires Inv(s) && InSession(s) && s.writer.HasRindex? && s.windex <= s.rindex + s.size
    ensures Commit(s).windex > s.rindex + s.size <==>
            s.windex == s.rindex + s.size && s.writer.r == ReadIndexMax(s.size) && s.windex < WORD - 1
  {}

  // A writer call that has loaded the read index did so at one step, and has not
  // come to its end since.
  lemma {:induction false} CallHasLoaded(size: nat, schedule: seq<Action>)
    returns (before: seq<Action>, between: seq<Action>)
    requires 0 < size < WORD && Run(Init(size), schedule).writer.HasRindex?
    ensures schedule == before + ([WriterLoadRindex] + between) && WriterCommit !in between
    ensures Run(Init(size), before).writer.HasWindex?
    decreases schedule
  {
    var last := |schedule| - 1;
    var earlier, a := schedule[..last], schedule[last];
    var s := Run(Init(size), earlier);
    assert schedule == earlier + [a];
    RunSnoc(Init(size), earlier, a);
    LoadsOrHasLoaded(s, a);
    if s.writer.HasRindex? {
      before, between := CallHasLoaded(size, earlier);
      between := between + [a];
    } else {
      before, between := earlier, [];
    }
  }

  lemma LoadsOrHasLoaded(s: State, a: Action)
    requires 0 < s.size < WORD && |s.slots| == s.size && Step(s, a).writer.HasRindex?
    ensures if s.writer.HasRindex? then a != WriterCommit else s.writer.HasWindex? && a == WriterLoadRindex
  {}

  lemma RunSnoc(s: State, schedule: seq<Action>, a: Action)
    requires 0 < s.size < WORD && |s.slots| == s.size
    ensures Run(s, schedule + [a]) == Step(Run(s, schedule), a)
  {
    RunConcat(s, schedule, [a]);
    assert [a][1..] == [];
  }

  // Nothing that the reader does changes what the writer has loaded.
  lemma {:induction false} CallKeepsLoaded(s: State, between: seq<Action>)
    requires 0 < s.size < WORD && |s.slots| == s.size && s.writer.HasRindex? && WriterCommit !in between
    ensures var t := Run(s, between);
            t.writer == s.writer && t.windex == s.windex && t.overflows == s.overflows
    decreases between
  {
    if between != [] {
      assert between[0] in between;
      CallKeepsLoaded(Step(s, between[0]), between[1..]);
    }
  }

  ghost predicate FullForReader(s: State) {
    && !s.reader.Detached?
    && (InSession(s) ==> s.windex == s.rindex + s.size || s.windex == s.rindex + s.size + 1)
  }

  lemma LoadFindsFull(s: State)
    requires Inv(s) && s.writer.HasWindex? && s.windex + s.size < WORD - 1
    requires s.rindex + s.size <= s.windex
    ensures FullForReader(s)
  {}

  // Short of the 64-bit limit, a call that is about to be counted as an overflow
  // loaded its read index when a reader was attached, or was just attaching, and
  // when the pool was full for a reader in session; a call is counted exactly if
  // it found the pool full like that.
  lemma OverflowMeansFull(size: nat, schedule: seq<Action>) returns (before: seq<Action>, between: seq<Action>)
    requires ValidSize(size)
    requires var s := Run(Init(size), schedule); s.writer.HasRindex? && s.windex + size < WORD - 1
    ensures schedule == before + ([WriterLoadRindex] + between) && WriterCommit !in between
    ensures var s, t := Run(Init(size), before), Run(Init(size), schedule);
            && s.writer.HasWindex? && s.windex == t.windex
            && Commit(t).overflows == t.overflows + (if s.rindex + size <= s.windex then 1 else 0)
            && (s.rindex + size <= s.windex ==> FullForReader(s))
  {
    before, between := CallHasLoaded(size, schedule);
    var s := Run(Init(size), before);
    InitInv(size);
    RunKeepsInv(Init(size), before);
    RunConcat(Init(size), before, [WriterLoadRindex] + between);
    RunFirst(s, WriterLoadRindex, between);
    CallKeepsLoaded(LoadRindex(s), between);
    if s.rindex + size <= s.windex {
      LoadFindsFull(s);
    }
  }

  // With whole operations as steps a call is counted, short of the limit, exactly
  // when a reader is attached and the pool is full for it.
  lemma WholeOverflowMeansFull(size: nat, ops: seq<Op>)
    requires ValidSize(size)
    ensures var s := Run(Init(size), Flatten(ops));
            s.windex + size < WORD - 1 ==>
              (Whole(s, NextWritable).overflows == s.overflows + 1 <==>
                 !s.reader.Detached? && s.windex >= s.rindex + size)
              && (InSession(s) ==> s.windex <= s.rindex + size)
  {
    InitInv(size);
    RunKeepsInv(Init(size), Flatten(ops));
    WholeOpsNeverStale(Init(size), ops);
  }

  // ---- whole operations as steps ----

  datatype Op = NextWritable | Fill(b: Batch) | Attach | NextReadable | Detach

  function Expand(op: Op): seq<Action> {
    match op
    case NextWritable => [WriterLoadWindex, WriterLoadRindex, WriterCommit]
    case Fill(b) => [WriterFill(b)]
    case Attach => [AttachLoad, AttachStore, AttachCheck]
    case NextReadable => [PollRelease, PollCheck]
    case Detach => [DetachStore]
  }

  function Flatten(ops: seq<Op>): seq<Action> {
    if ops == [] then [] else Expand(ops[0]) + Flatten(ops[1..])
  }

  lemma {:induction false} RunConcat(s: State, a: seq<Action>, b: seq<Action>)
    requires 0 < s.size < WORD && |s.slots| == s.size
    ensures Run(s, a + b) == Run(Run(s, a), b)
    decreases a
  {
    if a == [] {
      assert a + b == b;
    } else {
      assert (a + b)[1..] == a[1..] + b;
      RunConcat(Step(s, a[0]), a[1..], b);
    }
  }

  lemma RunFirst(s: State, a: Action, rest: seq<Action>)
    requires 0 < s.size < WORD && |s.slots| == s.size
    ensures Run(s, [a] + rest) == Run(Step(s, a), rest)
  {
    assert ([a] + rest)[1..] == rest;
  }

  lemma RunFirst2(s: State, a: Action, b: Action, rest: seq<Action>)
    requires 0 < s.size < WORD && |s.slots| == s.size
    ensures Run(s, [a, b] + rest) == Run(Step(Step(s, a), b), rest)
  {
    assert [a, b] + rest == [a] + ([b] + rest);
    RunFirst(s, a, [b] + rest);
    RunFirst(Step(s, a), b, rest);
  }

  lemma RunFirst3(s: State, a: Action, b: Action, c: Action, rest: seq<Action>)
    requires 0 < s.size < WORD && |s.slots| == s.size
    ensures Run(s, [a, b, c] + rest) == Run(Step(Step(Step(s, a), b), c), rest)
  {
    assert [a, b, c] + rest == [a] + ([b, c] + rest);
    RunFirst(s, a, [b, c] + rest);
    RunFirst2(Step(s, a), b, c, rest);
  }

  // What one whole operation does to the state.
  function Whole(s: State, op: Op): (t: State)
    requires 0 < s.size < WORD && |s.slots| == s.size
    ensures t.size == s.size && |t.slots| == t.size
  {
    match op
    case NextWritable => Step(Step(Step(s, WriterLoadWindex), WriterLoadRindex), WriterCommit)
    case Fill(b) => Step(s, WriterFill(b))
    case Attach => Step(Step(Step(s, AttachLoad), AttachStore), AttachCheck)
    case NextReadable => Step(Step(s, PollRelease), PollCheck)
    case Detach => Step(s, DetachStore)
  }

  lemma RunOp(s: State, op: Op, rest: seq<Action>)
    requires 0 < s.size < WORD && |s.slots| == s.size
    ensures Run(s, Expand(op) + rest) == Run(Whole(s, op), rest)
  {
    match op
    case NextWritable => RunFirst3(s, WriterLoadWindex, WriterLoadRindex, WriterCommit, rest);
    case Fill(b) => RunFirst(s, WriterFill(b), rest);
    case Attach => RunFirst3(s, AttachLoad, AttachStore, AttachCheck, rest);
    case NextReadable => RunFirst2(s, PollRelease, PollCheck, rest);
    case Detach => RunFirst(s, DetachStore, rest);
  }

  lemma WholeNeverStale(s: State, op: Op)
    requires 0 < s.size < WORD && |s.slots| == s.size && s.writer.Idle? && !s.stale
    ensures !Whole(s, op).stale && Whole(s, op).writer.Idle?
  {}

  lemma {:induction false} WholeOpsNeverStale(s: State, ops: seq<Op>)
    requires 0 < s.size < WORD && |s.slots| == s.size && s.writer.Idle? && !s.stale
    ensures !Run(s, Flatten(ops)).stale && Run(s, Flatten(ops)).writer.Idle?
    decreases ops
  {
    if ops != [] {
      RunOp(s, ops[0], Flatten(ops[1..]));
      WholeNeverStale(s, ops[0]);
      WholeOpsNeverStale(Whole(s, ops[0]), ops[1..]);
    }
  }

  // With whole operations as steps Invariant #2 holds as written, and the slot
  // that the reader holds is never the writer's.
  lemma WholeOpsStrictBound(size: nat, ops: seq<Op>)
    requires ValidSize(size)
    ensures var s := Run(Init(size), Flatten(ops));
            InSession(s) ==>
              && s.rindex <= s.windex <= s.rindex + size
              && (s.polled && s.cur.Some? ==> s.cur.value != Slot(s.windex, size))
  {
    WholeOpsNeverStale(Init(size), ops);
    IndicesBounded(size, Flatten(ops));
    ReadsAreFifo(size, Flatten(ops));
  }

  // ---- the read index can reach the write index ----

  // An attach to an untouched pool leaves both indices 0.
  lemma UntouchedPoolEqual(size: nat)
    requires ValidSize(size)
    ensures var s := Run(Init(size), Expand(Attach));
            s.reader.Attached? && s.rindex == s.windex == 0 && !s.kept
  {
    RunOp(Init(size), Attach, []);
    assert Expand(Attach) + [] == Expand(Attach);
  }

  lemma {:induction false} FlattenConcat(a: seq<Op>, b: seq<Op>)
    ensures Flatten(a + b) == Flatten(a) + Flatten(b)
  {
    if a == [] {
      assert a + b == b;
    } else {
      assert (a + b)[1..] == a[1..] + b;
      FlattenConcat(a[1..], b);
    }
  }

  // The states before, between and after the operations.
  ghost predicate Trace(states: seq<State>, ops: seq<Op>) {
    && |states| == |ops| + 1
    && (forall i :: 0 <= i < |states| ==> 0 < states[i].size < WORD && |states[i].slots| == states[i].size)
    && (forall i :: 0 <= i < |ops| ==> states[i + 1] == Whole(states[i], ops[i]))
  }

  lemma {:induction false} TraceRuns(states: seq<State>, ops: seq<Op>)
    requires Trace(states, ops)
    ensures Run(states[0], Flatten(ops)) == states[|ops|]
    decreases ops
  {
    if ops != [] {
      assert states[1] == Whole(states[0], ops[0]);
      RunOp(states[0], ops[0], Flatten(ops[1..]));
      TraceRuns(states[1..], ops[1..]);
    }
  }

  // The reader attaches and two buffers are finished; then it takes one, keeps it
  // over a detach and an attach, and releases it.
  const WRITE_TWO: seq<Op> := [Attach, NextWritable, NextWritable]
  const KEEP_ONE: seq<Op> := [NextReadable, Detach, Attach, NextReadable]

  ghost predicate Sized(s: State) {
    ValidSize(s.size) && |s.slots| == s.size
  }

  lemma TwoWritten(size: nat)
    requires ValidSize(size)
    ensures var s := Whole(Whole(Whole(Init(size), Attach), NextWritable), NextWritable);
            && Sized(s) && s.writer.Idle? && s.reader.Attached? && s.cur.None?
            && s.windex == 2 && s.rindex == 0 && |s.left| == 2
  {
    var s := Whole(Init(size), Attach);
    assert s.windex == 0 && s.rindex == 0;
  }

  lemma KeptOverDetach(s: State)
    requires Sized(s) && s.writer.Idle? && s.reader.Attached? && s.cur.None? && s.windex == 2 && s.rindex == 0
    ensures var t := Whole(Whole(Whole(s, NextReadable), Detach), Attach);
            && Sized(t) && t.writer.Idle? && t.reader.Attached? && t.cur.Some? && t.kept && t.read == []
            && t.windex == 2 && t.rindex == t.start == 1 && t.left == s.left
  {
    assert Whole(s, NextReadable).cur.Some?;
  }

  lemma KeptReleased(s: State)
    requires Sized(s) && s.writer.Idle? && s.reader.Attached? && s.cur.Some? && s.windex == 2 && s.rindex == 1
    ensures var t := Whole(s, NextReadable);
            && Sized(t) && t.reader.Attached? && t.cur.None? && t.polled && t.read == s.read
            && t.windex == t.rindex == 2 && t == s.(rindex := 2, cur := None, polled := true)
  {}

  lemma WriteTwoRuns(size: nat)
    requires ValidSize(size)
    ensures Run(Init(size), Flatten(WRITE_TWO)) == Whole(Whole(Whole(Init(size), Attach), NextWritable), NextWritable)
  {
    var s1 := Whole(Init(size), Attach);
    var s2 := Whole(s1, NextWritable);
    TraceRuns([Init(size), s1, s2, Whole(s2, NextWritable)], WRITE_TWO);
  }

  lemma KeepOneRuns(s: State)
    requires Sized(s)
    ensures Run(s, Flatten(KEEP_ONE)) == Whole(Whole(Whole(Whole(s, NextReadable), Detach), Attach), NextReadable)
  {
    var s1 := Whole(s, NextReadable);
    var s2 := Whole(s1, Detach);
    var s3 := Whole(s2, Attach);
    TraceRuns([s, s1, s2, s3, Whole(s3, NextReadable)], KEEP_ONE);
  }

  // The read index has caught up with the write index in a pool that was used.
  lemma KeepReaches(size: nat)
    requires ValidSize(size)
    ensures var s := Run(Init(size), Flatten(WRITE_TWO + KEEP_ONE));
            && Sized(s) && s.reader.Attached? && s.kept && s.polled && s.cur.None? && s.read == []
            && s.rindex == s.windex == |s.left| == 2 && s.start == 1 && s.writer.Idle?
  {
    FlattenConcat(WRITE_TWO, KEEP_ONE);
    RunConcat(Init(size), Flatten(WRITE_TWO), Flatten(KEEP_ONE));
    var s := Run(Init(size), Flatten(WRITE_TWO));
    WriteTwoRuns(size);
    TwoWritten(size);
    KeepOneRuns(s);
    KeptOverDetach(s);
    KeptReleased(Whole(Whole(Whole(s, NextReadable), Detach), Attach));
  }

  const READ_NEXT: seq<Op> := [NextWritable, NextWritable, NextReadable]

  lemma TwoMoreRead(s: State)
    requires Sized(s) && s.writer.Idle? && s.reader.Attached? && s.cur.None? && s.windex == s.rindex == |s.left| == 2
    ensures var t := Whole(Whole(Whole(s, NextWritable), NextWritable), NextReadable);
            t.start == s.start && t.kept == s.kept && t.windex == 4 && t.read == s.read + [3]
  {
    var s1 := Whole(s, NextWritable);
    assert s1.windex == 3 && s1.rindex == 2;
  }

  lemma ReadNextRuns(s: State)
    requires Sized(s)
    ensures Run(s, Flatten(READ_NEXT)) == Whole(Whole(Whole(s, NextWritable), NextWritable), NextReadable)
  {
    var s1 := Whole(s, NextWritable);
    var s2 := Whole(s1, NextWritable);
    TraceRuns([s, s1, s2, Whole(s2, NextReadable)], READ_NEXT);
  }

  // The session that began at index 1 is never given the batch at index 2.
  lemma KeptBatchIsSkipped(size: nat)
    requires ValidSize(size)
    ensures var s := Run(Init(size), Flatten((WRITE_TWO + KEEP_ONE) + READ_NEXT));
            s.kept && s.start == 1 && s.windex == 4 && s.read == [s.start + 2]
  {
    var s := Run(Init(size), Flatten(WRITE_TWO + KEEP_ONE));
    KeepReaches(size);
    FlattenConcat(WRITE_TWO + KEEP_ONE, READ_NEXT);
    RunConcat(Init(size), Flatten(WRITE_TWO + KEEP_ONE), Flatten(READ_NEXT));
    TwoMoreRead(s);
    ReadNextRuns(s);
  }

  // ---- the overrun is real, for every pool size ----

  function Calls(n: nat): seq<Action> {
    if n == 0 then [] else Expand(NextWritable) + Calls(n - 1)
  }

  lemma DetachedCall(s: State)
    requires Counted(s) && s.writer.Idle? && s.rindex == ReadIndexMax(s.size) && s.windex < WORD - 1
    ensures var t := Whole(s, NextWritable);
            && t.writer.Idle? && t.windex == s.windex + 1 && t.rindex == s.rindex
            && t.reader == s.reader && t.cur == s.cur
  {}

  lemma {:induction false} DetachedCalls(s: State, n: nat)
    requires Inv(s) && s.writer.Idle? && s.rindex == ReadIndexMax(s.size) && s.windex + n < WORD - 1
    ensures var t := Run(s, Calls(n));
            && Inv(t) && t.writer.Idle? && t.windex == s.windex + n && t.rindex == s.rindex
            && t.reader == s.reader && t.cur == s.cur
    decreases n
  {
    if n > 0 {
      DetachedCall(s);
      RunOp(s, NextWritable, []);
      RunKeepsInv(s, Expand(NextWritable));
      assert Expand(NextWritable) + [] == Expand(NextWritable);
      RunOp(s, NextWritable, Calls(n - 1));
      DetachedCalls(Whole(s, NextWritable), n - 1);
    }
  }

  const STALE_ATTACH: seq<Action> := [WriterLoadWindex, WriterLoadRindex, AttachStore] + [AttachCheck, WriterCommit]
  const FIRST_POLL: seq<Action> := [PollRelease, PollCheck]
  const OVERRUN_TAIL: seq<Action> := STALE_ATTACH + FIRST_POLL

  // attachReader loads the write index of an untouched pool; the writer fills the
  // pool and loads the detached read index once more; attachReader stores its
  // index and returns; the writer's store then overruns the reader by one, and the
  // first buffer the reader is given is the one the writer is writing to.
  lemma OverrunReached(size: nat)
    requires ValidSize(size)
    ensures var s := Run(Init(size), [AttachLoad] + (Calls(size) + OVERRUN_TAIL));
            && s.reader.Attached? && s.stale && !s.kept
            && s.windex == s.rindex + size + 1
            && s.cur == Some(Slot(s.windex, size))
  {
    var s0 := Step(Init(size), AttachLoad);
    InitInv(size);
    StepKeepsInv(Init(size), AttachLoad);
    DetachedCalls(s0, size);
    RunFirst(Init(size), AttachLoad, Calls(size) + OVERRUN_TAIL);
    RunConcat(s0, Calls(size), OVERRUN_TAIL);
    OverrunTail(Run(s0, Calls(size)));
  }

  lemma StaleWriterSteps(s: State)
    requires Inv(s) && s.writer.Idle? && s.reader == HasLoaded(0) && s.cur.None?
    requires s.rindex == ReadIndexMax(s.size) && s.windex == s.size
    ensures var t := Step(Step(Step(s, WriterLoadWindex), WriterLoadRindex), AttachStore);
            var t := Step(Step(t, AttachCheck), WriterCommit);
            && t.reader.Attached? && t.stale && !t.kept && t.cur.None? && t.rindex == 0 && t.windex == s.size + 1
  {
    var s3 := Step(Step(Step(s, WriterLoadWindex), WriterLoadRindex), AttachStore);
    assert s3.writer == HasRindex(s.size, ReadIndexMax(s.size)) && s3.rindex == 0;
    var s4 := Step(s3, AttachCheck);
    assert s4.reader.Attached? && s4.stale;
  }

  lemma RunFirst5(s: State, a: Action, b: Action, c: Action, d: Action, e: Action)
    requires 0 < s.size < WORD && |s.slots| == s.size
    ensures Run(s, [a, b, c] + [d, e]) == Step(Step(Step(Step(Step(s, a), b), c), d), e)
  {
    RunFirst3(s, a, b, c, [d, e]);
    RunFirst2(Step(Step(Step(s, a), b), c), d, e, []);
    assert [d, e] + [] == [d, e];
  }

  lemma StaleWriterAttach(s: State)
    requires Inv(s) && s.writer.Idle? && s.reader == HasLoaded(0) && s.cur.None?
    requires s.rindex == ReadIndexMax(s.size) && s.windex == s.size
    ensures var t := Run(s, STALE_ATTACH);
            && t.reader.Attached? && t.stale && !t.kept && t.cur.None? && t.rindex == 0 && t.windex == s.size + 1
  {
    StaleWriterSteps(s);
    RunFirst5(s, WriterLoadWindex, WriterLoadRindex, AttachStore, AttachCheck, WriterCommit);
  }

  lemma FirstPollAfterOverrun(s: State)
    requires ValidSize(s.size) && |s.slots| == s.size && s.reader.Attached? && s.cur.None?
    requires s.rindex == 0 && s.windex == s.size + 1
    ensures var t := Run(s, FIRST_POLL);
            && t.cur == Some(Slot(s.windex, s.size)) && t.rindex == 0 && t.windex == s.windex
            && t.reader.Attached? && t.stale == s.stale && t.kept == s.kept
  {
    MaskIsMod(s.size + 1, s.size);
    MaskIsMod(1, s.size);
    SlotRepeats(1, s.size);
    RunFirst2(s, PollRelease, PollCheck, []);
    assert [PollRelease, PollCheck] + [] == [PollRelease, PollCheck];
  }

  lemma OverrunTail(s: State)
    requires Inv(s) && s.writer.Idle? && s.reader == HasLoaded(0) && s.cur.None?
    requires s.rindex == ReadIndexMax(s.size) && s.windex == s.size
    ensures var t := Run(s, OVERRUN_TAIL);
            && t.reader.Attached? && t.stale && !t.kept
            && t.windex == t.rindex + s.size + 1 && t.cur == Some(Slot(t.windex, s.size))
  {
    StaleWriterAttach(s);
    RunConcat(s, STALE_ATTACH, FIRST_POLL);
    FirstPollAfterOverrun(Run(s, STALE_ATTACH));
  }

  // ---- progress ----

  function Polls(n: nat): seq<Action> {
    if n == 0 then [] else Expand(NextReadable) + Polls(n - 1)
  }

  // The number of finished batches that the reader of a session has still to be given.
  function Unread(s: State): int {
    s.windex - FirstRead(s) - |s.read|
  }

  lemma PollReads(s: State)
    requires Inv(s) && s.reader.Polling?
    ensures var t := Poll(s);
            && t.reader.Attached? && t.windex == s.windex && t.start == s.start && t.kept == s.kept
            && (if Unread(s) > 0 then t.read == s.read + [FirstRead(s) + |s.read|] && t.cur.Some?
                else t.read == s.read && t.cur.None?)
  {
    assert s.rindex + 1 < WORD;
  }

  lemma ReleaseCounts(s: State)
    requires Inv(s) && s.reader.Attached?
    ensures var t := Release(s);
            && Inv(t) && t.reader.Polling? && Unread(t) == Unread(s) && |t.read| == |s.read|
            && t.windex == s.windex && t.start == s.start && t.kept == s.kept
  {
    ReleaseKeepsInv(s);
  }

  lemma WholePollReads(s: State)
    requires Inv(s) && s.reader.Attached?
    ensures var t := Whole(s, NextReadable);
            && Inv(t) && t.reader.Attached? && t.windex == s.windex && t.start == s.start && t.kept == s.kept
            && |t.read| == |s.read| + (if Unread(s) > 0 then 1 else 0)
            && (t.cur.Some? <==> Unread(s) > 0)
  {
    ReleaseCounts(s);
    PollKeepsInv(Release(s));
    PollReads(Release(s));
  }

  // Polling without a pause hands over every finished batch, then nothing.
  lemma {:induction false} PollingDrains(s: State, n: nat)
    requires Inv(s) && s.reader.Attached?
    ensures var t := Run(s, Polls(n));
            && t.reader.Attached? && t.start == s.start && t.kept == s.kept && t.windex == s.windex
            && |t.read| == |s.read| + (if Unread(s) <= 0 then 0 else if n < Unread(s) then n else Unread(s))
            && (n > Unread(s) && n > 0 ==> t.cur.None?)
    decreases n
  {
    if n > 0 {
      WholePollReads(s);
      RunOp(s, NextReadable, Polls(n - 1));
      PollingDrains(Whole(s, NextReadable), n - 1);
    }
  }

  // ---- the 64-bit limit ----

  ghost predicate AttachingAtLimit(s: State) {
    match s.reader
    case HasLoaded(x) => x + s.size > WORD && x <= s.windex
    case HasStored => s.rindex + 1 + s.size > WORD && s.rindex < s.windex
    case _ => false
  }

  // A pool that has been written to without a reader gets there.
  lemma LimitReached(size: nat)
    requires ValidSize(size)
    ensures var s := Run(Init(size), Calls(WORD - 2) + (Expand(NextWritable) + [AttachLoad]));
            Inv(s) && AttachingAtLimit(s)
  {
    InitInv(size);
    DetachedCalls(Init(size), WORD - 2);
    RunConcat(Init(size), Calls(WORD - 2), Expand(NextWritable) + [AttachLoad]);
    var s := Run(Init(size), Calls(WORD - 2));
    DetachedCall(s);
    RunOp(s, NextWritable, [AttachLoad]);
    RunKeepsInv(s, Expand(NextWritable) + [AttachLoad]);
    assert [AttachLoad][1..] == [];
  }

  lemma SpinsOn(s: State, a: Action)
    requires Inv(s) && AttachingAtLimit(s)
    ensures AttachingAtLimit(Step(s, a))
  {}

  // Once attachReader has loaded a write index within size of the limit, its
  // retry test wraps around and it never returns, whatever the schedule.
  lemma {:induction false} AttachSpinsAtLimit(s: State, schedule: seq<Action>)
    requires Inv(s) && AttachingAtLimit(s)
    ensures AttachingAtLimit(Run(s, schedule))
    decreases schedule
  {
    if schedule != [] {
      StepKeepsInv(s, schedule[0]);
      SpinsOn(s, schedule[0]);
      AttachSpinsAtLimit(Step(s, schedule[0]), schedule[1..]);
    }
  }

  // ---- short of the limit attachReader returns ----

  // The second try of attachReader. The writer can have got one index further than
  // was loaded, but not two: it would have had to see the index of the first try.
  ghost predicate SecondLoaded(s: State) {
    && s.reader.HasLoaded? && s.rindex + s.size < s.reader.w && s.reader.w + s.size <= WORD
    && s.reader.w <= s.windex <= s.reader.w + 1
    && (s.windex == s.reader.w + 1 && s.writer.HasRindex? ==> s.writer.r + s.size <= s.windex)
  }

  ghost predicate SecondStored(s: State) {
    && s.reader.HasStored? && s.rindex + 1 + s.size <= WORD
    && s.rindex < s.windex <= s.rindex + s.size
    && (s.writer.HasRindex? ==> s.writer.r <= s.rindex || s.windex <= s.rindex + 1)
  }

  // A first try that fails short of the limit leads to a second.
  lemma RetryIsSecond(s: State)
    requires Inv(s) && s.reader.HasStored? && Step(s, AttachCheck).reader.HasLoaded? && s.windex + s.size <= WORD
    ensures SecondLoaded(Step(s, AttachCheck))
  {}

  lemma SecondLoadedStep(s: State, a: Action)
    requires Inv(s) && SecondLoaded(s)
    ensures if a.AttachStore? then SecondStored(Step(s, a)) else SecondLoaded(Step(s, a))
  {}

  lemma SecondStoredStep(s: State, a: Action)
    requires Inv(s) && SecondStored(s)
    ensures if a.AttachCheck? then Step(s, a).reader.Attached? else SecondStored(Step(s, a))
  {}

  lemma {:induction false} SecondLoadedRun(s: State, schedule: seq<Action>)
    requires Inv(s) && SecondLoaded(s) && AttachStore !in schedule
    ensures SecondLoaded(Run(s, schedule))
    decreases schedule
  {
    if schedule != [] {
      assert schedule[0] in schedule;
      StepKeepsInv(s, schedule[0]);
      SecondLoadedStep(s, schedule[0]);
      SecondLoadedRun(Step(s, schedule[0]), schedule[1..]);
    }
  }

  lemma {:induction false} SecondStoredRun(s: State, schedule: seq<Action>)
    requires Inv(s) && SecondStored(s) && AttachCheck !in schedule
    ensures SecondStored(Run(s, schedule))
    decreases schedule
  {
    if schedule != [] {
      assert schedule[0] in schedule;
      StepKeepsInv(s, schedule[0]);
      SecondStoredStep(s, schedule[0]);
      SecondStoredRun(Step(s, schedule[0]), schedule[1..]);
    }
  }

  // One try of attachReader from a loaded write index: whatever the other steps of
  // the schedule are, the store comes first and the check after it.
  function Try(first: seq<Action>, second: seq<Action>): seq<Action> {
    first + ([AttachStore] + (second + [AttachCheck]))
  }

  ghost predicate IsTry(first: seq<Action>, second: seq<Action>) {
    AttachStore !in first && AttachCheck !in second
  }

  lemma RunTry(s: State, first: seq<Action>, second: seq<Action>)
    requires 0 < s.size < WORD && |s.slots| == s.size
    ensures Run(s, Try(first, second)) == Step(Run(Step(Run(s, first), AttachStore), second), AttachCheck)
  {
    RunConcat(s, first, [AttachStore] + (second + [AttachCheck]));
    RunFirst(Run(s, first), AttachStore, second + [AttachCheck]);
    RunSnoc(Step(Run(s, first), AttachStore), second, AttachCheck);
  }

  lemma SecondTryReturns(s: State, first: seq<Action>, second: seq<Action>)
    requires Inv(s) && SecondLoaded(s) && IsTry(first, second)
    ensures Run(s, Try(first, second)).reader.Attached?
  {
    RunTry(s, first, second);
    SecondLoadedRun(s, first);
    RunKeepsInv(s, first);
    var s1 := Run(s, first);
    SecondLoadedStep(s1, AttachStore);
    StepKeepsInv(s1, AttachStore);
    var s2 := Step(s1, AttachStore);
    SecondStoredRun(s2, second);
    RunKeepsInv(s2, second);
    SecondStoredStep(Run(s2, second), AttachCheck);
  }

  // A try that has failed is followed by one that succeeds, under every schedule, if
  // the write index it found is at most 2^64 - size, and otherwise by none.
  lemma NextTryReturnsIff(s: State, first: seq<Action>, second: seq<Action>)
    requires Inv(s) && s.reader.HasStored? && Step(s, AttachCheck).reader.HasLoaded? && IsTry(first, second)
    ensures Run(Step(s, AttachCheck), Try(first, second)).reader.Attached? <==> s.windex + s.size <= WORD
    ensures AttachingAtLimit(Step(s, AttachCheck)) <==> s.windex + s.size > WORD
  {
    var t := Step(s, AttachCheck);
    StepKeepsInv(s, AttachCheck);
    if s.windex + s.size <= WORD {
      RetryIsSecond(s);
      SecondTryReturns(t, first, second);
    } else {
      AttachSpinsAtLimit(t, Try(first, second));
    }
  }

  lemma {:induction false} WaitsForStore(s: State, schedule: seq<Action>)
    requires 0 < s.size < WORD && |s.slots| == s.size && s.reader.HasLoaded? && AttachStore !in schedule
    ensures Run(s, schedule).reader == s.reader
    decreases schedule
  {
    if schedule != [] {
      assert schedule[0] in schedule;
      WaitsForStore(Step(s, schedule[0]), schedule[1..]);
    }
  }

  lemma {:induction false} WaitsForCheck(s: State, schedule: seq<Action>)
    requires 0 < s.size < WORD && |s.slots| == s.size && s.reader.HasStored? && AttachCheck !in schedule
    ensures Run(s, schedule).reader == s.reader
    decreases schedule
  {
    if schedule != [] {
      assert schedule[0] in schedule;
      WaitsForCheck(Step(s, schedule[0]), schedule[1..]);
    }
  }

  // From any reachable state without a reader, whatever the writer does meanwhile:
  // attachReader returns after one try or, unless the write index that the first
  // try finds is within size of 2^64, after two; if it is, it never returns
  // (AttachSpinsAtLimit).
  lemma AttachInTwoTries(size: nat, before: seq<Action>,
                         a: seq<Action>, b: seq<Action>, c: seq<Action>, d: seq<Action>)
    requires ValidSize(size) && Run(Init(size), before).reader.Detached? && IsTry(a, b) && IsTry(c, d)
    ensures var s := Run(Step(Run(Init(size), before), AttachLoad), Try(a, b));
            || s.reader.Attached?
            || (s.windex + size <= WORD && Run(s, Try(c, d)).reader.Attached?)
            || (s.windex + size > WORD && AttachingAtLimit(s))
  {
    var s0 := Run(Init(size), before);
    InitInv(size);
    RunKeepsInv(Init(size), before);
    StepKeepsInv(s0, AttachLoad);
    FirstTry(Step(s0, AttachLoad), a, b, c, d);
  }

  lemma FirstTry(s: State, a: seq<Action>, b: seq<Action>, c: seq<Action>, d: seq<Action>)
    requires Inv(s) && s.reader.HasLoaded? && IsTry(a, b) && IsTry(c, d)
    ensures var t := Run(s, Try(a, b));
            || t.reader.Attached?
            || (t.windex + s.size <= WORD && Run(t, Try(c, d)).reader.Attached?)
            || (t.windex + s.size > WORD && AttachingAtLimit(t))
  {
    RunTry(s, a, b);
    WaitsForStore(s, a);
    RunKeepsInv(s, a);
    var s1 := Step(Run(s, a), AttachStore);
    StepKeepsInv(Run(s, a), AttachStore);
    WaitsForCheck(s1, b);
    RunKeepsInv(s1, b);
    var s2 := Run(s1, b);
    if !Step(s2, AttachCheck).reader.Attached? {
      NextTryReturnsIff(s2, c, d);
    }
  }
}
