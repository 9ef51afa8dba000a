/** The GOOSE publisher: it chases the write index of each input ring, publishes
    what it finds, jumps when it lags too far, and repeats the last message with a
    doubling interval while nothing changes. */
module GoosePublisher {
  import opened Prelude
  import opened MemFile

  // The publisher's side of one input: old_index and the last value it published.
  datatype Chaser = Chaser(seen: nat, element: seq<Byte>)

  // How far `seen` is behind the write index, as far as the two indices tell.
  function Diff(index: nat, seen: nat, items: nat): int {
    if index < seen then index - seen + items else index - seen
  }

  function NextSeen(index: nat, seen: nat, items: nat, maxLag: int): nat
    requires items > 0
  {
    if Diff(index, seen, items) > maxLag then index else Mod(seen + 1, items)
  }

  ghost function Chase(v: View, c: Chaser, maxLag: int): (d: Chaser)
    requires v.Valid() && c.seen < |v.slots|
    ensures d.seen < |v.slots|
  {
    if c.seen == v.index then c
    else
      var seen := NextSeen(v.index, c.seen, |v.slots|, maxLag);
      Chaser(seen, v.slots[seen])
  }

  // ---- the indices tell the lag while less than a whole ring is outstanding ----

  lemma {:induction false} DiffIsLag(n: nat, pos: nat, items: nat)
    requires items > 0 && pos <= n
    ensures Diff(Mod(n, items), Mod(pos, items), items) == n - pos <==> n - pos < items
  {
    if n - pos < items {
      if pos >= items {
        DiffIsLag(n - items, pos - items, items);
      } else {
        assert n < items || Mod(n, items) == n - items;
      }
    }
  }

  // ---- one ring and its publisher over a whole run ----

  datatype Act = Write(item: seq<Byte>) | Event

  // One publication: which write it carried, its value, and the lag it found.
  datatype Pub = Pub(pos: nat, value: seq<Byte>, lag: nat)

  datatype Link = Link(view: View, chaser: Chaser, written: seq<seq<Byte>>, pos: nat, pubs: seq<Pub>)

  ghost predicate Shaped(s: Link) {
    s.view.Valid() && s.chaser.seen < |s.view.slots| && s.pos <= |s.written|
  }

  ghost function Lag(s: Link): nat
    requires Shaped(s)
  {
    |s.written| - s.pos
  }

  // The publisher starts at index 0 of whatever ring it finds; as far as it can
  // tell, the items behind index 0 up to the ring's index are outstanding writes.
  ghost function Start(view: View, element: seq<Byte>): Link
    requires view.Valid()
  {
    Link(view, Chaser(0, element), view.slots[1..view.index + 1], 0, [])
  }

  lemma {:induction false} FoundIsWritten(slots: seq<seq<Byte>>, k: nat)
    requires k < |slots|
    ensures PushAll(View(0, slots), slots[1..k + 1]) == View(k, slots)
  {
    if k > 0 {
      var items := slots[1..k + 1];
      assert items[..k - 1] == slots[1..k] && items[k - 1] == slots[k];
      FoundIsWritten(slots, k - 1);
      assert slots[k := slots[k]] == slots;
    }
  }

  ghost function Step(s: Link, a: Act, maxLag: int): (t: Link)
    requires Shaped(s)
    ensures Shaped(t)
  {
    match a
    case Write(item) => s.(view := s.view.Push(item), written := s.written + [item])
    case Event =>
      var c := Chase(s.view, s.chaser, maxLag);
      if s.chaser.seen == s.view.index then s
      else
        var pos := if Lag(s) > maxLag || Lag(s) == 0 then |s.written| else s.pos + 1;
        s.(chaser := c, pos := pos, pubs := s.pubs + [Pub(pos, c.element, Lag(s))])
  }

  ghost function Run(s: Link, acts: seq<Act>, maxLag: int): (t: Link)
    requires Shaped(s)
    ensures Shaped(t)
    decreases acts
  {
    if acts == [] then s else Run(Step(s, acts[0], maxLag), acts[1..], maxLag)
  }

  // Fewer than `items` writes are outstanding at every point of the run.
  ghost predicate Paced(s: Link, acts: seq<Act>, maxLag: int)
    requires Shaped(s)
    decreases acts
  {
    && Lag(s) < |s.view.slots|
    && (acts != [] ==> Paced(Step(s, acts[0], maxLag), acts[1..], maxLag))
  }

  ghost predicate InStep(s: Link, v0: View, maxLag: int) {
    && Shaped(s) && v0.Valid() && v0.index == 0
    && s.view == PushAll(v0, s.written)
    && s.chaser.seen == Mod(s.pos, |s.view.slots|)
    && Faithful(s, maxLag)
  }

  // The publications are a strictly increasing choice of the writes, each with the
  // value that was written, and a write is passed over only by a lag above maxLag.
  ghost predicate Faithful(s: Link, maxLag: int) {
    && (forall k :: 0 <= k < |s.pubs| ==>
          1 <= s.pubs[k].pos <= s.pos <= |s.written| && s.pubs[k].value == s.written[s.pubs[k].pos - 1])
    && (forall k :: 0 <= k < |s.pubs| ==>
          var before := if k == 0 then 0 else s.pubs[k - 1].pos;
          before < s.pubs[k].pos && (s.pubs[k].pos > before + 1 ==> s.pubs[k].lag > maxLag))
    && s.pos == if s.pubs == [] then 0 else s.pubs[|s.pubs| - 1].pos
  }

  lemma WriteKeepsStep(s: Link, v0: View, item: seq<Byte>, maxLag: int)
    requires InStep(s, v0, maxLag)
    ensures InStep(Step(s, Write(item), maxLag), v0, maxLag)
  {
    var t := Step(s, Write(item), maxLag);
    assert t.written[..|s.written|] == s.written && t.written[|s.written|] == item;
    assert PushAll(v0, t.written) == PushAll(v0, s.written).Push(item);
    WriteKeepsFaithful(s, t, maxLag);
  }

  lemma WriteKeepsFaithful(s: Link, t: Link, maxLag: int)
    requires Faithful(s, maxLag) && s.written <= t.written && t.pubs == s.pubs && t.pos == s.pos
    ensures Faithful(t, maxLag)
  {}

  lemma EventSeesLag(s: Link, v0: View, maxLag: int)
    requires InStep(s, v0, maxLag) && Lag(s) < |s.view.slots|
    ensures Diff(s.view.index, s.chaser.seen, |s.view.slots|) == Lag(s)
    ensures s.chaser.seen == s.view.index <==> Lag(s) == 0
    ensures s.view.index == Mod(|s.written|, |s.view.slots|)
    ensures Mod(s.chaser.seen + 1, |s.view.slots|) == Mod(s.pos + 1, |s.view.slots|)
  {
    IndexAfterWrites(v0, s.written);
    DiffIsLag(|s.written|, s.pos, |s.view.slots|);
    ModStep(s.pos, |s.view.slots|);
  }

  lemma EventMoves(s: Link, v0: View, maxLag: int)
    requires InStep(s, v0, maxLag) && 0 < Lag(s) < |s.view.slots|
    ensures var t := Step(s, Event, maxLag);
            && t.pos == (if Lag(s) > maxLag then |s.written| else s.pos + 1)
            && t.chaser.seen == Mod(t.pos, |s.view.slots|)
            && t.chaser.element == s.written[t.pos - 1]
            && t.pubs == s.pubs + [Pub(t.pos, t.chaser.element, Lag(s))]
  {
    EventSeesLag(s, v0, maxLag);
    RingHoldsLast(v0, s.written, if Lag(s) > maxLag then |s.written| else s.pos + 1);
  }

  lemma FaithfulSnoc(s: Link, t: Link, p: Pub, maxLag: int)
    requires Faithful(s, maxLag) && t.written == s.written && t.pubs == s.pubs + [p] && t.pos == p.pos
    requires s.pos < p.pos <= |s.written| && p.value == s.written[p.pos - 1]
    requires p.pos > s.pos + 1 ==> p.lag > maxLag
    ensures Faithful(t, maxLag)
  {
    forall k | 0 <= k < |t.pubs|
      ensures 1 <= t.pubs[k].pos <= t.pos && t.pubs[k].value == t.written[t.pubs[k].pos - 1]
    {
      assert k < |s.pubs| ==> t.pubs[k] == s.pubs[k];
    }
  }

  lemma EventKeepsFaithful(s: Link, v0: View, maxLag: int)
    requires InStep(s, v0, maxLag) && Lag(s) < |s.view.slots|
    ensures Faithful(Step(s, Event, maxLag), maxLag)
  {
    EventSeesLag(s, v0, maxLag);
    if Lag(s) > 0 {
      EventMoves(s, v0, maxLag);
      var t := Step(s, Event, maxLag);
      FaithfulSnoc(s, t, Pub(t.pos, t.chaser.element, Lag(s)), maxLag);
    }
  }

  lemma EventKeepsStep(s: Link, v0: View, maxLag: int)
    requires InStep(s, v0, maxLag) && Lag(s) < |s.view.slots|
    ensures InStep(Step(s, Event, maxLag), v0, maxLag)
  {
    EventKeepsFaithful(s, v0, maxLag);
    EventSeesLag(s, v0, maxLag);
    if Lag(s) > 0 {
      EventMoves(s, v0, maxLag);
    }
  }

  // After every event the lag is at most maxLag - 1, or nothing is outstanding.
  lemma LagAfterEvent(s: Link, v0: View, maxLag: int)
    requires InStep(s, v0, maxLag) && Lag(s) < |s.view.slots|
    ensures Lag(Step(s, Event, maxLag)) <= if maxLag - 1 > 0 then maxLag - 1 else 0
  {
    EventSeesLag(s, v0, maxLag);
    if Lag(s) > 0 {
      EventMoves(s, v0, maxLag);
    }
  }

  lemma {:induction false} RunStaysInStep(s: Link, v0: View, acts: seq<Act>, maxLag: int)
    requires InStep(s, v0, maxLag) && Paced(s, acts, maxLag)
    ensures InStep(Run(s, acts, maxLag), v0, maxLag)
    decreases acts
  {
    if acts != [] {
      match acts[0] {
        case Write(item) => WriteKeepsStep(s, v0, item, maxLag);
        case Event => EventKeepsStep(s, v0, maxLag);
      }
      RunStaysInStep(Step(s, acts[0], maxLag), v0, acts[1..], maxLag);
    }
  }

  // From any ring, over every paced run, the publications are faithful: their
  // positions are a strictly increasing choice of the writes', each carries the value
  // that was written there, and a write is passed over only by a lag above maxLag.
  lemma PublishesFaithfully(v0: View, element: seq<Byte>, acts: seq<Act>, maxLag: int)
    requires v0.Valid() && Paced(Start(v0, element), acts, maxLag)
    ensures var s := Run(Start(v0, element), acts, maxLag);
            && (forall k :: 0 <= k < |s.pubs| ==>
                  1 <= s.pubs[k].pos <= |s.written| && s.pubs[k].value == s.written[s.pubs[k].pos - 1])
            && (forall k :: 0 <= k < |s.pubs| ==>
                  var before := if k == 0 then 0 else s.pubs[k - 1].pos;
                  before < s.pubs[k].pos && (s.pubs[k].pos > before + 1 ==> s.pubs[k].lag > maxLag))
  {
    FoundIsWritten(v0.slots, v0.index);
    RunStaysInStep(Start(v0, element), View(0, v0.slots), acts, maxLag);
  }

  // A whole ring of outstanding writes goes unseen: the next event publishes nothing.
  lemma {:induction false} FullRingUnseen(v0: View, items: seq<seq<Byte>>, element: seq<Byte>, maxLag: int)
    requires v0.Valid() && v0.index == 0 && |items| == |v0.slots|
    ensures var s := Start(v0, element).(view := PushAll(v0, items), written := items);
            Lag(s) > 0 && Step(s, Event, maxLag) == s
  {
    IndexAfterWrites(v0, items);
    assert Mod(|items|, |v0.slots|) == Mod(0, |v0.slots|);
  }

  // ---- retransmission ----

  // C division of an int by two, towards zero.
  function Half(x: int): int {
    if x >= 0 then x / 2 else -((-x) / 2)
  }

  function Min(a: int, b: int): int {
    if a < b then a else b
  }

  function BackOff(interval: int, ttl: int): int {
    Min(interval * 2, ttl)
  }

  function AfterRetransmits(interval: int, ttl: int, k: nat): int {
    if k == 0 then interval else BackOff(AfterRetransmits(interval, ttl, k - 1), ttl)
  }

  // After a state change and k retransmissions the interval has doubled k times,
  // capped at ttl; it grows until it reaches the cap and then stays there.
  lemma {:induction false} BackOffDoubles(fast: int, ttl: int, k: nat)
    requires k >= 1 && ttl >= 0 && fast >= 0
    ensures AfterRetransmits(fast, ttl, k) == if fast * Pow2(k) > ttl then ttl else fast * Pow2(k)
  {
    if k > 1 {
      BackOffDoubles(fast, ttl, k - 1);
      assert fast * Pow2(k) == 2 * (fast * Pow2(k - 1));
    } else {
      assert Pow2(1) == 2 * Pow2(0);
      assert AfterRetransmits(fast, ttl, 0) == fast;
    }
  }

  // ---- the module's state, as the program updates it ----

  // What goes out: the state number, the announced lifetime and the data set.
  datatype Message = Message(stNum: nat, lifetime: int, values: seq<seq<Byte>>)

  // C division of the interval in microseconds, towards zero.
  function Lifetime(interval: int): int {
    if interval >= 0 then interval / 1000 else -((-interval) / 1000)
  }

  class Input {
    const buffer: array<Byte>
    const width: nat
    var oldIndex: nat
    var element: seq<Byte>

    ghost predicate Valid()
      reads `oldIndex, buffer
    {
      Ring(buffer[..], width) && oldIndex < ReadItems(buffer[..])
    }

    ghost function Ring0(): View
      requires Valid()
      reads `oldIndex, buffer
    {
      ViewOf(buffer[..], width)
    }

    ghost function State(): Chaser
      reads this
    {
      Chaser(oldIndex, element)
    }

    constructor (buffer: array<Byte>, width: nat)
      requires Ring(buffer[..], width)
      ensures Valid() && oldIndex == 0 && this.buffer == buffer && this.width == width
      ensures element == Item(buffer[..], ReadIndex(buffer[..]), width)
    {
      this.buffer, this.width, oldIndex := buffer, width, 0;
      var o := Offset(ReadIndex(buffer[..]), width);
      OffsetInRing(buffer[..], ReadIndex(buffer[..]), width);
      element := buffer[o..o + width];
    }

    // read_input: under the lock, which is free again afterwards.
    method ReadInput(index: nat) returns (item: seq<Byte>)
      requires Ring(buffer[..], width) && index < ReadItems(buffer[..])
      modifies buffer
      ensures buffer[..] == old(buffer[..]) && Offset(index, width) + width <= buffer.Length
      ensures item == Item(buffer[..], index, width) == buffer[Offset(index, width)..Offset(index, width) + width]
    {
      ghost var m := buffer[..];
      OffsetInRing(m, index, width);
      buffer[SEMAPHORE_POS] := 1;
      item := buffer[Offset(index, width)..Offset(index, width) + width];
      buffer[SEMAPHORE_POS] := 0;
      assert buffer[..] == m;
    }

    method ChaseIndex(maxLag: int) returns (update: bool)
      requires Valid()
      modifies `oldIndex, `element, buffer
      ensures buffer[..] == old(buffer[..]) && Valid()
      ensures State() == Chase(Ring0(), old(State()), maxLag)
      ensures Moved(Ring0(), old(State()), maxLag, oldIndex, element)
      ensures update <==> old(oldIndex) != Ring0().index
    {
      var currentIndex := ReadIndex(buffer[..]);
      update := oldIndex != currentIndex;
      if update {
        var items := ReadItems(buffer[..]);
        var diff := currentIndex - oldIndex;
        if diff < 0 {
          diff := diff + items;
        }
        if diff > maxLag {
          oldIndex := currentIndex;
        } else {
          oldIndex := Mod(oldIndex + 1, items);
        }
        element := ReadInput(oldIndex);
      }
    }
  }

  class Publisher {
    const inputs: seq<Input>
    const ttl: int
    const fastRetransmit: int
    const maxLag: int
    var interval: int
    var transmitDeadline: int
    var stNum: nat
    var sent: seq<Message>

    constructor (inputs: seq<Input>, ttl: int, fastRetransmit: int, maxLag: int, now: int)
      ensures this.inputs == inputs && this.ttl == ttl && this.fastRetransmit == fastRetransmit && this.maxLag == maxLag
      ensures interval == ttl && stNum == 0 && sent == []
      ensures IsHalf(transmitDeadline - now, ttl)
    {
      this.inputs, this.ttl, this.fastRetransmit, this.maxLag := inputs, ttl, fastRetransmit, maxLag;
      interval, transmitDeadline, stNum, sent := ttl, now + Half(ttl), 0, [];
    }

    method ChaseAll(ghost vs: seq<View>, ghost cs: seq<Chaser>) returns (transmitted: bool)
      requires Apart(inputs) && InputsAre(inputs, vs, cs)
      modifies inputs`oldIndex, inputs`element, set x: Input | x in inputs :: x.buffer
      ensures InputsAre(inputs, vs, ChasedUpTo(vs, cs, |cs|, maxLag))
      ensures transmitted <==> News(vs, cs, |cs|)
    {
      transmitted := false;
      var i := 0;
      NoneChased(vs, cs, maxLag);
      while i < |inputs|
        invariant 0 <= i <= |inputs| && |cs| == |vs| == |inputs|
        invariant InputsAre(inputs, vs, ChasedUpTo(vs, cs, i, maxLag))
        invariant transmitted <==> News(vs, cs, i)
      {
        var update := ChaseTurn(inputs[i], maxLag, inputs, vs, cs, i);
        transmitted := transmitted || update;
        i := i + 1;
      }
    }

    method ChaseInputs(ghost vs: seq<View>, ghost cs: seq<Chaser>)
      returns (transmitted: bool, ghost now: seq<Chaser>)
      requires Apart(inputs) && InputsAre(inputs, vs, cs)
      modifies inputs`oldIndex, inputs`element, set x: Input | x in inputs :: x.buffer
      ensures InputsAre(inputs, vs, now) && |vs| == |cs| == |inputs|
      ensures HaveMoved(inputs, vs, cs, maxLag)
      ensures transmitted <==> AnyNews(vs, cs)
      ensures unchanged(this)
    {
      InputsInRing(inputs, vs, cs);
      transmitted := ChaseAll(vs, cs);
      NewsIff(vs, cs, |cs|);
      AllMoved(inputs, vs, cs, maxLag);
      now := ChasedUpTo(vs, cs, |cs|, maxLag);
    }

    // The message that now goes out.
    method Publish()
      modifies `sent
      ensures |sent| == |old(sent)| + 1 && sent[..|old(sent)|] == old(sent)
      ensures Carries(sent[|old(sent)|], stNum, interval, inputs)
    {
      var values := seq(|inputs|, i requires 0 <= i < |inputs| reads inputs => inputs[i].element);
      sent := sent + [Message(stNum, Lifetime(interval), values)];
    }

    // Every input has moved: by one, or to its ring's index if that is more than
    // maxLag ahead, and its element is the item there. If any had news, one message
    // goes out with the next state number, the fast interval and the inputs'
    // elements, and the deadline moves on by half the interval, otherwise nothing
    // changes.
    method Event(ghost vs: seq<View>, ghost cs: seq<Chaser>)
      returns (transmitted: bool, ghost now: seq<Chaser>)
      requires Apart(inputs) && InputsAre(inputs, vs, cs)
      modifies this, inputs`oldIndex, inputs`element, set x: Input | x in inputs :: x.buffer
      ensures InputsAre(inputs, vs, now) && |vs| == |cs| == |inputs|
      ensures HaveMoved(inputs, vs, cs, maxLag)
      ensures transmitted <==> AnyNews(vs, cs)
      ensures transmitted ==> interval == fastRetransmit && stNum == old(stNum) + 1
      ensures transmitted ==> IsHalf(transmitDeadline - old(transmitDeadline), interval)
      ensures transmitted ==>
                && |sent| == |old(sent)| + 1 && sent[..|old(sent)|] == old(sent)
                && Carries(sent[|old(sent)|], stNum, interval, inputs)
      ensures !transmitted ==>
                && interval == old(interval) && transmitDeadline == old(transmitDeadline)
                && stNum == old(stNum) && sent == old(sent)
    {
      transmitted, now := ChaseInputs(vs, cs);
      assert interval == old(interval) && transmitDeadline == old(transmitDeadline);
      assert stNum == old(stNum) && sent == old(sent);
      PublishIf(transmitted);
      assert InputsAre(inputs, vs, now) && HaveMoved(inputs, vs, cs, maxLag);
    }

    method PublishIf(transmit: bool)
      modifies `interval, `transmitDeadline, `stNum, `sent
      ensures transmit ==> interval == fastRetransmit && stNum == old(stNum) + 1
      ensures transmit ==> IsHalf(transmitDeadline - old(transmitDeadline), interval)
      ensures transmit ==>
                && |sent| == |old(sent)| + 1 && sent[..|old(sent)|] == old(sent)
                && Carries(sent[|old(sent)|], stNum, interval, inputs)
      ensures !transmit ==> unchanged(this)
    {
      if transmit {
        PublishChange();
      }
    }

    method PublishChange()
      modifies `interval, `transmitDeadline, `stNum, `sent
      ensures interval == fastRetransmit && stNum == old(stNum) + 1
      ensures IsHalf(transmitDeadline - old(transmitDeadline), interval)
      ensures |sent| == |old(sent)| + 1 && sent[..|old(sent)|] == old(sent)
                && Carries(sent[|old(sent)|], stNum, interval, inputs)
    {
      stNum := stNum + 1;
      interval := fastRetransmit;
      transmitDeadline := transmitDeadline + Half(fastRetransmit);
      Publish();
    }

    // One cycle: an event, or the retransmission that has become due, which repeats
    // the state number and the elements with the doubled interval, up to ttl.
    method Run(now: int, ghost vs: seq<View>, ghost cs: seq<Chaser>) returns (ghost after: seq<Chaser>)
      requires Apart(inputs) && InputsAre(inputs, vs, cs)
      modifies this, inputs`oldIndex, inputs`element, set x: Input | x in inputs :: x.buffer
      ensures InputsAre(inputs, vs, after) && |vs| == |cs| == |inputs|
      ensures HaveMoved(inputs, vs, cs, maxLag)
      ensures AnyNews(vs, cs) ==>
                interval == fastRetransmit && stNum == old(stNum) + 1
      ensures !AnyNews(vs, cs) && now >= old(transmitDeadline) ==>
                && interval == (if old(interval) * 2 > ttl then ttl else old(interval) * 2)
                && stNum == old(stNum)
      ensures AnyNews(vs, cs) || now >= old(transmitDeadline) ==>
                IsHalf(transmitDeadline - old(transmitDeadline), interval)
      ensures AnyNews(vs, cs) || now >= old(transmitDeadline) ==>
                && |sent| == |old(sent)| + 1 && sent[..|old(sent)|] == old(sent)
                && Carries(sent[|old(sent)|], stNum, interval, inputs)
      ensures !AnyNews(vs, cs) && now < old(transmitDeadline) ==>
                && interval == old(interval) && transmitDeadline == old(transmitDeadline)
                && stNum == old(stNum) && sent == old(sent)
    {
      var transmitted;
      transmitted, after := Event(vs, cs);
      if !transmitted {
        if now >= transmitDeadline {
          Retransmit();
        }
      }
    }

    method Retransmit()
      modifies `interval, `transmitDeadline, `sent
      ensures interval == (if old(interval) * 2 > ttl then ttl else old(interval) * 2) && stNum == old(stNum)
      ensures IsHalf(transmitDeadline - old(transmitDeadline), interval)
      ensures |sent| == |old(sent)| + 1 && sent[..|old(sent)|] == old(sent)
                && Carries(sent[|old(sent)|], stNum, interval, inputs)
    {
      interval := interval * 2;
      if interval > ttl {
        interval := ttl;
      }
      transmitDeadline := transmitDeadline + Half(interval);
      Publish();
    }
  }

  // The write index of some input is not the one its publisher has seen.
  ghost predicate AnyNews(vs: seq<View>, cs: seq<Chaser>) {
    exists i :: 0 <= i < |cs| && i < |vs| && cs[i].seen != vs[i].index
  }

  // Half an interval, without the odd unit.
  predicate IsHalf(d: int, interval: int) {
    if interval >= 0 then 2 * d <= interval < 2 * d + 2 else 2 * d - 2 < interval <= 2 * d
  }

  // A message with the state number, the interval in whole thousands, and the
  // element of every input in its place.
  ghost predicate Carries(m: Message, stNum: nat, interval: int, inputs: seq<Input>)
    reads inputs
  {
    && m.stNum == stNum
    && (if interval >= 0 then 1000 * m.lifetime <= interval < 1000 * m.lifetime + 1000
        else 1000 * m.lifetime - 1000 < interval <= 1000 * m.lifetime)
    && |m.values| == |inputs| && forall i :: 0 <= i < |inputs| ==> m.values[i] == inputs[i].element
  }

  // One input's turn, from what it had seen and what its ring shows.
  ghost predicate Moved(v: View, c: Chaser, maxLag: int, oldIndex: nat, element: seq<Byte>) {
    var lag := if v.index >= c.seen then v.index - c.seen else v.index - c.seen + |v.slots|;
    && oldIndex < |v.slots|
    && (lag == 0 ==> oldIndex == c.seen && element == c.element)
    && (lag > 0 ==> element == v.slots[oldIndex])
    && (lag > 0 && lag > maxLag ==> oldIndex == v.index)
    && (0 < lag <= maxLag ==> oldIndex == if c.seen + 1 == |v.slots| then 0 else c.seen + 1)
  }

  ghost predicate HaveMoved(inputs: seq<Input>, vs: seq<View>, cs: seq<Chaser>, maxLag: int)
    reads inputs
  {
    |vs| == |cs| == |inputs|
    && forall i :: 0 <= i < |inputs| ==> Moved(vs[i], cs[i], maxLag, inputs[i].oldIndex, inputs[i].element)
  }

  lemma ChaseMoves(v: View, c: Chaser, maxLag: int)
    requires v.Valid() && c.seen < |v.slots|
    ensures var d := Chase(v, c, maxLag); Moved(v, c, maxLag, d.seen, d.element)
  {}

  lemma InputsInRing(inputs: seq<Input>, vs: seq<View>, cs: seq<Chaser>)
    requires InputsAre(inputs, vs, cs)
    ensures forall i :: 0 <= i < |cs| ==> vs[i].Valid() && cs[i].seen < |vs[i].slots|
  {
    forall i | 0 <= i < |cs|
      ensures vs[i].Valid() && cs[i].seen < |vs[i].slots|
    {
      assert InputIs(inputs[i], vs[i], cs[i]);
    }
  }

  lemma AllMoved(inputs: seq<Input>, vs: seq<View>, cs: seq<Chaser>, maxLag: int)
    requires |vs| == |cs| && InputsAre(inputs, vs, ChasedUpTo(vs, cs, |cs|, maxLag))
    requires forall i :: 0 <= i < |cs| ==> vs[i].Valid() && cs[i].seen < |vs[i].slots|
    ensures HaveMoved(inputs, vs, cs, maxLag)
  {
    forall i | 0 <= i < |inputs|
      ensures Moved(vs[i], cs[i], maxLag, inputs[i].oldIndex, inputs[i].element)
    {
      assert InputIs(inputs[i], vs[i], ChasedUpTo(vs, cs, |cs|, maxLag)[i]);
      ChaseMoves(vs[i], cs[i], maxLag);
    }
  }

  method ChaseAt(input: Input, maxLag: int,
                 ghost inputs: seq<Input>, ghost vs: seq<View>, ghost cs: seq<Chaser>, ghost i: nat)
    returns (update: bool)
    requires Apart(inputs) && InputsAre(inputs, vs, cs) && i < |inputs| && input == inputs[i]
    modifies input`oldIndex, input`element, input.buffer
    ensures |cs| == |vs| == |inputs| && vs[i].Valid() && cs[i].seen < |vs[i].slots|
    ensures InputsAre(inputs, vs, cs[i := Chase(vs[i], cs[i], maxLag)])
    ensures update <==> cs[i].seen != vs[i].index
  {
    assert InputIs(inputs[i], vs[i], cs[i]);
    update := input.ChaseIndex(maxLag);
    forall j | 0 <= j < |inputs| && j != i
      ensures InputIs(inputs[j], vs[j], cs[j])
    {
      assert old(InputIs(inputs[j], vs[j], cs[j]));
    }
  }

  method ChaseTurn(input: Input, maxLag: int,
                   ghost inputs: seq<Input>, ghost vs: seq<View>, ghost cs: seq<Chaser>, ghost i: nat)
    returns (update: bool)
    requires |cs| == |vs| == |inputs| && i < |inputs| && input == inputs[i]
    requires Apart(inputs) && InputsAre(inputs, vs, ChasedUpTo(vs, cs, i, maxLag))
    modifies input`oldIndex, input`element, input.buffer
    ensures InputsAre(inputs, vs, ChasedUpTo(vs, cs, i + 1, maxLag))
    ensures News(vs, cs, i + 1) <==> News(vs, cs, i) || update
  {
    update := ChaseAt(input, maxLag, inputs, vs, ChasedUpTo(vs, cs, i, maxLag), i);
    ChasedNext(vs, cs, i, maxLag);
  }

  ghost predicate Apart(inputs: seq<Input>) {
    forall i, j :: 0 <= i < j < |inputs| ==> inputs[i] != inputs[j] && inputs[i].buffer != inputs[j].buffer
  }

  ghost predicate InputIs(x: Input, v: View, c: Chaser)
    reads x, x.buffer
  {
    x.Valid() && x.Ring0() == v && x.State() == c
  }

  ghost predicate InputsAre(inputs: seq<Input>, vs: seq<View>, cs: seq<Chaser>)
    reads inputs, set x: Input | x in inputs :: x.buffer
  {
    |vs| == |cs| == |inputs| && forall i :: 0 <= i < |inputs| ==> InputIs(inputs[i], vs[i], cs[i])
  }

  ghost function ChasedUpTo(vs: seq<View>, cs: seq<Chaser>, n: nat, maxLag: int): seq<Chaser>
    requires n <= |cs| == |vs|
  {
    seq(|cs|, j requires 0 <= j < |cs| =>
      if j < n && vs[j].Valid() && cs[j].seen < |vs[j].slots| then Chase(vs[j], cs[j], maxLag) else cs[j])
  }

  ghost predicate News(vs: seq<View>, cs: seq<Chaser>, n: nat)
    requires n <= |cs| == |vs|
  {
    n > 0 && (News(vs, cs, n - 1) || cs[n - 1].seen != vs[n - 1].index)
  }

  // There is news exactly if the write index of some input has moved.
  lemma {:induction false} NewsIff(vs: seq<View>, cs: seq<Chaser>, n: nat)
    requires n <= |cs| == |vs|
    ensures News(vs, cs, n) <==> exists j :: 0 <= j < n && cs[j].seen != vs[j].index
    ensures n == |cs| ==> (News(vs, cs, n) <==> AnyNews(vs, cs))
  {
    if n > 0 {
      NewsIff(vs, cs, n - 1);
    }
  }

  lemma NoneChased(vs: seq<View>, cs: seq<Chaser>, maxLag: int)
    requires |cs| == |vs|
    ensures ChasedUpTo(vs, cs, 0, maxLag) == cs
  {}

  lemma ChasedNext(vs: seq<View>, cs: seq<Chaser>, n: nat, maxLag: int)
    requires n < |cs| == |vs| && vs[n].Valid() && cs[n].seen < |vs[n].slots|
    ensures ChasedUpTo(vs, cs, n, maxLag)[n := Chase(vs[n], cs[n], maxLag)] == ChasedUpTo(vs, cs, n + 1, maxLag)
  {}
}
