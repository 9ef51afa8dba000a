/** Events: the registry that numbers event names, and the dispatch that calls every
    module subscribed to an event while those modules publish further events. */
module EventDispatch {
  import opened Prelude

  const MAX_EVENT_IDS: nat := 100

  // ---- the registry ----

  datatype EventEntry = EventEntry(name: string, id: int)

  class Registry {
    // The list of registered events, newest first.
    var events: seq<EventEntry>

    // Ids are dense from 0 in the order of registration, and names are distinct.
    ghost predicate Valid()
      reads this
    {
      && |events| <= MAX_EVENT_IDS
      && (forall i :: 0 <= i < |events| ==> events[i].id == |events| - 1 - i)
      && (forall i, j :: 0 <= i < j < |events| ==> events[i].name != events[j].name)
    }

    ghost predicate Knows(name: string, id: int)
      reads this
    {
      EventEntry(name, id) in events
    }

    constructor ()
      ensures Valid() && events == []
    {
      events := [];
    }

    // A known name keeps its id; a new one takes the next id while there is one.
    method RegisterEventId(name: string) returns (id: int)
      requires Valid()
      modifies this
      ensures Valid()
      ensures id == -1 <==> |old(events)| == MAX_EVENT_IDS && forall e | e in old(events) :: e.name != name
      ensures id != -1 ==> Knows(name, id)
      ensures events == if id == |old(events)| then [EventEntry(name, id)] + old(events) else old(events)
    {
      var index := 0;
      while index < |events|
        invariant 0 <= index <= |events| && events == old(events)
        invariant forall j :: 0 <= j < index ==> events[j].name != name
      {
        if events[index].name == name {
          return events[index].id;
        }
        index := index + 1;
      }
      if index >= MAX_EVENT_IDS {
        return -1;
      }
      events := [EventEntry(name, index)] + events;
      id := index;
    }

    // The inverse of registration: an id names exactly the event it was given to.
    method FindEventName(id: int) returns (name: Option<string>)
      requires Valid()
      ensures name.Some? <==> 0 <= id < |events|
      ensures forall n :: name == Some(n) <==> Knows(n, id)
    {
      var index := 0;
      while index < |events|
        invariant 0 <= index <= |events|
        invariant 0 <= id < |events| ==> index <= |events| - 1 - id
      {
        if events[index].id == id {
          return Some(events[index].name);
        }
        index := index + 1;
      }
      return None;
    }
  }

  // ---- the subscriptions and what the handlers publish ----

  type Module = nat

  // chains[e] lists the modules subscribed to event e; publishes(m, e) is what the
  // handler of module m publishes, in order, when it is called for e.
  datatype Wiring = Wiring(chains: seq<seq<Module>>, publishes: (Module, int) -> seq<int>) {
    ghost predicate Valid() {
      |chains| == MAX_EVENT_IDS
    }
  }

  class Subscriptions {
    var chains: seq<seq<Module>>

    constructor ()
      ensures chains == seq(MAX_EVENT_IDS, _ => [])
    {
      chains := seq(MAX_EVENT_IDS, _ => []);
    }

    method SubscribeEventId(id: nat, m: Module) returns (ok: bool)
      requires |chains| == MAX_EVENT_IDS
      modifies this
      ensures ok <==> id < MAX_EVENT_IDS
      ensures chains == if ok then old(chains)[id := old(chains)[id] + [m]] else old(chains)
    {
      if id >= MAX_EVENT_IDS {
        return false;
      }
      chains := chains[id := chains[id] + [m]];
      ok := true;
    }
  }

  predicate InRange(e: int) {
    0 <= e < MAX_EVENT_IDS
  }

  // ---- dispatch ----

  datatype Call = Call(m: Module, event: int)

  // What happens inside one run of the callback chain: a module is called, or an
  // event is published from within a handler.
  datatype Item = Called(m: Module) | Published(event: int)

  function Publications(events: seq<int>): (items: seq<Item>)
    ensures |items| == |events| && forall i :: 0 <= i < |items| ==> items[i] == Published(events[i])
  {
    seq(|events|, i requires 0 <= i < |events| => Published(events[i]))
  }

  function Items(w: Wiring, e: int, chain: seq<Module>): seq<Item> {
    if chain == [] then []
    else [Called(chain[0])] + Publications(w.publishes(chain[0], e)) + Items(w, e, chain[1..])
  }

  function Handling(w: Wiring, e: int): seq<Item>
    requires w.Valid() && InRange(e)
  {
    Items(w, e, w.chains[e])
  }

  // The calls that dispatching e makes, depth first and in subscription order,
  // when nested no deeper than fuel; None if the nesting goes deeper.
  function Dispatch(w: Wiring, fuel: nat, e: int): Option<seq<Call>>
    requires w.Valid()
    decreases fuel, 0
  {
    if !InRange(e) then Some([])
    else if fuel == 0 then None
    else Perform(w, fuel - 1, e, Handling(w, e))
  }

  function Perform(w: Wiring, fuel: nat, e: int, items: seq<Item>): Option<seq<Call>>
    requires w.Valid()
    decreases fuel, 1, |items|
  {
    if items == [] then Some([])
    else
      var first := match items[0]
        case Called(m) => Some([Call(m, e)])
        case Published(f) => Dispatch(w, fuel, f);
      var rest := Perform(w, fuel, e, items[1..]);
      if first.Some? && rest.Some? then Some(first.value + rest.value) else None
  }

  lemma {:induction false} PerformAppend(w: Wiring, fuel: nat, e: int, a: seq<Item>, b: seq<Item>)
    requires w.Valid()
    ensures Perform(w, fuel, e, a + b).Some? <==> Perform(w, fuel, e, a).Some? && Perform(w, fuel, e, b).Some?
    ensures Perform(w, fuel, e, a + b).Some? ==>
              Perform(w, fuel, e, a + b).value == Perform(w, fuel, e, a).value + Perform(w, fuel, e, b).value
    decreases |a|
  {
    if a == [] {
      assert a + b == b;
    } else {
      assert (a + b)[1..] == a[1..] + b;
      PerformAppend(w, fuel, e, a[1..], b);
    }
  }

  // A dispatch that returns makes the same calls however deep it was allowed to nest.
  lemma {:induction false} DeeperIsSame(w: Wiring, fuel: nat, more: nat, e: int)
    requires w.Valid() && fuel <= more && Dispatch(w, fuel, e).Some?
    ensures Dispatch(w, more, e) == Dispatch(w, fuel, e)
    decreases fuel, 0
  {
    if InRange(e) {
      PerformDeeperIsSame(w, fuel - 1, more - 1, e, Handling(w, e));
    }
  }

  lemma {:induction false} PerformDeeperIsSame(w: Wiring, fuel: nat, more: nat, e: int, items: seq<Item>)
    requires w.Valid() && fuel <= more && Perform(w, fuel, e, items).Some?
    ensures Perform(w, more, e, items) == Perform(w, fuel, e, items)
    decreases fuel, 1, |items|
  {
    if items != [] {
      if items[0].Published? {
        DeeperIsSame(w, fuel, more, items[0].event);
      }
      PerformDeeperIsSame(w, fuel, more, e, items[1..]);
    }
  }

  // ---- paths of nested publications ----

  ghost predicate Nests(w: Wiring, e: int, f: int)
    requires w.Valid()
  {
    InRange(e) && InRange(f) && Published(f) in Handling(w, e)
  }

  ghost predicate Path(w: Wiring, p: seq<int>)
    requires w.Valid()
  {
    && p != [] && InRange(p[0])
    && forall i, j :: 0 <= i < j < |p| && j == i + 1 ==> Nests(w, p[i], p[j])
  }

  ghost predicate PathFrom(w: Wiring, e: int, p: seq<int>)
    requires w.Valid()
  {
    Path(w, p) && p[0] == e
  }

  ghost predicate Repeats(p: seq<int>, i: int, j: int) {
    0 <= i < j < |p| && p[i] == p[j]
  }

  ghost predicate CycleReachable(w: Wiring, e: int)
    requires w.Valid()
  {
    exists p, i, j :: PathFrom(w, e, p) && Repeats(p, i, j)
  }

  ghost predicate Terminates(w: Wiring, e: int)
    requires w.Valid()
  {
    exists fuel :: Dispatch(w, fuel, e).Some?
  }

  // An event leads to another exactly if a module subscribed to it publishes that.
  lemma NestsIff(w: Wiring, e: int, f: int)
    requires w.Valid() && 0 <= e < |w.chains| && 0 <= f < |w.chains|
    ensures Nests(w, e, f) <==> exists m :: m in w.chains[e] && f in w.publishes(m, e)
  {
    ItemsPublish(w, e, w.chains[e], f);
  }

  lemma {:induction false} ItemsPublish(w: Wiring, e: int, chain: seq<Module>, f: int)
    ensures Published(f) in Items(w, e, chain) <==> exists m :: m in chain && f in w.publishes(m, e)
  {
    if chain != [] {
      ItemsPublish(w, e, chain[1..], f);
      var events := w.publishes(chain[0], e);
      assert f in events <==> Published(f) in Publications(events) by {
        if f in events {
          var i :| 0 <= i < |events| && events[i] == f;
          assert Publications(events)[i] == Published(f);
        }
      }
      assert forall m :: m in chain <==> m == chain[0] || m in chain[1..];
    }
  }

  lemma PathTail(w: Wiring, p: seq<int>)
    requires w.Valid() && Path(w, p) && |p| > 1
    ensures Path(w, p[1..]) && Nests(w, p[0], p[1])
  {
    assert p[1] == p[1..][0];
  }

  lemma PathPrepend(w: Wiring, e: int, p: seq<int>)
    requires w.Valid() && Path(w, p) && Nests(w, e, p[0])
    ensures Path(w, [e] + p)
  {
    var q := [e] + p;
    forall i, j | 0 <= i < j < |q| && j == i + 1
      ensures Nests(w, q[i], q[j])
    {
      if i > 0 {
        assert q[i] == p[i - 1] && q[j] == p[j - 1];
      }
    }
  }

  lemma {:induction false} PerformFails(w: Wiring, fuel: nat, e: int, items: seq<Item>) returns (f: int)
    requires w.Valid() && Perform(w, fuel, e, items).None?
    ensures Published(f) in items && Dispatch(w, fuel, f).None?
    decreases |items|
  {
    if items[0].Published? && Dispatch(w, fuel, items[0].event).None? {
      f := items[0].event;
    } else {
      f := PerformFails(w, fuel, e, items[1..]);
    }
  }

  lemma {:induction false} PerformMustFail(w: Wiring, fuel: nat, e: int, items: seq<Item>, f: int)
    requires w.Valid() && Published(f) in items && Dispatch(w, fuel, f).None?
    ensures Perform(w, fuel, e, items).None?
    decreases |items|
  {
    if items[0] != Published(f) {
      PerformMustFail(w, fuel, e, items[1..], f);
    }
  }

  // Running out of fuel shows a path of that length.
  lemma {:induction false} DeepNesting(w: Wiring, fuel: nat, e: int) returns (p: seq<int>)
    requires w.Valid() && Dispatch(w, fuel, e).None?
    ensures PathFrom(w, e, p) && |p| == fuel + 1
    decreases fuel
  {
    p := [e];
    if fuel > 0 {
      var f := PerformFails(w, fuel - 1, e, Handling(w, e));
      var q := DeepNesting(w, fuel - 1, f);
      PathPrepend(w, e, q);
      p := [e] + q;
    }
  }

  // A path of that length makes the fuel run out.
  lemma {:induction false} LongPathFails(w: Wiring, fuel: nat, e: int, p: seq<int>)
    requires w.Valid() && PathFrom(w, e, p) && |p| > fuel
    ensures Dispatch(w, fuel, e).None?
    decreases fuel
  {
    if fuel > 0 {
      PathTail(w, p);
      LongPathFails(w, fuel - 1, p[1], p[1..]);
      PerformMustFail(w, fuel - 1, e, Handling(w, e), p[1]);
    }
  }

  // ---- pigeonhole ----

  function Below(n: nat): (s: set<int>)
    ensures |s| == n && forall x :: x in s <==> 0 <= x < n
  {
    if n == 0 then {} else Below(n - 1) + {n - 1}
  }

  // At most n distinct numbers are in a set of n numbers.
  lemma {:induction false} DistinctSize(p: seq<int>, s: set<int>)
    requires forall i :: 0 <= i < |p| ==> p[i] in s
    requires forall i, j :: 0 <= i < j < |p| ==> p[i] != p[j]
    ensures |p| <= |s|
  {
    if p != [] {
      var q := p[1..];
      forall i | 0 <= i < |q|
        ensures q[i] in s - {p[0]}
      {
        assert q[i] == p[i + 1];
      }
      DistinctSize(q, s - {p[0]});
    }
  }

  lemma PathInRange(w: Wiring, p: seq<int>)
    requires w.Valid() && Path(w, p)
    ensures forall i :: 0 <= i < |p| ==> InRange(p[i])
  {
    forall i | 0 <= i < |p|
      ensures InRange(p[i])
    {
      if i > 0 {
        assert Nests(w, p[i - 1], p[i]);
      }
    }
  }

  lemma LongPathRepeats(w: Wiring, p: seq<int>) returns (i: int, j: int)
    requires w.Valid() && Path(w, p) && |p| > MAX_EVENT_IDS
    ensures Repeats(p, i, j)
  {
    PathInRange(w, p);
    if i', j' :| Repeats(p, i', j') {
      return i', j';
    }
    forall i, j | 0 <= i < j < |p|
      ensures p[i] != p[j]
    {
      assert !Repeats(p, i, j);
    }
    DistinctSize(p, Below(MAX_EVENT_IDS));
    assert false;
  }

  // ---- a cycle can be followed for ever ----

  lemma PumpOnce(w: Wiring, p: seq<int>, i: int, j: int)
    requires w.Valid() && Path(w, p) && Repeats(p, i, j)
    ensures Path(w, p[..j] + p[i..]) && Repeats(p[..j] + p[i..], i, j)
    ensures (p[..j] + p[i..])[0] == p[0] && |p[..j] + p[i..]| > |p|
  {
    var q := p[..j] + p[i..];
    forall a, b | 0 <= a < b < |q| && b == a + 1
      ensures Nests(w, q[a], q[b])
    {
      if b < j {
      } else if b == j {
        assert q[b] == p[i] == p[j];
      } else {
        assert q[a] == p[a - j + i] && q[b] == p[b - j + i];
      }
    }
  }

  lemma {:induction false} PumpTo(w: Wiring, e: int, p: seq<int>, i: int, j: int, n: nat) returns (q: seq<int>)
    requires w.Valid() && PathFrom(w, e, p) && Repeats(p, i, j)
    ensures PathFrom(w, e, q) && |q| > n
    decreases n - |p|
  {
    q := p;
    if |p| <= n {
      PumpOnce(w, p, i, j);
      q := PumpTo(w, e, p[..j] + p[i..], i, j, n);
    }
  }

  // Dispatch of an event returns if and only if the events that it can lead to
  // form no cycle; then it nests at most MAX_EVENT_IDS deep.
  lemma TerminatesIffAcyclic(w: Wiring, e: int)
    requires w.Valid()
    ensures Terminates(w, e) <==> !CycleReachable(w, e)
    ensures Terminates(w, e) ==> Dispatch(w, MAX_EVENT_IDS, e).Some?
  {
    if Dispatch(w, MAX_EVENT_IDS, e).None? {
      var p := DeepNesting(w, MAX_EVENT_IDS, e);
      var i, j := LongPathRepeats(w, p);
      assert CycleReachable(w, e);
    }
    if CycleReachable(w, e) {
      var p, i, j :| PathFrom(w, e, p) && Repeats(p, i, j);
      forall fuel: nat
        ensures Dispatch(w, fuel, e).None?
      {
        var q := PumpTo(w, e, p, i, j, fuel);
        LongPathFails(w, fuel, e, q);
      }
    }
  }

  // ---- which calls are made ----

  lemma {:induction false} ItemsOf(w: Wiring, e: int, chain: seq<Module>)
    ensures forall m :: Called(m) in Items(w, e, chain) <==> m in chain
  {
    if chain != [] {
      ItemsOf(w, e, chain[1..]);
    }
  }

  ghost predicate Reaches(w: Wiring, e: int, f: int)
    requires w.Valid()
  {
    exists p :: PathFrom(w, e, p) && p[|p| - 1] == f
  }

  lemma ReachesSelf(w: Wiring, e: int)
    requires w.Valid() && InRange(e)
    ensures Reaches(w, e, e)
  {
    assert PathFrom(w, e, [e]) && [e][|[e]| - 1] == e;
  }

  lemma ReachesNext(w: Wiring, e: int, f: int, g: int)
    requires w.Valid() && Nests(w, e, f) && Reaches(w, f, g)
    ensures Reaches(w, e, g)
  {
    var p :| PathFrom(w, f, p) && p[|p| - 1] == g;
    PathPrepend(w, e, p);
    var q := [e] + p;
    assert PathFrom(w, e, q) && q[|q| - 1] == g;
  }

  ghost predicate Due(w: Wiring, e: int, c: Call)
    requires w.Valid()
  {
    InRange(c.event) && Reaches(w, e, c.event) && c.m in w.chains[c.event]
  }

  lemma {:induction false} CallsAreDue(w: Wiring, fuel: nat, e: int, c: Call)
    requires w.Valid() && Dispatch(w, fuel, e).Some? && c in Dispatch(w, fuel, e).value
    ensures Due(w, e, c)
    decreases fuel, 0
  {
    var h := Handling(w, e);
    var item := PerformedBy(w, fuel - 1, e, h, c);
    ItemsOf(w, e, w.chains[e]);
    if item.Called? {
      ReachesSelf(w, e);
    } else {
      CallsAreDue(w, fuel - 1, item.event, c);
      ReachesNext(w, e, item.event, c.event);
    }
  }

  lemma {:induction false} PerformedBy(w: Wiring, fuel: nat, e: int, items: seq<Item>, c: Call) returns (item: Item)
    requires w.Valid() && Perform(w, fuel, e, items).Some? && c in Perform(w, fuel, e, items).value
    ensures item in items
    ensures item.Called? ==> c == Call(item.m, e)
    ensures item.Published? ==>
              InRange(item.event) && Dispatch(w, fuel, item.event).Some? && c in Dispatch(w, fuel, item.event).value
    decreases |items|
  {
    item := items[0];
    if item.Called? {
      if c != Call(item.m, e) {
        item := PerformedBy(w, fuel, e, items[1..], c);
      }
    } else if c !in Dispatch(w, fuel, item.event).value {
      item := PerformedBy(w, fuel, e, items[1..], c);
    }
  }

  lemma {:induction false} DueIsCalled(w: Wiring, fuel: nat, e: int, p: seq<int>, m: Module)
    requires w.Valid() && Dispatch(w, fuel, e).Some? && PathFrom(w, e, p)
    requires InRange(p[|p| - 1]) && m in w.chains[p[|p| - 1]]
    ensures Call(m, p[|p| - 1]) in Dispatch(w, fuel, e).value
    decreases |p|
  {
    var c := Call(m, p[|p| - 1]);
    if |p| == 1 {
      ItemsOf(w, e, w.chains[e]);
      PerformIncludes(w, fuel - 1, e, Handling(w, e), Called(m), c);
    } else {
      PathTail(w, p);
      var f := p[1];
      PerformNeeds(w, fuel - 1, e, Handling(w, e), f);
      DueIsCalled(w, fuel - 1, f, p[1..], m);
      PerformIncludes(w, fuel - 1, e, Handling(w, e), Published(f), c);
    }
  }

  lemma {:induction false} PerformNeeds(w: Wiring, fuel: nat, e: int, items: seq<Item>, f: int)
    requires w.Valid() && Perform(w, fuel, e, items).Some? && Published(f) in items
    ensures Dispatch(w, fuel, f).Some?
  {
    if Dispatch(w, fuel, f).None? {
      PerformMustFail(w, fuel, e, items, f);
    }
  }

  lemma {:induction false} PerformIncludes(w: Wiring, fuel: nat, e: int, items: seq<Item>, item: Item, c: Call)
    requires w.Valid() && Perform(w, fuel, e, items).Some? && item in items
    requires item.Called? ==> c == Call(item.m, e)
    requires item.Published? ==> Dispatch(w, fuel, item.event).Some? && c in Dispatch(w, fuel, item.event).value
    ensures c in Perform(w, fuel, e, items).value
    decreases |items|
  {
    if items[0] != item {
      PerformIncludes(w, fuel, e, items[1..], item, c);
    }
  }

  // A dispatch that returns calls exactly the modules subscribed to the events
  // that can be reached, each for its event.
  lemma CallsExactly(w: Wiring, fuel: nat, e: int, c: Call)
    requires w.Valid() && Dispatch(w, fuel, e).Some?
    ensures c in Dispatch(w, fuel, e).value <==> Due(w, e, c)
  {
    if c in Dispatch(w, fuel, e).value {
      CallsAreDue(w, fuel, e, c);
    }
    if Due(w, e, c) {
      var p :| PathFrom(w, e, p) && p[|p| - 1] == c.event;
      DueIsCalled(w, fuel, e, p, c.m);
    }
  }

  // ---- in which order ----

  function CalledFor(calls: seq<Call>, e: int): seq<Module> {
    if calls == [] then []
    else (if calls[0].event == e then [calls[0].m] else []) + CalledFor(calls[1..], e)
  }

  function CalledIn(items: seq<Item>): seq<Module> {
    if items == [] then []
    else (if items[0].Called? then [items[0].m] else []) + CalledIn(items[1..])
  }

  lemma {:induction false} CalledForAppend(a: seq<Call>, b: seq<Call>, e: int)
    ensures CalledFor(a + b, e) == CalledFor(a, e) + CalledFor(b, e)
  {
    if a == [] {
      assert a + b == b;
    } else {
      assert (a + b)[0] == a[0] && (a + b)[1..] == a[1..] + b;
      var first := if a[0].event == e then [a[0].m] else [];
      assert CalledFor(a + b, e) == first + CalledFor(a[1..] + b, e);
      assert CalledFor(a, e) == first + CalledFor(a[1..], e);
      CalledForAppend(a[1..], b, e);
    }
  }

  lemma {:induction false} CalledForOthers(calls: seq<Call>, e: int)
    requires forall c :: c in calls ==> c.event != e
    ensures CalledFor(calls, e) == []
  {
    if calls != [] {
      CalledForOthers(calls[1..], e);
    }
  }

  lemma {:induction false} CalledInPublications(events: seq<int>, rest: seq<Item>)
    ensures CalledIn(Publications(events) + rest) == CalledIn(rest)
  {
    if events == [] {
      assert Publications(events) + rest == rest;
    } else {
      assert (Publications(events) + rest)[1..] == Publications(events[1..]) + rest;
      CalledInPublications(events[1..], rest);
    }
  }

  lemma {:induction false} CalledInItems(w: Wiring, e: int, chain: seq<Module>)
    ensures CalledIn(Items(w, e, chain)) == chain
  {
    if chain != [] {
      var handler := Publications(w.publishes(chain[0], e));
      var rest := Items(w, e, chain[1..]);
      assert Items(w, e, chain) == [Called(chain[0])] + (handler + rest);
      CalledInPublications(w.publishes(chain[0], e), rest);
      CalledInItems(w, e, chain[1..]);
    }
  }

  // A publication that leads back to e would be a cycle.
  lemma NeverBack(w: Wiring, fuel: nat, e: int, f: int, c: Call)
    requires w.Valid() && Dispatch(w, fuel, e).Some? && InRange(e) && Published(f) in Handling(w, e)
    requires InRange(f) && Due(w, f, c)
    ensures c.event != e
  {
    if c.event == e {
      var p :| PathFrom(w, f, p) && p[|p| - 1] == e;
      PathPrepend(w, e, p);
      var q := [e] + p;
      assert PathFrom(w, e, q) && Repeats(q, 0, |q| - 1);
      TerminatesIffAcyclic(w, e);
    }
  }

  lemma {:induction false} PerformedInOrder(w: Wiring, fuel: nat, e: int, items: seq<Item>)
    requires w.Valid() && InRange(e) && Dispatch(w, fuel + 1, e).Some?
    requires Perform(w, fuel, e, items).Some? && forall item :: item in items ==> item in Handling(w, e)
    ensures CalledFor(Perform(w, fuel, e, items).value, e) == CalledIn(items)
    decreases |items|
  {
    if items != [] {
      PerformedInOrder(w, fuel, e, items[1..]);
      var rest := Perform(w, fuel, e, items[1..]).value;
      match items[0] {
        case Called(m) =>
          CalledForAppend([Call(m, e)], rest, e);
        case Published(f) =>
          var calls := Dispatch(w, fuel, f).value;
          forall c | c in calls
            ensures c.event != e
          {
            CallsAreDue(w, fuel, f, c);
            NeverBack(w, fuel + 1, e, f, c);
          }
          CalledForOthers(calls, e);
          CalledForAppend(calls, rest, e);
      }
    }
  }

  // A dispatch that returns calls the event's own subscribers once each, in the
  // order of subscription, whatever they publish in between.
  lemma SubscribersInOrder(w: Wiring, fuel: nat, e: int)
    requires w.Valid() && InRange(e) && Dispatch(w, fuel, e).Some?
    ensures CalledFor(Dispatch(w, fuel, e).value, e) == w.chains[e]
  {
    PerformedInOrder(w, fuel - 1, e, Handling(w, e));
    CalledInItems(w, e, w.chains[e]);
  }

  // ---- the trace of a dispatch ----

  function Concat(parts: seq<seq<Call>>): seq<Call> {
    if parts == [] then [] else parts[0] + Concat(parts[1..])
  }

  lemma {:induction false} PublicationsUnfold(w: Wiring, fuel: nat, e: int, events: seq<int>)
    returns (traces: seq<seq<Call>>)
    requires w.Valid() && Perform(w, fuel, e, Publications(events)).Some?
    ensures |traces| == |events| && Perform(w, fuel, e, Publications(events)).value == Concat(traces)
    ensures forall i :: 0 <= i < |events| ==> Dispatch(w, fuel, events[i]) == Some(traces[i])
    decreases |events|
  {
    traces := [];
    if events != [] {
      assert Publications(events)[1..] == Publications(events[1..]);
      var rest := PublicationsUnfold(w, fuel, e, events[1..]);
      traces := [Dispatch(w, fuel, events[0]).value] + rest;
    }
  }

  // The traces of a handler's publications, for each module of the chain.
  ghost predicate Handled(w: Wiring, fuel: nat, e: int, chain: seq<Module>, inner: seq<seq<seq<Call>>>)
    requires w.Valid()
  {
    && |inner| == |chain|
    && (forall k :: 0 <= k < |chain| ==> |inner[k]| == |w.publishes(chain[k], e)|)
    && forall k, i :: 0 <= k < |chain| && 0 <= i < |inner[k]| ==>
         Dispatch(w, fuel, w.publishes(chain[k], e)[i]) == Some(inner[k][i])
  }

  ghost predicate Entered(e: int, chain: seq<Module>, inner: seq<seq<seq<Call>>>, parts: seq<seq<Call>>) {
    |parts| == |chain| == |inner| && forall k :: 0 <= k < |chain| ==> parts[k] == [Call(chain[k], e)] + Concat(inner[k])
  }

  lemma {:induction false} ChainUnfolds(w: Wiring, fuel: nat, e: int, chain: seq<Module>)
    returns (parts: seq<seq<Call>>, inner: seq<seq<seq<Call>>>)
    requires w.Valid() && Perform(w, fuel, e, Items(w, e, chain)).Some?
    ensures Perform(w, fuel, e, Items(w, e, chain)).value == Concat(parts)
    ensures Handled(w, fuel, e, chain, inner) && Entered(e, chain, inner, parts)
    decreases |chain|
  {
    parts, inner := [], [];
    if chain != [] {
      var events := w.publishes(chain[0], e);
      var head := [Called(chain[0])] + Publications(events);
      PerformAppend(w, fuel, e, head, Items(w, e, chain[1..]));
      assert head[1..] == Publications(events);
      var traces := PublicationsUnfold(w, fuel, e, events);
      var parts', inner' := ChainUnfolds(w, fuel, e, chain[1..]);
      parts := [[Call(chain[0], e)] + Concat(traces)] + parts';
      inner := [traces] + inner';
      assert parts[1..] == parts';
      assert Perform(w, fuel, e, head).value == parts[0];
    }
  }

  // The trace of a dispatch that returns: module by module in the order of the
  // chain, the call itself followed at once by the traces of the dispatches of what
  // the module publishes, in that order.
  lemma DispatchUnfolds(w: Wiring, fuel: nat, e: int) returns (parts: seq<seq<Call>>, inner: seq<seq<seq<Call>>>)
    requires w.Valid() && InRange(e) && Dispatch(w, fuel, e).Some?
    ensures fuel > 0 && Dispatch(w, fuel, e).value == Concat(parts)
    ensures |parts| == |inner| == |w.chains[e]|
    ensures forall k :: 0 <= k < |parts| ==> parts[k] == [Call(w.chains[e][k], e)] + Concat(inner[k])
    ensures forall k :: 0 <= k < |inner| ==> |inner[k]| == |w.publishes(w.chains[e][k], e)|
    ensures forall k, i :: 0 <= k < |inner| && 0 <= i < |inner[k]| ==>
              Dispatch(w, fuel - 1, w.publishes(w.chains[e][k], e)[i]) == Some(inner[k][i])
  {
    parts, inner := ChainUnfolds(w, fuel - 1, e, w.chains[e]);
  }

  // A dispatch of no event makes no call, and one that may not nest does not return.
  lemma DispatchEnds(w: Wiring, fuel: nat, e: int)
    requires w.Valid()
    ensures !(0 <= e < |w.chains|) ==> Dispatch(w, fuel, e) == Some([])
    ensures 0 <= e < |w.chains| ==> Dispatch(w, 0, e) == None
  {}

  lemma {:induction false} ConcatAppend(a: seq<seq<Call>>, last: seq<Call>)
    ensures Concat(a + [last]) == Concat(a) + last
  {
    if a == [] {
      assert [last][1..] == [];
    } else {
      assert (a + [last])[1..] == a[1..] + [last];
      ConcatAppend(a[1..], last);
    }
  }

  // ---- the engine ----

  class Engine {
    const w: Wiring
    var trace: seq<Call>

    constructor (w: Wiring)
      ensures this.w == w && trace == []
    {
      this.w, trace := w, [];
    }

    // Every module of the chain is called in turn. The ghost depth bounds the
    // nesting of a dispatch that returns.
    method RunCallback(e: int, ghost depth: nat) returns (status: int)
      requires w.Valid() && Dispatch(w, depth, e).Some?
      modifies this
      ensures trace == old(trace) + Dispatch(w, depth, e).value
      ensures status == if InRange(e) then 0 else -1
      decreases depth, 0
    {
      if !InRange(e) {
        return -1;
      }
      var chain := w.chains[e];
      var i := 0;
      assert chain[0..] == chain;
      while i < |chain|
        invariant 0 <= i <= |chain|
        invariant Perform(w, depth - 1, e, Items(w, e, chain[i..])).Some?
        invariant trace + Perform(w, depth - 1, e, Items(w, e, chain[i..])).value
               == old(trace) + Dispatch(w, depth, e).value
      {
        assert chain[i..][1..] == chain[i + 1..];
        PerformAppend(w, depth - 1, e, [Called(chain[i])] + Publications(w.publishes(chain[i], e)),
                      Items(w, e, chain[i + 1..]));
        Handle(chain[i], e, depth - 1);
        i := i + 1;
      }
      status := 0;
    }

    // A handler is entered and publishes its events, each dispatched before the next.
    method Handle(m: Module, e: int, ghost depth: nat)
      requires w.Valid() && Perform(w, depth, e, [Called(m)] + Publications(w.publishes(m, e))).Some?
      modifies this
      ensures trace == old(trace) + Perform(w, depth, e, [Called(m)] + Publications(w.publishes(m, e))).value
      decreases depth, 1
    {
      var events := w.publishes(m, e);
      ghost var items := Publications(events);
      assert ([Called(m)] + items)[1..] == items[0..] == items;
      trace := trace + [Call(m, e)];
      var i := 0;
      while i < |events|
        invariant 0 <= i <= |events|
        invariant Perform(w, depth, e, items[i..]).Some?
        invariant trace + Perform(w, depth, e, items[i..]).value
               == old(trace) + Perform(w, depth, e, [Called(m)] + items).value
      {
        assert items[i..][1..] == items[i + 1..];
        var _ := RunCallback(events[i], depth);
        i := i + 1;
      }
    }
  }
}
