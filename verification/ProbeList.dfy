/** The list of probes: doubly linked through the probes themselves, which keep
    their links when they are removed. */
module ProbeList {
  const WIDTH: nat := 0x1_0000_0000

  // Unsigned 32-bit counting.
  function Up(n: nat): nat {
    if n + 1 == WIDTH then 0 else n + 1
  }

  function Down(n: nat): nat {
    if n == 0 then WIDTH - 1 else n - 1
  }

  function Known(p: Probe?): set<Probe> {
    if p == null then {} else {p}
  }

  class Probe {
    const returnSite: int
    var id: nat
    var prev: Probe?
    var next: Probe?

    constructor (returnSite: int)
      ensures this.returnSite == returnSite && prev == null && next == null
    {
      this.returnSite := returnSite;
      id, prev, next := 0, null, null;
    }

    predicate IsLoose()
      reads `next, `prev
    {
      next == null && prev == null
    }

    predicate IsValid()
      reads `next, `prev, Known(next)`prev, Known(prev)`next
    {
      && (next != null ==> next.prev == this)
      && (prev != null ==> prev.next == this)
    }
  }

  ghost predicate Distinct<T>(s: seq<T>) {
    forall i, j :: 0 <= i < j < |s| ==> s[i] != s[j]
  }

  function At(s: seq<Probe>, i: int): Probe? {
    if 0 <= i < |s| then s[i] else null
  }

  // Each probe points to its neighbours in s.
  ghost predicate Chained(s: seq<Probe>)
    reads s`next, s`prev
  {
    && (forall i {:trigger s[i].next} :: 0 <= i < |s| ==> s[i].next == At(s, i + 1))
    && (forall i {:trigger s[i].prev} :: 0 <= i < |s| ==> s[i].prev == At(s, i - 1))
  }

  function Without(s: seq<Probe>, p: Probe): seq<Probe> {
    if s == [] then []
    else if s[0] == p then s[1..]
    else [s[0]] + Without(s[1..], p)
  }

  ghost function IndexOf(s: seq<Probe>, p: Probe): (k: nat)
    requires p in s
    ensures k < |s| && s[k] == p
  {
    if s[0] == p then 0 else 1 + IndexOf(s[1..], p)
  }

  lemma {:induction false} WithoutAt(s: seq<Probe>, k: nat)
    requires Distinct(s) && k < |s|
    ensures Without(s, s[k]) == s[..k] + s[k + 1..]
  {
    if k > 0 {
      WithoutAt(s[1..], k - 1);
      assert s[..k] == [s[0]] + s[1..][..k - 1];
    }
  }

  ghost predicate Closed(all: set<Probe>)
    reads all`next, all`prev
  {
    && (forall p {:trigger p.next} :: p in all ==> p.next == null || p.next in all)
    && (forall p {:trigger p.prev} :: p in all ==> p.prev == null || p.prev in all)
  }

  // A probe out of the list has no neighbours or is not linked to by one of them.
  ghost predicate Gone(all: set<Probe>, s: seq<Probe>)
    requires Closed(all)
    reads all`next, all`prev
  {
    forall p {:trigger p.IsValid()} {:trigger p.IsLoose()} :: p in all && p !in s ==> p.IsLoose() || !p.IsValid()
  }

  lemma WithoutMembers(s: seq<Probe>, p: Probe)
    requires Distinct(s) && p in s
    ensures Distinct(Without(s, p)) && |Without(s, p)| == |s| - 1
    ensures forall q :: q in Without(s, p) <==> q in s && q != p
  {
    WithoutAt(s, IndexOf(s, p));
    assert s == s[..IndexOf(s, p)] + [p] + s[IndexOf(s, p) + 1..];
  }

  lemma RestMembers(s: seq<Probe>, p: Probe)
    requires Distinct(s)
    ensures Distinct(Without(s, p)) && forall q :: q in Without(s, p) <==> q in s && q != p
  {
    if p in s {
      WithoutMembers(s, p);
    } else {
      WithoutOther(s, p);
    }
  }

  // When the neighbours of the k-th probe point to each other, the rest is chained.
  lemma Spliced(s: seq<Probe>, k: nat)
    requires k < |s|
    requires forall i {:trigger s[i].next} :: 0 <= i < |s| ==> s[i].next == At(s, if i == k - 1 then k + 1 else i + 1)
    requires forall i {:trigger s[i].prev} :: 0 <= i < |s| ==> s[i].prev == At(s, if i == k + 1 then k - 1 else i - 1)
    ensures Chained(s[..k] + s[k + 1..])
  {
    var t := s[..k] + s[k + 1..];
    forall i | 0 <= i < |t|
      ensures t[i].next == At(t, i + 1) && t[i].prev == At(t, i - 1)
    {
      var j := if i < k then i else i + 1;
      assert t[i] == s[j] && s[j].next == s[j].next && s[j].prev == s[j].prev;
    }
  }

  lemma {:induction false} WithoutOther(s: seq<Probe>, p: Probe)
    requires p !in s
    ensures Without(s, p) == s
  {
    if s != [] {
      WithoutOther(s[1..], p);
    }
  }

  // ---- the ids ----

  ghost function IdsOf(s: seq<Probe>): (ids: seq<nat>)
    reads s`id
    ensures |ids| == |s|
  {
    if s == [] then [] else [s[0].id] + IdsOf(s[1..])
  }

  lemma {:induction false} IdsAt(s: seq<Probe>, i: nat)
    requires i < |s|
    ensures IdsOf(s)[i] == s[i].id
  {
    if i > 0 {
      IdsAt(s[1..], i - 1);
    }
  }

  lemma {:induction false} IdsWithout(s: seq<Probe>, p: Probe)
    requires p in s
    ensures IdsOf(Without(s, p)) == Applied(IdsOf(s), Remove(IndexOf(s, p)))
  {
    if s[0] != p {
      IdsWithout(s[1..], p);
    }
  }

  datatype Op = Add | Remove(k: nat)

  // The ids in a list, as counted, after a probe is added or the k-th is removed.
  function Applied(ids: seq<nat>, op: Op): seq<nat> {
    match op
    case Add => [|ids|] + ids
    case Remove(k) => if k < |ids| then ids[..k] + ids[k + 1..] else ids
  }

  function AllApplied(ids: seq<nat>, ops: seq<Op>): seq<nat>
    decreases |ops|
  {
    if ops == [] then ids else AllApplied(Applied(ids, ops[0]), ops[1..])
  }

  // The ids after nothing but adds.
  ghost predicate Dense(ids: seq<nat>) {
    forall i :: 0 <= i < |ids| ==> ids[i] == |ids| - 1 - i
  }

  lemma {:induction false} RemovesKeepDistinct(ids: seq<nat>, ops: seq<Op>)
    requires Distinct(ids) && forall i :: 0 <= i < |ops| ==> ops[i].Remove?
    ensures Distinct(AllApplied(ids, ops))
    decreases |ops|
  {
    if ops != [] {
      RemovesKeepDistinct(Applied(ids, ops[0]), ops[1..]);
    }
  }

  // Ids are distinct as long as no add follows a remove.
  lemma {:induction false} IdsDistinct(ids: seq<nat>, ops: seq<Op>)
    requires Dense(ids) && forall i, j :: 0 <= i < j < |ops| ==> ops[i].Add? || ops[j].Remove?
    ensures Distinct(AllApplied(ids, ops))
    decreases |ops|
  {
    if ops != [] {
      if ops[0].Remove? {
        RemovesKeepDistinct(ids, ops);
      } else {
        IdsDistinct(Applied(ids, Add), ops[1..]);
      }
    }
  }

  // After nothing but adds and then nothing but removes, an add takes an id in use
  // exactly when the probe numbered with the remaining size is still listed.
  lemma AddAfterRemoves(ids: seq<nat>, removes: seq<Op>)
    requires Dense(ids) && forall i :: 0 <= i < |removes| ==> removes[i].Remove?
    ensures var left := AllApplied(ids, removes);
            Distinct(AllApplied(ids, removes + [Add])) <==> |left| !in left
  {
    var left := AllApplied(ids, removes);
    RemovesKeepDistinct(ids, removes);
    AppliedSnoc(ids, removes, Add);
    DistinctCons(|left|, left);
  }

  lemma DistinctCons(id: nat, ids: seq<nat>)
    requires Distinct(ids)
    ensures Distinct([id] + ids) <==> id !in ids
  {
    var more := [id] + ids;
    if id in ids {
      var k :| 0 <= k < |ids| && ids[k] == id;
      assert more[0] == more[k + 1];
    }
  }

  lemma {:induction false} AppliedSnoc(ids: seq<nat>, ops: seq<Op>, op: Op)
    ensures AllApplied(ids, ops + [op]) == Applied(AllApplied(ids, ops), op)
    decreases |ops|
  {
    if ops == [] {
      assert [op][1..] == [];
    } else {
      assert (ops + [op])[1..] == ops[1..] + [op];
      AppliedSnoc(Applied(ids, ops[0]), ops[1..], op);
    }
  }

  // After a single remove: unless the newest probe was the one removed.
  lemma AddAfterRemove(ids: seq<nat>, k: nat)
    requires Dense(ids) && k < |ids|
    ensures Distinct(AllApplied(ids, [Remove(k)] + [Add])) <==> k == 0
  {
    AddAfterRemoves(ids, [Remove(k)]);
    var left := Applied(ids, Remove(k));
    assert [Remove(k)][1..] == [];
    assert AllApplied(ids, [Remove(k)]) == left;
    NewestLeft(ids, k);
  }

  lemma NewestLeft(ids: seq<nat>, k: nat)
    requires Dense(ids) && k < |ids|
    ensures var left := Applied(ids, Remove(k)); |left| in left <==> k > 0
  {
    var left := ids[..k] + ids[k + 1..];
    if k > 0 {
      assert left[0] == ids[0];
    }
  }

  class ProbeList {
    var head: Probe?
    var size: nat
    ghost var chain: seq<Probe>  // from the head
    ghost var all: set<Probe>    // every probe that was ever added

    // A probe that was removed has no neighbours or is not linked to by one of them.
    ghost predicate Valid()
      reads this, all`next, all`prev
    {
      && size < WIDTH
      && head == At(chain, 0)
      && (forall q :: q in chain ==> q in all)
      && Distinct(chain)
      && Chained(chain)
      && Closed(all)
      && Gone(all, chain)
    }

    ghost predicate Counted()
      reads this
    {
      size == |chain|
    }

    constructor ()
      ensures Valid() && Counted() && chain == [] && all == {}
    {
      head, size, chain, all := null, 0, [], {};
    }

    // The probe goes to the front and is numbered with the current size.
    method Add(p: Probe) returns (ok: bool)
      requires Valid() && p !in chain
      modifies this, all`prev, p`id, p`prev, p`next
      ensures Valid() && ok
      ensures chain == [p] + old(chain) && all == old(all) + {p}
      ensures p.id == old(size) && size == if old(size) + 1 == 0x1_0000_0000 then 0 else old(size) + 1
      ensures IdsOf(chain) == [old(size)] + old(IdsOf(chain))
      ensures old(Counted()) ==> IdsOf(chain) == Applied(old(IdsOf(chain)), Op.Add)
      ensures old(Counted()) && |chain| < WIDTH ==> Counted()
      ensures forall q :: q in all && q !in chain ==> q.prev == old(q.prev)
    {
      ghost var was := chain;
      ghost var ids := IdsOf(was);
      p.id := size;
      size := Up(size);
      PushFront(p);
      assert chain[1..] == was && IdsOf(was) == ids;
      ok := true;
    }

    method PushFront(p: Probe)
      requires Valid() && p !in chain
      modifies this`head, this`chain, this`all, all`prev, p`prev, p`next
      ensures Valid() && chain == [p] + old(chain) && all == old(all) + {p}
      ensures forall q :: q in all && q !in chain ==> q.prev == old(q.prev)
    {
      p.prev := null;
      p.next := head;
      if head != null {
        head.prev := p;
      }
      head := p;
      chain := [p] + chain;
      all := all + {p};
    }

    // A probe in the list leaves it. Of the others only one without neighbours is
    // accepted, and then nothing but the size changes.
    method Remove(p: Probe) returns (ok: bool)
      requires Valid() && (p in all || p.IsLoose())
      modifies this`head, this`size, this`chain, all`prev, all`next
      ensures Valid()
      ensures ok == (p in old(chain) || (old(p.next) == null && old(p.prev) == null))
      ensures chain == Without(old(chain), p)
      ensures IdsOf(chain) == if p in old(chain) then Applied(old(IdsOf(chain)), Op.Remove(old(IndexOf(chain, p))))
                              else old(IdsOf(chain))
      ensures ok ==> size == if old(size) == 0 then 0xFFFF_FFFF else old(size) - 1
      ensures !ok ==> size == old(size)
      ensures old(Counted()) && (p in old(chain) || !ok) ==> Counted()
      ensures p in old(chain) ==> p !in chain && (p.IsValid() <==> |old(chain)| == 1)
      ensures forall q :: q in all && q !in chain ==> q.next == old(q.next) && q.prev == old(q.prev)
    {
      if p in chain {
        IdsWithout(chain, p);
        WithoutMembers(chain, p);
      } else {
        WithoutOther(chain, p);
      }
      ghost var rest := Without(chain, p);
      ghost var ids := IdsOf(rest);
      ok := p.IsValid();
      if ok {
        TakeOut(p);
        assert IdsOf(rest) == ids;
        size := Down(size);
      }
    }

    // The list without a probe that its neighbours link to.
    method TakeOut(p: Probe)
      requires Valid() && (p in chain || p.IsLoose())
      modifies this`head, this`chain, all`prev, all`next
      ensures Valid() && chain == Without(old(chain), p)
      ensures p in old(chain) ==> p !in chain && (p.IsValid() <==> |old(chain)| == 1)
      ensures forall q :: q in all && q !in chain ==> q.next == old(q.next) && q.prev == old(q.prev)
    {
      ghost var rest := Without(chain, p);
      RestMembers(chain, p);
      UnlinkOne(p, rest);
      chain := rest;
    }

    method UnlinkOne(p: Probe, ghost rest: seq<Probe>)
      requires Valid() && (p in chain || p.IsLoose())
      requires rest == Without(chain, p) && forall q :: q in rest <==> q in chain && q != p
      modifies this`head, all`prev, all`next
      ensures size < WIDTH && head == At(rest, 0) && Chained(rest) && Closed(all) && Gone(all, rest)
      ensures p !in rest && forall q :: q in rest ==> q in all
      ensures p in chain ==> (p.IsValid() <==> |chain| == 1)
      ensures forall q :: q in all && q !in rest ==> q.next == old(q.next) && q.prev == old(q.prev)
    {
      Unlink(p);
      forall q | q in all && q !in rest
        ensures q.IsLoose() || !q.IsValid()
      {
        if q != p {
          assert old(q.IsLoose() || !q.IsValid());
        }
      }
    }

    // The list from the head goes past the probe.
    method Unlink(p: Probe)
      requires head == At(chain, 0) && (forall q :: q in chain ==> q in all) && Distinct(chain) && Chained(chain)
      requires Closed(all) && (p in chain || p.IsLoose())
      modifies this`head, all`prev, all`next
      ensures forall q :: q in all ==>
                && q.next == (if q == old(p.prev) then old(p.next) else old(q.next))
                && q.prev == (if q == old(p.next) then old(p.prev) else old(q.prev))
      ensures head == At(Without(chain, p), 0) && Chained(Without(chain, p))
    {
      Bypass(p);
      if p in chain {
        WithoutAt(chain, IndexOf(chain, p));
        Spliced(chain, IndexOf(chain, p));
      } else {
        WithoutOther(chain, p);
      }
    }

    // The neighbours of a probe are linked to each other.
    method Bypass(p: Probe)
      requires Closed(all) && (p in all || p.IsLoose())
      modifies this`head, all`prev, all`next
      ensures forall q :: q in all ==>
                && q.next == (if q == old(p.prev) then old(p.next) else old(q.next))
                && q.prev == (if q == old(p.next) then old(p.prev) else old(q.prev))
      ensures head == if old(head) == p then (if old(p.next) != null then old(p.next) else old(p.prev)) else old(head)
    {
      var next, prev := p.next, p.prev;
      if next != null {
        next.prev := prev;
      }
      if prev != null {
        prev.next := next;
      }
      if head == p {
        head := if next != null then next else prev;
      }
    }

    // Iteration visits the probes of the chain, in order: what is found are the
    // probes at exactly the positions whose probe matches.
    method Find(matches: Probe -> bool) returns (found: seq<Probe>, ghost at: seq<nat>)
      requires Valid()
      ensures |at| == |found| && forall i :: 0 <= i < |at| ==> at[i] < |chain| && found[i] == chain[at[i]]
      ensures forall i, j :: 0 <= i < j < |at| ==> at[i] < at[j]
      ensures forall k: nat :: k < |chain| ==> (k in at <==> matches(chain[k]))
    {
      found, at := [], [];
      var probe := head;
      ghost var i := 0;
      while probe != null
        invariant 0 <= i <= |chain| && probe == At(chain, i)
        invariant |at| == |found| && forall k :: 0 <= k < |at| ==> at[k] < i && found[k] == chain[at[k]]
        invariant forall j, k :: 0 <= j < k < |at| ==> at[j] < at[k]
        invariant forall k: nat :: k < i ==> (k in at <==> matches(chain[k]))
        decreases |chain| - i
      {
        if matches(probe) {
          found, at := found + [probe], at + [i];
        }
        probe := probe.next;
        i := i + 1;
      }
    }

    // The first probe from the head, which is the newest.
    method FindByReturnSite(returnSite: int) returns (found: Probe?)
      requires Valid()
      ensures found == null <==> forall p :: p in chain ==> p.returnSite != returnSite
      ensures found != null ==>
                found.returnSite == returnSite &&
                exists k: nat :: k < |chain| && chain[k] == found
                                 && (forall j :: 0 <= j < k ==> chain[j].returnSite != returnSite)
    {
      var probe := head;
      ghost var i := 0;
      while probe != null
        invariant 0 <= i <= |chain| && probe == At(chain, i)
        invariant forall j :: 0 <= j < i ==> chain[j].returnSite != returnSite
        decreases |chain| - i
      {
        if probe.returnSite == returnSite {
          assert chain[i] == probe;
          return probe;
        }
        probe := probe.next;
        i := i + 1;
      }
      found := null;
    }
  }
}
