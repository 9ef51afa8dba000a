/** The variable-length samples that probes write into a buffer: two flag bits in
    the time stamp say which parts follow, the counter part carries its own length,
    and next() finds the following sample from that. Memory is a sequence of 64-bit
    words. */
module Sample {
  import opened Prelude
  import opened PoolIndex
  import S = SamplesBuffer

  const FLAG_DATA: nat := 0x4000_0000_0000_0000
  const FLAG_PMC: nat := 0x8000_0000_0000_0000
  const MAX_PMC_COUNT: nat := 11

  // Words of a sample's header, and the most words that its accessors look at.
  const HEADER_WORDS: nat := S.SAMPLE_BYTES / 8
  const MAX_WORDS: nat := S.MAX_SAMPLE_BYTES / 8
  const MAX_READ: nat := HEADER_WORDS + 2 + 1 + 15

  type Word = w: nat | w < WORD

  datatype Record = Record(tsc: Word, returnSite: Word, data: Option<(Word, Word)>, pmc: Option<seq<Word>>) {
    // What the constructors rely on: a time stamp without flag bits, and no more
    // counters than the hardware has.
    ghost predicate Recordable() {
      tsc < FLAG_DATA && (pmc.Some? ==> |pmc.value| <= MAX_PMC_COUNT)
    }
  }

  // ---- flag bits of a 64-bit word ----

  predicate HasData(tsc: Word) {
    tsc / FLAG_DATA % 2 == 1
  }

  predicate HasPmc(tsc: Word) {
    tsc / FLAG_PMC % 2 == 1
  }

  function WithData(tsc: Word): (w: Word)
    ensures HasData(w) && HasPmc(w) == HasPmc(tsc) && w % FLAG_DATA == tsc % FLAG_DATA
  {
    if HasData(tsc) then tsc else tsc + FLAG_DATA
  }

  function WithPmc(tsc: Word): (w: Word)
    ensures HasPmc(w) && HasData(w) == HasData(tsc) && w % FLAG_DATA == tsc % FLAG_DATA
  {
    if HasPmc(tsc) then tsc else tsc + FLAG_PMC
  }

  // ---- what the constructors write ----

  function TscWord(r: Record): (w: Word)
    ensures w % FLAG_DATA == r.tsc % FLAG_DATA
    ensures HasData(w) <==> r.data.Some? || HasData(r.tsc)
    ensures HasPmc(w) <==> r.pmc.Some? || HasPmc(r.tsc)
  {
    var w := if r.pmc.Some? then WithPmc(r.tsc) else r.tsc;
    if r.data.Some? then WithData(w) else w
  }

  function DataWords(r: Record): seq<Word> {
    if r.data.Some? then [r.data.value.0, r.data.value.1] else []
  }

  function PmcWords(r: Record): seq<Word> {
    if r.pmc.Some? then [|r.pmc.value| % WORD] + r.pmc.value else []
  }

  function Encode(r: Record): (e: seq<Word>)
    ensures |e| >= HEADER_WORDS
  {
    [TscWord(r), r.returnSite] + DataWords(r) + PmcWords(r)
  }

  // The words of a sample: the time stamp with bit 62 for data and bit 63 for
  // counters, the return site, the two data words, the number of counters, and they.
  lemma EncodedLayout(r: Record)
    ensures var e, d := Encode(r), if r.data.Some? then 2 else 0;
            && |e| == 2 + d + (if r.pmc.Some? then 1 + |r.pmc.value| else 0)
            && (r.tsc < 0x4000_0000_0000_0000 ==>
                  e[0] == r.tsc + (if r.data.Some? then 0x4000_0000_0000_0000 else 0)
                          + (if r.pmc.Some? then 0x8000_0000_0000_0000 else 0))
            && e[1] == r.returnSite
            && (r.data.Some? ==> (e[2], e[3]) == r.data.value)
            && (r.pmc.Some? && |r.pmc.value| <= 11 ==> e[2 + d] == |r.pmc.value| && e[3 + d..] == r.pmc.value)
  {}

  // ---- the accessors, on the words from a sample's start ----

  function DataLength(m: seq<Word>): nat
    requires |m| >= MAX_READ
  {
    if HasData(m[0]) then 2 else 0
  }

  function PmcCount(m: seq<Word>): (n: nat)
    requires |m| >= MAX_READ
    ensures n <= 15
  {
    m[HEADER_WORDS + DataLength(m)] % 16
  }

  function SizeWords(m: seq<Word>): (n: nat)
    requires |m| >= MAX_READ
    ensures HEADER_WORDS <= n <= MAX_READ
  {
    HEADER_WORDS + DataLength(m) + if HasPmc(m[0]) then 1 + PmcCount(m) else 0
  }

  function Decode(m: seq<Word>): Record
    requires |m| >= MAX_READ
  {
    var d := HEADER_WORDS + DataLength(m);
    Record(m[0] % FLAG_DATA, m[1],
           if HasData(m[0]) then Some((m[2], m[3])) else None,
           if HasPmc(m[0]) then Some(m[d + 1..d + 1 + PmcCount(m)]) else None)
  }

  // ---- one sample ----

  lemma HighBits(tsc: Word)
    ensures tsc < FLAG_DATA <==> !HasData(tsc) && !HasPmc(tsc)
    ensures tsc < FLAG_DATA <==> tsc % FLAG_DATA == tsc
  {}

  lemma EncodedWords(r: Record, m: seq<Word>)
    requires r.tsc < FLAG_DATA && |m| >= MAX_READ && Encode(r) <= m
    ensures HasData(m[0]) == r.data.Some? && HasPmc(m[0]) == r.pmc.Some?
    ensures m[0] % FLAG_DATA == r.tsc && m[1] == r.returnSite
    ensures r.data.Some? ==> (m[2], m[3]) == r.data.value
    ensures r.pmc.Some? ==> m[HEADER_WORDS + DataLength(m)] == |r.pmc.value| % WORD
    ensures |Encode(r)| == HEADER_WORDS + DataLength(m) + |PmcWords(r)|
  {
    HighBits(r.tsc);
    var e := Encode(r);
    assert e[0] == TscWord(r) && e[1] == r.returnSite;
    assert forall i :: 0 <= i < |e| ==> m[i] == e[i];
    if r.data.Some? {
      assert e[2] == r.data.value.0 && e[3] == r.data.value.1;
    }
    if r.pmc.Some? {
      assert e[2 + |DataWords(r)|] == PmcWords(r)[0];
    }
  }

  lemma EncodedCounters(r: Record, m: seq<Word>)
    requires r.tsc < FLAG_DATA && |m| >= MAX_READ && Encode(r) <= m
    requires r.pmc.Some? && |r.pmc.value| < 16
    ensures var d := HEADER_WORDS + DataLength(m);
            d + 1 + PmcCount(m) == |Encode(r)| && m[d + 1..d + 1 + PmcCount(m)] == r.pmc.value
  {
    EncodedWords(r, m);
    var e, d := Encode(r), HEADER_WORDS + DataLength(m);
    assert m[d + 1..|e|] == e[d + 1..];
    assert e[d + 1..] == PmcWords(r)[1..];
  }

  // Reading back a constructed sample gives what was written exactly when the
  // time stamp has no flag bits and the counters fit the four bits of their count.
  lemma RoundTripIff(r: Record, m: seq<Word>)
    requires |m| >= MAX_READ && Encode(r) <= m
    ensures Decode(m) == r <==> r.tsc < FLAG_DATA && (r.pmc.Some? ==> |r.pmc.value| < 16)
    ensures Decode(m) == r ==> SizeWords(m) == |Encode(r)|
  {
    if r.tsc < FLAG_DATA && (r.pmc.Some? ==> |r.pmc.value| < 16) {
      EncodedWords(r, m);
      if r.pmc.Some? {
        EncodedCounters(r, m);
      }
    } else if r.tsc >= FLAG_DATA {
      assert Decode(m).tsc < FLAG_DATA;
    } else {
      assert Decode(m).pmc.Some? ==> |Decode(m).pmc.value| <= 15;
    }
  }

  lemma RecordableFits(r: Record)
    requires r.Recordable()
    ensures |Encode(r)| <= MAX_WORDS
  {}

  // ---- a run of samples ----

  function EncodeAll(rs: seq<Record>): seq<Word> {
    if rs == [] then [] else Encode(rs[0]) + EncodeAll(rs[1..])
  }

  lemma {:induction false} EncodeAllAppend(rs: seq<Record>, r: Record)
    ensures EncodeAll(rs + [r]) == EncodeAll(rs) + Encode(r)
  {
    if rs == [] {
      assert [r][1..] == [];
    } else {
      assert (rs + [r])[1..] == rs[1..] + [r];
      EncodeAllAppend(rs[1..], r);
    }
  }

  // Words of a buffer of the pool, and of the range in which samples may start.
  const BUFFER_WORDS: nat := S.BUFFER_SIZE * HEADER_WORDS
  const RANGE_WORDS: nat := S.BUFFER_GUARD_OFFSET * HEADER_WORDS

  // A sample that starts inside the writable range stays inside its buffer, and so
  // does everything its accessors look at, whatever they find there; so would
  // four samples of the largest size.
  lemma GuardSuffices(p: nat)
    requires p < RANGE_WORDS
    ensures p + MAX_READ <= BUFFER_WORDS && p + 4 * MAX_WORDS <= BUFFER_WORDS
  {}

  // Every sample of a run that starts at word 0 leaves the accessors room to read.
  ghost predicate Readable(rs: seq<Record>, words: int)
    decreases rs
  {
    rs == [] || (MAX_READ <= words && Readable(rs[1..], words - |Encode(rs[0])|))
  }

  lemma {:induction false} ReadableAppend(rs: seq<Record>, r: Record, words: int)
    requires Readable(rs, words) && |EncodeAll(rs)| + MAX_READ <= words
    ensures Readable(rs + [r], words)
    decreases rs
  {
    if rs != [] {
      assert (rs + [r])[1..] == rs[1..] + [r];
      ReadableAppend(rs[1..], r, words - |Encode(rs[0])|);
    }
  }

  // Every sample of a run that starts at word 0 starts below `room`.
  ghost predicate StartsBelow(rs: seq<Record>, room: int)
    decreases rs
  {
    rs == [] || (room > 0 && StartsBelow(rs[1..], room - |Encode(rs[0])|))
  }

  lemma {:induction false} StartsBelowAppend(rs: seq<Record>, r: Record, room: int)
    requires StartsBelow(rs, room) && |EncodeAll(rs)| < room
    ensures StartsBelow(rs + [r], room)
    decreases rs
  {
    if rs != [] {
      assert (rs + [r])[1..] == rs[1..] + [r];
      StartsBelowAppend(rs[1..], r, room - |Encode(rs[0])|);
    }
  }

  lemma {:induction false} StartsBelowEnd(rs: seq<Record>)
    ensures StartsBelow(rs, |EncodeAll(rs)|)
  {
    if rs != [] {
      StartsBelowEnd(rs[1..]);
    }
  }

  // The constructors: header, user data, number of counters, counters.
  method Construct(mem: array<Word>, at: nat, r: Record) returns (end: nat)
    requires at + |Encode(r)| <= mem.Length
    modifies mem
    ensures end == at + |Encode(r)| && mem[..] == Put(old(mem[..]), at, Encode(r))
  {
    ghost var m := mem[..];
    ghost var head := [TscWord(r), r.returnSite] + DataWords(r);
    end := ConstructHead(mem, at, r);
    if r.pmc.Some? {
      end := CopyPmc(mem, end, r.pmc.value);
      PutTwice(m, at, head, PmcWords(r));
    }
    assert Encode(r) == head + PmcWords(r);
  }

  // What the constructors without counters write.
  method ConstructHead(mem: array<Word>, at: nat, r: Record) returns (end: nat)
    requires at + 2 + |DataWords(r)| <= mem.Length
    modifies mem
    ensures end == at + 2 + |DataWords(r)|
    ensures mem[..] == Put(old(mem[..]), at, [TscWord(r), r.returnSite] + DataWords(r))
  {
    mem[at] := TscWord(r);
    mem[at + 1] := r.returnSite;
    end := at + 2;
    if r.data.Some? {
      mem[end] := r.data.value.0;
      mem[end + 1] := r.data.value.1;
      end := end + 2;
    }
  }

  method CopyPmc(mem: array<Word>, at: nat, pmc: seq<Word>) returns (end: nat)
    requires at + 1 + |pmc| <= mem.Length
    modifies mem
    ensures end == at + 1 + |pmc| && mem[..] == Put(old(mem[..]), at, [|pmc| % WORD] + pmc)
  {
    ghost var m, written: seq<Word> := mem[..], [|pmc| % WORD];
    mem[at] := |pmc| % WORD;
    var k := 0;
    while k < |pmc|
      invariant 0 <= k <= |pmc|
      invariant written == [|pmc| % WORD] + pmc[..k] && mem[..] == Put(m, at, written)
    {
      PutSnoc(m, at, written, pmc[k]);
      ghost var before := mem[..];
      mem[at + 1 + k] := pmc[k];
      assert mem[..] == before[at + |written| := pmc[k]];
      written := written + [pmc[k]];
      k := k + 1;
    }
    end := at + 1 + k;
  }

  // The writer's side: one sample after the other from `begin` for as long as the
  // next one starts inside the range.
  method WriteBatch(mem: array<Word>, begin: nat, rs: seq<Record>) returns (n: nat, end: nat)
    requires begin + BUFFER_WORDS <= mem.Length
    requires forall r | r in rs :: r.Recordable()
    modifies mem
    ensures begin <= end && Batch(rs, n, end - begin)
    ensures mem[..] == Put(old(mem[..]), begin, EncodeAll(rs[..n]))
    ensures n < |rs| ==> end >= begin + RANGE_WORDS
  {
    ghost var m := mem[..];
    n, end := 0, begin;
    while n < |rs| && end < begin + RANGE_WORDS
      invariant begin <= end && Batch(rs, n, end - begin)
      invariant mem[..] == Put(m, begin, EncodeAll(rs[..n]))
      decreases |rs| - n
    {
      end := RecordNext(mem, begin, rs, n, end, m);
      n := n + 1;
    }
  }

  method RecordNext(mem: array<Word>, begin: nat, rs: seq<Record>, n: nat, at: nat, ghost m: seq<Word>)
    returns (end: nat)
    requires begin + BUFFER_WORDS <= mem.Length == |m| && begin <= at < begin + RANGE_WORDS
    requires n < |rs| && rs[n].Recordable() && Batch(rs, n, at - begin)
    requires mem[..] == Put(m, begin, EncodeAll(rs[..n]))
    modifies mem
    ensures begin <= end && Batch(rs, n + 1, end - begin)
    ensures mem[..] == Put(m, begin, EncodeAll(rs[..n + 1]))
  {
    BatchGrows(rs, n, at - begin);
    PutTwice(m, begin, EncodeAll(rs[..n]), Encode(rs[n]));
    ghost var batch := EncodeAll(rs[..n + 1]);
    end := Construct(mem, at, rs[n]);
    assert mem[..] == Put(m, begin, batch);
  }

  // The first n samples take the given number of words of a buffer, and each of
  // them starts inside its range.
  ghost predicate Batch(rs: seq<Record>, n: nat, words: nat) {
    && n <= |rs| && words == |EncodeAll(rs[..n])| <= BUFFER_WORDS
    && Readable(rs[..n], BUFFER_WORDS) && StartsBelow(rs[..n], RANGE_WORDS)
  }

  lemma BatchGrows(rs: seq<Record>, n: nat, words: nat)
    requires n < |rs| && rs[n].Recordable() && Batch(rs, n, words) && words < RANGE_WORDS
    ensures EncodeAll(rs[..n + 1]) == EncodeAll(rs[..n]) + Encode(rs[n])
    ensures Batch(rs, n + 1, words + |Encode(rs[n])|)
  {
    GuardSuffices(|EncodeAll(rs[..n])|);
    RecordableFits(rs[n]);
    assert rs[..n + 1] == rs[..n] + [rs[n]];
    EncodeAllAppend(rs[..n], rs[n]);
    ReadableAppend(rs[..n], rs[n], BUFFER_WORDS);
    StartsBelowAppend(rs[..n], rs[n], RANGE_WORDS);
  }

  // ---- the walk ----

  // Every sample that a walk from p to end meets can be read in full.
  ghost predicate Walkable(m: seq<Word>, p: nat, end: nat)
    decreases end - p
  {
    p >= end || (p + MAX_READ <= |m| && Walkable(m, p + SizeWords(m[p..]), end))
  }

  function WalkFrom(m: seq<Word>, p: nat, end: nat): seq<Record>
    requires Walkable(m, p, end)
    decreases end - p
  {
    if p >= end then [] else [Decode(m[p..])] + WalkFrom(m, p + SizeWords(m[p..]), end)
  }

  // The reader's side: next() from `begin` until `end`.
  method Walk(mem: array<Word>, begin: nat, end: nat) returns (rs: seq<Record>)
    requires Walkable(mem[..], begin, end)
    ensures rs == WalkFrom(mem[..], begin, end)
  {
    rs := [];
    var p := begin;
    ghost var m := mem[..];
    while p < end
      invariant Walkable(m, p, end) && WalkFrom(m, begin, end) == rs + WalkFrom(m, p, end)
      decreases end - p
    {
      assert mem[p..] == m[p..];
      assert WalkFrom(m, p, end) == [Decode(m[p..])] + WalkFrom(m, p + SizeWords(m[p..]), end);
      rs := rs + [Decode(mem[p..])];
      p := p + SizeWords(mem[p..]);
    }
  }

  lemma EncodeAllFirst(rs: seq<Record>, m: seq<Word>)
    requires rs != [] && EncodeAll(rs) <= m
    ensures var e := Encode(rs[0]);
            e <= m && EncodeAll(rs[1..]) <= m[|e|..] && |EncodeAll(rs)| == |e| + |EncodeAll(rs[1..])|
  {
    PrefixSplit(Encode(rs[0]), EncodeAll(rs[1..]), m);
  }

  lemma Recovered(r: Record, m: seq<Word>)
    requires r.Recordable() && |m| >= MAX_READ && Encode(r) <= m
    ensures Decode(m) == r && SizeWords(m) == |Encode(r)|
  {
    RoundTripIff(r, m);
  }

  // The first sample of a run is found at its start, the others right behind it.
  lemma WalkFirst(rs: seq<Record>, m: seq<Word>, p: nat, q: nat)
    requires rs != [] && rs[0].Recordable() && p + MAX_READ <= |m| && EncodeAll(rs) <= m[p..]
    requires q == p + |Encode(rs[0])|
    ensures Decode(m[p..]) == rs[0] && p + SizeWords(m[p..]) == q <= |m|
    ensures EncodeAll(rs[1..]) <= m[q..] && |EncodeAll(rs)| == q - p + |EncodeAll(rs[1..])|
  {
    EncodeAllFirst(rs, m[p..]);
    Recovered(rs[0], m[p..]);
    assert m[q..] == m[p..][q - p..];
  }

  lemma WalkOn(m: seq<Word>, p: nat, q: nat, end: nat, first: Record, rest: seq<Record>)
    requires p < end && p + MAX_READ <= |m| && Decode(m[p..]) == first && q == p + SizeWords(m[p..])
    requires Walkable(m, q, end) && WalkFrom(m, q, end) == rest
    ensures Walkable(m, p, end) && WalkFrom(m, p, end) == [first] + rest
  {
    WalkableOn(m, p, q, end);
    WalkFromOn(m, p, q, end);
  }

  lemma WalkFromOn(m: seq<Word>, p: nat, q: nat, end: nat)
    requires p < end && p + MAX_READ <= |m| && q == p + SizeWords(m[p..])
    requires Walkable(m, p, end) && Walkable(m, q, end)
    ensures WalkFrom(m, p, end) == [Decode(m[p..])] + WalkFrom(m, q, end)
  {}

  lemma WalkableOn(m: seq<Word>, p: nat, q: nat, end: nat)
    requires p < end && p + MAX_READ <= |m| && q == p + SizeWords(m[p..]) && Walkable(m, q, end)
    ensures Walkable(m, p, end)
  {}

  // Walking over a run of constructed samples recovers exactly the samples, to any
  // end that lies behind the start of the last sample and not behind the run.
  lemma {:induction false} WalkRecovers(rs: seq<Record>, m: seq<Word>, p: nat, end: nat)
    requires p <= |m| && end <= p + |EncodeAll(rs)| && StartsBelow(rs, end - p)
    requires forall r | r in rs :: r.Recordable()
    requires EncodeAll(rs) <= m[p..] && Readable(rs, |m| - p)
    ensures Walkable(m, p, end) && WalkFrom(m, p, end) == rs
    decreases rs
  {
    if rs != [] {
      assert rs[0] in rs;
      var q := p + |Encode(rs[0])|;
      WalkFirst(rs, m, p, q);
      WalkRecovers(rs[1..], m, q, end);
      WalkOn(m, p, q, end, rs[0], rs[1..]);
      assert rs == [rs[0]] + rs[1..];
    }
  }

  // A batch comes back from its buffer as it was written, by a walk to the end of
  // the range if the batch fills it, and no word outside the buffer is written.
  method WriteThenWalk(mem: array<Word>, begin: nat, rs: seq<Record>) returns (n: nat, back: seq<Record>)
    requires begin + BUFFER_WORDS <= mem.Length
    requires forall r | r in rs :: r.Recordable()
    modifies mem
    ensures n <= |rs| && back == rs[..n] && |EncodeAll(rs[..n])| <= BUFFER_WORDS
    ensures n < |rs| ==> |EncodeAll(rs[..n])| >= RANGE_WORDS
    ensures mem[..] == Put(old(mem[..]), begin, EncodeAll(rs[..n]))
  {
    var end;
    n, end := WriteBatch(mem, begin, rs);
    ghost var m, batch := mem[..], EncodeAll(rs[..n]);
    PutParts(old(mem[..]), begin, batch);
    assert m[begin..][..|batch|] == m[begin..end];
    ReadableMore(rs[..n], BUFFER_WORDS, mem.Length - begin);
    StartsBelowEnd(rs[..n]);
    var stop := if end < begin + RANGE_WORDS then end else begin + RANGE_WORDS;
    WalkRecovers(rs[..n], m, begin, stop);
    back := Walk(mem, begin, stop);
  }

  lemma {:induction false} ReadableMore(rs: seq<Record>, words: int, more: int)
    requires Readable(rs, words) && words <= more
    ensures Readable(rs, more)
    decreases rs
  {
    if rs != [] {
      ReadableMore(rs[1..], words - |Encode(rs[0])|, more - |Encode(rs[0])|);
    }
  }
}
