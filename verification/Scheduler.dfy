/** The deadline scheduler: it polls the clock, starts a cycle when the deadline has
    come, and gives up deadlines that a late cycle can no longer meet. */
module Scheduler {
  const SLACK: int := 10

  // What one turn of the loop reads from the clock: at the top, and after the
  // modules have run if they are run.
  datatype Poll = Poll(start: int, end: int)

  // One cycle: the deadline it served, its clock readings, the deadlines given up
  // after it, and the deadline set for the next one.
  datatype Cycle = Cycle(deadline: int, start: int, end: int, skipped: nat, next: int)

  // The j-th deadline of the grid.
  function Grid(first: int, interval: int, j: nat): int {
    if j == 0 then first else Grid(first, interval, j - 1) + interval
  }

  lemma {:induction false} GridIsProduct(first: int, interval: int, j: nat)
    ensures Grid(first, interval, j) == first + interval * j
  {
    if j > 0 {
      GridIsProduct(first, interval, j - 1);
      assert interval * j == interval * (j - 1) + interval;
    }
  }

  lemma {:induction false} GridSums(first: int, interval: int, i: nat, j: nat)
    ensures Grid(Grid(first, interval, i), interval, j) == Grid(first, interval, i + j)
  {
    if j > 0 {
      GridSums(first, interval, i, j - 1);
    }
  }

  function Skipped(cycles: seq<Cycle>): (n: nat)
    ensures cycles == [] ==> n == 0
  {
    if cycles == [] then 0 else Skipped(cycles[..|cycles| - 1]) + cycles[|cycles| - 1].skipped
  }

  // A cycle starts no earlier than its deadline and leaves at least SLACK until
  // the next one. It gives up deadlines only if it overran the next one by more
  // than the slack allows, and then no more of them than it takes to have twice
  // the slack left.
  ghost predicate Fair(c: Cycle, interval: int) {
    && c.start >= c.deadline
    && c.next == Grid(c.deadline, interval, 1 + c.skipped)
    && c.next >= c.end + SLACK
    && (c.skipped > 0 <==> c.deadline + interval < c.end + SLACK)
    && (c.skipped > 0 ==> c.next - interval < c.end + 2 * SLACK <= c.next)
  }

  // Every deadline of the grid up to the next one was served or given up, once,
  // and in order: the c-th cycle serves the grid point whose number is c plus all
  // that was given up before it.
  ghost predicate Accounted(cycles: seq<Cycle>, first: int, interval: int) {
    cycles == [] || (
      var c := |cycles| - 1;
      && Accounted(cycles[..c], first, interval)
      && Fair(cycles[c], interval)
      && cycles[c].deadline == Grid(first, interval, c + Skipped(cycles[..c])))
  }

  lemma AccountedAppend(cycles: seq<Cycle>, cycle: Cycle, first: int, interval: int)
    requires Accounted(cycles, first, interval) && Fair(cycle, interval)
    requires cycle.deadline == Grid(first, interval, |cycles| + Skipped(cycles))
    ensures Accounted(cycles + [cycle], first, interval)
    ensures Skipped(cycles + [cycle]) == Skipped(cycles) + cycle.skipped
  {
    assert (cycles + [cycle])[..|cycles|] == cycles;
  }

  // The deadline that is waited for after the given cycles.
  function Awaited(cycles: seq<Cycle>, first: int): int {
    if cycles == [] then first else cycles[|cycles| - 1].next
  }

  // A cycle is run at every poll that finds the awaited deadline reached, and at
  // no other poll.
  ghost predicate Follows(cycles: seq<Cycle>, polls: seq<Poll>, first: int) {
    if polls == [] then cycles == []
    else
      var p, rest := polls[|polls| - 1], polls[..|polls| - 1];
      || (cycles != [] && Served(cycles[|cycles| - 1], p, Awaited(cycles[..|cycles| - 1], first))
          && p.start >= Awaited(cycles[..|cycles| - 1], first)
          && Follows(cycles[..|cycles| - 1], rest, first))
      || (p.start < Awaited(cycles, first) && Follows(cycles, rest, first))
  }

  ghost predicate Served(c: Cycle, p: Poll, deadline: int) {
    c.deadline == deadline && c.start == p.start && c.end == p.end
  }

  // The deadline and the clock readings determine the rest of a fair cycle.
  lemma FairIsUnique(c: Cycle, d: Cycle, interval: int)
    requires interval > 0 && Fair(c, interval) && Fair(d, interval)
    requires c.deadline == d.deadline && c.start == d.start && c.end == d.end
    ensures c == d
  {
    if c.skipped < d.skipped {
      GridIncreases(c.deadline, interval, 1 + c.skipped, 1 + d.skipped);
    } else if d.skipped < c.skipped {
      GridIncreases(c.deadline, interval, 1 + d.skipped, 1 + c.skipped);
    }
  }

  // The polls determine the whole run.
  lemma {:induction false} RunIsDetermined(a: seq<Cycle>, b: seq<Cycle>, polls: seq<Poll>, first: int, interval: int)
    requires interval > 0 && Accounted(a, first, interval) && Accounted(b, first, interval)
    requires Follows(a, polls, first) && Follows(b, polls, first)
    ensures a == b
    decreases polls
  {
    if polls != [] {
      var p, rest := polls[|polls| - 1], polls[..|polls| - 1];
      var a0 := if p.start < Awaited(a, first) && Follows(a, rest, first) then a else a[..|a| - 1];
      var b0 := if p.start < Awaited(b, first) && Follows(b, rest, first) then b else b[..|b| - 1];
      RunIsDetermined(a0, b0, rest, first, interval);
      if a0 != a && b0 != b {
        FairIsUnique(a[|a| - 1], b[|b| - 1], interval);
        assert a == a0 + [a[|a| - 1]] && b == b0 + [b[|b| - 1]];
      }
    }
  }

  lemma {:induction false} GridIncreases(first: int, interval: int, i: nat, j: nat)
    requires interval > 0 && i < j
    ensures Grid(first, interval, i) + interval <= Grid(first, interval, j)
    decreases j
  {
    if i + 1 < j {
      GridIncreases(first, interval, i, j - 1);
    }
  }

  // What the i-th poll did, when `done` counts the cycles run before each poll.
  ghost predicate Did(cycles: seq<Cycle>, p: Poll, first: int, before: nat, after: nat) {
    && before <= after <= |cycles|
    && var deadline := if before == 0 then first else cycles[before - 1].next;
       if p.start >= deadline then
         after == before + 1 && Served(cycles[before], p, deadline)
       else after == before
  }

  ghost predicate Polled(cycles: seq<Cycle>, polls: seq<Poll>, first: int, done: seq<nat>) {
    && |done| == |polls| + 1 && done[0] == 0 && done[|polls|] == |cycles|
    && forall i :: 0 <= i < |polls| ==> Did(cycles, polls[i], first, done[i], done[i + 1])
  }

  lemma DidStill(cycles: seq<Cycle>, cycle: Cycle, p: Poll, first: int, before: nat, after: nat)
    requires Did(cycles, p, first, before, after)
    ensures Did(cycles + [cycle], p, first, before, after)
  {}

  lemma PolledServed(cycles: seq<Cycle>, polls: seq<Poll>, first: int, done: seq<nat>, cycle: Cycle, poll: Poll)
    requires Polled(cycles, polls, first, done) && poll.start >= Awaited(cycles, first)
    requires Served(cycle, poll, Awaited(cycles, first))
    ensures Polled(cycles + [cycle], polls + [poll], first, done + [|cycles| + 1])
  {
    var polls', done' := polls + [poll], done + [|cycles| + 1];
    forall i | 0 <= i < |polls'|
      ensures Did(cycles + [cycle], polls'[i], first, done'[i], done'[i + 1])
    {
      if i < |polls| {
        assert Did(cycles, polls[i], first, done[i], done[i + 1]);
        DidStill(cycles, cycle, polls[i], first, done[i], done[i + 1]);
      }
    }
  }

  lemma PolledPassed(cycles: seq<Cycle>, polls: seq<Poll>, first: int, done: seq<nat>, poll: Poll)
    requires Polled(cycles, polls, first, done) && poll.start < Awaited(cycles, first)
    ensures Polled(cycles, polls + [poll], first, done + [|cycles|])
  {
    var polls', done' := polls + [poll], done + [|cycles|];
    forall i | 0 <= i < |polls'|
      ensures Did(cycles, polls'[i], first, done'[i], done'[i + 1])
    {
      if i < |polls| {
        assert Did(cycles, polls[i], first, done[i], done[i + 1]);
      }
    }
  }

  // The loop that gives deadlines up, from the time to spare before the next one.
  method Skip(interval: int, deadline: int, margin: int) returns (next: int, skipped: nat)
    requires interval > 0
    ensures next == Grid(deadline, interval, skipped)
    ensures margin + (next - deadline) >= SLACK
    ensures margin < SLACK ==> margin + (next - deadline) - interval < SLACK
    ensures skipped > 0 <==> margin < SLACK
  {
    next, skipped := deadline, 0;
    var spare := margin;
    while spare < SLACK
      invariant next == Grid(deadline, interval, skipped) && spare == margin + (next - deadline)
      invariant skipped == 0 ==> next == deadline
      invariant skipped > 0 ==> margin < SLACK && spare - interval < SLACK
      decreases SLACK - spare
    {
      next := next + interval;
      spare := spare + interval;
      skipped := skipped + 1;
    }
  }

  method RunCycle(interval: int, deadline: int, poll: Poll) returns (cycle: Cycle)
    requires interval > 0 && poll.start >= deadline
    ensures Fair(cycle, interval) && cycle.deadline == deadline && cycle.start == poll.start && cycle.end == poll.end
    ensures cycle.next == Grid(deadline, interval, 1 + cycle.skipped) && cycle.next >= poll.end + 10
    ensures cycle.skipped > 0 <==> deadline + interval < poll.end + 10
    ensures cycle.skipped > 0 ==> cycle.next - interval < poll.end + 20 <= cycle.next
  {
    var next := deadline + interval;
    var skipped := 0;
    var spare := next - (poll.end + SLACK);
    assert Grid(deadline, interval, 1) == Grid(deadline, interval, 0) + interval;
    if spare < 0 {
      next, skipped := Skip(interval, next, spare);
      GridSums(deadline, interval, 1, skipped);
    }
    cycle := Cycle(deadline, poll.start, poll.end, skipped, next);
  }

  // The loop runs until the program is told to stop, here after the given polls. It
  // runs a cycle at exactly the polls that find the awaited deadline reached: `done`
  // counts the cycles run before each poll, and at the end.
  method RunDeadline(interval: int, now: int, polls: seq<Poll>)
    returns (cycles: seq<Cycle>, nextDeadline: int, skipped: nat, ghost done: seq<nat>)
    requires interval > 0
    ensures Accounted(cycles, now + interval, interval)
    ensures Follows(cycles, polls, now + interval)
    ensures skipped == Skipped(cycles)
    ensures nextDeadline == now + interval + interval * (|cycles| + skipped)
    ensures |done| == |polls| + 1 && done[0] == 0 && done[|polls|] == |cycles|
    ensures forall i {:trigger polls[i]} :: 0 <= i < |polls| ==>
              && done[i] <= done[i + 1] <= |cycles|
              && var deadline := if done[i] == 0 then now + interval else cycles[done[i] - 1].next;
                 if polls[i].start < deadline then done[i + 1] == done[i]
                 else done[i + 1] == done[i] + 1
                      && cycles[done[i]].deadline == deadline
                      && cycles[done[i]].start == polls[i].start && cycles[done[i]].end == polls[i].end
    ensures forall c :: 0 <= c < |cycles| - 1 ==> cycles[c + 1].start >= cycles[c].end + 10
  {
    cycles, nextDeadline, skipped, done := RunPolls(interval, now + interval, polls);
    GridIsProduct(now + interval, interval, |cycles| + skipped);
    forall i | 0 <= i < |polls|
      ensures Did(cycles, polls[i], now + interval, done[i], done[i + 1])
    {
    }
  }

  ghost predicate RunSoFar(cycles: seq<Cycle>, polls: seq<Poll>, first: int, interval: int,
                           nextDeadline: int, skipped: nat, done: seq<nat>)
  {
    && Accounted(cycles, first, interval) && Follows(cycles, polls, first) && Polled(cycles, polls, first, done)
    && skipped == Skipped(cycles) && nextDeadline == Awaited(cycles, first)
    && nextDeadline == Grid(first, interval, |cycles| + skipped)
    && Spaced(cycles)
  }

  ghost predicate Spaced(cycles: seq<Cycle>) {
    forall c :: 0 <= c < |cycles| - 1 ==> cycles[c + 1].start >= cycles[c].end + SLACK
  }

  lemma SpacedNext(cycles: seq<Cycle>, cycle: Cycle, first: int, interval: int)
    requires Spaced(cycles) && Accounted(cycles, first, interval) && cycle.start >= Awaited(cycles, first)
    ensures Spaced(cycles + [cycle])
  {}

  lemma CycleRun(cycles: seq<Cycle>, polls: seq<Poll>, first: int, interval: int,
                 nextDeadline: int, skipped: nat, done: seq<nat>, cycle: Cycle, poll: Poll)
    requires RunSoFar(cycles, polls, first, interval, nextDeadline, skipped, done)
    requires poll.start >= nextDeadline && Fair(cycle, interval) && Served(cycle, poll, nextDeadline)
    ensures RunSoFar(cycles + [cycle], polls + [poll], first, interval, cycle.next, skipped + cycle.skipped,
                     done + [|cycles| + 1])
  {
    AccountedAppend(cycles, cycle, first, interval);
    GridSums(first, interval, |cycles| + skipped, 1 + cycle.skipped);
    PolledServed(cycles, polls, first, done, cycle, poll);
    SpacedNext(cycles, cycle, first, interval);
    FollowsServed(cycles, polls, first, cycle, poll);
  }

  lemma FollowsServed(cycles: seq<Cycle>, polls: seq<Poll>, first: int, cycle: Cycle, poll: Poll)
    requires Follows(cycles, polls, first) && poll.start >= Awaited(cycles, first)
    requires Served(cycle, poll, Awaited(cycles, first))
    ensures Follows(cycles + [cycle], polls + [poll], first)
  {
    assert (cycles + [cycle])[..|cycles|] == cycles && (polls + [poll])[..|polls|] == polls;
  }

  lemma PollPassed(cycles: seq<Cycle>, polls: seq<Poll>, first: int, interval: int,
                   nextDeadline: int, skipped: nat, done: seq<nat>, poll: Poll)
    requires RunSoFar(cycles, polls, first, interval, nextDeadline, skipped, done) && poll.start < nextDeadline
    ensures RunSoFar(cycles, polls + [poll], first, interval, nextDeadline, skipped, done + [|cycles|])
  {
    assert (polls + [poll])[..|polls|] == polls;
    PolledPassed(cycles, polls, first, done, poll);
  }

  method RunPolls(interval: int, first: int, polls: seq<Poll>)
    returns (cycles: seq<Cycle>, nextDeadline: int, skipped: nat, ghost done: seq<nat>)
    requires interval > 0
    ensures RunSoFar(cycles, polls, first, interval, nextDeadline, skipped, done)
  {
    nextDeadline, cycles, skipped, done := first, [], 0, [0];
    for i := 0 to |polls|
      invariant RunSoFar(cycles, polls[..i], first, interval, nextDeadline, skipped, done)
    {
      assert polls[..i] + [polls[i]] == polls[..i + 1];
      if polls[i].start >= nextDeadline {
        var cycle := RunCycle(interval, nextDeadline, polls[i]);
        CycleRun(cycles, polls[..i], first, interval, nextDeadline, skipped, done, cycle, polls[i]);
        done := done + [|cycles| + 1];
        cycles := cycles + [cycle];
        nextDeadline := cycle.next;
        skipped := skipped + cycle.skipped;
      } else {
        PollPassed(cycles, polls[..i], first, interval, nextDeadline, skipped, done, polls[i]);
        done := done + [|cycles|];
      }
    }
    assert polls[..|polls|] == polls;
  }
}
