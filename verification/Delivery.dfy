/** The pool and the samples together: what a session is handed is what was recorded. */
module Delivery {
  import opened Prelude
  import P = PoolProtocol
  import S = Sample

  // In every reachable state but the overrun one, the buffer that the reader of a
  // session has been handed is the next of the session's batches, holds the words
  // that the writer last left at its index, and a walk over it recovers the samples
  // that were recorded there. The walk may end at the end of the range, if the
  // batch fills it, or at the end of the batch.
  lemma HandedBatchRecovered(size: nat, schedule: seq<P.Action>, rs: seq<S.Record>, m: seq<S.Word>, end: nat)
    requires P.ValidSize(size)
    requires var s := P.Run(P.Init(size), schedule);
             && P.InSession(s) && s.polled && s.cur.Some? && s.windex != s.rindex + size + 1
             && s.rindex + 1 < |s.left| && s.left[s.rindex + 1] == m
    requires (forall r | r in rs :: r.Recordable()) && S.EncodeAll(rs) <= m && S.Readable(rs, |m|)
    requires S.StartsBelow(rs, end) && end <= |S.EncodeAll(rs)|
    ensures var s := P.Run(P.Init(size), schedule);
            && |s.read| > 0 && s.read[|s.read| - 1] == s.rindex + 1
            && s.cur.value < |s.slots| && s.slots[s.cur.value] == m
    ensures S.Walkable(m, 0, end) && S.WalkFrom(m, 0, end) == rs
  {
    P.ReadsAreFifo(size, schedule);
    assert m[0..] == m;
    S.WalkRecovers(rs, m, 0, end);
  }
}
