/** What several components use. */
module Prelude {
  datatype Option<+T> = None | Some(value: T)

  function Pow2(k: nat): (r: nat)
    ensures r >= 1
  {
    if k == 0 then 1 else 2 * Pow2(k - 1)
  }

  // The memory m with b stored at o.
  function Put<T>(m: seq<T>, o: nat, b: seq<T>): (r: seq<T>)
    requires o + |b| <= |m|
    ensures |r| == |m|
  {
    m[..o] + b + m[o + |b|..]
  }

  lemma PutTwice<T>(m: seq<T>, o: nat, a: seq<T>, b: seq<T>)
    requires o + |a| + |b| <= |m|
    ensures Put(Put(m, o, a), o + |a|, b) == Put(m, o, a + b)
  {
    var m1 := Put(m, o, a);
    assert m1[..o + |a|] == m[..o] + a;
    assert m1[o + |a| + |b|..] == m[o + |a| + |b|..];
  }

  lemma PutParts<T>(m: seq<T>, o: nat, b: seq<T>)
    requires o + |b| <= |m|
    ensures var r := Put(m, o, b);
            r[..o] == m[..o] && r[o..o + |b|] == b && r[o + |b|..] == m[o + |b|..]
  {}

  lemma PutSnoc<T>(m: seq<T>, o: nat, b: seq<T>, x: T)
    requires o + |b| + 1 <= |m|
    ensures Put(m, o, b)[o + |b| := x] == Put(m, o, b + [x])
  {
    var r, t := Put(m, o, b)[o + |b| := x], Put(m, o, b + [x]);
    forall i | 0 <= i < |m|
      ensures r[i] == t[i]
    {
    }
  }

  lemma PrefixSplit<T>(a: seq<T>, b: seq<T>, m: seq<T>)
    requires a + b <= m
    ensures a <= m && b <= m[|a|..]
  {
    assert m[..|a + b|] == a + b;
    assert m[|a|..][..|b|] == m[..|a + b|][|a|..];
  }
}
