/** The enumeration of parent-value tuples ("configurations") of a variable.
    Every position ranges over 0 .. M-1, where M is the largest parent domain
    size; a finished tuple is kept unless some entry exceeds its own parent's
    domain size. Position 0 varies fastest. */
module ParentConfigs {

  /** The largest of the sizes, or 0 when there are none. */
  function MaxOf(sizes: seq<nat>): (m: nat)
    ensures forall i :: 0 <= i < |sizes| ==> sizes[i] <= m
    ensures m == 0 || m in sizes
  {
    if sizes == [] then 0
    else
      var m' := MaxOf(sizes[..|sizes| - 1]);
      if sizes[|sizes| - 1] > m' then sizes[|sizes| - 1] else m'
  }

  /** The running maximum over the parent domains, starting from 0. */
  method MaxListLength(sizes: seq<nat>) returns (m: nat)
    ensures m == MaxOf(sizes)
  {
    m := 0;
    for i := 0 to |sizes|
      invariant m == MaxOf(sizes[..i])
    {
      assert sizes[..i + 1][..i] == sizes[..i];
      if sizes[i] > m {
        m := sizes[i];
      }
    }
    assert sizes[..|sizes|] == sizes;
  }

  /** Each tuple of ts with s appended. */
  function Extend(ts: seq<seq<nat>>, s: seq<nat>): (r: seq<seq<nat>>)
    ensures |r| == |ts|
    ensures forall n :: 0 <= n < |ts| ==> r[n] == ts[n] + s
  {
    seq(|ts|, n requires 0 <= n < |ts| => ts[n] + s)
  }

  /** The tuples of ts with last entry 0, then those with last entry 1, ...,
      up to last entry m-1. */
  function Blocks(ts: seq<seq<nat>>, m: nat): seq<seq<nat>> {
    if m == 0 then [] else Blocks(ts, m - 1) + Extend(ts, [m - 1])
  }

  /** Every tuple of length k over 0 .. M-1, in the order the depth-first
      enumeration reaches them: the last position in the outermost loop. */
  function Tuples(k: nat, M: nat): seq<seq<nat>> {
    if k == 0 then [[]] else Blocks(Tuples(k - 1, M), M)
  }

  /** The test a finished tuple must pass: no entry greater than its own
      parent's domain size (an entry equal to it passes). */
  predicate Admissible(sizes: seq<nat>, t: seq<nat>) {
    forall i :: 0 <= i < |t| && i < |sizes| ==> t[i] <= sizes[i]
  }

  function Filter(sizes: seq<nat>, ts: seq<seq<nat>>): seq<seq<nat>> {
    if ts == [] then []
    else Filter(sizes, ts[..|ts| - 1]) + (if Admissible(sizes, ts[|ts| - 1]) then [ts[|ts| - 1]] else [])
  }

  /** The configurations emitted for parents with the given domain sizes. */
  function Configs(sizes: seq<nat>): seq<seq<nat>> {
    Filter(sizes, Tuples(|sizes|, MaxOf(sizes)))
  }

  /** What the enumerator at `depth` emits when the positions from `depth`
      on hold s: for each value 0 .. M-1 of position depth-1 in turn, what
      the level below emits. */
  function Enumerate(sizes: seq<nat>, depth: nat, M: nat, s: seq<nat>): seq<seq<nat>>
    decreases depth, 1
  {
    if depth == 0 then (if Admissible(sizes, s) then [s] else [])
    else EnumerateUpTo(sizes, depth, M, s, M)
  }

  /** The first m values of position depth-1. */
  function EnumerateUpTo(sizes: seq<nat>, depth: nat, M: nat, s: seq<nat>, m: nat): seq<seq<nat>>
    requires depth > 0
    decreases depth, 0, m
  {
    if m == 0 then []
    else EnumerateUpTo(sizes, depth, M, s, m - 1) + Enumerate(sizes, depth - 1, M, [m - 1] + s)
  }

  /** The recursive enumerator. `indices` is shared by all levels; the level
      at `depth` sets position depth-1 to each of 0 .. M-1 in turn and
      recurses, and the level at depth 0 copies the tuple and keeps it when
      it passes the test. The result is what was found before followed by
      the admissible tuples whose positions from `depth` on are those held
      in `indices` on entry. */
  method Configurations(indices: array<nat>, depth: nat, sizes: seq<nat>, found: seq<seq<nat>>)
      returns (configs: seq<seq<nat>>)
    requires indices.Length == |sizes| && depth <= |sizes|
    modifies indices
    ensures configs == found + Enumerate(sizes, depth, MaxOf(sizes), old(indices[depth..]))
    ensures indices[depth..] == old(indices[depth..])
    ensures forall j :: 0 <= j < depth ==>
      indices[j] == if MaxOf(sizes) > 0 then MaxOf(sizes) - 1 else old(indices[j])
    decreases depth
  {
    if depth == 0 {
      configs := KeepIfAdmissible(indices, sizes, found);
      assert indices[..] == indices[0..];
      return;
    }
    var m := MaxListLength(sizes);
    ghost var suffix := indices[depth..];
    configs := found;
    for i := 1 to m + 1
      invariant indices[depth..] == suffix
      invariant configs == found + EnumerateUpTo(sizes, depth, m, suffix, i - 1)
      invariant i == 1 ==> forall j :: 0 <= j < depth ==> indices[j] == old(indices[j])
      invariant i > 1 ==> indices[depth - 1] == i - 2 && forall j :: 0 <= j < depth - 1 ==> indices[j] == m - 1
    {
      indices[depth - 1] := i - 1;
      assert indices[depth - 1..] == [i - 1] + suffix;
      configs := Configurations(indices, depth - 1, sizes, configs);
      assert indices[depth..] == indices[depth - 1..][1..];
    }
  }

  /** The bottom of the recursion: copy the tuple held in `indices` and
      append it when every entry passes its parent's test. */
  method KeepIfAdmissible(indices: array<nat>, sizes: seq<nat>, found: seq<seq<nat>>)
      returns (configs: seq<seq<nat>>)
    requires indices.Length == |sizes|
    ensures configs == found + (if Admissible(sizes, indices[..]) then [indices[..]] else [])
  {
    var values := indices[..];
    var check := true;
    for i := 0 to |sizes|
      invariant check == (forall j :: 0 <= j < i ==> values[j] <= sizes[j])
    {
      if values[i] > sizes[i] {
        check := false;
      }
    }
    configs := found;
    if check {
      configs := configs + [values];
    }
  }

  lemma FilterSingleTuple(sizes: seq<nat>, M: nat, t: seq<nat>)
    ensures Filter(sizes, Extend(Tuples(0, M), t)) == if Admissible(sizes, t) then [t] else []
  {
    var e := Extend(Tuples(0, M), t);
    assert e[0] == [] + t == t;
    assert e == [t];
    assert e[..0] == [];
  }

  /** One more value of the current position adds the admissible tuples of
      that value to those found so far. */
  lemma EnumerationStep(sizes: seq<nat>, ts: seq<seq<nat>>, i: nat, s: seq<nat>)
    requires i >= 1
    ensures Filter(sizes, Extend(Blocks(ts, i), s))
         == Filter(sizes, Extend(Blocks(ts, i - 1), s)) + Filter(sizes, Extend(ts, [i - 1] + s))
  {
    BlocksStep(ts, i, s);
    FilterAppend(sizes, Extend(Blocks(ts, i - 1), s), Extend(ts, [i - 1] + s));
  }

  lemma BlocksStep(ts: seq<seq<nat>>, i: nat, s: seq<nat>)
    requires i >= 1
    ensures Extend(Blocks(ts, i), s) == Extend(Blocks(ts, i - 1), s) + Extend(ts, [i - 1] + s)
  {
    ExtendAppend(Blocks(ts, i - 1), Extend(ts, [i - 1]), s);
    ExtendExtend(ts, [i - 1], s);
  }

  lemma ExtendAppend(a: seq<seq<nat>>, b: seq<seq<nat>>, s: seq<nat>)
    ensures Extend(a + b, s) == Extend(a, s) + Extend(b, s)
  {
  }

  lemma ExtendExtend(ts: seq<seq<nat>>, a: seq<nat>, b: seq<nat>)
    ensures Extend(Extend(ts, a), b) == Extend(ts, a + b)
  {
    forall n | 0 <= n < |ts|
      ensures Extend(Extend(ts, a), b)[n] == Extend(ts, a + b)[n]
    {
      assert ts[n] + a + b == ts[n] + (a + b);
    }
  }

  lemma ExtendNil(ts: seq<seq<nat>>)
    ensures Extend(ts, []) == ts
  {
    forall n | 0 <= n < |ts|
      ensures Extend(ts, [])[n] == ts[n]
    {
      assert ts[n] + [] == ts[n];
    }
  }

  lemma {:induction false} FilterAppend(sizes: seq<nat>, a: seq<seq<nat>>, b: seq<seq<nat>>)
    ensures Filter(sizes, a + b) == Filter(sizes, a) + Filter(sizes, b)
  {
    if b == [] {
      assert a + b == a;
    } else {
      var b' := b[..|b| - 1];
      FilterAppend(sizes, a, b');
      assert (a + b)[..|a + b| - 1] == a + b';
      assert (a + b)[|a + b| - 1] == b[|b| - 1];
    }
  }

  /** The code-shaped enumeration agrees with the declarative one: the
      admissible tuples among all tuples over 0 .. M-1, each followed by s. */
  lemma {:induction false} EnumerateIsFilteredTuples(sizes: seq<nat>, d: nat, M: nat, s: seq<nat>)
    ensures Enumerate(sizes, d, M, s) == Filter(sizes, Extend(Tuples(d, M), s))
    decreases d, 1
  {
    if d == 0 {
      FilterSingleTuple(sizes, M, s);
    } else {
      assert Tuples(d, M) == Blocks(Tuples(d - 1, M), M);
      EnumerateUpToIsFiltered(sizes, d, M, s, M);
    }
  }

  lemma {:induction false} EnumerateUpToIsFiltered(sizes: seq<nat>, d: nat, M: nat, s: seq<nat>, m: nat)
    requires d > 0
    ensures EnumerateUpTo(sizes, d, M, s, m) == Filter(sizes, Extend(Blocks(Tuples(d - 1, M), m), s))
    decreases d, 0, m
  {
    var ts := Tuples(d - 1, M);
    if m == 0 {
      FilterEmptyStart(sizes, ts, s);
    } else {
      EnumerateUpToIsFiltered(sizes, d, M, s, m - 1);
      EnumerateIsFilteredTuples(sizes, d - 1, M, [m - 1] + s);
      EnumerationStep(sizes, ts, m, s);
      EnumerateUpToStep(sizes, d, M, s, m);
    }
  }

  lemma EnumerateUpToStep(sizes: seq<nat>, d: nat, M: nat, s: seq<nat>, m: nat)
    requires d > 0 && m > 0
    ensures EnumerateUpTo(sizes, d, M, s, m)
         == EnumerateUpTo(sizes, d, M, s, m - 1) + Enumerate(sizes, d - 1, M, [m - 1] + s)
  {
  }

  lemma FilterEmptyStart(sizes: seq<nat>, ts: seq<seq<nat>>, s: seq<nat>)
    ensures Filter(sizes, Extend(Blocks(ts, 0), s)) == []
  {
    assert Extend(Blocks(ts, 0), s) == [];
  }

  /** Enumerating from the top with nothing fixed yields the configurations. */
  lemma EnumerateFromTop(sizes: seq<nat>)
    ensures Enumerate(sizes, |sizes|, MaxOf(sizes), []) == Configs(sizes)
  {
    EnumerateIsFilteredTuples(sizes, |sizes|, MaxOf(sizes), []);
    ExtendNil(Tuples(|sizes|, MaxOf(sizes)));
  }

  function Pow(b: nat, k: nat): nat {
    if k == 0 then 1 else b * Pow(b, k - 1)
  }

  /** The number a tuple denotes in base M, position 0 least significant. */
  function Value(t: seq<nat>, M: nat): nat {
    if t == [] then 0 else t[0] + M * Value(t[1..], M)
  }

  lemma {:induction false} BlocksLength(ts: seq<seq<nat>>, m: nat)
    ensures |Blocks(ts, m)| == m * |ts|
  {
    if m > 0 {
      BlocksLength(ts, m - 1);
    }
  }

  lemma DivModUnique(n: int, L: int, q: int, r: int)
    requires L > 0 && 0 <= r < L && n == q * L + r
    ensures n / L == q && n % L == r
  {
    var q', r' := n / L, n % L;
    assert n == q' * L + r' && 0 <= r' < L;
    if q' < q {
      MulMonotone(q' + 1, q, L);
      assert false;
    } else if q < q' {
      MulMonotone(q + 1, q', L);
      assert false;
    }
  }

  lemma MulMonotone(a: int, b: int, L: int)
    requires a <= b && L > 0
    ensures a * L <= b * L
  {
  }

  /** The n-th tuple of the blocks is tuple n mod |ts| followed by n div |ts|. */
  lemma {:induction false} BlocksIndex(ts: seq<seq<nat>>, m: nat, n: nat)
    requires n < |Blocks(ts, m)|
    ensures |ts| > 0 && n / |ts| < m
    ensures Blocks(ts, m)[n] == ts[n % |ts|] + [n / |ts|]
  {
    var L := |ts|;
    BlocksLength(ts, m);
    BlocksLength(ts, m - 1);
    var prev := Blocks(ts, m - 1);
    if n < |prev| {
      BlocksIndex(ts, m - 1, n);
    } else {
      DivModUnique(n, L, m - 1, n - |prev|);
    }
  }

  /** Every tuple of Tuples(k, M) has length k and entries in 0 .. M-1, and
      there are M^k of them. */
  lemma {:induction false} TuplesShape(k: nat, M: nat)
    ensures |Tuples(k, M)| == Pow(M, k)
    ensures forall n :: 0 <= n < |Tuples(k, M)| ==>
      |Tuples(k, M)[n]| == k && forall i :: 0 <= i < k ==> Tuples(k, M)[n][i] < M
  {
    if k > 0 {
      var T := Tuples(k, M);
      var inner := Tuples(k - 1, M);
      TuplesShape(k - 1, M);
      BlocksLength(inner, M);
      forall n | 0 <= n < |T|
        ensures |T[n]| == k && forall i :: 0 <= i < k ==> T[n][i] < M
      {
        BlocksIndex(inner, M, n);
      }
    }
  }

  lemma {:induction false} ValueSnoc(t: seq<nat>, x: nat, M: nat)
    ensures Value(t + [x], M) == Value(t, M) + x * Pow(M, |t|)
  {
    if t != [] {
      assert (t + [x])[1..] == t[1..] + [x];
      ValueSnoc(t[1..], x, M);
      var w, p := Value(t[1..], M), Pow(M, |t| - 1);
      assert Value(t + [x], M) == t[0] + M * (w + x * p);
      assert Value(t, M) == t[0] + M * w;
      assert Pow(M, |t|) == M * p;
      DistributeScale(M, w, x, p);
    }
  }

  lemma DistributeScale(m: int, w: int, x: int, p: int)
    ensures m * (w + x * p) == m * w + x * (m * p)
  {
  }

  /** Position 0 varies fastest: the n-th tuple is n written in base M with
      its least significant digit first. */
  lemma {:induction false} TuplesRank(k: nat, M: nat, n: nat)
    requires n < |Tuples(k, M)|
    ensures Value(Tuples(k, M)[n], M) == n
  {
    if k > 0 {
      var inner := Tuples(k - 1, M);
      BlocksIndex(inner, M, n);
      var L := |inner|;
      DivModSplit(n, L);
      var q: nat, r: nat := n / L, n % L;
      TuplesLengths(k - 1, M, r);
      TuplesRank(k - 1, M, r);
      ValueSnoc(inner[r], q, M);
      assert Tuples(k, M)[n] == inner[r] + [q];
      assert Value(inner[r] + [q], M) == r + q * L;
    }
  }

  lemma TuplesLengths(k: nat, M: nat, n: nat)
    requires n < |Tuples(k, M)|
    ensures |Tuples(k, M)| == Pow(M, k) && |Tuples(k, M)[n]| == k
  {
    TuplesShape(k, M);
  }

  lemma DivModSplit(n: nat, L: nat)
    requires L > 0
    ensures n == (n / L) * L + n % L
    ensures 0 <= n / L && 0 <= n % L < L
  {
  }


  /** Every tuple of length k over 0 .. M-1 is enumerated. */
  lemma {:induction false} TuplesComplete(k: nat, M: nat, t: seq<nat>)
    requires |t| == k && forall i :: 0 <= i < k ==> t[i] < M
    ensures t in Tuples(k, M)
  {
    if k == 0 {
      assert t == [];
    } else {
      var inner := Tuples(k - 1, M);
      var init, x := t[..k - 1], t[k - 1];
      TuplesComplete(k - 1, M, init);
      var r :| 0 <= r < |inner| && inner[r] == init;
      BlocksHit(inner, M, x, r);
      SplitLast(t);
    }
  }

  lemma SplitLast<T>(t: seq<T>)
    requires t != []
    ensures t[..|t| - 1] + [t[|t| - 1]] == t
  {
  }

  /** Every tuple of ts followed by any value below m is among the blocks. */
  lemma {:induction false} BlocksHit(ts: seq<seq<nat>>, m: nat, x: nat, r: nat)
    requires r < |ts| && x < m
    ensures ts[r] + [x] in Blocks(ts, m)
  {
    if x < m - 1 {
      BlocksHit(ts, m - 1, x, r);
    } else {
      assert Extend(ts, [m - 1])[r] == ts[r] + [x];
    }
  }

  lemma {:induction false} FilterMembership(sizes: seq<nat>, ts: seq<seq<nat>>, t: seq<nat>)
    ensures t in Filter(sizes, ts) <==> t in ts && Admissible(sizes, t)
  {
    if ts != [] {
      FilterMembership(sizes, ts[..|ts| - 1], t);
      assert ts == ts[..|ts| - 1] + [ts[|ts| - 1]];
    }
  }

  /** The tuples of ts come in strictly increasing base-M value. */
  predicate RankSorted(ts: seq<seq<nat>>, M: nat) {
    forall p, q :: 0 <= p < q < |ts| ==> Value(ts[p], M) < Value(ts[q], M)
  }

  lemma {:induction false} FilterKeepsOrder(sizes: seq<nat>, ts: seq<seq<nat>>, M: nat)
    requires RankSorted(ts, M)
    ensures RankSorted(Filter(sizes, ts), M)
  {
    if ts != [] {
      var init, last := ts[..|ts| - 1], ts[|ts| - 1];
      FilterKeepsOrder(sizes, init, M);
      var f := Filter(sizes, init);
      if Admissible(sizes, last) {
        forall p | 0 <= p < |f|
          ensures Value(f[p], M) < Value(last, M)
        {
          assert f[p] in f;
          FilterMembership(sizes, init, f[p]);
          var j :| 0 <= j < |init| && init[j] == f[p];
          assert ts[j] == init[j];
        }
      }
    }
  }

  lemma {:induction false} FilterKeepsAll(sizes: seq<nat>, ts: seq<seq<nat>>)
    requires forall n :: 0 <= n < |ts| ==> Admissible(sizes, ts[n])
    ensures Filter(sizes, ts) == ts
  {
    if ts != [] {
      FilterKeepsAll(sizes, ts[..|ts| - 1]);
    }
  }

  /** The emitted configurations are exactly the tuples with one entry per
      parent, every entry in 0 .. M-1 for M the largest domain size, and no
      entry greater than its own parent's domain size. */
  lemma ConfigsExactly(sizes: seq<nat>, t: seq<nat>)
    ensures t in Configs(sizes) <==>
      |t| == |sizes| && (forall i :: 0 <= i < |t| ==> t[i] < MaxOf(sizes)) && Admissible(sizes, t)
  {
    var k, M := |sizes|, MaxOf(sizes);
    FilterMembership(sizes, Tuples(k, M), t);
    TuplesShape(k, M);
    if |t| == k && (forall i :: 0 <= i < |t| ==> t[i] < M) {
      TuplesComplete(k, M, t);
    }
  }

  /** Every configuration has one entry per parent. */
  lemma ConfigsLength(sizes: seq<nat>)
    ensures forall c :: c in Configs(sizes) ==> |c| == |sizes|
  {
    forall c | c in Configs(sizes)
      ensures |c| == |sizes|
    {
      ConfigsExactly(sizes, c);
    }
  }

  /** Position 0 varies fastest and no configuration repeats: along the list
      the base-M value strictly increases. */
  lemma ConfigsOrdered(sizes: seq<nat>)
    ensures RankSorted(Configs(sizes), MaxOf(sizes))
  {
    var k, M := |sizes|, MaxOf(sizes);
    forall p, q | 0 <= p < q < |Tuples(k, M)|
      ensures Value(Tuples(k, M)[p], M) < Value(Tuples(k, M)[q], M)
    {
      TuplesRank(k, M, p);
      TuplesRank(k, M, q);
    }
    FilterKeepsOrder(sizes, Tuples(k, M), M);
  }

  /** When all k >= 1 parents share domain size d, every tuple over 0 .. d-1
      is emitted, d^k of them, the n-th being n in base d with position 0
      least significant. */
  lemma ConfigsUniform(sizes: seq<nat>, d: nat)
    requires |sizes| >= 1 && forall i :: 0 <= i < |sizes| ==> sizes[i] == d
    ensures Configs(sizes) == Tuples(|sizes|, d)
    ensures |Configs(sizes)| == Pow(d, |sizes|)
    ensures forall n :: 0 <= n < |Configs(sizes)| ==> Value(Configs(sizes)[n], d) == n
  {
    var k := |sizes|;
    assert MaxOf(sizes) == d by {
      assert sizes[0] <= MaxOf(sizes);
    }
    TuplesShape(k, d);
    FilterKeepsAll(sizes, Tuples(k, d));
    forall n | 0 <= n < Pow(d, k)
      ensures Value(Configs(sizes)[n], d) == n
    {
      TuplesRank(k, d, n);
    }
  }

  /** How many values of each position pass the test, multiplied out: a
      parent of domain size d keeps the values 0 .. d, capped at 0 .. M-1. */
  function Survivors(sizes: seq<nat>, M: nat): nat {
    if sizes == [] then 1
    else
      Survivors(sizes[..|sizes| - 1], M) * Cap(sizes[|sizes| - 1], M)
  }

  /** The number of values 0 .. M-1 that do not exceed d. */
  function Cap(d: nat, M: nat): nat {
    if d + 1 < M then d + 1 else M
  }

  lemma AdmissibleSnoc(sizes: seq<nat>, t: seq<nat>, x: nat)
    requires |sizes| >= 1 && |t| == |sizes| - 1
    ensures Admissible(sizes, t + [x]) <==> Admissible(sizes[..|sizes| - 1], t) && x <= sizes[|sizes| - 1]
  {
    if Admissible(sizes, t + [x]) {
      forall i | 0 <= i < |t| && i < |sizes| - 1
        ensures t[i] <= sizes[..|sizes| - 1][i]
      {
        assert (t + [x])[i] == t[i];
      }
      assert (t + [x])[|t|] == x;
    }
  }

  /** Fixing the last position to x keeps the admissible shorter tuples when
      x passes the last parent's test, and nothing otherwise. */
  lemma {:induction false} FilterLastFixed(sizes: seq<nat>, ts: seq<seq<nat>>, x: nat)
    requires |sizes| >= 1
    requires forall n :: 0 <= n < |ts| ==> |ts[n]| == |sizes| - 1
    ensures |Filter(sizes, Extend(ts, [x]))|
         == if x <= sizes[|sizes| - 1] then |Filter(sizes[..|sizes| - 1], ts)| else 0
  {
    if ts != [] {
      var init, last := ts[..|ts| - 1], ts[|ts| - 1];
      FilterLastFixed(sizes, init, x);
      assert Extend(ts, [x])[..|ts| - 1] == Extend(init, [x]);
      AdmissibleSnoc(sizes, last, x);
    }
  }


  /** One more block adds c survivors while its last value is within the
      bound d, and none after. */
  lemma CountStep(c: nat, d: nat, m: nat, before: nat, added: nat)
    requires m > 0
    requires before == c * Cap(d, m - 1)
    requires added == if m - 1 <= d then c else 0
    ensures before + added == c * Cap(d, m)
  {
    if m - 1 <= d {
      assert c * (m - 1 + 1) == c * (m - 1) + c;
    }
  }

  lemma FilterBlocksSplit(sizes: seq<nat>, ts: seq<seq<nat>>, m: nat)
    requires m > 0
    ensures |Filter(sizes, Blocks(ts, m))|
         == |Filter(sizes, Blocks(ts, m - 1))| + |Filter(sizes, Extend(ts, [m - 1]))|
  {
    FilterAppend(sizes, Blocks(ts, m - 1), Extend(ts, [m - 1]));
  }

  lemma {:induction false} FilterBlocksCount(sizes: seq<nat>, ts: seq<seq<nat>>, m: nat)
    requires |sizes| >= 1
    requires forall n :: 0 <= n < |ts| ==> |ts[n]| == |sizes| - 1
    ensures |Filter(sizes, Blocks(ts, m))|
         == |Filter(sizes[..|sizes| - 1], ts)| * Cap(sizes[|sizes| - 1], m)
  {
    if m > 0 {
      var c, d := |Filter(sizes[..|sizes| - 1], ts)|, sizes[|sizes| - 1];
      var before, added := |Filter(sizes, Blocks(ts, m - 1))|, |Filter(sizes, Extend(ts, [m - 1]))|;
      FilterBlocksCount(sizes, ts, m - 1);
      FilterBlocksSplit(sizes, ts, m);
      FilterLastFixed(sizes, ts, m - 1);
      CountStep(c, d, m, before, added);
    }
  }

  /** The number of tuples over 0 .. M-1 that pass the test. */
  lemma {:induction false} FilteredTuplesCount(sizes: seq<nat>, M: nat)
    ensures |Filter(sizes, Tuples(|sizes|, M))| == Survivors(sizes, M)
  {
    var k := |sizes|;
    if k == 0 {
      var only: seq<seq<nat>> := [[]];
      assert Tuples(0, M) == only;
      assert Admissible(sizes, []);
      assert only[..0] == [];
    } else {
      var init := sizes[..k - 1];
      FilteredTuplesCount(init, M);
      TuplesShape(k - 1, M);
      FilterBlocksCount(sizes, Tuples(k - 1, M), M);
    }
  }

  /** The number of configurations is the product over the parents of
      min(d + 1, M), d the parent's domain size and M the largest one. */
  lemma ConfigsCount(sizes: seq<nat>)
    ensures |Configs(sizes)| == Survivors(sizes, MaxOf(sizes))
  {
    FilteredTuplesCount(sizes, MaxOf(sizes));
  }

  /** The test lets through an entry equal to its parent's domain size: with
      parent domain sizes 2 and 3, the tuple (2, 0) is emitted although the
      first parent has only the values 0 and 1, and 9 configurations are
      emitted where the two domains have 2 * 3 = 6 value combinations. */
  lemma OffByOneWitness()
    ensures [2, 0] in Configs([2, 3])
    ensures [2, 0][0] >= [2, 3][0]
    ensures |Configs([2, 3])| == 9
  {
    OffByOneAdmits();
    OffByOneCount();
  }

  lemma MaxOfTwoThree()
    ensures MaxOf([2, 3]) == 3
  {
    var sizes: seq<nat> := [2, 3];
    assert sizes[..1] == [2];
    assert [2][..0] == [];
  }

  lemma OffByOneAdmits()
    ensures [2, 0] in Configs([2, 3])
  {
    var sizes: seq<nat> := [2, 3];
    var t: seq<nat> := [2, 0];
    MaxOfTwoThree();
    assert Admissible(sizes, t);
    assert forall i :: 0 <= i < |t| ==> t[i] < MaxOf(sizes);
    ConfigsExactly(sizes, t);
  }

  lemma OffByOneCount()
    ensures |Configs([2, 3])| == 9
  {
    MaxOfTwoThree();
    TwoParentCount([2, 3]);
  }

  /** With two parents, the count is the product of the two capped sizes. */
  lemma TwoParentCount(sizes: seq<nat>)
    requires |sizes| == 2
    ensures |Configs(sizes)| == Cap(sizes[0], MaxOf(sizes)) * Cap(sizes[1], MaxOf(sizes))
  {
    var M := MaxOf(sizes);
    ConfigsCount(sizes);
    assert sizes[..1][..0] == [];
    assert Survivors(sizes[..1], M) == Cap(sizes[0], M);
  }
}
