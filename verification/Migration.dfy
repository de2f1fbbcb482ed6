/**
 The index arithmetic of lgp.c's `migrate`: demes of `size` individuals laid end to end, ranks inside
 a deme counted from its best, and the ring of copies that overwrites the worst of the next deme.
 Here everything is a sequence of arbitrary values; Evolution runs the same copies on the population.
 */
module Migration {

  lemma InRange(n: int, size: int, t: int, r: int)
    requires 0 <= t < n && 0 <= r < size
    ensures 0 <= t * size + r < n * size
  {
    assert (t + 1) * size <= n * size;
  }

  /** The position of rank `r` of deme `t`. */
  function At(n: int, size: int, t: int, r: int): (k: int)
    requires 0 <= t < n && 0 <= r < size
    ensures 0 <= k < n * size
  {
    InRange(n, size, t, r);
    t * size + r
  }

  lemma AtInjective(n: int, size: int, t: int, r: int, t': int, r': int)
    requires 0 <= t < n && 0 <= r < size && 0 <= t' < n && 0 <= r' < size
    requires At(n, size, t, r) == At(n, size, t', r')
    ensures t == t' && r == r'
  {
    assert t < t' ==> (t + 1) * size <= t' * size;
    assert t' < t ==> (t' + 1) * size <= t * size;
  }

  /** Every position is some rank of some deme. */
  lemma AtCovers(n: int, size: int, k: int) returns (t: int, r: int)
    requires 0 < size && 0 <= k < n * size
    ensures 0 <= t < n && 0 <= r < size && At(n, size, t, r) == k
  {
    t, r := k / size, k % size;
    assert k == t * size + r;
    assert n <= t ==> n * size <= t * size;
  }

  /** The position of a deme's first member. */
  function Start(size: int, d: int): int {
    d * size
  }

  lemma DemeInside(n: int, size: int, d: int)
    requires 0 <= d < n && 0 < size
    ensures 0 <= Start(size, d) && Start(size, d) + size <= n * size
  {
    InRange(n, size, d, 0);
    InRange(n, size, d, size - 1);
  }

  lemma DemesApart(size: int, d: int, e: int)
    requires 0 < size && d != e
    ensures Start(size, d) + size <= Start(size, e) || Start(size, e) + size <= Start(size, d)
  {
    assert e < d ==> (e + 1) * size <= d * size;
    assert d < e ==> (d + 1) * size <= e * size;
  }

  function Next(n: int, t: int): (t': int)
    requires 0 <= t < n
    ensures 0 <= t' < n
  {
    (t + 1) % n
  }

  /** The deme before `t` in the ring. */
  function Prev(n: int, t: int): (p: int)
    requires 0 <= t < n
    ensures 0 <= p < n && Next(n, p) == t
  {
    if t == 0 then n - 1 else t - 1
  }

  // ---- what the copies do ----------------------------------------------------------------

  /**
   What deme `d` hands on from rank `q` when its turn comes.  Deme 0 goes first and hands on its own;
   a later deme may have had that rank overwritten already, and then hands on what it was given.
   */
  function HandedOn<T>(vs: seq<T>, n: int, size: int, nm: int, d: int, q: int): T
    requires |vs| == n * size && 0 <= nm <= size && 0 <= d < n && 0 <= q < size
    decreases d
  {
    if d == 0 || q < size - nm then vs[At(n, size, d, q)]
    else HandedOn(vs, n, size, nm, d - 1, size - 1 - q)
  }

  /** Rank `r` of deme `t` once the copies, made one after the other, are done. */
  function Migrated<T>(vs: seq<T>, n: int, size: int, nm: int, t: int, r: int): T
    requires |vs| == n * size && 0 <= nm <= size && 0 <= t < n && 0 <= r < size
  {
    if r < size - nm then vs[At(n, size, t, r)]
    else HandedOn(vs, n, size, nm, Prev(n, t), size - 1 - r)
  }

  /** The same if all copies were made at once: the previous deme's best `nm`, best at the very end. */
  function AllAtOnce<T>(vs: seq<T>, n: int, size: int, nm: int, t: int, r: int): T
    requires |vs| == n * size && 0 <= nm <= size && 0 <= t < n && 0 <= r < size
  {
    if r < size - nm then vs[At(n, size, t, r)]
    else vs[At(n, size, Prev(n, t), size - 1 - r)]
  }

  /** `now` is `vs` with every slot passed through the ring. */
  ghost predicate IsMigrated<T>(vs: seq<T>, now: seq<T>, n: int, size: int, nm: int) {
    && |now| == |vs| == n * size && 0 <= nm <= size
    && forall t, r :: 0 <= t < n && 0 <= r < size ==> now[At(n, size, t, r)] == Migrated(vs, n, size, nm, t, r)
  }

  /**
   In-place ring migration is simultaneous migration exactly when two lots of migrants fit in a deme;
   otherwise some deme passes on individuals it has just been given.
   */
  lemma RingIsSimultaneous<T>(vs: seq<T>, n: int, size: int, nm: int)
    requires 2 <= n && 0 < size && 0 <= nm <= size && |vs| == n * size
    ensures 2 * nm <= size ==>
              forall t, r :: 0 <= t < n && 0 <= r < size ==>
                Migrated(vs, n, size, nm, t, r) == AllAtOnce(vs, n, size, nm, t, r)
    ensures (forall k, l :: 0 <= k < l < |vs| ==> vs[k] != vs[l]) && size < 2 * nm ==>
              exists t, r :: 0 <= t < n && 0 <= r < size &&
                Migrated(vs, n, size, nm, t, r) != AllAtOnce(vs, n, size, nm, t, r)
  {
    if (forall k, l :: 0 <= k < l < |vs| ==> vs[k] != vs[l]) && size < 2 * nm {
      var t := Next(n, 1);
      assert Prev(n, t) == 1;
      assert At(n, size, 0, size - nm) < At(n, size, 1, nm - 1);
      assert Migrated(vs, n, size, nm, t, size - nm) == HandedOn(vs, n, size, nm, 1, nm - 1)
          == HandedOn(vs, n, size, nm, 0, size - nm) == vs[At(n, size, 0, size - nm)];
      assert AllAtOnce(vs, n, size, nm, t, size - nm) == vs[At(n, size, 1, nm - 1)];
    }
  }

  // ---- the loop's progress ---------------------------------------------------------------

  /** The slot has been written when deme `f` has handed on its first `i`. */
  predicate Written(n: int, size: int, nm: int, t: int, r: int, f: int, i: int)
    requires 0 <= t < n
  {
    r >= size - nm && (Prev(n, t) < f || (Prev(n, t) == f && r >= size - i))
  }

  ghost predicate Progress<T>(vs: seq<T>, now: seq<T>, n: int, size: int, nm: int, f: int, i: int) {
    && |now| == |vs| == n * size && 0 <= nm <= size
    && forall t, r :: 0 <= t < n && 0 <= r < size ==>
         now[At(n, size, t, r)] ==
         if Written(n, size, nm, t, r, f, i) then Migrated(vs, n, size, nm, t, r) else vs[At(n, size, t, r)]
  }

  /** The two ends of a copy, as the loop computes them. */
  lemma CopyPlaces(n: int, size: int, f: int, i: int)
    requires 2 <= n && 0 <= f < n && 0 <= i < size
    ensures f * size + i == At(n, size, f, i)
    ensures (Next(n, f) + 1) * size - 1 - i == At(n, size, Next(n, f), size - 1 - i)
    ensures At(n, size, f, i) != At(n, size, Next(n, f), size - 1 - i)
  {
    if At(n, size, f, i) == At(n, size, Next(n, f), size - 1 - i) {
      AtInjective(n, size, f, i, Next(n, f), size - 1 - i);
    }
  }

  /** The individual copied is the one deme `f` is to hand on, even where it was overwritten. */
  lemma SourceIsHandedOn<T>(vs: seq<T>, now: seq<T>, n: int, size: int, nm: int, f: int, i: int)
    requires 2 <= n && 0 <= f < n && 0 <= i < nm && Progress(vs, now, n, size, nm, f, i)
    ensures now[At(n, size, f, i)] == HandedOn(vs, n, size, nm, f, i)
  {
  }

  lemma CopyAdvances<T>(vs: seq<T>, now: seq<T>, n: int, size: int, nm: int, f: int, i: int)
    requires 2 <= n && 0 <= f < n && 0 <= i < nm && Progress(vs, now, n, size, nm, f, i)
    ensures Progress(vs, now[At(n, size, Next(n, f), size - 1 - i) := now[At(n, size, f, i)]],
                     n, size, nm, f, i + 1)
  {
    var g, q := Next(n, f), size - 1 - i;
    assert Prev(n, g) == f;
    var now' := now[At(n, size, g, q) := now[At(n, size, f, i)]];
    SourceIsHandedOn(vs, now, n, size, nm, f, i);
    forall t, r | 0 <= t < n && 0 <= r < size
      ensures now'[At(n, size, t, r)] ==
              if Written(n, size, nm, t, r, f, i + 1) then Migrated(vs, n, size, nm, t, r) else vs[At(n, size, t, r)]
    {
      if At(n, size, t, r) == At(n, size, g, q) {
        AtInjective(n, size, t, r, g, q);
      } else {
        assert now'[At(n, size, t, r)] == now[At(n, size, t, r)];
        assert t == g ==> r != q;
        assert Prev(n, t) == f ==> t == g;
      }
    }
  }

  lemma MigrationStarts<T>(vs: seq<T>, n: int, size: int, nm: int)
    requires |vs| == n * size && 0 <= nm <= size
    ensures Progress(vs, vs, n, size, nm, 0, 0)
  {
  }

  lemma RoundEnds<T>(vs: seq<T>, now: seq<T>, n: int, size: int, nm: int, f: int)
    requires 0 <= f < n && Progress(vs, now, n, size, nm, f, nm)
    ensures Progress(vs, now, n, size, nm, f + 1, 0)
  {
  }

  lemma MigrationEnds<T>(vs: seq<T>, now: seq<T>, n: int, size: int, nm: int)
    requires 0 <= n && Progress(vs, now, n, size, nm, n, 0)
    ensures IsMigrated(vs, now, n, size, nm)
  {
  }

  /** What the ring of copies leaves behind is determined: no slot is left open. */
  lemma OneOutcome<T>(vs: seq<T>, a: seq<T>, b: seq<T>, n: int, size: int, nm: int)
    requires 0 < size && IsMigrated(vs, a, n, size, nm) && IsMigrated(vs, b, n, size, nm)
    ensures a == b
  {
    forall k | 0 <= k < |a| ensures a[k] == b[k] {
      var t, r := AtCovers(n, size, k);
      assert a[At(n, size, t, r)] == b[At(n, size, t, r)];
    }
  }

  /** The deme and the rank of a position. */
  ghost function Place(n: int, size: int, k: int): (p: (int, int))
    requires 0 < size && 0 <= k < n * size
    ensures 0 <= p.0 < n && 0 <= p.1 < size && At(n, size, p.0, p.1) == k
  {
    assert exists t, r :: 0 <= t < n && 0 <= r < size && At(n, size, t, r) == k by {
      var t, r := AtCovers(n, size, k);
    }
    var t, r :| 0 <= t < n && 0 <= r < size && At(n, size, t, r) == k;
    (t, r)
  }

  /** The population the ring of copies leaves behind. */
  ghost function RingOf<T>(vs: seq<T>, n: int, size: int, nm: int): (now: seq<T>)
    requires |vs| == n * size && 0 <= nm <= size && 0 < size
    ensures |now| == |vs|
  {
    seq(|vs|, k requires 0 <= k < |vs| =>
      Migrated(vs, n, size, nm, Place(n, size, k).0, Place(n, size, k).1))
  }

  lemma RingExists<T>(vs: seq<T>, n: int, size: int, nm: int)
    requires |vs| == n * size && 0 <= nm <= size && 0 < size
    ensures IsMigrated(vs, RingOf(vs, n, size, nm), n, size, nm)
  {
    forall t, r | 0 <= t < n && 0 <= r < size
      ensures Place(n, size, At(n, size, t, r)) == (t, r)
    {
      var p := Place(n, size, At(n, size, t, r));
      AtInjective(n, size, t, r, p.0, p.1);
    }
  }

  /** Nobody is made up: what a deme hands on was in the population. */
  lemma {:induction false} HandedOnWasThere<T>(vs: seq<T>, n: int, size: int, nm: int, d: int, q: int)
    requires |vs| == n * size && 0 <= nm <= size && 0 <= d < n && 0 <= q < size
    ensures HandedOn(vs, n, size, nm, d, q) in vs
    decreases d
  {
    if d == 0 || q < size - nm {
    } else {
      HandedOnWasThere(vs, n, size, nm, d - 1, size - 1 - q);
    }
  }

  lemma MigratedWasThere<T>(vs: seq<T>, now: seq<T>, n: int, size: int, nm: int)
    requires 0 < size && IsMigrated(vs, now, n, size, nm)
    ensures forall k :: 0 <= k < |now| ==> now[k] in vs
  {
    forall k | 0 <= k < |now| ensures now[k] in vs {
      var t, r := AtCovers(n, size, k);
      if r >= size - nm {
        HandedOnWasThere(vs, n, size, nm, Prev(n, t), size - 1 - r);
      }
    }
  }
}
