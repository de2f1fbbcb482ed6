/**
 The trials of lgp.c as values: what a tournament within a deme makes of the generator's state, the
 children it leaves, what becomes best so far, sorting and ring migration, and whole runs of these.
 Evolution carries them out on the population in place.
 */
module Trials {
  import opened Arithmetic
  import opened FastRand
  import opened Opcodes
  import opened Layouts
  import opened Genome
  import opened Migration
  import opened Wrappers

  datatype Individual = Individual(prog: seq<Instr>, error: real)

  // ---- the tie-break -----------------------------------------------------------------------

  /** Of two individuals of equal error the first one wins if its length is below that error. */
  predicate FirstWinsTie(codelen1: int, error: real) {
    codelen1 as real < error
  }

  /**
   The shorter of two equally fit individuals, which is meant to win, does exactly when its being first
   agrees with the first one's length lying below the error.
   */
  lemma ShorterWinsTie(codelen1: int, codelen2: int, error: real)
    requires codelen1 != codelen2
    ensures var winner, loser := if FirstWinsTie(codelen1, error) then codelen1 else codelen2,
                                 if FirstWinsTie(codelen1, error) then codelen2 else codelen1;
            winner < loser <==> (codelen1 < codelen2 <==> codelen1 as real < error)
  {
  }

  // ---- populations as values -----------------------------------------------------------

  /** The least error in a stretch of the population. */
  function MinError(vs: seq<Individual>, lo: int, hi: int): real
    requires 0 <= lo < hi <= |vs|
    decreases hi - lo
  {
    if hi == lo + 1 then vs[lo].error
    else
      var rest := MinError(vs, lo + 1, hi);
      if vs[lo].error < rest then vs[lo].error else rest
  }

  lemma {:induction false} MinIsLeast(vs: seq<Individual>, lo: int, hi: int, k: int)
    requires 0 <= lo <= k < hi <= |vs|
    ensures MinError(vs, lo, hi) <= vs[k].error
    decreases hi - lo
  {
    if lo == k {
    } else {
      MinIsLeast(vs, lo + 1, hi, k);
    }
  }

  lemma {:induction false} MinIsAttained(vs: seq<Individual>, lo: int, hi: int) returns (k: int)
    requires 0 <= lo < hi <= |vs|
    ensures lo <= k < hi && vs[k].error == MinError(vs, lo, hi)
    decreases hi - lo
  {
    if hi == lo + 1 {
      k := lo;
    } else {
      k := MinIsAttained(vs, lo + 1, hi);
      if vs[lo].error < MinError(vs, lo + 1, hi) {
        k := lo;
      }
    }
  }

  // ---- the settings of a trial --------------------------------------------------------------

  /** The error on validation data, and the settings of early stopping (0 when it is off). */
  datatype Validation = Validation(error: seq<byte> -> real, earlyStopping: real, size: real)

  /** What stays fixed during a trial. */
  datatype Rules = Rules(
    cfg: Config, fit: seq<byte> -> real, n: int, size: int, nm: int, migration: bool,
    probability: real, patience: nat, stagnation: int, validation: Option<Validation>)
  {
    ghost predicate Valid() {
      cfg.Valid() && 1 <= n && 4 <= size && 0 <= nm <= size
    }
  }

  /** A program with the error of its bytes. */
  function Rated(rules: Rules, p: seq<Instr>): Individual {
    Individual(p, rules.fit(Layout(rules.cfg.frame, p)))
  }

  // ---- the initial population -----------------------------------------------------------------

  /** The generator after it has given `k` initial programs. */
  function SeedsBefore(cfg: Config, s: Seeds, k: nat): Seeds
    requires cfg.Valid()
  {
    if k == 0 then s else AfterInitialProgram(cfg, SeedsBefore(cfg, s, k - 1))
  }

  /** The `k`-th individual of the initial population. */
  function Original(rules: Rules, s: Seeds, k: nat): Individual
    requires rules.cfg.Valid()
  {
    Rated(rules, InitialProgram(rules.cfg, SeedsBefore(rules.cfg, s, k)))
  }

  // ---- selection --------------------------------------------------------------------------------

  /** The place in a deme that a number draws. */
  function Place(lo: int, size: nat, r: real): (k: int)
    ensures 0 < size ==> lo <= k < lo + size
  {
    lo + Index(size, r)
  }

  datatype Found = Found(place: int, after: Seeds)

  /** The first place drawn that is not taken; one has the patience for only so many draws. */
  function Pick(lo: int, size: nat, taken: set<int>, s: Seeds, patience: nat): (f: Option<Found>)
    requires 0 < size
    ensures f.Some? ==> lo <= f.value.place < lo + size && f.value.place !in taken
    decreases patience
  {
    var k := Place(lo, size, Draw(s));
    if patience == 0 then None
    else if k !in taken then Some(Found(k, Step(s)))
    else Pick(lo, size, taken, Step(s), patience - 1)
  }

  /** A place is found at the first draw of one that is not taken, if there is such a draw in time. */
  lemma {:induction false} PickIsFirst(lo: int, size: nat, taken: set<int>, s: Seeds, patience: nat) returns (k: nat)
    requires 0 < size
    ensures k <= patience
    ensures forall j :: 0 <= j < k ==> Place(lo, size, Draw(Run(s, j))) in taken
    ensures var f := Pick(lo, size, taken, s, patience);
            if k == patience then f == None
            else f == Some(Found(Place(lo, size, Draw(Run(s, k))), Run(s, k + 1)))
                 && Place(lo, size, Draw(Run(s, k))) !in taken
    decreases patience
  {
    hide Step, Draw, Place;
    FirstCalls(s);
    if patience == 0 || Place(lo, size, Draw(s)) !in taken {
      k := 0;
    } else {
      var l := PickIsFirst(lo, size, taken, Step(s), patience - 1);
      k := l + 1;
      forall j | 0 <= j < k ensures Place(lo, size, Draw(Run(s, j))) in taken {
        if j > 0 {
          assert Run(s, j) == Run(Step(s), j - 1);
        }
      }
      assert Run(s, k) == Run(Step(s), l) && Run(s, k + 1) == Run(Step(s), l + 1);
    }
  }

  /** Every place of a deme can be drawn. */
  lemma EveryPlaceIsDrawn(lo: int, size: nat, k: int) returns (r: real)
    requires lo <= k < lo + size
    ensures UnitInterval(r) && Place(lo, size, r) == k
  {
    r := EveryIndexIsDrawn(size, k - lo);
  }

  /** Four different places. */
  datatype Quad = Quad(s1: int, s2: int, s3: int, s4: int) {
    predicate Within(lo: int, hi: int) {
      && lo <= s1 < hi && lo <= s2 < hi && lo <= s3 < hi && lo <= s4 < hi
      && s1 != s2 && s1 != s3 && s1 != s4 && s2 != s3 && s2 != s4 && s3 != s4
    }
  }

  datatype Selected = Selected(places: Quad, after: Seeds)

  function Selection(lo: int, size: nat, s: Seeds, patience: nat): (x: Option<Selected>)
    requires 0 < size
    ensures x.Some? ==> x.value.places.Within(lo, lo + size)
  {
    var a := Pick(lo, size, {}, s, patience);
    if a.None? then None
    else
      var b := Pick(lo, size, {a.value.place}, a.value.after, patience);
      if b.None? then None
      else
        var c := Pick(lo, size, {a.value.place, b.value.place}, b.value.after, patience);
        if c.None? then None
        else
          var d := Pick(lo, size, {a.value.place, b.value.place, c.value.place}, c.value.after, patience);
          if d.None? then None
          else Some(Selected(Quad(a.value.place, b.value.place, c.value.place, d.value.place), d.value.after))
  }

  // ---- the tournament --------------------------------------------------------------------------

  /** The first of two individuals has the lower error, or wins the tie. */
  predicate FirstWins(cfg: Config, a: Individual, b: Individual) {
    a.error < b.error || (a.error == b.error && FirstWinsTie(|Layout(cfg.frame, a.prog)|, b.error))
  }

  /** The places of the two winners and of the two losers. */
  datatype Meeting = Meeting(w1: int, w2: int, l1: int, l2: int) {
    predicate Within(lo: int, hi: int) {
      Quad(w1, l1, w2, l2).Within(lo, hi)
    }
  }

  /** The first of four meets the second, the third the fourth. */
  function Tournament(cfg: Config, vs: seq<Individual>, q: Quad): (m: Meeting)
    requires q.Within(0, |vs|)
  {
    var first, third := FirstWins(cfg, vs[q.s1], vs[q.s2]), FirstWins(cfg, vs[q.s3], vs[q.s4]);
    Meeting(if first then q.s1 else q.s2, if third then q.s3 else q.s4,
            if first then q.s2 else q.s1, if third then q.s4 else q.s3)
  }

  /** The four keep their places and their pairs, and no loser is strictly better than its winner. */
  lemma TournamentIsFair(cfg: Config, vs: seq<Individual>, q: Quad, lo: int, hi: int)
    requires 0 <= lo <= hi <= |vs| && q.Within(lo, hi)
    ensures var m := Tournament(cfg, vs, q);
            && m.Within(lo, hi)
            && {m.w1, m.l1} == {q.s1, q.s2} && {m.w2, m.l2} == {q.s3, q.s4}
            && vs[m.w1].error <= vs[m.l1].error && vs[m.w2].error <= vs[m.l2].error
  {
    hide FirstWinsTie, Layout;
  }

  datatype Met = Met(m: Meeting, after: Seeds)

  /** The meeting in a deme that starts at `lo`. */
  function Meet(rules: Rules, vs: seq<Individual>, lo: int, s: Seeds): (x: Option<Met>)
    requires 0 < rules.size && 0 <= lo && lo + rules.size <= |vs|
    ensures x.Some? ==> x.value.m.Within(lo, lo + rules.size)
  {
    var q := Selection(lo, rules.size, s, rules.patience);
    if q.None? then None
    else
      TournamentIsFair(rules.cfg, vs, q.value.places, lo, lo + rules.size);
      Some(Met(Tournament(rules.cfg, vs, q.value.places), q.value.after))
  }

  lemma MeetIsFair(rules: Rules, vs: seq<Individual>, lo: int, s: Seeds)
    requires 0 < rules.size && 0 <= lo && lo + rules.size <= |vs|
    ensures var x := Meet(rules, vs, lo, s);
            x.Some? ==> (vs[x.value.m.w1].error <= vs[x.value.m.l1].error
                         && vs[x.value.m.w2].error <= vs[x.value.m.l2].error)
  {
    hide Selection, Tournament;
    var q := Selection(lo, rules.size, s, rules.patience);
    if q.Some? {
      TournamentIsFair(rules.cfg, vs, q.value.places, lo, lo + rules.size);
    }
  }

  // ---- the children ----------------------------------------------------------------------------

  /** The crossover points, the two rated children, and the state they leave the generator in. */
  datatype Brood = Brood(points: Points, child1: Individual, child2: Individual, after: Seeds)

  /** A program mutated and rated. */
  function Child(rules: Rules, p: seq<Instr>, s: Seeds): Individual
    requires rules.cfg.Valid()
  {
    Rated(rules, Mutated(rules.cfg, rules.probability, p, Draws(s, 5)))
  }

  function AfterChild(rules: Rules, p: seq<Instr>, s: Seeds): Seeds {
    Run(s, MutationDraws(rules.probability, p, Draws(s, 5)))
  }

  /** What two parents bring forth, unless the crossover gives up. */
  function Bred(rules: Rules, p: seq<Instr>, q: seq<Instr>, s: Seeds): Option<Brood>
    requires rules.cfg.Valid() && p != [] && q != []
  {
    var x := Crossed(rules.cfg, |p|, |q|, s);
    var i, j := x.points.point1, x.points.point2;
    if !x.ok then None
    else
      var t := AfterChild(rules, Splice(p, q, i, j), x.after);
      Some(Brood(x.points, Child(rules, Splice(p, q, i, j), x.after), Child(rules, Splice(q, p, j, i), t),
                 AfterChild(rules, Splice(q, p, j, i), t)))
  }

  /** Two children are rated mutants of the two splices of two programs. */
  ghost predicate Litter(rules: Rules, p: seq<Instr>, q: seq<Instr>, b: Brood) {
    var i, j := b.points.point1, b.points.point2;
    && 1 <= i <= |p| && 1 <= j <= |q|
    && Mutant(rules.cfg, Splice(p, q, i, j), b.child1.prog) && b.child1 == Rated(rules, b.child1.prog)
    && Mutant(rules.cfg, Splice(q, p, j, i), b.child2.prog) && b.child2 == Rated(rules, b.child2.prog)
    && rules.cfg.WellFormed(b.child1.prog) && rules.cfg.WellFormed(b.child2.prog)
  }

  /** Parents the system may hold bring forth well-formed, rated mutants of their two splices. */
  lemma BroodIsLitter(rules: Rules, p: seq<Instr>, q: seq<Instr>, s: Seeds)
    requires rules.cfg.Valid() && rules.cfg.WellFormed(p) && rules.cfg.WellFormed(q)
    ensures Bred(rules, p, q, s).Some? ==> Litter(rules, p, q, Bred(rules, p, q, s).value)
  {
    hide Config.Generates, Mutated, Mutant, Crossed, Draws, Run, MutationDraws, Layout;
    var x := Crossed(rules.cfg, |p|, |q|, s);
    var i, j := x.points.point1, x.points.point2;
    if x.ok {
      CrossedSizes(rules.cfg, |p|, |q|, s);
      var c1, c2 := Splice(p, q, i, j), Splice(q, p, j, i);
      var t := AfterChild(rules, c1, x.after);
      MutatedIsMutant(rules.cfg, rules.probability, c1, Draws(x.after, 5));
      MutatedIsMutant(rules.cfg, rules.probability, c2, Draws(t, 5));
    }
  }

  // ---- the best so far --------------------------------------------------------------------------

  /** The validation error was good enough to stop at, and has now increased. */
  predicate Overfits(cfg: Config, v: Option<Validation>, last: real, x: Individual) {
    && v.Some? && v.value.earlyStopping != 0.0
    && last <= v.value.earlyStopping * v.value.size
    && last < v.value.error(Layout(cfg.frame, x.prog))
  }

  const FUZZ := 0.00000001

  /** The error is as good as zero. */
  predicate Perfect(x: Individual) {
    -FUZZ < x.error < FUZZ
  }

  function BetterOf(a: Individual, b: Individual): Individual {
    if a.error < b.error then a else b
  }

  /** Lowest error of a trial so far, the validation error and the breeding that go with it, and the best itself. */
  datatype Standing = Standing(lowest: real, lastValidate: real, improved: int, best: Option<Individual>)

  /** The first child is perfect, or the better one would be the new best and overfits. */
  predicate Stops(rules: Rules, st: Standing, child1: Individual, child2: Individual) {
    var better := BetterOf(child1, child2);
    Perfect(child1) || (better.error < st.lowest && Overfits(rules.cfg, rules.validation, st.lastValidate, better))
  }

  /** The standing after two children that do not stop the trial. */
  function Look(rules: Rules, st: Standing, g: int, child1: Individual, child2: Individual): Standing {
    var better := BetterOf(child1, child2);
    if better.error < st.lowest then
      var v := if rules.validation.Some? then rules.validation.value.error(Layout(rules.cfg.frame, better.prog))
               else st.lastValidate;
      Standing(better.error, v, g, Some(better))
    else st
  }

  /** The trial ends with these children: they stop it, or it has gone on too long without improvement. */
  predicate Ends(rules: Rules, st: Standing, g: int, child1: Individual, child2: Individual) {
    Stops(rules, st, child1, child2) || g - Look(rules, st, g, child1, child2).improved >= rules.stagnation
  }

  // ---- breeding -----------------------------------------------------------------------------------

  /** A successful breeding: who met from which state on, and their brood. */
  datatype Breeding = Breeding(start: Seeds, m: Meeting, mated: Seeds, brood: Brood)

  /** The meeting the state leads to took place in the deme, and the losers hold the brood of the winners. */
  ghost predicate IsBreeding(rules: Rules, vs: seq<Individual>, vs': seq<Individual>, lo: int, b: Breeding)
    requires rules.Valid() && 0 <= lo && lo + rules.size <= |vs|
  {
    && Meet(rules, vs, lo, b.start) == Some(Met(b.m, b.mated))
    && Mates(rules, vs, b)
    && vs' == vs[b.m.l1 := b.brood.child1][b.m.l2 := b.brood.child2]
  }

  ghost predicate Mates(rules: Rules, vs: seq<Individual>, b: Breeding)
    requires rules.Valid() && b.m.Within(0, |vs|)
  {
    var p, q := vs[b.m.w1].prog, vs[b.m.w2].prog;
    p != [] && q != [] && Bred(rules, p, q, b.mated) == Some(b.brood)
  }

  /** A breeding replaces two members of the deme, neither of them better than the winner he met. */
  lemma BreedingReplaces(rules: Rules, vs: seq<Individual>, vs': seq<Individual>, lo: int, b: Breeding)
    requires rules.Valid() && 0 <= lo && lo + rules.size <= |vs| && IsBreeding(rules, vs, vs', lo, b)
    ensures |vs'| == |vs| && b.m.Within(lo, lo + rules.size)
    ensures forall k :: 0 <= k < |vs| && k != b.m.l1 && k != b.m.l2 ==> vs'[k] == vs[k]
    ensures vs'[b.m.l1] == b.brood.child1 && vs'[b.m.l2] == b.brood.child2
    ensures vs[b.m.w1].error <= vs[b.m.l1].error && vs[b.m.w2].error <= vs[b.m.l2].error
  {
    hide Meet, Mates;
    MeetIsFair(rules, vs, lo, b.start);
  }

  /** The state leads to a meeting whose crossover gives up. */
  ghost predicate Fails(rules: Rules, vs: seq<Individual>, lo: int, s: Seeds)
    requires rules.Valid() && 0 <= lo && lo + rules.size <= |vs|
  {
    var x := Meet(rules, vs, lo, s);
    && x.Some?
    && var p, q := vs[x.value.m.w1].prog, vs[x.value.m.w2].prog;
       p != [] && q != [] && Bred(rules, p, q, x.value.after) == None
  }

  /** The state such a crossover leaves. */
  ghost function AfterFailure(rules: Rules, vs: seq<Individual>, lo: int, s: Seeds): Seeds
    requires rules.Valid() && 0 <= lo && lo + rules.size <= |vs| && Fails(rules, vs, lo, s)
  {
    var x := Meet(rules, vs, lo, s).value;
    Crossed(rules.cfg, |vs[x.m.w1].prog|, |vs[x.m.w2].prog|, x.after).after
  }

  /** The four different members take longer to draw than one has patience for. */
  ghost predicate Abandons(rules: Rules, vs: seq<Individual>, lo: int, s: Seeds)
    requires rules.Valid() && 0 <= lo && lo + rules.size <= |vs|
  {
    Meet(rules, vs, lo, s) == None
  }

  // ---- sorting and migration as values --------------------------------------------------

  function Deme(vs: seq<Individual>, n: int, size: int, d: int): (s: seq<Individual>)
    requires |vs| == n * size && 0 <= d < n && 0 < size
    ensures |s| == size && forall r :: 0 <= r < size ==> s[r] == vs[At(n, size, d, r)]
  {
    InRange(n, size, d, 0);
    InRange(n, size, d, size - 1);
    vs[d * size..d * size + size]
  }

  /** The least error in a deme. */
  function DemeMin(vs: seq<Individual>, n: int, size: int, d: int): real
    requires |vs| == n * size && 0 <= d < n && 0 < size
  {
    MinError(Deme(vs, n, size, d), 0, size)
  }

  ghost predicate Ascending(s: seq<Individual>) {
    forall k, l :: 0 <= k <= l < |s| ==> s[k].error <= s[l].error
  }

  /** Everything of `s` is still there, so the least error is. */
  lemma MinOfRearranged(s: seq<Individual>, s': seq<Individual>)
    requires 0 < |s| == |s'| && multiset(s) <= multiset(s')
    ensures MinError(s', 0, |s'|) <= MinError(s, 0, |s|)
  {
    var k := MinIsAttained(s, 0, |s|);
    assert s[k] in multiset(s);
    assert s[k] in s';
    var l :| 0 <= l < |s'| && s'[l] == s[k];
    MinIsLeast(s', 0, |s'|, l);
  }

  /** Each deme sorted by increasing error, and nobody left his deme. */
  ghost predicate IsSorted(vs: seq<Individual>, now: seq<Individual>, n: int, size: int) {
    && 0 < size && |now| == |vs| == n * size
    && forall d :: 0 <= d < n ==>
         multiset(Deme(now, n, size, d)) == multiset(Deme(vs, n, size, d)) && Ascending(Deme(now, n, size, d))
  }

  /**
   After migration every deme still has its best, and the best of the deme before it - unless the
   migrants fill whole demes.
   */
  lemma MigrationElitism(vs: seq<Individual>, sorted: seq<Individual>, now: seq<Individual>,
                         n: int, size: int, nm: int, d: int)
    requires 0 <= d < n && IsSorted(vs, sorted, n, size) && IsMigrated(sorted, now, n, size, nm) && nm < size
    ensures DemeMin(now, n, size, d) <= DemeMin(vs, n, size, d)
    ensures 1 <= nm ==> DemeMin(now, n, size, d) <= DemeMin(vs, n, size, Prev(n, d))
  {
    SurvivorBounds(vs, sorted, n, size, d);
    MinIsLeast(Deme(now, n, size, d), 0, size, 0);
    assert Deme(now, n, size, d)[0] == Deme(sorted, n, size, d)[0];
    if 1 <= nm {
      var p := Prev(n, d);
      SurvivorBounds(vs, sorted, n, size, p);
      MinIsLeast(Deme(now, n, size, d), 0, size, size - 1);
      assert Deme(now, n, size, d)[size - 1] == HandedOn(sorted, n, size, nm, p, 0) == Deme(sorted, n, size, p)[0];
    }
  }

  /** The first of a sorted deme has its least error. */
  lemma SurvivorBounds(vs: seq<Individual>, sorted: seq<Individual>, n: int, size: int, d: int)
    requires 0 <= d < n && IsSorted(vs, sorted, n, size)
    ensures Deme(sorted, n, size, d)[0].error <= DemeMin(vs, n, size, d)
  {
    var s := Deme(sorted, n, size, d);
    MinOfRearranged(Deme(vs, n, size, d), s);
    var k := MinIsAttained(s, 0, size);
    assert s[0].error <= s[k].error;
  }

  /** When the migrants fill whole demes, deme 1 becomes deme 0 upside down and loses whatever it had. */
  lemma FullMigrationForgets(vs: seq<Individual>, sorted: seq<Individual>, now: seq<Individual>, n: int, size: int)
    requires 2 <= n && IsSorted(vs, sorted, n, size) && IsMigrated(sorted, now, n, size, size)
    ensures multiset(Deme(now, n, size, 1)) == multiset(Deme(vs, n, size, 0))
    ensures DemeMin(vs, n, size, 0) <= DemeMin(now, n, size, 1)
    ensures DemeMin(vs, n, size, 1) < DemeMin(vs, n, size, 0) ==> DemeMin(vs, n, size, 1) < DemeMin(now, n, size, 1)
  {
    var a, b := Deme(now, n, size, 1), Deme(sorted, n, size, 0);
    forall r | 0 <= r < size ensures a[r] == b[size - 1 - r] {
      assert Prev(n, 1) == 0;
    }
    UpsideDown(a, b);
    MinOfRearranged(a, Deme(vs, n, size, 0));
  }

  lemma {:induction false} UpsideDown<T>(a: seq<T>, b: seq<T>)
    requires |a| == |b| && forall r :: 0 <= r < |a| ==> a[r] == b[|a| - 1 - r]
    ensures multiset(a) == multiset(b)
  {
    if a == [] {
      assert b == [];
    } else {
      var m := |a| - 1;
      UpsideDown(a[..m], b[1..]);
      assert a == a[..m] + [a[m]] && b == [b[0]] + b[1..];
    }
  }

  /** A breeding in one deme makes the best of no deme worse. */
  lemma BreedingElitism(rules: Rules, vs: seq<Individual>, vs': seq<Individual>, deme: int, b: Breeding, d: int)
    requires rules.Valid() && |vs| == rules.n * rules.size && 0 <= deme < rules.n && 0 <= d < rules.n
    requires 0 <= Start(rules.size, deme) && Start(rules.size, deme) + rules.size <= |vs|
    requires IsBreeding(rules, vs, vs', Start(rules.size, deme), b)
    ensures |vs'| == |vs| && DemeMin(vs', rules.n, rules.size, d) <= DemeMin(vs, rules.n, rules.size, d)
  {
    hide IsBreeding, Rules.Valid;
    var n, size := rules.n, rules.size;
    var lo := Start(size, deme);
    BreedingReplaces(rules, vs, vs', lo, b);
    var s, s' := Deme(vs, n, size, d), Deme(vs', n, size, d);
    var r := MinIsAttained(s, 0, size);
    var k := At(n, size, d, r);
    if k == b.m.l1 || k == b.m.l2 {
      AtInjective(n, size, d, r, deme, k - lo);
      MinIsLeast(s', 0, size, (if k == b.m.l1 then b.m.w1 else b.m.w2) - lo);
    } else {
      MinIsLeast(s', 0, size, r);
    }
  }

  // ---- selection sort as values ----------------------------------------------------------

  ghost predicate Swapped(vs: seq<Individual>, now: seq<Individual>, i: int, j: int) {
    && 0 <= i < |vs| == |now| && 0 <= j < |vs|
    && now == vs[i := vs[j]][j := vs[i]]
  }

  /** Only a stretch changed, and it still holds the same individuals. */
  ghost predicate Rearranged(vs: seq<Individual>, now: seq<Individual>, lo: int, hi: int) {
    && 0 <= lo <= hi <= |vs| == |now|
    && now[..lo] == vs[..lo] && now[hi..] == vs[hi..]
    && multiset(now[lo..hi]) == multiset(vs[lo..hi])
  }

  lemma SwapRearranges(vs: seq<Individual>, now: seq<Individual>, lo: int, hi: int, i: int, j: int)
    requires Swapped(vs, now, i, j) && 0 <= lo <= i < hi <= |vs| && lo <= j < hi
    ensures Rearranged(vs, now, lo, hi)
  {
    var s := vs[lo..hi];
    assert now[lo..hi] == s[i - lo := s[j - lo]][j - lo := s[i - lo]];
  }

  /** The first `i` of a stretch are in their final places. */
  ghost predicate Settled(vs: seq<Individual>, lo: int, i: int, hi: int) {
    && 0 <= lo <= i <= hi <= |vs|
    && forall k, l :: lo <= k < i && k <= l < hi ==> vs[k].error <= vs[l].error
  }

  lemma SwapSettles(vs: seq<Individual>, now: seq<Individual>, lo: int, i: int, hi: int, m: int)
    requires Settled(vs, lo, i, hi) && i <= m < hi && Swapped(vs, now, i, m)
    requires forall k :: i <= k < hi ==> vs[m].error <= vs[k].error
    ensures Settled(now, lo, i + 1, hi)
  {
  }

  /** The first `d` demes are sorted, the others as they were. */
  ghost predicate SortedUpTo(vs: seq<Individual>, now: seq<Individual>, n: int, size: int, d: int) {
    && 0 < size && |now| == |vs| == n * size
    && forall e :: 0 <= e < n ==>
         && multiset(Deme(now, n, size, e)) == multiset(Deme(vs, n, size, e))
         && (e < d ==> Ascending(Deme(now, n, size, e)))
  }

  lemma OutsideStays(mid: seq<Individual>, now: seq<Individual>, lo: int, hi: int, from: int, to: int)
    requires Rearranged(mid, now, lo, hi) && 0 <= from <= to <= |mid| && (to <= lo || hi <= from)
    ensures now[from..to] == mid[from..to]
  {
    forall k | from <= k < to ensures now[k] == mid[k] {
      if to <= lo {
        assert now[k] == now[..lo][k] == mid[..lo][k];
      } else {
        assert now[k] == now[hi..][k - hi] == mid[hi..][k - hi];
      }
    }
  }

  /** Rearranging one deme leaves the others alone. */
  lemma OthersStay(mid: seq<Individual>, now: seq<Individual>, n: int, size: int, d: int, e: int)
    requires 0 <= d < n && 0 <= e < n && e != d && 0 < size && |mid| == n * size
    requires Rearranged(mid, now, Start(size, d), Start(size, d) + size)
    ensures Deme(now, n, size, e) == Deme(mid, n, size, e)
  {
    DemeInside(n, size, e);
    DemesApart(size, d, e);
    OutsideStays(mid, now, Start(size, d), Start(size, d) + size, Start(size, e), Start(size, e) + size);
    hide Rearranged;
  }

  lemma ThisSorted(mid: seq<Individual>, now: seq<Individual>, n: int, size: int, d: int)
    requires 0 <= d < n && 0 < size && |mid| == n * size
    requires Rearranged(mid, now, Start(size, d), Start(size, d) + size)
    requires Settled(now, Start(size, d), Start(size, d) + size, Start(size, d) + size)
    ensures multiset(Deme(now, n, size, d)) == multiset(Deme(mid, n, size, d)) && Ascending(Deme(now, n, size, d))
  {
    DemeInside(n, size, d);
    var lo := Start(size, d);
    assert Deme(now, n, size, d) == now[lo..lo + size] && Deme(mid, n, size, d) == mid[lo..lo + size];
  }

  lemma SortAdvances(vs: seq<Individual>, mid: seq<Individual>, now: seq<Individual>, n: int, size: int, d: int)
    requires 0 <= d < n && SortedUpTo(vs, mid, n, size, d)
    requires Rearranged(mid, now, Start(size, d), Start(size, d) + size)
    requires Settled(now, Start(size, d), Start(size, d) + size, Start(size, d) + size)
    ensures SortedUpTo(vs, now, n, size, d + 1)
  {
    forall e | 0 <= e < n && e != d ensures Deme(now, n, size, e) == Deme(mid, n, size, e) {
      OthersStay(mid, now, n, size, d, e);
    }
    ThisSorted(mid, now, n, size, d);
    assert |now| == n * size;
    hide Start, Rearranged, Settled, Deme, Ascending;
  }

  lemma SortStarts(vs: seq<Individual>, n: int, size: int)
    requires 0 < size && |vs| == n * size
    ensures SortedUpTo(vs, vs, n, size, 0)
  {
  }

  lemma SortEnds(vs: seq<Individual>, now: seq<Individual>, n: int, size: int)
    requires SortedUpTo(vs, now, n, size, n)
    ensures IsSorted(vs, now, n, size)
  {
  }

  // ---- runs as values ------------------------------------------------------------------

  /** The deme whose turn generation `g` is. */
  function Turn(n: int, g: nat): (d: int)
    requires 0 < n
    ensures 0 <= d < n
  {
    Next(n, if g == 0 then 0 else Turn(n, g - 1))
  }

  lemma TurnStep(n: int, g: nat)
    requires 0 < n
    ensures Turn(n, 0) == 1 % n && Turn(n, g + 1) == (Turn(n, g) + 1) % n
  {
  }

  lemma {:induction false} TurnIs(n: int, g: nat)
    requires 0 < n
    ensures Turn(n, g) == (g + 1) % n
  {
    if g == 0 {
    } else {
      TurnIs(n, g - 1);
      NextModulo(n, g);
      assert Turn(n, g) == Next(n, g % n);
    }
  }

  lemma NextModulo(n: int, g: nat)
    requires 0 < n
    ensures (g % n + 1) % n == (g + 1) % n
  {
    var q, r := g / n, g % n;
    NextOfParts(n, q, r);
    assert g == n * q + r;
  }

  lemma NextOfParts(n: int, q: int, r: int)
    requires 0 <= r < n
    ensures (r + 1) % n == (n * q + r + 1) % n
  {
    if r + 1 == n {
      OneMoreTime(n, q);
      Modulo(n, q + 1, 0);
      Modulo(n, 1, 0);
    } else {
      Modulo(n, q, r + 1);
      Modulo(n, 0, r + 1);
    }
  }

  /** Of any `n` consecutive generations at least one is a deme's. */
  lemma SomeTurn(n: int, g: nat, d: int) returns (k: nat)
    requires 0 <= d < n
    ensures g <= k < g + n && Turn(n, k) == d
  {
    hide Turn;
    var q, r := (g + 1) / n, (g + 1) % n;
    k := if r <= d then g + d - r else g + n + d - r;
    OneMoreTime(n, q);
    Modulo(n, if r <= d then q else q + 1, d);
    TurnIs(n, k);
  }

  /** And no two are. */
  lemma NoOtherTurn(n: int, k: nat, l: nat)
    requires 0 < n && -n < l - k < n && Turn(n, k) == Turn(n, l)
    ensures k == l
  {
    hide Turn;
    TurnIs(n, k);
    TurnIs(n, l);
    SameRemainder(n, k + 1, l + 1);
  }

  /** Among any `n` consecutive generations each deme has exactly one. */
  lemma EachDemeOnce(n: int, g: nat, d: int) returns (k: nat)
    requires 0 <= d < n
    ensures g <= k < g + n && Turn(n, k) == d
    ensures forall l :: g <= l < g + n && Turn(n, l) == d ==> l == k
  {
    hide Turn;
    k := SomeTurn(n, g, d);
    forall l | g <= l < g + n && Turn(n, l) == d ensures l == k {
      NoOtherTurn(n, k, l);
    }
  }

  /** One generation: its breeding, the population after it, and after the migration if one was due. */
  datatype Generation = Generation(b: Breeding, mid: seq<Individual>, after: seq<Individual>) {
    ghost function ChildErrors(): set<real> {
      {b.brood.child1.error, b.brood.child2.error}
    }
  }

  /** Once every population's worth of generations, if there are demes to exchange between. */
  predicate MigrationDue(rules: Rules, g: nat)
    requires rules.Valid()
  {
    0 < g && g % (rules.n * rules.size) == 0 && 1 < rules.n && rules.migration
  }

  /** Migrations fall on the multiples of the population's size other than 0, and nowhere else. */
  lemma MigrationsFall(rules: Rules, g: nat)
    requires rules.Valid()
    ensures MigrationDue(rules, g) <==>
              1 < rules.n && rules.migration && exists m: nat :: 1 <= m && g == rules.n * rules.size * m
  {
    var size := rules.n * rules.size;
    assert size >= 1;
    var q := g / size;
    if MigrationDue(rules, g) {
      assert g == size * q + g % size;
      assert q != 0;
    }
    forall m: nat | 1 <= m && g == size * m ensures 0 < g && g % size == 0 {
      Modulo(size, m, 0);
      assert size * m >= m;
    }
  }

  /** No deme's best is worse than it was. */
  ghost predicate NoWorse(rules: Rules, vs: seq<Individual>, now: seq<Individual>)
    requires rules.Valid()
  {
    && |vs| == |now| == rules.n * rules.size
    && forall d :: 0 <= d < rules.n ==> DemeMin(now, rules.n, rules.size, d) <= DemeMin(vs, rules.n, rules.size, d)
  }

  ghost predicate Exchange(rules: Rules, vs: seq<Individual>, now: seq<Individual>) {
    exists sorted :: IsSorted(vs, sorted, rules.n, rules.size)
                     && IsMigrated(sorted, now, rules.n, rules.size, rules.nm)
  }

  /** Where the deme starts whose turn generation `g` is. */
  function Base(rules: Rules, g: nat): (lo: int)
    requires rules.Valid()
    ensures 0 <= lo && lo + rules.size <= rules.n * rules.size
  {
    DemeInside(rules.n, rules.size, Turn(rules.n, g));
    Start(rules.size, Turn(rules.n, g))
  }

  ghost predicate BreedingAt(rules: Rules, g: nat, vs: seq<Individual>, now: seq<Individual>, b: Breeding)
    requires rules.Valid()
  {
    |vs| == rules.n * rules.size && IsBreeding(rules, vs, now, Base(rules, g), b)
  }

  ghost predicate FailsAt(rules: Rules, g: nat, vs: seq<Individual>, s: Seeds)
    requires rules.Valid()
  {
    |vs| == rules.n * rules.size && Fails(rules, vs, Base(rules, g), s)
  }

  ghost predicate AbandonsAt(rules: Rules, g: nat, vs: seq<Individual>, s: Seeds)
    requires rules.Valid()
  {
    |vs| == rules.n * rules.size && Abandons(rules, vs, Base(rules, g), s)
  }

  /** Generation `g` of the loop; a trial that is cut short ends before the migration. */
  ghost predicate IsGeneration(rules: Rules, g: nat, vs: seq<Individual>, x: Generation, cut: bool)
    requires rules.Valid()
  {
    && BreedingAt(rules, g, vs, x.mid, x.b)
    && if MigrationDue(rules, g) && !cut then Exchange(rules, x.mid, x.after) else x.after == x.mid
  }

  ghost predicate IsRun(rules: Rules, start: seq<Individual>, run: seq<Generation>, cut: bool)
    requires rules.Valid()
  {
    forall g :: 0 <= g < |run| ==> IsGeneration(rules, g, PopulationAt(start, run, g), run[g], cut && g == |run| - 1)
  }

  /** The population before generation `g`. */
  function PopulationAt(start: seq<Individual>, run: seq<Generation>, g: nat): seq<Individual>
    requires g <= |run|
  {
    if g == 0 then start else run[g - 1].after
  }

  /** The errors of all children bred before generation `g`. */
  ghost function Children(run: seq<Generation>, g: nat): set<real>
    requires g <= |run|
  {
    if g == 0 then {} else Children(run, g - 1) + run[g - 1].ChildErrors()
  }

  /** The standing before generation `g`, if no generation before it stopped the trial. */
  function StandingAt(rules: Rules, st: Standing, run: seq<Generation>, g: nat): Standing
    requires g <= |run|
  {
    if g == 0 then st
    else
      var b := run[g - 1].b.brood;
      Look(rules, StandingAt(rules, st, run, g - 1), g - 1, b.child1, b.child2)
  }

  predicate StopsAt(rules: Rules, st: Standing, run: seq<Generation>, g: nat)
    requires g < |run|
  {
    Stops(rules, StandingAt(rules, st, run, g), run[g].b.brood.child1, run[g].b.brood.child2)
  }

  predicate EndsAt(rules: Rules, st: Standing, run: seq<Generation>, g: nat)
    requires g < |run|
  {
    Ends(rules, StandingAt(rules, st, run, g), g, run[g].b.brood.child1, run[g].b.brood.child2)
  }

  /** The trial is over: with its last generation if it is cut short, and no earlier in any case. */
  ghost predicate CutRightly(rules: Rules, st: Standing, run: seq<Generation>, cut: bool) {
    && (cut <==> run != [] && EndsAt(rules, st, run, |run| - 1))
    && forall g :: 0 <= g < |run| - 1 ==> !EndsAt(rules, st, run, g)
  }

  /** An attempt at generation `g`, with the state of the generator it started from. */
  datatype Attempted = Attempted(g: nat, s: Seeds)

  /**
   One attempt leads to the next: either its crossover gave up, and generation and population are the same,
   or its breeding is that of the generation.  In both cases the generator goes on where it was left.
   */
  ghost predicate LeadsTo(rules: Rules, start: seq<Individual>, run: seq<Generation>, a: Attempted, b: Attempted)
    requires rules.Valid()
  {
    if b.g == a.g then
      a.g <= |run| && FailsAt(rules, a.g, PopulationAt(start, run, a.g), a.s)
      && b.s == AfterFailure(rules, PopulationAt(start, run, a.g), Base(rules, a.g), a.s)
    else a.g < |run| && b.g == a.g + 1 && run[a.g].b.start == a.s && b.s == run[a.g].b.brood.after
  }

  /** From the first attempt, in generation 0, each leads to the next. */
  ghost predicate LeadsAlong(rules: Rules, start: seq<Individual>, run: seq<Generation>, s: Seeds, all: seq<Attempted>)
    requires rules.Valid()
  {
    && all != [] && all[0] == Attempted(0, s)
    && forall k :: 0 <= k < |all| - 1 ==> LeadsTo(rules, start, run, all[k], all[k + 1])
  }

  /** The attempts of a run, from a state on and up to another one. */
  ghost predicate IsTrail(rules: Rules, start: seq<Individual>, run: seq<Generation>, s: Seeds,
                          trail: seq<Attempted>, now: Seeds)
    requires rules.Valid()
  {
    LeadsAlong(rules, start, run, s, trail + [Attempted(|run|, now)])
  }

  lemma NoWorseTrans(rules: Rules, a: seq<Individual>, b: seq<Individual>, c: seq<Individual>)
    requires rules.Valid() && NoWorse(rules, a, b) && NoWorse(rules, b, c)
    ensures NoWorse(rules, a, c)
  {
    hide DemeMin;
  }

  lemma BreedingNoWorse(rules: Rules, g: nat, vs: seq<Individual>, now: seq<Individual>, b: Breeding)
    requires rules.Valid() && BreedingAt(rules, g, vs, now, b)
    ensures NoWorse(rules, vs, now)
  {
    hide IsBreeding, DemeMin, Turn;
    BreedingReplaces(rules, vs, now, Base(rules, g), b);
    forall d | 0 <= d < rules.n
      ensures DemeMin(now, rules.n, rules.size, d) <= DemeMin(vs, rules.n, rules.size, d)
    {
      BreedingElitism(rules, vs, now, Turn(rules.n, g), b, d);
    }
  }

  lemma ExchangeNoWorse(rules: Rules, vs: seq<Individual>, now: seq<Individual>)
    requires rules.Valid() && rules.nm < rules.size && Exchange(rules, vs, now)
    ensures NoWorse(rules, vs, now)
  {
    var sorted :| IsSorted(vs, sorted, rules.n, rules.size)
                  && IsMigrated(sorted, now, rules.n, rules.size, rules.nm);
    assert |now| == |vs| == rules.n * rules.size;
    hide DemeMin, IsSorted, IsMigrated;
    forall d | 0 <= d < rules.n
      ensures DemeMin(now, rules.n, rules.size, d) <= DemeMin(vs, rules.n, rules.size, d)
    {
      MigrationElitism(vs, sorted, now, rules.n, rules.size, rules.nm, d);
    }
  }

  /** Deme 0 holds one individual all over, the other demes another. */
  function TwoKinds(a: Individual, b: Individual, n: int, size: int): seq<Individual>
    requires 0 <= n && 0 < size
  {
    seq(n * size, k => if k < size then a else b)
  }

  lemma UniformDeme(a: Individual, b: Individual, n: int, size: int, d: int)
    requires 0 <= d < n && 0 < size
    ensures var s := Deme(TwoKinds(a, b, n, size), n, size, d);
            && (forall r :: 0 <= r < size ==> s[r] == if d == 0 then a else b)
            && Ascending(s)
            && DemeMin(TwoKinds(a, b, n, size), n, size, d) == if d == 0 then a.error else b.error
  {
    var s := Deme(TwoKinds(a, b, n, size), n, size, d);
    assert 0 < d ==> size <= d * size;
    forall r | 0 <= r < size ensures s[r] == if d == 0 then a else b {
      assert s[r] == TwoKinds(a, b, n, size)[At(n, size, d, r)];
    }
    var k := MinIsAttained(s, 0, size);
  }

  /**
   Elitism does fail when the migrants fill whole demes: for any two individuals of different errors
   there is a population of them whose migration makes a deme's best worse.
   */
  lemma FullExchangeFails(rules: Rules, a: Individual, b: Individual)
    returns (vs: seq<Individual>, now: seq<Individual>)
    requires rules.Valid() && 2 <= rules.n && rules.nm == rules.size && b.error < a.error
    ensures vs == TwoKinds(a, b, rules.n, rules.size)
    ensures Exchange(rules, vs, now) && !NoWorse(rules, vs, now)
  {
    hide DemeMin;
    var n, size := rules.n, rules.size;
    vs := TwoKinds(a, b, n, size);
    now := RingOf(vs, n, size, size);
    forall d | 0 <= d < n ensures Ascending(Deme(vs, n, size, d)) {
      UniformDeme(a, b, n, size, d);
    }
    assert IsSorted(vs, vs, n, size);
    RingExists(vs, n, size, size);
    FullMigrationForgets(vs, vs, now, n, size);
    UniformDeme(a, b, n, size, 0);
    UniformDeme(a, b, n, size, 1);
  }

  lemma GenerationElitism(rules: Rules, g: nat, vs: seq<Individual>, x: Generation, cut: bool)
    requires rules.Valid() && rules.nm < rules.size && IsGeneration(rules, g, vs, x, cut)
    ensures NoWorse(rules, vs, x.after)
  {
    hide BreedingAt, NoWorse, Exchange;
    BreedingNoWorse(rules, g, vs, x.mid, x.b);
    if MigrationDue(rules, g) && !cut {
      ExchangeNoWorse(rules, x.mid, x.after);
      NoWorseTrans(rules, vs, x.mid, x.after);
    }
  }

  /**
   Elitism over whole runs: however many generations pass, whatever the breedings and migrations, no
   deme's best is ever worse than it was - provided the migrants do not fill whole demes.
   */
  lemma {:induction false} RunElitism(rules: Rules, start: seq<Individual>, run: seq<Generation>, cut: bool,
                                      g: nat, h: nat)
    requires rules.Valid() && IsRun(rules, start, run, cut) && rules.nm < rules.size
    requires g < h <= |run|
    ensures NoWorse(rules, PopulationAt(start, run, g), PopulationAt(start, run, h))
    decreases h
  {
    hide NoWorse, IsGeneration;
    var mid := PopulationAt(start, run, h - 1);
    GenerationElitism(rules, h - 1, mid, run[h - 1], cut && h == |run|);
    if g == h - 1 {
    } else {
      RunElitism(rules, start, run, cut, g, h - 1);
      NoWorseTrans(rules, PopulationAt(start, run, g), mid, run[h - 1].after);
    }
  }

  lemma PopulationPrefix(start: seq<Individual>, run: seq<Generation>, x: Generation, g: nat)
    requires g <= |run|
    ensures PopulationAt(start, run + [x], g) == PopulationAt(start, run, g)
  {
    if g > 0 {
      assert (run + [x])[g - 1] == run[g - 1];
    }
  }

  lemma {:induction false} StandingPrefix(rules: Rules, st: Standing, run: seq<Generation>, x: Generation, g: nat)
    requires g <= |run|
    ensures StandingAt(rules, st, run + [x], g) == StandingAt(rules, st, run, g)
  {
    hide Look;
    if g == 0 {
    } else {
      StandingPrefix(rules, st, run, x, g - 1);
    }
  }

  lemma LastPass(rules: Rules, start: seq<Individual>, st: Standing, run: seq<Generation>, x: Generation)
    ensures PopulationAt(start, run + [x], |run| + 1) == x.after
    ensures StandingAt(rules, st, run + [x], |run|) == StandingAt(rules, st, run, |run|)
    ensures StandingAt(rules, st, run + [x], |run| + 1)
         == Look(rules, StandingAt(rules, st, run, |run|), |run|, x.b.brood.child1, x.b.brood.child2)
  {
    hide Look;
    assert (run + [x])[|run|] == x;
    StandingPrefix(rules, st, run, x, |run|);
  }

  /** A run extended by one more generation. */
  lemma Lengthen(rules: Rules, start: seq<Individual>, run: seq<Generation>, x: Generation, cut: bool)
    requires rules.Valid() && IsRun(rules, start, run, false)
    requires IsGeneration(rules, |run|, PopulationAt(start, run, |run|), x, cut)
    ensures IsRun(rules, start, run + [x], cut)
    ensures PopulationAt(start, run + [x], |run| + 1) == x.after
  {
    hide IsGeneration, PopulationAt, Rules.Valid;
    PopulationOfLast(start, run, x);
    var longer := run + [x];
    forall g | 0 <= g < |longer|
      ensures IsGeneration(rules, g, PopulationAt(start, longer, g), longer[g], cut && g == |longer| - 1)
    {
      PopulationPrefix(start, run, x, g);
      assert longer[g] == if g < |run| then run[g] else x;
      if g < |run| {
        assert IsGeneration(rules, g, PopulationAt(start, run, g), run[g], false && g == |run| - 1);
      }
    }
  }

  lemma PopulationOfLast(start: seq<Individual>, run: seq<Generation>, x: Generation)
    ensures PopulationAt(start, run + [x], |run| + 1) == x.after
  {
  }

  /** A trial that was not over goes on by one generation, and is over exactly when that one ends it. */
  lemma CutLater(rules: Rules, st: Standing, run: seq<Generation>, x: Generation)
    requires CutRightly(rules, st, run, false)
    ensures CutRightly(rules, st, run + [x],
                       Ends(rules, StandingAt(rules, st, run, |run|), |run|, x.b.brood.child1, x.b.brood.child2))
    ensures StopsAt(rules, st, run + [x], |run|) <==>
              Stops(rules, StandingAt(rules, st, run, |run|), x.b.brood.child1, x.b.brood.child2)
  {
    hide StandingAt, Ends, Stops;
    var longer := run + [x];
    forall g | 0 <= g <= |run|
      ensures longer[g] == (if g < |run| then run[g] else x)
      ensures StandingAt(rules, st, longer, g) == StandingAt(rules, st, run, g)
    {
      StandingPrefix(rules, st, run, x, g);
    }
    forall g | 0 <= g < |run| ensures !EndsAt(rules, st, longer, g) {
      assert !EndsAt(rules, st, run, g);
    }
  }

  lemma LeadsToLater(rules: Rules, start: seq<Individual>, run: seq<Generation>, x: Generation,
                     a: Attempted, b: Attempted)
    requires rules.Valid() && LeadsTo(rules, start, run, a, b)
    ensures LeadsTo(rules, start, run + [x], a, b)
  {
    hide FailsAt, PopulationAt, AfterFailure, Base, Rules.Valid;
    if a.g <= |run| {
      PopulationPrefix(start, run, x, a.g);
    }
  }

  /** One more attempt from where the trail ends. */
  lemma TrailGrows(rules: Rules, start: seq<Individual>, run: seq<Generation>, s: Seeds,
                   trail: seq<Attempted>, last: Attempted, next: Attempted)
    requires rules.Valid() && LeadsAlong(rules, start, run, s, trail + [last])
    requires LeadsTo(rules, start, run, last, next)
    ensures LeadsAlong(rules, start, run, s, trail + [last] + [next])
  {
    hide LeadsTo;
    var all, longer := trail + [last], trail + [last] + [next];
    forall k | 0 <= k < |longer| - 1 ensures LeadsTo(rules, start, run, longer[k], longer[k + 1]) {
      assert longer[k] == all[k];
      if k < |trail| {
        assert longer[k + 1] == all[k + 1];
      }
    }
  }

  /** A successful attempt. */
  lemma TrailSucceeds(rules: Rules, start: seq<Individual>, run: seq<Generation>, s: Seeds,
                      trail: seq<Attempted>, now: Seeds, x: Generation)
    requires rules.Valid() && IsTrail(rules, start, run, s, trail, now) && x.b.start == now
    ensures IsTrail(rules, start, run + [x], s, trail + [Attempted(|run|, now)], x.b.brood.after)
  {
    var last, next := Attempted(|run|, now), Attempted(|run| + 1, x.b.brood.after);
    assert LeadsTo(rules, start, run + [x], last, next);
    hide LeadsTo;
    var all := trail + [last];
    forall k | 0 <= k < |all| - 1 ensures LeadsTo(rules, start, run + [x], all[k], all[k + 1]) {
      LeadsToLater(rules, start, run, x, all[k], all[k + 1]);
    }
    TrailGrows(rules, start, run + [x], s, trail, last, next);
  }

  /** A failed one. */
  lemma TrailFails(rules: Rules, start: seq<Individual>, run: seq<Generation>, s: Seeds,
                   trail: seq<Attempted>, now: Seeds, after: Seeds)
    requires rules.Valid() && IsTrail(rules, start, run, s, trail, now)
    requires FailsAt(rules, |run|, PopulationAt(start, run, |run|), now)
    requires after == AfterFailure(rules, PopulationAt(start, run, |run|), Base(rules, |run|), now)
    ensures IsTrail(rules, start, run, s, trail + [Attempted(|run|, now)], after)
  {
    var last, next := Attempted(|run|, now), Attempted(|run|, after);
    hide FailsAt, PopulationAt, AfterFailure, Base, Rules.Valid;
    TrailGrows(rules, start, run, s, trail, last, next);
  }

  // ---- a trial is determined by its seeds ---------------------------------------------------

  /** Population and state of the generator determine a breeding, and that it does not fail. */
  lemma OneBreeding(rules: Rules, g: nat, vs: seq<Individual>, mid: seq<Individual>, b: Breeding,
                    mid': seq<Individual>, b': Breeding)
    requires rules.Valid() && BreedingAt(rules, g, vs, mid, b)
    ensures !FailsAt(rules, g, vs, b.start)
    ensures BreedingAt(rules, g, vs, mid', b') && b'.start == b.start ==> b' == b && mid' == mid
  {
    hide Meet, Bred, Base;
  }

  /** The same demes are sorted the same way: one sort is run on both. */
  ghost predicate SameSort(run: seq<Generation>, run': seq<Generation>) {
    forall g :: 0 <= g < |run| && g < |run'| && run[g].mid == run'[g].mid ==> run[g].after == run'[g].after
  }

  /**
   A trial is determined by its initial population and the state of the generator: after as many attempts any
   two trials are in the same generation, in the same state, and have bred the same.
   */
  lemma {:induction false} Reproducible(rules: Rules, start: seq<Individual>, s: Seeds,
                                        run: seq<Generation>, cut: bool, all: seq<Attempted>,
                                        run': seq<Generation>, cut': bool, all': seq<Attempted>, k: nat)
    requires rules.Valid() && IsRun(rules, start, run, cut) && IsRun(rules, start, run', cut') && SameSort(run, run')
    requires LeadsAlong(rules, start, run, s, all) && LeadsAlong(rules, start, run', s, all')
    requires k < |all| && k < |all'|
    ensures all[k] == all'[k] && all[k].g <= |run| && all[k].g <= |run'|
    ensures run[..all[k].g] == run'[..all[k].g]
  {
    hide LeadsTo, IsRun, SameSort, Rules.Valid;
    if k == 0 {
    } else {
      Reproducible(rules, start, s, run, cut, all, run', cut', all', k - 1);
      assert LeadsTo(rules, start, run, all[k - 1], all[k - 1 + 1]);
      assert LeadsTo(rules, start, run', all'[k - 1], all'[k - 1 + 1]);
      SameAttempt(rules, start, run, cut, run', cut', all[k - 1], all[k], all'[k]);
    }
  }

  lemma SameAttempt(rules: Rules, start: seq<Individual>, run: seq<Generation>, cut: bool,
                    run': seq<Generation>, cut': bool, a: Attempted, b: Attempted, b': Attempted)
    requires rules.Valid() && IsRun(rules, start, run, cut) && IsRun(rules, start, run', cut') && SameSort(run, run')
    requires LeadsTo(rules, start, run, a, b) && LeadsTo(rules, start, run', a, b')
    requires a.g <= |run| && a.g <= |run'| && run[..a.g] == run'[..a.g]
    ensures b == b' && b.g <= |run| && b.g <= |run'| && run[..b.g] == run'[..b.g]
  {
    hide BreedingAt, FailsAt, AfterFailure, Base, Rules.Valid, IsRun, SameSort, PopulationAt;
    SamePopulation(start, run, run', a.g);
    if b.g != a.g || b'.g != a.g {
      SameGeneration(rules, start, run, cut, run', cut', a, b, b');
      assert run[..a.g + 1] == run[..a.g] + [run[a.g]] && run'[..a.g + 1] == run'[..a.g] + [run'[a.g]];
    }
  }

  lemma SamePopulation(start: seq<Individual>, run: seq<Generation>, run': seq<Generation>, g: nat)
    requires g <= |run| && g <= |run'| && run[..g] == run'[..g]
    ensures PopulationAt(start, run, g) == PopulationAt(start, run', g)
  {
    if g > 0 {
      assert run[g - 1] == run[..g][g - 1] == run'[..g][g - 1] == run'[g - 1];
    }
  }

  /** If one of two trials succeeds with an attempt, so does the other, and to the same effect. */
  lemma SameGeneration(rules: Rules, start: seq<Individual>, run: seq<Generation>, cut: bool,
                       run': seq<Generation>, cut': bool, a: Attempted, b: Attempted, b': Attempted)
    requires rules.Valid() && IsRun(rules, start, run, cut) && IsRun(rules, start, run', cut') && SameSort(run, run')
    requires LeadsTo(rules, start, run, a, b) && LeadsTo(rules, start, run', a, b')
    requires a.g <= |run| && a.g <= |run'| && PopulationAt(start, run, a.g) == PopulationAt(start, run', a.g)
    requires b.g != a.g || b'.g != a.g
    ensures b == b' && b.g == a.g + 1 <= |run| && a.g < |run'| && run[a.g] == run'[a.g]
  {
    var g, vs := a.g, PopulationAt(start, run, a.g);
    hide BreedingAt, FailsAt, AfterFailure, Base, Exchange, Rules.Valid, PopulationAt;
    if b.g != g {
      assert IsGeneration(rules, g, vs, run[g], cut && g == |run| - 1);
      OneBreeding(rules, g, vs, run[g].mid, run[g].b, run[g].mid, run[g].b);
    }
    if b'.g != g {
      assert IsGeneration(rules, g, vs, run'[g], cut' && g == |run'| - 1);
      OneBreeding(rules, g, vs, run'[g].mid, run'[g].b, run'[g].mid, run'[g].b);
    }
    OneBreeding(rules, g, vs, run[g].mid, run[g].b, run'[g].mid, run'[g].b);
  }

  // ---- what the best so far is the best of ------------------------------------------------

  lemma SortedWasThere(vs: seq<Individual>, sorted: seq<Individual>, n: int, size: int)
    requires IsSorted(vs, sorted, n, size)
    ensures forall k :: 0 <= k < |sorted| ==> sorted[k] in vs
  {
    forall k | 0 <= k < |sorted| ensures sorted[k] in vs {
      var d, r := AtCovers(n, size, k);
      assert Deme(sorted, n, size, d)[r] in multiset(Deme(vs, n, size, d));
      assert Deme(sorted, n, size, d)[r] in Deme(vs, n, size, d);
    }
  }

  lemma ExchangeMembers(rules: Rules, vs: seq<Individual>, now: seq<Individual>)
    requires rules.Valid() && Exchange(rules, vs, now)
    ensures forall x :: x in now ==> x in vs
  {
    hide IsSorted, IsMigrated;
    var sorted :| IsSorted(vs, sorted, rules.n, rules.size)
                  && IsMigrated(sorted, now, rules.n, rules.size, rules.nm);
    SortedWasThere(vs, sorted, rules.n, rules.size);
    MigratedWasThere(sorted, now, rules.n, rules.size, rules.nm);
  }

  lemma BreedingMembers(rules: Rules, g: nat, vs: seq<Individual>, x: Generation)
    requires rules.Valid() && BreedingAt(rules, g, vs, x.mid, x.b)
    ensures forall y :: y in x.mid ==> y in vs || y.error in x.ChildErrors()
  {
    hide IsBreeding, Base;
    BreedingReplaces(rules, vs, x.mid, Base(rules, g), x.b);
    forall k | 0 <= k < |x.mid| ensures x.mid[k] in vs || x.mid[k].error in x.ChildErrors() {
      assert k != x.b.m.l1 && k != x.b.m.l2 ==> x.mid[k] == vs[k];
    }
  }

  /** Everybody is from the initial population or has the error of a child bred since. */
  lemma {:induction false} MembersOrigin(rules: Rules, start: seq<Individual>, run: seq<Generation>, cut: bool, g: nat)
    requires rules.Valid() && IsRun(rules, start, run, cut) && g <= |run|
    ensures forall y :: y in PopulationAt(start, run, g) ==> y in start || y.error in Children(run, g)
  {
    hide BreedingAt, Exchange, Generation.ChildErrors;
    if g == 0 {
    } else {
      var vs, x := PopulationAt(start, run, g - 1), run[g - 1];
      MembersOrigin(rules, start, run, cut, g - 1);
      assert IsGeneration(rules, g - 1, vs, x, cut && g == |run|);
      BreedingMembers(rules, g - 1, vs, x);
      if x.after != x.mid {
        ExchangeMembers(rules, x.mid, x.after);
      }
    }
  }

  /** Whoever of the children improved on everything before became best so far, at generation `h`. */
  ghost predicate Improved(rules: Rules, st: Standing, run: seq<Generation>, g: nat, h: nat)
    requires h < g <= |run|
  {
    var better := BetterOf(run[h].b.brood.child1, run[h].b.brood.child2);
    var now := StandingAt(rules, st, run, g);
    && now.improved == h && now.best == Some(better) && now.lowest == better.error < st.lowest
    && (rules.validation.Some? ==>
          now.lastValidate == rules.validation.value.error(Layout(rules.cfg.frame, better.prog)))
    && forall k :: 0 <= k < h ==> now.lowest < run[k].b.brood.child1.error && now.lowest < run[k].b.brood.child2.error
  }

  /**
   The standing is the best of what has been bred: it is as it was at the start if no child was better than
   that, and else the first child of the lowest error, with the generation that bred it.
   */
  lemma {:induction false} StandingIsBest(rules: Rules, st: Standing, run: seq<Generation>, g: nat)
    requires g <= |run|
    ensures var now := StandingAt(rules, st, run, g);
            && now.lowest <= st.lowest
            && (forall e :: e in Children(run, g) ==> now.lowest <= e)
            && (now == st || exists h :: 0 <= h < g && Improved(rules, st, run, g, h))
  {
    hide Layout, Improved, BetterOf;
    if g == 0 {
    } else {
      StandingIsBest(rules, st, run, g - 1);
      var before, now := StandingAt(rules, st, run, g - 1), StandingAt(rules, st, run, g);
      var b := run[g - 1].b.brood;
      BetterIsLower(b.child1, b.child2);
      if BetterOf(b.child1, b.child2).error < before.lowest {
        ImprovedNow(rules, st, run, g - 1);
      } else if now != st {
        var h :| 0 <= h < g - 1 && Improved(rules, st, run, g - 1, h);
        StaysImproved(rules, st, run, g, h);
      }
    }
  }

  lemma BetterIsLower(a: Individual, b: Individual)
    ensures BetterOf(a, b) in {a, b}
    ensures BetterOf(a, b).error <= a.error && BetterOf(a, b).error <= b.error
  {
  }

  lemma ImprovedNow(rules: Rules, st: Standing, run: seq<Generation>, g: nat)
    requires g < |run|
    requires var b := run[g].b.brood;
             BetterOf(b.child1, b.child2).error < StandingAt(rules, st, run, g).lowest <= st.lowest
    requires forall e :: e in Children(run, g) ==> StandingAt(rules, st, run, g).lowest <= e
    ensures Improved(rules, st, run, g + 1, g)
  {
    hide Layout, BetterOf;
    forall k | 0 <= k < g
      ensures run[k].b.brood.child1.error in Children(run, g) && run[k].b.brood.child2.error in Children(run, g)
    {
      ChildrenInclude(run, g, k);
    }
  }

  lemma StaysImproved(rules: Rules, st: Standing, run: seq<Generation>, g: nat, h: nat)
    requires 0 <= h < g - 1 < |run| && Improved(rules, st, run, g - 1, h)
    requires StandingAt(rules, st, run, g) == StandingAt(rules, st, run, g - 1)
    ensures Improved(rules, st, run, g, h)
  {
    hide Layout, BetterOf, StandingAt;
  }

  lemma {:induction false} ChildrenInclude(run: seq<Generation>, g: nat, k: nat)
    requires k < g <= |run|
    ensures run[k].b.brood.child1.error in Children(run, g) && run[k].b.brood.child2.error in Children(run, g)
    decreases g
  {
    if k == g - 1 {
    } else {
      ChildrenInclude(run, g - 1, k);
    }
  }

  /**
   The best so far is the best of the bred children, so it is at least as good as everybody in the
   population exactly when it is at least as good as those who have been there from the beginning.
   */
  lemma BestOfAll(rules: Rules, start: seq<Individual>, st: Standing, run: seq<Generation>, cut: bool, g: nat)
    requires rules.Valid() && IsRun(rules, start, run, cut) && g <= |run|
    ensures var now, lowest := PopulationAt(start, run, g), StandingAt(rules, st, run, g).lowest;
            (forall y :: y in now ==> lowest <= y.error) <==> (forall y :: y in now && y in start ==> lowest <= y.error)
  {
    hide IsRun, PopulationAt, StandingAt, Children, Improved;
    MembersOrigin(rules, start, run, cut, g);
    StandingIsBest(rules, st, run, g);
  }

  lemma NothingYet(rules: Rules, start: seq<Individual>, st: Standing, s: Seeds)
    requires rules.Valid()
    ensures IsRun(rules, start, [], false) && CutRightly(rules, st, [], false)
    ensures IsTrail(rules, start, [], s, [], s)
    ensures PopulationAt(start, [], 0) == start && StandingAt(rules, st, [], 0) == st
  {
  }
}
