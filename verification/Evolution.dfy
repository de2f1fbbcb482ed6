/**
 The population of lgp.c: random initialisation, the steady-state tournament within a deme, the
 best-so-far individual, and ring migration between demes.  Individuals are objects rewritten in
 place; `Views` is their value, and every method is proved to do what Trials says of that value.
 */
module Evolution {
  import opened FastRand
  import opened Opcodes
  import opened Layouts
  import opened Genome
  import opened Migration
  import opened Trials
  import opened Wrappers

  /** `n` individuals that share no storage with each other or with `b`. */
  method Allocate(cfg: Config, n: nat, b: Pop) returns (a: array<Pop>, ghost store: set<object>)
    requires cfg.Valid() && b.Storage(cfg)
    ensures fresh(a) && a.Length == n && fresh(store - {b, b.indices, b.code}) && a !in store
    ensures {b, b.indices, b.code} <= store
    ensures forall i :: 0 <= i < n ==>
              a[i] in store && a[i].indices in store && a[i].code in store && a[i].Storage(cfg) && Apart(a[i], b)
    ensures forall i, j :: 0 <= i < j < n ==> Apart(a[i], a[j])
  {
    a := new Pop[n](_ => b);
    store := {b, b.indices, b.code};
    for i := 0 to n
      invariant fresh(store - {b, b.indices, b.code}) && a !in store
      invariant {b, b.indices, b.code} <= store
      invariant forall k :: 0 <= k < i ==>
                  a[k] in store && a[k].indices in store && a[k].code in store && a[k].Storage(cfg) && Apart(a[k], b)
      invariant forall k, l :: 0 <= k < l < i ==> Apart(a[k], a[l])
    {
      var q := new Pop(cfg);
      a[i] := q;
      store := store + {q, q.indices, q.code};
    }
  }

  class Population {
    const rules: Rules
    const pop: array<Pop>
    const best: Pop
    const rng: Generator
    /** Lowest error of any child bred so far; `ldblMax` as long as there has been none below it. */
    var lowest: real
    /** Validation error of the best so far, if there is a validation range. */
    var lastValidate: real
    const ldblMax: real
    /** Whether there is a best so far. */
    ghost var found: bool
    /** All the storage of the individuals. */
    ghost const store: set<object>

    ghost predicate Owns(q: Pop) {
      q in store && q.indices in store && q.code in store && q.Storage(rules.cfg)
    }

    /** Sizes, and no storage is shared. */
    ghost predicate Shape()
      reads pop
    {
      && rules.Valid() && pop.Length == rules.n * rules.size
      && this !in store && pop !in store && rng !in store
      && (forall i :: 0 <= i < pop.Length ==> Owns(pop[i]) && Apart(pop[i], best))
      && (forall i, j :: 0 <= i < j < pop.Length ==> Apart(pop[i], pop[j]))
      && Owns(best)
    }

    ghost function View(q: Pop): Individual
      reads q
    {
      Individual(q.prog, q.error)
    }

    /** The individual is well formed, and its error is that of its bytes. */
    ghost predicate Alive(q: Pop)
      reads q, q.indices, q.code
    {
      q.Holds(rules.cfg, q.prog) && View(q) == Rated(rules, q.prog)
    }

    ghost predicate Valid()
      reads this, pop, rng, store
    {
      && Shape() && rng.Valid()
      && (forall i :: 0 <= i < pop.Length ==> Alive(pop[i]))
      && BestSoFar()
    }

    /** If there is a best so far, it is well formed and rated, and what does not terminate never becomes it. */
    ghost predicate BestSoFar()
      reads this, best, best.indices, best.code
    {
      && lowest <= ldblMax
      && (found ==> Alive(best) && best.error == lowest < ldblMax)
    }

    ghost function Views(): (vs: seq<Individual>)
      reads pop, pop[..]
      ensures |vs| == pop.Length
      ensures forall i :: 0 <= i < pop.Length ==> vs[i] == Individual(pop[i].prog, pop[i].error)
    {
      seq(pop.Length, i requires 0 <= i < pop.Length reads pop, pop[..] => Individual(pop[i].prog, pop[i].error))
    }

    /** The standing of the trial; the generation of the last improvement is the loop's to keep. */
    ghost function Record(improved: int): Standing
      reads this, best
    {
      Standing(lowest, lastValidate, improved, if found then Some(View(best)) else None)
    }

    /** Allocates the population and fills it with random programs. */
    constructor (rules: Rules, seeds: Seeds, ldblMax: real)
      requires rules.Valid() && seeds.Valid() && seeds != STUCK
      ensures Valid() && this.rules == rules && this.ldblMax == ldblMax && fresh(store)
      ensures |Views()| == rules.n * rules.size
      ensures forall k :: 0 <= k < rules.n * rules.size ==> Views()[k] == Original(rules, seeds, k)
      ensures rng.State() == SeedsBefore(rules.cfg, seeds, rules.n * rules.size)
      ensures Record(0) == Standing(ldblMax, ldblMax, 0, None)
    {
      var b := new Pop(rules.cfg);
      var a, s := Allocate(rules.cfg, rules.n * rules.size, b);
      this.rules := rules;
      pop, best := a, b;
      rng := new Generator(seeds);
      lowest, lastValidate, this.ldblMax, found := ldblMax, ldblMax, ldblMax, false;
      store := s;
      new;
      InitPrograms();
    }

    /** A random program, rated. */
    method Originate(q: Pop)
      requires rules.cfg.Valid() && rng.Valid() && q.Storage(rules.cfg)
      modifies rng, q, q.indices, q.code
      ensures rng.Valid() && Alive(q)
      ensures View(q) == Rated(rules, InitialProgram(rules.cfg, old(rng.State())))
      ensures rng.State() == AfterInitialProgram(rules.cfg, old(rng.State()))
    {
      hide Flat, Config.Valid, Config.WellFormed, InitialProgram, AfterInitialProgram;
      var p := InitProgram(rules.cfg, rng, q);
      q.prog := p;
      q.error := rules.fit(q.code[..q.codelen]);
    }

    /** `init_programs` and the first evaluation of everybody. */
    method InitPrograms()
      requires Shape() && rng.Valid() && lowest == ldblMax && !found
      modifies rng, store
      ensures Valid()
      ensures forall k :: 0 <= k < pop.Length ==> Views()[k] == Original(rules, old(rng.State()), k)
      ensures rng.State() == SeedsBefore(rules.cfg, old(rng.State()), pop.Length)
    {
      hide Flat, Layout, Config.Valid, Config.WellFormed, Pop.Represents;
      hide Rated, InitialProgram, AfterInitialProgram, Generator.State;
      ghost var s := rng.State();
      for i := 0 to pop.Length
        invariant Shape() && rng.Valid()
        invariant forall k :: 0 <= k < i ==> Alive(pop[k]) && View(pop[k]) == Original(rules, s, k)
        invariant rng.State() == SeedsBefore(rules.cfg, s, i)
      {
        Originate(pop[i]);
      }
    }

    // ---- breeding -----------------------------------------------------------------------

    /** Mutates a child and rates it. */
    method MutateChild(q: Pop)
      requires rules.cfg.Valid() && rng.Valid() && q.Holds(rules.cfg, q.prog)
      modifies rng, q`prog, q`error, q.code
      ensures rng.Valid() && Alive(q)
      ensures View(q) == Child(rules, old(q.prog), old(rng.State()))
      ensures rng.State() == AfterChild(rules, old(q.prog), old(rng.State()))
    {
      hide Flat, Config.Generates, Mutated, MutationDraws, Draws, Run, Generator.State;
      ghost var p := q.prog;
      var p' := Mutate(rules.cfg, rng, q, rules.probability, p);
      q.prog := p';
      q.error := rules.fit(q.code[..q.codelen]);
    }

    /** Notes which program the buffers now hold. */
    method Note(q: Pop, ghost p: seq<Instr>)
      requires q.Holds(rules.cfg, p)
      modifies q`prog
      ensures q.Holds(rules.cfg, q.prog) && q.prog == p
    {
      q.prog := p;
    }

    /** Crosses two individuals into the slots of two others, mutates and rates the children. */
    method Mate(a: Pop, b: Pop, c1: Pop, c2: Pop) returns (ok: bool, ghost brood: Option<Brood>)
      requires rules.cfg.Valid() && rng.Valid() && Alive(a) && Alive(b) && Alive(c1) && Alive(c2)
      requires Apart(a, c1) && Apart(a, c2) && Apart(b, c1) && Apart(b, c2) && Apart(c1, c2)
      modifies rng, c1, c1.indices, c1.code, c2, c2.indices, c2.code
      ensures rng.Valid() && Alive(c1) && Alive(c2) && a.prog != [] && b.prog != []
      ensures ok == brood.Some? && brood == Bred(rules, a.prog, b.prog, old(rng.State()))
      ensures if ok then View(c1) == brood.value.child1 && View(c2) == brood.value.child2
              else unchanged(c1) && unchanged(c2)
      ensures rng.State() == if ok then brood.value.after
                             else Crossed(rules.cfg, |a.prog|, |b.prog|, old(rng.State())).after
    {
      hide Flat, Layout, Config.Valid, Config.WellFormed, Pop.Represents, Drawn, Accepted, Draw;
      hide Crossed, Child, AfterChild, Rated, Generator.State;
      NotEmpty(rules.cfg, a.prog);
      NotEmpty(rules.cfg, b.prog);
      brood := Bred(rules, a.prog, b.prog, rng.State());
      ghost var i, j, twoPoint, draws;
      ok, i, j, twoPoint, draws := Crossover(rules.cfg, rng, a, b, c1, c2, a.prog, b.prog);
      if ok {
        Note(c1, Splice(a.prog, b.prog, i, j));
        Note(c2, Splice(b.prog, a.prog, j, i));
        MutateChild(c1);
        MutateChild(c2);
      }
    }

    /** The same on positions of the population; everybody else stays, and so does the best so far. */
    method Reproduce(ghost m: Meeting, w1: int, w2: int, l1: int, l2: int)
      returns (ok: bool, ghost brood: Option<Brood>)
      requires Valid() && m == Meeting(w1, w2, l1, l2) && m.Within(0, pop.Length)
      modifies rng, store
      ensures Valid() && View(best) == old(View(best))
      ensures old(Views())[w1].prog != [] && old(Views())[w2].prog != []
      ensures var s, p, q := old(rng.State()), old(Views())[w1].prog, old(Views())[w2].prog;
              && ok == brood.Some? && brood == Bred(rules, p, q, s)
              && rng.State() == if ok then brood.value.after else Crossed(rules.cfg, |p|, |q|, s).after
      ensures Views() == if ok then old(Views())[l1 := brood.value.child1][l2 := brood.value.child2] else old(Views())
    {
      hide Flat, Layout, Config.Valid, Config.WellFormed, Pop.Represents, Splice, Bred, Crossed, Rated, Generator.State;
      ok, brood := Mate(pop[w1], pop[w2], pop[l1], pop[l2]);
    }

    /** Of two positions, the one with the lower error wins; on a tie either may. */
    method Compare(s1: int, s2: int) returns (winner: int, loser: int)
      requires Valid() && 0 <= s1 < pop.Length && 0 <= s2 < pop.Length
      ensures var first := FirstWins(rules.cfg, Views()[s1], Views()[s2]);
              winner == (if first then s1 else s2) && loser == if first then s2 else s1
    {
      hide Apart, Owns, BestSoFar, Layout, Pop.Slot, Pop.HasIndices, Config.WellFormed;
      assert Alive(pop[s1]);
      if pop[s1].error == pop[s2].error {
        if pop[s1].codelen as real < pop[s2].error {
          winner, loser := s1, s2;
        } else {
          winner, loser := s2, s1;
        }
      } else if pop[s1].error < pop[s2].error {
        winner, loser := s1, s2;
      } else {
        winner, loser := s2, s1;
      }
    }

    /** Draws places in a deme until one is not taken, as long as the patience lasts. */
    method DrawOther(lo: int, size: nat, taken: set<int>, patience: nat) returns (found: bool, s: int)
      requires rng.Valid() && 0 < size
      modifies rng
      ensures rng.Valid()
      ensures Pick(lo, size, taken, old(rng.State()), patience) == if found then Some(Found(s, rng.State())) else None
    {
      hide Draw, Step, Generator.State, Generator.Valid;
      found, s := false, lo;
      var left := patience;
      while left > 0 && !found
        invariant rng.Valid()
        invariant Pick(lo, size, taken, old(rng.State()), patience)
               == if found then Some(Found(s, rng.State())) else Pick(lo, size, taken, rng.State(), left)
      {
        var k := rng.Below(size);
        s := lo + k;
        found := s !in taken;
        left := left - 1;
      }
    }

    /** Four different places in a deme. */
    method DrawFour(lo: int, size: nat, patience: nat) returns (found: bool, q: Quad)
      requires rng.Valid() && 0 < size
      modifies rng
      ensures rng.Valid()
      ensures Selection(lo, size, old(rng.State()), patience) == if found then Some(Selected(q, rng.State())) else None
      ensures found ==> q.Within(lo, lo + size)
    {
      hide Pick, Generator.State, Generator.Valid;
      q := Quad(lo, lo, lo, lo);
      var s1, s2, s3, s4;
      found, s1 := DrawOther(lo, size, {}, patience);
      if found {
        found, s2 := DrawOther(lo, size, {s1}, patience);
        if found {
          found, s3 := DrawOther(lo, size, {s1, s2}, patience);
          if found {
            found, s4 := DrawOther(lo, size, {s1, s2, s3}, patience);
            if found {
              q := Quad(s1, s2, s3, s4);
            }
          }
        }
      }
    }

    /** Four different members of a deme are drawn and meet in two pairs. */
    method Select(lo: int) returns (found: bool, w1: int, w2: int, l1: int, l2: int)
      requires Valid() && 0 <= lo && lo + rules.size <= pop.Length
      modifies rng
      ensures Valid() && Views() == old(Views())
      ensures Meet(rules, Views(), lo, old(rng.State())) ==
                if found then Some(Met(Meeting(w1, w2, l1, l2), rng.State())) else None
    {
      hide Owns, Alive, BestSoFar, Apart, Selection, FirstWins, Generator.State, Views;
      w1, w2, l1, l2 := lo, lo, lo, lo;
      var q;
      found, q := DrawFour(lo, rules.size, rules.patience);
      if found {
        w1, l1 := Compare(q.s1, q.s2);
        w2, l2 := Compare(q.s3, q.s4);
      }
    }

    /**
     Of two fresh children the better one becomes the best so far if it beats every child before it,
     unless its validation error shows overfitting: that ends the trial there and then.
     */
    method UpdateBest(child1: Pop, child2: Pop, ghost g: int, ghost improved: int) returns (stopped: bool)
      requires rules.cfg.Valid() && Alive(child1) && Alive(child2) && BestSoFar()
      requires best.Storage(rules.cfg) && Apart(child1, best) && Apart(child2, best)
      modifies this`lowest, this`lastValidate, this`found, best, best.indices, best.code
      ensures BestSoFar()
      ensures var better := BetterOf(View(child1), View(child2));
              stopped <==>
                better.error < old(lowest) && Overfits(rules.cfg, rules.validation, old(lastValidate), better)
      ensures Record(if lowest < old(lowest) then g else improved)
           == if stopped then old(Record(improved))
              else Look(rules, old(Record(improved)), g, View(child1), View(child2))
    {
      hide Flat, Layout, Config.Valid, Config.WellFormed, Pop.Represents, Pop.Slot, Overfits, Rated;
      var better := if child1.error < child2.error then child1 else child2;
      stopped := false;
      if better.error < lowest {
        var overfit, validateError := Validate(better);
        if overfit {
          return true;
        }
        Retain(better);
        lastValidate := validateError;
        lowest := best.error;
        found := true;
      }
    }

    /** The validation error of a program, if there is a validation range, and whether it shows overfitting. */
    method Validate(q: Pop) returns (overfit: bool, validateError: real)
      requires Alive(q)
      ensures overfit <==> Overfits(rules.cfg, rules.validation, lastValidate, View(q))
      ensures validateError == if rules.validation.Some?
                               then rules.validation.value.error(Layout(rules.cfg.frame, q.prog)) else lastValidate
    {
      hide Flat, Layout, Config.Valid, Config.WellFormed, Pop.Slot, Pop.HasIndices;
      overfit, validateError := false, lastValidate;
      if rules.validation.Some? {
        var v := rules.validation.value;
        validateError := v.error(q.code[..q.codelen]);
        overfit := v.earlyStopping != 0.0 && lastValidate <= v.earlyStopping * v.size && validateError > lastValidate;
      }
    }

    method Retain(q: Pop)
      requires Alive(q) && best.Storage(rules.cfg) && Apart(q, best)
      modifies best, best.indices, best.code
      ensures Alive(best) && View(best) == View(q)
    {
      hide Flat, Layout, Config.Valid, Config.WellFormed, Pop.Represents, Pop.Slot, Rated;
      Copy(rules.cfg, q, best, q.prog);
      Note(best, q.prog);
    }

    /**
     The end of a round for the children at two positions of the population, which stays.  A perfect first
     child ends the program before either is looked at; the second child is not asked.
     */
    method Consider(l1: int, l2: int, ghost g: int, ghost improved: int) returns (stopped: bool)
      requires Valid() && 0 <= l1 < pop.Length && 0 <= l2 < pop.Length
      modifies this`lowest, this`lastValidate, this`found, store
      ensures Valid() && Views() == old(Views())
      ensures stopped <==> Stops(rules, old(Record(improved)), Views()[l1], Views()[l2])
      ensures Record(if lowest < old(lowest) then g else improved)
           == if stopped then old(Record(improved))
              else Look(rules, old(Record(improved)), g, Views()[l1], Views()[l2])
    {
      hide Flat, Layout, Config.Valid, Config.WellFormed, Pop.Represents, Pop.Slot, Overfits, Rated;
      if -FUZZ < pop[l1].error < FUZZ {
        return true;
      }
      stopped := UpdateBest(pop[l1], pop[l2], g, improved);
    }

    /**
     One round of the steady state: the two winners of a tournament are crossed into the places of the
     two losers.  A failed crossover leaves everything as it was.
     */
    method Breed(deme: int, ghost g: int, ghost improved: int)
      returns (found: bool, ok: bool, stopped: bool, ghost b: Breeding)
      requires Valid() && 0 <= deme < rules.n
      requires 0 <= Start(rules.size, deme) && Start(rules.size, deme) + rules.size <= pop.Length
      modifies this`lowest, this`lastValidate, this`found, rng, store
      ensures Valid()
      ensures !found ==> !ok && Abandons(rules, old(Views()), Start(rules.size, deme), old(rng.State()))
      ensures var lo, s := Start(rules.size, deme), old(rng.State());
              found && !ok ==>
                Fails(rules, old(Views()), lo, s) && rng.State() == AfterFailure(rules, old(Views()), lo, s)
      ensures ok ==> IsBreeding(rules, old(Views()), Views(), Start(rules.size, deme), b)
      ensures ok ==> b.start == old(rng.State()) && b.brood.after == rng.State()
      ensures !ok ==> !stopped && Views() == old(Views()) && Record(improved) == old(Record(improved))
      ensures ok ==> (stopped <==> Stops(rules, old(Record(improved)), b.brood.child1, b.brood.child2))
      ensures ok ==> Record(if lowest < old(lowest) then g else improved) ==
                       if stopped then old(Record(improved))
                       else Look(rules, old(Record(improved)), g, b.brood.child1, b.brood.child2)
    {
      hide Owns, Alive, BestSoFar, Apart, Views, Stops, Look, Meet, Bred, Crossed, Generator.State;
      ok, stopped, b := false, false, *;
      ghost var s := rng.State();
      var w1, w2, l1, l2;
      found, w1, w2, l1, l2 := Select(deme * rules.size);
      if found {
        ghost var m, t := Meeting(w1, w2, l1, l2), rng.State();
        ghost var brood;
        ok, brood := Reproduce(m, w1, w2, l1, l2);
        if ok {
          b := Breeding(s, m, t, brood.value);
          stopped := Consider(l1, l2, g, improved);
        }
      }
    }

    // ---- migration ----------------------------------------------------------------------

    method Swap(i: int, j: int)
      requires Valid() && 0 <= i < pop.Length && 0 <= j < pop.Length
      modifies pop
      ensures Valid() && Swapped(old(Views()), Views(), i, j)
    {
      hide Owns, Alive;
      pop[i], pop[j] := pop[j], pop[i];
    }

    /** The place of the least error in a stretch. */
    method Fittest(from: int, hi: int) returns (m: int)
      requires Valid() && 0 <= from < hi <= pop.Length
      ensures from <= m < hi && forall k :: from <= k < hi ==> Views()[m].error <= Views()[k].error
    {
      hide Owns, Alive, Apart, BestSoFar;
      m := from;
      for k := from + 1 to hi
        invariant from <= m < hi
        invariant forall l :: from <= l < k ==> Views()[m].error <= Views()[l].error
      {
        if pop[k].error < pop[m].error {
          m := k;
        }
      }
    }

    method SortDeme(lo: int, hi: int)
      requires Valid() && 0 <= lo <= hi <= pop.Length
      modifies pop
      ensures Valid()
      ensures Rearranged(old(Views()), Views(), lo, hi) && Settled(Views(), lo, hi, hi)
    {
      hide Valid, Views, Swapped;
      for i := lo to hi
        invariant Valid()
        invariant Rearranged(old(Views()), Views(), lo, hi) && Settled(Views(), lo, i, hi)
      {
        var m := Fittest(i, hi);
        ghost var vs := Views();
        Swap(i, m);
        SwapRearranges(vs, Views(), lo, hi, i, m);
        SwapSettles(vs, Views(), lo, i, hi, m);
      }
    }

    method DemeStart(d: int) returns (lo: int)
      requires Valid() && 0 <= d < rules.n
      ensures lo == Start(rules.size, d) && 0 <= lo <= lo + rules.size <= pop.Length
    {
      hide Owns, Apart, Alive, BestSoFar;
      DemeInside(rules.n, rules.size, d);
      lo := Start(rules.size, d);
    }

    /** Sorts one more deme. */
    method SortNext(d: int, ghost vs: seq<Individual>)
      requires Valid() && 0 <= d < rules.n && SortedUpTo(vs, Views(), rules.n, rules.size, d)
      modifies pop
      ensures Valid() && SortedUpTo(vs, Views(), rules.n, rules.size, d + 1)
    {
      ghost var mid := Views();
      hide SortedUpTo, Deme, Rearranged, Settled, Views, Shape, Valid, Start, Ascending;
      var lo := DemeStart(d);
      SortDeme(lo, lo + rules.size);
      SortAdvances(vs, mid, Views(), rules.n, rules.size, d);
    }

    method SortDemes()
      requires Valid()
      modifies pop
      ensures Valid() && IsSorted(old(Views()), Views(), rules.n, rules.size)
    {
      ghost var vs := Views();
      hide Owns, Alive, Views;
      SortStarts(vs, rules.n, rules.size);
      hide Valid, Shape, SortedUpTo;
      for d := 0 to rules.n
        invariant Valid() && SortedUpTo(vs, Views(), rules.n, rules.size, d)
      {
        SortNext(d, vs);
      }
      SortEnds(vs, Views(), rules.n, rules.size);
    }

    /** `copy` of one member of the population over another. */
    method CopySlot(from: int, to: int)
      requires Valid() && 0 <= from < pop.Length && 0 <= to < pop.Length && from != to
      modifies store
      ensures Valid() && Views() == old(Views())[to := old(Views())[from]] && View(best) == old(View(best))
    {
      hide Flat, Layout, Config.Valid, Config.WellFormed, Pop.Represents, Pop.Slot;
      Copy(rules.cfg, pop[from], pop[to], pop[from].prog);
      Note(pop[to], pop[from].prog);
    }

    /** One deme hands on its best `rules.nm`. */
    method HandOn(fromdeme: int, ghost sorted: seq<Individual>)
      requires Valid() && 2 <= rules.n && 0 <= fromdeme < rules.n
      requires Progress(sorted, Views(), rules.n, rules.size, rules.nm, fromdeme, 0)
      modifies store
      ensures Valid() && Progress(sorted, Views(), rules.n, rules.size, rules.nm, fromdeme, rules.nm)
      ensures View(best) == old(View(best))
    {
      hide Owns, Alive, Progress, BestSoFar, Apart;
      assert pop.Length == rules.n * rules.size;
      hide Valid, Shape, At, Next;
      var todeme := (fromdeme + 1) % rules.n;
      var from, to := fromdeme * rules.size, (todeme + 1) * rules.size - 1;
      for i := 0 to rules.nm
        invariant Valid() && Progress(sorted, Views(), rules.n, rules.size, rules.nm, fromdeme, i)
        invariant View(best) == old(View(best))
        invariant from == fromdeme * rules.size + i && to == (todeme + 1) * rules.size - 1 - i
      {
        CopyPlaces(rules.n, rules.size, fromdeme, i);
        CopyAdvances(sorted, Views(), rules.n, rules.size, rules.nm, fromdeme, i);
        CopySlot(from, to);
        from, to := from + 1, to - 1;
      }
    }

    /**
     `migrate`: sorts every deme, then each deme in turn copies its best `rules.nm` over the worst of the
     next, the best to the very end.
     */
    method Migrate() returns (ghost sorted: seq<Individual>)
      requires Valid() && 2 <= rules.n
      modifies pop, store
      ensures Valid()
      ensures IsSorted(old(Views()), sorted, rules.n, rules.size)
      ensures IsMigrated(sorted, Views(), rules.n, rules.size, rules.nm) && View(best) == old(View(best))
    {
      hide Owns, Alive, Views, Progress, IsSorted;
      SortDemes();
      sorted := Views();
      MigrationStarts(sorted, rules.n, rules.size, rules.nm);
      hide Valid, Shape;
      for fromdeme := 0 to rules.n
        invariant Valid() && Progress(sorted, Views(), rules.n, rules.size, rules.nm, fromdeme, 0)
        invariant View(best) == old(View(best))
      {
        HandOn(fromdeme, sorted);
        RoundEnds(sorted, Views(), rules.n, rules.size, rules.nm, fromdeme);
      }
      MigrationEnds(sorted, Views(), rules.n, rules.size, rules.nm);
    }

    // ---- a whole trial --------------------------------------------------------------------

    lemma Sized()
      requires Valid()
      ensures rules.Valid() && |Views()| == rules.n * rules.size == pop.Length
      ensures this !in store && pop !in store && rng !in store
    {
      hide Owns, Apart, Alive, BestSoFar;
    }

    /** One attempt at generation `g`. */
    method Attempt(ghost g: nat, deme: int, ghost improved: int)
      returns (found: bool, ok: bool, stopped: bool, ghost b: Breeding)
      requires Valid() && deme == Turn(rules.n, g)
      modifies this`lowest, this`lastValidate, this`found, rng, store
      ensures Valid() && rules.Valid()
      ensures !found ==> !ok && AbandonsAt(rules, g, old(Views()), old(rng.State()))
      ensures found && !ok ==> && FailsAt(rules, g, old(Views()), old(rng.State()))
                               && rng.State() == AfterFailure(rules, old(Views()), Base(rules, g), old(rng.State()))
      ensures ok ==> BreedingAt(rules, g, old(Views()), Views(), b)
      ensures ok ==> b.start == old(rng.State()) && b.brood.after == rng.State()
      ensures !ok ==> !stopped && Views() == old(Views()) && Record(improved) == old(Record(improved))
      ensures ok ==> (stopped <==> Stops(rules, old(Record(improved)), b.brood.child1, b.brood.child2))
      ensures ok ==> Record(if lowest < old(lowest) then g else improved) ==
                       if stopped then old(Record(improved))
                       else Look(rules, old(Record(improved)), g, b.brood.child1, b.brood.child2)
    {
      hide Valid, Shape, Views, IsBreeding, Fails, Abandons, AfterFailure, Turn, Start;
      hide Stops, Look, Generator.State, Record;
      Sized();
      DemeInside(rules.n, rules.size, deme);
      found, ok, stopped, b := Breed(deme, g, improved);
    }

    /** The migration that may follow. */
    method ExchangeBest()
      requires Valid() && 1 < rules.n
      modifies pop, store
      ensures Valid() && Exchange(rules, old(Views()), Views()) && View(best) == old(View(best))
    {
      hide Valid, Shape, Views, IsSorted, IsMigrated;
      ghost var sorted := Migrate();
    }

    /**
     One pass of the generation loop: an attempt, and if it succeeds, the end of the trial on a perfect
     child, overfitting or stagnation, or else the migration when it is due.
     */
    method OneGeneration(g: nat, deme: int, improved: int)
      returns (found: bool, ok: bool, stopped: bool, cut: bool, improved': int, ghost x: Generation)
      requires Valid() && deme == Turn(rules.n, g)
      modifies this`lowest, this`lastValidate, this`found, rng, store, pop
      ensures Valid() && rules.Valid()
      ensures !found ==> !ok && AbandonsAt(rules, g, old(Views()), old(rng.State()))
      ensures found && !ok ==> && FailsAt(rules, g, old(Views()), old(rng.State()))
                               && rng.State() == AfterFailure(rules, old(Views()), Base(rules, g), old(rng.State()))
      ensures !ok ==> !stopped && !cut && Views() == old(Views()) && Record(improved') == old(Record(improved))
      ensures ok ==> IsGeneration(rules, g, old(Views()), x, cut) && x.after == Views()
      ensures ok ==> x.b.start == old(rng.State()) && x.b.brood.after == rng.State()
      ensures ok ==> (stopped <==> Stops(rules, old(Record(improved)), x.b.brood.child1, x.b.brood.child2))
      ensures ok ==> (cut <==> Ends(rules, old(Record(improved)), g, x.b.brood.child1, x.b.brood.child2))
      ensures ok ==> Record(improved') ==
                       if stopped then old(Record(improved))
                       else Look(rules, old(Record(improved)), g, x.b.brood.child1, x.b.brood.child2)
    {
      hide Valid, Shape, Views, Turn, Stops, Look, BreedingAt, Exchange, Generator.State;
      Sized();
      var before := lowest;
      ghost var b;
      found, ok, stopped, b := Attempt(g, deme, improved);
      ghost var mid := Views();
      improved' := if ok && lowest < before then g else improved;
      cut := ok && (stopped || g - improved' >= rules.stagnation);
      if ok && !cut && g > 0 && g % (rules.n * rules.size) == 0 && rules.n > 1 && rules.migration {
        ExchangeBest();
      }
      x := Generation(b, mid, Views());
    }

    /**
     The generation loop of one trial, cut off after any number of crossover attempts, or when four
     different members of a deme take longer to draw than one has patience for.  Demes take turns, a failed
     crossover is tried again in the same deme, and once every population's worth of breedings the demes
     exchange their best.  The trial goes on until it is over: a perfect first child, overfitting or
     stagnation end it at once, and else it has all its generations.
     */
    method RunTrial(generations: int, attempts: nat)
      returns (ghost run: seq<Generation>, ghost trail: seq<Attempted>, ghost cut: bool, stopped: bool,
               abandoned: bool, improved: int)
      requires Valid()
      modifies this`lowest, this`lastValidate, this`found, rng, store, pop
      ensures Valid() && rules.Valid()
      ensures IsRun(rules, old(Views()), run, cut) && Views() == PopulationAt(old(Views()), run, |run|)
      ensures !abandoned ==> IsTrail(rules, old(Views()), run, old(rng.State()), trail, rng.State())
      ensures abandoned ==> exists at :: IsTrail(rules, old(Views()), run, old(rng.State()), trail, at)
                                         && AbandonsAt(rules, |run|, Views(), at)
      ensures CutRightly(rules, old(Record(0)), run, cut)
      ensures stopped <==> run != [] && StopsAt(rules, old(Record(0)), run, |run| - 1)
      ensures Record(improved) == StandingAt(rules, old(Record(0)), run, if stopped then |run| - 1 else |run|)
      ensures |run| <= generations || run == []
      ensures 0 <= generations ==>
                cut || abandoned || |run| == generations || |trail| == attempts
    {
      hide Valid, Shape, Views, Turn, Stops, Look, Record, Generator.State;
      hide IsRun, IsGeneration, PopulationAt, StandingAt, IsTrail, CutRightly, AbandonsAt, FailsAt, AfterFailure, Base;
      ghost var start, st := Views(), Record(0);
      Sized();
      NothingYet(rules, start, st, rng.State());
      TurnStep(rules.n, 0);
      var gen, deme := 0, 1 % rules.n;
      var tries, ended := 0, false;
      run, trail, cut, stopped, abandoned, improved := [], [], false, false, false, 0;
      ghost var at := rng.State();
      while tries < attempts && gen < generations && !ended && !abandoned
        invariant Valid() && 0 <= gen == |run| && deme == Turn(rules.n, gen) && (gen <= generations || gen == 0)
        invariant cut == ended && (stopped ==> ended && run != [])
        invariant IsRun(rules, start, run, cut) && Views() == PopulationAt(start, run, |run|)
        invariant if abandoned then AbandonsAt(rules, |run|, Views(), at) else at == rng.State()
        invariant IsTrail(rules, start, run, old(rng.State()), trail, at)
        invariant CutRightly(rules, st, run, cut)
        invariant stopped <==> run != [] && StopsAt(rules, st, run, |run| - 1)
        invariant Record(improved) == StandingAt(rules, st, run, if stopped then |run| - 1 else |run|)
        invariant abandoned || tries == |trail|
        invariant tries <= attempts
      {
        var found, ok;
        ghost var x;
        found, ok, stopped, ended, improved, x := OneGeneration(gen, deme, improved);
        if ok {
          TurnStep(rules.n, gen);
          Lengthen(rules, start, run, x, ended);
          CutLater(rules, st, run, x);
          LastPass(rules, start, st, run, x);
          TrailSucceeds(rules, start, run, old(rng.State()), trail, at, x);
          trail, at := trail + [Attempted(gen, at)], rng.State();
          run, cut := run + [x], ended;
          gen, deme := gen + 1, (deme + 1) % rules.n;
        } else if found {
          TrailFails(rules, start, run, old(rng.State()), trail, at, rng.State());
          trail, at := trail + [Attempted(gen, at)], rng.State();
        } else {
          abandoned := true;
        }
        tries := tries + 1;
      }
    }
  }

  lemma NotEmpty(cfg: Config, p: seq<Instr>)
    requires cfg.Valid() && cfg.WellFormed(p)
    ensures p != []
  {
  }
}
