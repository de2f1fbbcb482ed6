/**
 Machine code and decompiled C have the same fitness.  The program checks this at run time when it is
 built for it: it recompiles the decompiled best individual and compares the two errors over the
 training data.  Here it follows for every individual that does not trap, and for every best so far.
 */
module Agreement {
  import opened Opcodes
  import opened Layouts
  import opened Genome
  import opened Evolution
  import opened OpcodeTables
  import opened Parsing
  import opened Simulation
  import opened Wrappers
  import D = Disassembler
  import E = Ensemble
  import X = X87
  import C = Decompiler

  /** What a trial runs its programs in: everything but the input pattern. */
  datatype Setting = Setting(cfg: Config, isa: D.Isa, alu: X.Alu, constants: seq<real>) {
    ghost predicate Valid() {
      && cfg.Valid() && cfg.Printable() && cfg.frame == Frame(X.HEADER, X.FOOTER)
      && Ready(isa) && |constants| == cfg.nconstants
    }
  }

  /** The array of inputs with a pattern copied into it. */
  function Inputs(pattern: seq<real>): int -> real {
    k => if 0 <= k < |pattern| then pattern[k] else 0.0
  }

  ghost function WorldOf(st: Setting, pattern: seq<real>): World
    requires st.Valid()
  {
    Holding(st.cfg, st.isa, st.alu, st.constants, Inputs(pattern))
  }

  /** The element of the input array at the address of variable `j` holds the pattern's value of it. */
  lemma PatternInMemory(st: Setting, pattern: seq<real>, j: nat)
    requires st.Valid() && |pattern| == st.cfg.ninputs && j < |pattern|
    ensures WorldOf(st, pattern).mem(st.cfg.InputAddress(j)) == Some(pattern[j])
  {
    MemoryExists(st.cfg, st.isa, st.alu, st.constants, Inputs(pattern));
  }

  /** Running the bytes on a pattern: a value, or a trap. */
  ghost function Machine(st: Setting, code: seq<byte>): E.Program
    requires st.Valid()
  {
    pattern =>
      var w := WorldOf(st, pattern);
      var o := X.Execute(w.alu, w.mem, code, 0, X.Initial());
      if o.Returned? then Some(o.value) else None
  }

  /** Running the emitted function on it. */
  function Emitted(st: Setting, ss: seq<C.Stmt>): E.Program {
    pattern => Some(C.RunC(st.alu, Inputs(pattern), ss))
  }

  /** The statements the decompiler emits for these bytes in this setting. */
  ghost function Decompiled(st: Setting, code: seq<byte>): Result<seq<C.Stmt>, C.Error>
    requires st.Valid()
  {
    C.Sweep(st.isa, C.Env(st.cfg.constantBase, st.constants, st.cfg.inputBase), code, |X.FOOTER|, |X.HEADER|)
  }

  /** On every pattern on which the bytes of a program do not trap, they agree with the emitted function. */
  lemma PatternAgrees(st: Setting, p: seq<Instr>, pattern: seq<real>)
    requires st.Valid() && st.cfg.WellFormed(p)
    ensures var code := Layout(st.cfg.frame, p);
            && Decompiled(st, code).Ok?
            && (Machine(st, code)(pattern).Some? ==>
                  Machine(st, code)(pattern) == Emitted(st, Decompiled(st, code).value)(pattern))
  {
    hide HasFpuRows, WellFormed, Layout, Flat, Config.Generates, C.Sweep, X.Execute, C.RunC;
    MemoryExists(st.cfg, st.isa, st.alu, st.constants, Inputs(pattern));
    DecompilationPreservesMeaning(st.cfg, WorldOf(st, pattern), p);
  }

  /** Two programs that agree wherever the first does not trap. */
  lemma {:induction false} SameError(pb: E.Problem, f: E.Program, g: E.Program, start: nat, stop: nat)
    requires pb.Valid() && stop <= |pb.outputs|
    requires forall t :: start <= t < stop && f(pb.Pattern(t)).Some? ==> g(pb.Pattern(t)) == f(pb.Pattern(t))
    requires E.FirstTrap(pb, f, start, stop) >= stop
    ensures E.FirstTrap(pb, g, start, stop) >= stop
    ensures E.TotalLoss(pb, g, start, stop) == E.TotalLoss(pb, f, start, stop)
    decreases stop - start
  {
    if start >= stop {
    } else {
      SameError(pb, f, g, start + 1, stop);
    }
  }

  /**
   On any range of timesteps the error of a program's machine code is that of its decompiled C, unless
   the machine code traps there, in which case it is the largest value.
   */
  lemma ErrorAgrees(st: Setting, pb: E.Problem, p: seq<Instr>, start: nat, stop: nat)
    requires st.Valid() && st.cfg.WellFormed(p) && pb.Valid() && stop <= |pb.outputs|
    ensures var code := Layout(st.cfg.frame, p);
            && Decompiled(st, code).Ok?
            && E.ErrorOf(pb, Machine(st, code), start, stop) ==
                 if E.FirstTrap(pb, Machine(st, code), start, stop) >= stop
                 then E.ErrorOf(pb, Emitted(st, Decompiled(st, code).value), start, stop) else pb.ldblMax
  {
    hide HasFpuRows, WellFormed, Layout, Flat, Config.WellFormed, Machine, Emitted, Decompiled;
    var code := Layout(st.cfg.frame, p);
    PatternAgrees(st, p, []);
    var f, g := Machine(st, code), Emitted(st, Decompiled(st, code).value);
    forall t | start <= t < stop && f(pb.Pattern(t)).Some? ensures g(pb.Pattern(t)) == f(pb.Pattern(t)) {
      PatternAgrees(st, p, pb.Pattern(t));
    }
    if E.FirstTrap(pb, f, start, stop) >= stop {
      SameError(pb, f, g, start, stop);
    }
  }

  /** The fitness of bytes: their error on the training range. */
  ghost function Fitness(st: Setting, pb: E.Problem, start: nat, stop: nat): seq<byte> -> real
    requires st.Valid() && pb.Valid() && stop <= |pb.outputs|
  {
    code => E.ErrorOf(pb, Machine(st, code), start, stop)
  }

  /**
   Whatever a trial has found best so far, its decompiled C has the very same error over the training
   data: it does not trap, because what traps has the largest error and never becomes best.
   */
  lemma BestDecompiles(st: Setting, pb: E.Problem, pop: Population, start: nat, stop: nat)
    requires st.Valid() && pb.Valid() && stop <= |pb.outputs|
    requires pop.Valid() && pop.found && pop.rules.cfg == st.cfg && pop.ldblMax == pb.ldblMax
    requires pop.rules.fit == Fitness(st, pb, start, stop)
    ensures var code := pop.best.code[..pop.best.codelen];
            && Decompiled(st, code).Ok?
            && E.ErrorOf(pb, Emitted(st, Decompiled(st, code).value), start, stop) == pop.lowest
  {
    hide HasFpuRows, WellFormed, Flat, Machine, Emitted, Decompiled, Config.Valid, Config.WellFormed;
    var p := pop.best.prog;
    assert pop.best.code[..pop.best.codelen] == Layout(st.cfg.frame, p) && st.cfg.WellFormed(p);
    ErrorAgrees(st, pb, p, start, stop);
  }
}
