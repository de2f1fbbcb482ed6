/**
 Fitness (compute_error.c) and the voting ensemble of lgp.c with its keep-or-reject step.
 A program is a function of an input pattern that either yields a value or traps.
 */
module Ensemble {
  import opened Wrappers

  type Program = seq<real> -> Option<real>

  /** Columns of input variables, desired outputs, and the error of a program that traps. */
  datatype Problem = Problem(columns: seq<seq<real>>, outputs: seq<real>, classify: bool, ldblMax: real) {
    ghost predicate Valid() {
      forall j :: 0 <= j < |columns| ==> |columns[j]| == |outputs|
    }

    function Pattern(t: nat): seq<real>
      requires Valid() && t < |outputs|
    {
      seq(|columns|, j requires 0 <= j < |columns| => columns[j][t])
    }

    /** All desired outputs are 1 or -1. */
    ghost predicate IsClassification() {
      classify && forall t :: 0 <= t < |outputs| ==> outputs[t] == 1.0 || outputs[t] == -1.0
    }
  }

  function Vote(x: real): real {
    if x > 0.0 then 1.0 else -1.0
  }

  function Distance(x: real, y: real): real {
    if x < y then y - x else x - y
  }

  /** What one output costs. */
  function Loss(pb: Problem, t: nat, x: real): real
    requires t < |pb.outputs|
  {
    if pb.classify then
      if (x > 0.0 && pb.outputs[t] == -1.0) || (x <= 0.0 && pb.outputs[t] == 1.0) then 1.0 else 0.0
    else Distance(pb.outputs[t], x)
  }

  /** What is recorded for ensembling: the vote, or the error. */
  function Recorded(pb: Problem, t: nat, x: real): real
    requires t < |pb.outputs|
  {
    if pb.classify then Vote(x) else Loss(pb, t, x)
  }

  /** The first timestep at which the program traps, or `stop`. */
  function FirstTrap(pb: Problem, program: Program, start: nat, stop: nat): (t: nat)
    requires pb.Valid() && stop <= |pb.outputs|
    ensures start <= stop ==> start <= t <= stop
    decreases stop - start
  {
    if start >= stop || program(pb.Pattern(start)).None? then start
    else FirstTrap(pb, program, start + 1, stop)
  }

  /** The sum of the losses up to `stop`, for a program that does not trap there. */
  function TotalLoss(pb: Problem, program: Program, start: nat, stop: nat): real
    requires pb.Valid() && stop <= |pb.outputs| && FirstTrap(pb, program, start, stop) >= stop
    decreases stop - start
  {
    if start >= stop then 0.0
    else Loss(pb, start, program(pb.Pattern(start)).value) + TotalLoss(pb, program, start + 1, stop)
  }

  /** The result of `compute_error`. */
  function ErrorOf(pb: Problem, program: Program, start: nat, stop: nat): real
    requires pb.Valid() && stop <= |pb.outputs|
  {
    if FirstTrap(pb, program, start, stop) >= stop then TotalLoss(pb, program, start, stop) else pb.ldblMax
  }

  lemma {:induction false} BeforeTrap(pb: Problem, program: Program, start: nat, stop: nat, t: nat)
    requires pb.Valid() && start <= t < stop <= |pb.outputs|
    ensures t < FirstTrap(pb, program, start, stop) ==>
              program(pb.Pattern(t)).Some?
              && FirstTrap(pb, program, start, stop) == FirstTrap(pb, program, t + 1, stop)
    ensures t == FirstTrap(pb, program, start, stop) ==> program(pb.Pattern(t)).None?
    decreases t - start
  {
    if t == start || program(pb.Pattern(start)).None? {
    } else {
      BeforeTrap(pb, program, start + 1, stop, t);
    }
  }

  lemma {:induction false} LossExtends(pb: Problem, program: Program, start: nat, t: nat)
    requires pb.Valid() && start <= t < |pb.outputs|
    requires FirstTrap(pb, program, start, t) >= t && program(pb.Pattern(t)).Some?
    ensures FirstTrap(pb, program, start, t + 1) == t + 1
    ensures TotalLoss(pb, program, start, t + 1)
         == TotalLoss(pb, program, start, t) + Loss(pb, t, program(pb.Pattern(t)).value)
    decreases t - start
  {
    if start == t {
    } else {
      LossExtends(pb, program, start + 1, t);
    }
  }

  lemma {:induction false} TrapEarlier(pb: Problem, program: Program, start: nat, t: nat, stop: nat)
    requires pb.Valid() && start <= t < stop <= |pb.outputs|
    requires FirstTrap(pb, program, start, t) >= t && program(pb.Pattern(t)).None?
    ensures FirstTrap(pb, program, start, stop) == t
    decreases t - start
  {
    if start == t {
    } else {
      TrapEarlier(pb, program, start + 1, t, stop);
    }
  }

  /**
   `compute_error`: runs the program on the patterns one after the other, through the shared input
   array.  After a trap the rest of `out` keeps whatever it held.
   */
  method ComputeError(pb: Problem, program: Program, start: nat, stop: nat, input: array<real>, out: array?<real>)
    returns (error: real)
    requires pb.Valid() && stop <= |pb.outputs| && start <= stop
    requires input.Length == |pb.columns| && (out != null ==> out.Length == |pb.outputs| && out != input)
    modifies input, out
    ensures error == ErrorOf(pb, program, start, stop)
    ensures out != null ==> forall t :: 0 <= t < |pb.outputs| ==>
              out[t] == if start <= t < FirstTrap(pb, program, start, stop) && program(pb.Pattern(t)).Some?
                        then Recorded(pb, t, program(pb.Pattern(t)).value) else old(out[t])
  {
    error := 0.0;
    for t := start to stop
      invariant FirstTrap(pb, program, start, t) >= t
      invariant error == TotalLoss(pb, program, start, t)
      invariant forall u :: start <= u < t ==> program(pb.Pattern(u)).Some?
      invariant out != null ==> forall u :: 0 <= u < |pb.outputs| ==>
                  out[u] == if start <= u < t then Recorded(pb, u, program(pb.Pattern(u)).value) else old(out[u])
    {
      LoadPattern(pb, t, input);
      var o := program(input[..]);
      if o.None? {
        TrapEarlier(pb, program, start, t, stop);
        return pb.ldblMax;
      }
      LossExtends(pb, program, start, t);
      var output := o.value;
      if pb.classify {
        if (output > 0.0 && pb.outputs[t] == -1.0) || (output <= 0.0 && pb.outputs[t] == 1.0) {
          error := error + 1.0;
        }
        if out != null {
          out[t] := if output > 0.0 then 1.0 else -1.0;
        }
      } else {
        var thiserror := Distance(pb.outputs[t], output);
        error := error + thiserror;
        if out != null {
          out[t] := thiserror;
        }
      }
    }
  }

  method LoadPattern(pb: Problem, t: nat, input: array<real>)
    requires pb.Valid() && t < |pb.outputs| && input.Length == |pb.columns|
    modifies input
    ensures input[..] == pb.Pattern(t)
  {
    for j := 0 to input.Length
      invariant forall i :: 0 <= i < j ==> input[i] == pb.columns[i][t]
    {
      input[j] := pb.columns[j][t];
    }
  }

  // ---- the ensemble -------------------------------------------------------------------

  function Sum(members: seq<seq<real>>, t: nat): real
    requires forall i :: 0 <= i < |members| ==> t < |members[i]|
  {
    if members == [] then 0.0 else Sum(members[..|members| - 1], t) + members[|members| - 1][t]
  }

  /** The combined output at one timestep: the average, or the vote on it. */
  function Combined(classify: bool, members: seq<seq<real>>, t: nat): real
    requires members != [] && forall i :: 0 <= i < |members| ==> t < |members[i]|
  {
    var average := Sum(members, t) / |members| as real;
    if classify then Vote(average) else average
  }

  /** The result of `ensemble_error` on this indicator. */
  function EnsembleLoss(pb: Problem, indicator: seq<real>, start: nat, stop: nat): real
    requires stop <= |indicator| == |pb.outputs|
    decreases stop - start
  {
    if start >= stop then 0.0
    else
      EnsembleLoss(pb, indicator, start, stop - 1)
      + (if pb.classify then (if indicator[stop - 1] != pb.outputs[stop - 1] then 1.0 else 0.0)
         else indicator[stop - 1])
  }

  /** What `update_ensembled_indicator` shows for these members. */
  function IndicatorOf(pb: Problem, members: seq<seq<real>>): (s: seq<real>)
    requires members != [] && forall i :: 0 <= i < |members| ==> |members[i]| == |pb.outputs|
    ensures |s| == |pb.outputs|
  {
    seq(|pb.outputs|, t requires 0 <= t < |pb.outputs| => Combined(pb.classify, members, t))
  }

  /** Neither ensemble error, on training or on validation, is larger with the newcomer. */
  ghost predicate NoWorseWith(pb: Problem, members: seq<seq<real>>, out: seq<real>, w: Windows)
    requires members != [] && |out| == |pb.outputs| && w.Within(|pb.outputs|)
    requires forall i :: 0 <= i < |members| ==> |members[i]| == |pb.outputs|
  {
    var before, after := IndicatorOf(pb, members), IndicatorOf(pb, members + [out]);
    && EnsembleLoss(pb, after, w.trainStart, w.trainStop) <= EnsembleLoss(pb, before, w.trainStart, w.trainStop)
    && EnsembleLoss(pb, after, w.validateStart, w.validateStop)
         <= EnsembleLoss(pb, before, w.validateStart, w.validateStop)
  }

  /** No two members recorded the same outputs. */
  ghost predicate Diverse(members: seq<seq<real>>) {
    forall i, j :: 0 <= i < j < |members| ==> members[i] != members[j]
  }

  /** The training and validation windows. */
  datatype Windows = Windows(trainStart: nat, trainStop: nat, validateStart: nat, validateStop: nat) {
    predicate Within(n: nat) {
      trainStart <= trainStop <= n && validateStart <= validateStop <= n
    }
  }

  class Voters {
    const pb: Problem
    const indicator: array<real>
    var members: seq<seq<real>>

    ghost predicate Valid()
      reads this
    {
      && pb.Valid() && indicator.Length == |pb.outputs|
      && (forall i :: 0 <= i < |members| ==> |members[i]| == |pb.outputs|)
      && Diverse(members)
    }

    /** The indicator is what the present members combine to. */
    ghost predicate UpToDate()
      requires Valid()
      reads this, indicator
    {
      members != [] ==>
        forall t :: 0 <= t < indicator.Length ==> indicator[t] == Combined(pb.classify, members, t)
    }

    constructor (pb: Problem)
      requires pb.Valid()
      ensures Valid() && members == [] && this.pb == pb && fresh(indicator)
    {
      this.pb := pb;
      indicator := new real[|pb.outputs|];
      members := [];
    }

    /** `addto_ensemble`: records the program's outputs unless some member has the very same ones. */
    method Add(program: Program, input: array<real>) returns (ghost out: seq<real>)
      requires Valid() && input.Length == |pb.columns| && input != indicator
      modifies this, input
      ensures Valid() && |out| == |pb.outputs|
      ensures members == if out in old(members) then old(members) else old(members) + [out]
      ensures forall t :: 0 <= t < |out| && t < FirstTrap(pb, program, 0, |out|) ==>
                program(pb.Pattern(t)).Some? && out[t] == Recorded(pb, t, program(pb.Pattern(t)).value)
    {
      var recorded := new real[|pb.outputs|];
      var _ := ComputeError(pb, program, 0, |pb.outputs|, input, recorded);
      out := recorded[..];
      ghost var n := |pb.outputs|;
      forall t | 0 <= t < n && t < FirstTrap(pb, program, 0, n)
        ensures program(pb.Pattern(t)).Some?
      {
        BeforeTrap(pb, program, 0, n, t);
      }
      var i := 0;
      while i < |members|
        invariant 0 <= i <= |members| && out !in members[..i]
      {
        var j := 0;
        while j < recorded.Length && members[i][j] == recorded[j]
          invariant 0 <= j <= recorded.Length && members[i][..j] == recorded[..j]
        {
          j := j + 1;
        }
        if j == recorded.Length {
          assert members[i] == members[i][..j] == out;
          return;
        }
        assert members[i] != out;
        assert members[..i + 1] == members[..i] + [members[i]];
        i := i + 1;
      }
      assert members[..i] == members;
      members := members + [recorded[..]];
    }

    /** `update_ensembled_indicator`. */
    method Update()
      requires Valid() && members != []
      modifies indicator
      ensures UpToDate()
    {
      for t := 0 to indicator.Length
        invariant forall u :: 0 <= u < t ==> indicator[u] == Combined(pb.classify, members, u)
      {
        var sum := 0.0;
        for i := 0 to |members|
          invariant sum == Sum(members[..i], t)
        {
          assert members[..i + 1][..i] == members[..i];
          sum := sum + members[i][t];
        }
        assert members[..|members|] == members;
        var out := sum / |members| as real;
        if pb.classify {
          indicator[t] := if out > 0.0 then 1.0 else -1.0;
        } else {
          indicator[t] := out;
        }
      }
    }

    /** `ensemble_error`. */
    method Error(start: nat, stop: nat) returns (error: real)
      requires Valid() && start <= stop <= |pb.outputs|
      ensures error == EnsembleLoss(pb, indicator[..], start, stop)
    {
      error := 0.0;
      var t := start;
      while t < stop
        invariant start <= t <= stop
        invariant error == EnsembleLoss(pb, indicator[..], start, t)
      {
        if pb.classify {
          if indicator[t] != pb.outputs[t] {
            error := error + 1.0;
          }
        } else {
          error := error + indicator[t];
        }
        t := t + 1;
      }
    }

    ghost function Loss(start: nat, stop: nat): real
      requires Valid() && stop <= |pb.outputs|
      reads this, indicator
    {
      EnsembleLoss(pb, indicator[..], start, stop)
    }

    /** Better than coin flipping on validation, or a regression problem. */
    ghost predicate Candidate(program: Program, w: Windows)
      requires pb.Valid() && w.Within(|pb.outputs|)
    {
      ErrorOf(pb, program, w.validateStart, w.validateStop) <= 0.5 * (w.validateStop - w.validateStart) as real
      || !pb.classify
    }

    /** The best program of a trial is a candidate if it beats coin flipping on validation. */
    method Trial(program: Program, input: array<real>, w: Windows) returns (kept: bool, ghost out: seq<real>)
      requires Valid() && UpToDate() && input.Length == |pb.columns| && input != indicator
      requires w.Within(|pb.outputs|)
      modifies this, indicator, input
      ensures Valid() && UpToDate()
      ensures old(members) != [] ==> Loss(w.trainStart, w.trainStop) <= old(Loss(w.trainStart, w.trainStop))
      ensures old(members) != [] ==> Loss(w.validateStart, w.validateStop) <= old(Loss(w.validateStart, w.validateStop))
      ensures |out| == |pb.outputs| && members == if kept then old(members) + [out] else old(members)
      ensures kept <==> Candidate(program, w) && out !in old(members)
                        && (old(members) == [] || NoWorseWith(pb, old(members), out, w))
      ensures Candidate(program, w) ==> forall t :: 0 <= t < |out| && t < FirstTrap(pb, program, 0, |out|) ==>
                program(pb.Pattern(t)).Some? && out[t] == Recorded(pb, t, program(pb.Pattern(t)).value)
      ensures old(members) != [] && !kept ==> indicator[..] == old(indicator[..])
    {
      kept, out := false, seq(|pb.outputs|, t => 0.0);
      var validateError := ComputeError(pb, program, w.validateStart, w.validateStop, input, null);
      if validateError <= 0.5 * (w.validateStop - w.validateStart) as real || !pb.classify {
        kept, out := KeepOrReject(program, input, w);
      }
    }

    /**
     Adds the program's outputs; takes them back if the ensemble then does worse on training or on
     validation than before, unless it has no other member.
     */
    method KeepOrReject(program: Program, input: array<real>, w: Windows) returns (kept: bool, ghost out: seq<real>)
      requires Valid() && UpToDate() && input.Length == |pb.columns| && input != indicator
      requires w.Within(|pb.outputs|)
      modifies this, indicator, input
      ensures Valid() && UpToDate()
      ensures old(members) != [] ==> Loss(w.trainStart, w.trainStop) <= old(Loss(w.trainStart, w.trainStop))
      ensures old(members) != [] ==> Loss(w.validateStart, w.validateStop) <= old(Loss(w.validateStart, w.validateStop))
      ensures |out| == |pb.outputs| && members == if kept then old(members) + [out] else old(members)
      ensures kept <==> out !in old(members) && (old(members) == [] || NoWorseWith(pb, old(members), out, w))
      ensures forall t :: 0 <= t < |out| && t < FirstTrap(pb, program, 0, |out|) ==>
                program(pb.Pattern(t)).Some? && out[t] == Recorded(pb, t, program(pb.Pattern(t)).value)
      ensures old(members) != [] && !kept ==> indicator[..] == old(indicator[..])
    {
      ghost var before, shown := members, indicator[..];
      var size := |members|;
      var trainBefore := Error(w.trainStart, w.trainStop);
      var validateBefore := Error(w.validateStart, w.validateStop);
      out := Add(program, input);
      Update();
      Shown(before, shown);
      SameMembers(before, shown);
      if |members| > 1 {
        var train := Error(w.trainStart, w.trainStop);
        var validate := Error(w.validateStart, w.validateStop);
        if train > trainBefore || validate > validateBefore {
          // a duplicate leaves the errors as they were, so there is a new last member
          assert members[..|members| - 1] == before;
          members := members[..|members| - 1];
          Update();
          SameMembers(before, shown);
        }
      }
      kept := |members| != size;
    }

    /** The indicator shows the members. */
    lemma Shown(before: seq<seq<real>>, shown: seq<real>)
      requires Valid() && UpToDate() && members != [] && |shown| == |pb.outputs|
      requires forall i :: 0 <= i < |before| ==> |before[i]| == |pb.outputs|
      requires before != [] ==> forall t :: 0 <= t < |shown| ==> shown[t] == Combined(pb.classify, before, t)
      ensures indicator[..] == IndicatorOf(pb, members)
      ensures before != [] ==> shown == IndicatorOf(pb, before)
    {
    }

    /** The indicator is determined by the members. */
    lemma SameMembers(before: seq<seq<real>>, shown: seq<real>)
      requires Valid() && UpToDate() && members != [] && |shown| == |pb.outputs|
      requires forall i :: 0 <= i < |before| ==> |before[i]| == |pb.outputs|
      requires before != [] ==> forall t :: 0 <= t < |shown| ==> shown[t] == Combined(pb.classify, before, t)
      ensures before != [] && members == before ==> indicator[..] == shown
    {
    }

    /** The trials of a run: from a nonempty ensemble on, neither error ever grows. */
    method Trials(programs: seq<Program>, input: array<real>, w: Windows)
      requires Valid() && UpToDate() && members != []
      requires input.Length == |pb.columns| && input != indicator && w.Within(|pb.outputs|)
      modifies this, indicator, input
      ensures Valid() && UpToDate() && old(members) <= members
      ensures Loss(w.trainStart, w.trainStop) <= old(Loss(w.trainStart, w.trainStop))
      ensures Loss(w.validateStart, w.validateStop) <= old(Loss(w.validateStart, w.validateStop))
    {
      for i := 0 to |programs|
        invariant Valid() && UpToDate() && old(members) <= members
        invariant Loss(w.trainStart, w.trainStop) <= old(Loss(w.trainStart, w.trainStop))
        invariant Loss(w.validateStart, w.validateStop) <= old(Loss(w.validateStart, w.validateStop))
      {
        var _, _ := Trial(programs[i], input, w);
      }
    }
  }

  // ---- what votes and errors mean -------------------------------------------------------

  /** `out` is what `compute_error` records for a program that does not trap before `stop`. */
  ghost predicate Records(pb: Problem, program: Program, out: seq<real>, start: nat, stop: nat)
    requires pb.Valid()
  {
    && start <= stop <= |pb.outputs| == |out|
    && FirstTrap(pb, program, start, stop) >= stop
    && forall t :: start <= t < stop ==>
         program(pb.Pattern(t)).Some? && out[t] == Recorded(pb, t, program(pb.Pattern(t)).value)
  }

  /** Positions where the vote is not the target. */
  function Misses(pb: Problem, out: seq<real>, start: nat, stop: nat): nat
    requires stop <= |out| == |pb.outputs|
    decreases stop - start
  {
    if start >= stop then 0
    else Misses(pb, out, start, stop - 1) + (if out[stop - 1] != pb.outputs[stop - 1] then 1 else 0)
  }

  lemma {:induction false} MissesAreLoss(pb: Problem, out: seq<real>, start: nat, stop: nat)
    requires pb.IsClassification() && stop <= |out| == |pb.outputs|
    ensures EnsembleLoss(pb, out, start, stop) == Misses(pb, out, start, stop) as real
    decreases stop - start
  {
    if start >= stop {
    } else {
      MissesAreLoss(pb, out, start, stop - 1);
    }
  }

  /**
   For classification, a program's error is the number of its recorded votes that miss the target,
   and the error of any ensemble whose indicator shows these votes.
   */
  lemma {:induction false} ErrorCountsMisses(pb: Problem, program: Program, out: seq<real>, start: nat, stop: nat)
    requires pb.Valid() && pb.IsClassification() && Records(pb, program, out, start, stop)
    ensures ErrorOf(pb, program, start, stop) == Misses(pb, out, start, stop) as real
    ensures ErrorOf(pb, program, start, stop) == EnsembleLoss(pb, out, start, stop)
    decreases stop - start
  {
    if start >= stop {
    } else {
      NoTrapBefore(pb, program, start, stop);
      ErrorCountsMisses(pb, program, out, start, stop - 1);
      LossExtends(pb, program, start, stop - 1);
    }
  }

  lemma {:induction false} NoTrapBefore(pb: Problem, program: Program, start: nat, stop: nat)
    requires pb.Valid() && start < stop <= |pb.outputs| && FirstTrap(pb, program, start, stop) >= stop
    ensures FirstTrap(pb, program, start, stop - 1) >= stop - 1
    decreases stop - start
  {
    if start + 1 == stop {
    } else {
      NoTrapBefore(pb, program, start + 1, stop);
    }
  }

  /** An ensemble of one member shows that member's votes. */
  lemma OneMember(out: seq<real>, t: nat)
    requires t < |out| && (out[t] == 1.0 || out[t] == -1.0)
    ensures Combined(true, [out], t) == out[t]
  {
    assert Sum([out], t) == Sum([], t) + out[t] by {
      assert [out][..0] == [];
    }
  }

  /** So for a single member the ensemble error on any subrange is the program's own error. */
  lemma OneMemberAgrees(pb: Problem, program: Program, out: seq<real>, indicator: seq<real>, start: nat, stop: nat)
    requires pb.Valid() && pb.IsClassification() && Records(pb, program, out, start, stop)
    requires |indicator| == |pb.outputs|
    requires forall t :: start <= t < stop ==> indicator[t] == Combined(true, [out], t)
    ensures EnsembleLoss(pb, indicator, start, stop) == ErrorOf(pb, program, start, stop)
  {
    ErrorCountsMisses(pb, program, out, start, stop);
    forall t | start <= t < stop
      ensures indicator[t] == out[t]
    {
      OneMember(out, t);
    }
    SameLoss(pb, indicator, out, start, stop);
  }

  lemma {:induction false} SameLoss(pb: Problem, a: seq<real>, b: seq<real>, start: nat, stop: nat)
    requires stop <= |a| == |b| == |pb.outputs| && forall t :: start <= t < stop ==> a[t] == b[t]
    ensures EnsembleLoss(pb, a, start, stop) == EnsembleLoss(pb, b, start, stop)
    decreases stop - start
  {
    if start >= stop {
    } else {
      SameLoss(pb, a, b, start, stop - 1);
    }
  }

  /** How many members vote 1. */
  function Ayes(members: seq<seq<real>>, t: nat): nat
    requires forall i :: 0 <= i < |members| ==> t < |members[i]|
  {
    if members == [] then 0
    else Ayes(members[..|members| - 1], t) + (if members[|members| - 1][t] == 1.0 then 1 else 0)
  }

  lemma {:induction false} SumOfVotes(members: seq<seq<real>>, t: nat)
    requires forall i :: 0 <= i < |members| ==> t < |members[i]| && (members[i][t] == 1.0 || members[i][t] == -1.0)
    ensures Sum(members, t) == (2 * Ayes(members, t) - |members|) as real
    decreases |members|
  {
    if members == [] {
    } else {
      SumOfVotes(members[..|members| - 1], t);
    }
  }

  /** The indicator is 1 exactly when strictly more than half of the members vote 1. */
  lemma MajorityVote(members: seq<seq<real>>, t: nat)
    requires members != []
    requires forall i :: 0 <= i < |members| ==> t < |members[i]| && (members[i][t] == 1.0 || members[i][t] == -1.0)
    ensures Combined(true, members, t) == 1.0 <==> 2 * Ayes(members, t) > |members|
    ensures Combined(true, members, t) == 1.0 || Combined(true, members, t) == -1.0
  {
    SumOfVotes(members, t);
    Quotient(Sum(members, t), |members|);
  }

  lemma Quotient(x: real, n: nat)
    requires n > 0
    ensures x / n as real > 0.0 <==> x > 0.0
  {
    if x > 0.0 {
      assert x / n as real * n as real == x;
    } else {
      assert x / n as real * n as real == x;
    }
  }

  // ---- regression ----------------------------------------------------------------------

  /** The loss of an output is its distance from the desired one, and is what is recorded. */
  lemma RegressionLoss(pb: Problem, t: nat, x: real)
    requires !pb.classify && t < |pb.outputs|
    ensures var loss := Loss(pb, t, x);
            && 0.0 <= loss && (loss == x - pb.outputs[t] || loss == pb.outputs[t] - x)
            && (loss == 0.0 <==> x == pb.outputs[t]) && Recorded(pb, t, x) == loss
  {
  }

  /** Every output of the program in the range is the desired one. */
  ghost predicate Hits(pb: Problem, program: Program, start: nat, stop: nat)
    requires pb.Valid() && stop <= |pb.outputs|
  {
    forall t :: start <= t < stop ==> program(pb.Pattern(t)) == Some(pb.outputs[t])
  }

  /** The error of a program that does not trap is never below any one loss, and 0 exactly if it always hits. */
  lemma {:induction false} RegressionError(pb: Problem, program: Program, start: nat, stop: nat)
    requires pb.Valid() && !pb.classify && stop <= |pb.outputs| && FirstTrap(pb, program, start, stop) >= stop
    ensures 0.0 <= ErrorOf(pb, program, start, stop)
    ensures ErrorOf(pb, program, start, stop) == 0.0 <==> Hits(pb, program, start, stop)
    ensures forall t :: start <= t < stop ==>
              && program(pb.Pattern(t)).Some?
              && Loss(pb, t, program(pb.Pattern(t)).value) <= ErrorOf(pb, program, start, stop)
    decreases stop - start
  {
    if start >= stop {
    } else {
      RegressionError(pb, program, start + 1, stop);
      RegressionLoss(pb, start, program(pb.Pattern(start)).value);
    }
  }

  /** A program that is nowhere further from the desired output has no larger error. */
  lemma {:induction false} CloserIsFitter(pb: Problem, f: Program, g: Program, start: nat, stop: nat)
    requires pb.Valid() && !pb.classify && stop <= |pb.outputs|
    requires FirstTrap(pb, f, start, stop) >= stop && FirstTrap(pb, g, start, stop) >= stop
    requires forall t :: start <= t < stop ==> Closer(pb, f, g, t)
    ensures ErrorOf(pb, f, start, stop) <= ErrorOf(pb, g, start, stop)
    decreases stop - start
  {
    if start >= stop {
    } else {
      assert Closer(pb, f, g, start);
      CloserIsFitter(pb, f, g, start + 1, stop);
    }
  }

  /** The output of `f` lies in no wider interval around the desired one than that of `g`. */
  ghost predicate Closer(pb: Problem, f: Program, g: Program, t: nat)
    requires pb.Valid() && t < |pb.outputs|
  {
    var a, b, y := f(pb.Pattern(t)), g(pb.Pattern(t)), pb.outputs[t];
    && a.Some? && b.Some?
    && var r := if b.value < y then y - b.value else b.value - y;
       y - r <= a.value <= y + r
  }

  /** The sum of the errors of some programs. */
  function ErrorSum(pb: Problem, programs: seq<Program>, start: nat, stop: nat): real
    requires pb.Valid() && stop <= |pb.outputs|
  {
    if programs == [] then 0.0
    else ErrorSum(pb, programs[..|programs| - 1], start, stop) + ErrorOf(pb, programs[|programs| - 1], start, stop)
  }

  ghost predicate AllRecord(pb: Problem, programs: seq<Program>, members: seq<seq<real>>, start: nat, stop: nat)
    requires pb.Valid()
  {
    && |programs| == |members|
    && forall i :: 0 <= i < |members| ==> Records(pb, programs[i], members[i], start, stop)
  }

  lemma {:induction false} ErrorSumExtends(pb: Problem, programs: seq<Program>, members: seq<seq<real>>,
                                           start: nat, stop: nat)
    requires pb.Valid() && !pb.classify && start < stop && AllRecord(pb, programs, members, start, stop)
    requires stop <= |pb.outputs|
    ensures forall i :: 0 <= i < |members| ==> stop <= |members[i]|
    ensures AllRecord(pb, programs, members, start, stop - 1)
    ensures ErrorSum(pb, programs, start, stop) == ErrorSum(pb, programs, start, stop - 1) + Sum(members, stop - 1)
    decreases |members|
  {
    hide Records, Problem.Valid;
    forall i | 0 <= i < |members|
      ensures Records(pb, programs[i], members[i], start, stop - 1) && stop <= |members[i]|
    {
      ErrorExtends(pb, programs[i], members[i], start, stop);
    }
    if members == [] {
    } else {
      var n := |members| - 1;
      assert AllRecord(pb, programs[..n], members[..n], start, stop);
      ErrorSumExtends(pb, programs[..n], members[..n], start, stop);
      ErrorExtends(pb, programs[n], members[n], start, stop);
    }
  }

  lemma ErrorExtends(pb: Problem, f: Program, out: seq<real>, start: nat, stop: nat)
    requires pb.Valid() && !pb.classify && start < stop && Records(pb, f, out, start, stop)
    ensures stop <= |out| == |pb.outputs| && Records(pb, f, out, start, stop - 1)
    ensures ErrorOf(pb, f, start, stop) == ErrorOf(pb, f, start, stop - 1) + out[stop - 1]
  {
    NoTrapBefore(pb, f, start, stop);
    LossExtends(pb, f, start, stop - 1);
  }

  lemma {:induction false} NoErrors(pb: Problem, programs: seq<Program>, start: nat, stop: nat)
    requires pb.Valid() && stop <= |pb.outputs| && stop <= start
    ensures ErrorSum(pb, programs, start, stop) == 0.0
  {
    if programs == [] {
    } else {
      NoErrors(pb, programs[..|programs| - 1], start, stop);
    }
  }

  /** For a regression the error of the ensemble is the mean of the members' own errors. */
  lemma {:induction false} EnsembleIsMean(pb: Problem, programs: seq<Program>, members: seq<seq<real>>,
                                          start: nat, stop: nat)
    requires pb.Valid() && !pb.classify && stop <= |pb.outputs|
    requires members != [] && AllRecord(pb, programs, members, start, stop)
    ensures forall i :: 0 <= i < |members| ==> |members[i]| == |pb.outputs|
    ensures EnsembleLoss(pb, IndicatorOf(pb, members), start, stop) * |members| as real
         == ErrorSum(pb, programs, start, stop)
    decreases stop
  {
    assert forall i :: 0 <= i < |members| ==> Records(pb, programs[i], members[i], start, stop);
    hide Records, Problem.Valid, Sum, ErrorOf, Combined, ErrorSum;
    if start >= stop {
      NoErrors(pb, programs, start, stop);
    } else {
      ErrorSumExtends(pb, programs, members, start, stop);
      EnsembleIsMean(pb, programs, members, start, stop - 1);
      OneMoreMean(pb, members, start, stop);
      var indicator := IndicatorOf(pb, members);
      hide EnsembleLoss, IndicatorOf;
      MeanTimes(EnsembleLoss(pb, indicator, start, stop), EnsembleLoss(pb, indicator, start, stop - 1),
                Sum(members, stop - 1), ErrorSum(pb, programs, start, stop - 1), |members| as real);
    }
  }

  lemma OneMoreMean(pb: Problem, members: seq<seq<real>>, start: nat, stop: nat)
    requires !pb.classify && members != [] && start < stop <= |pb.outputs|
    requires forall i :: 0 <= i < |members| ==> |members[i]| == |pb.outputs|
    ensures EnsembleLoss(pb, IndicatorOf(pb, members), start, stop) ==
            EnsembleLoss(pb, IndicatorOf(pb, members), start, stop - 1) + Sum(members, stop - 1) / |members| as real
  {
  }

  lemma MeanTimes(now: real, before: real, here: real, sum: real, n: real)
    requires n > 0.0 && now == before + here / n && before * n == sum
    ensures now * n == sum + here
  {
    assert here / n * n == here;
  }
}
