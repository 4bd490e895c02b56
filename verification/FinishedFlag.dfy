/**
  How often a streaming group raises the finished flag: never before all members are finished, at
  least once afterwards, and exactly once under a condition on the order of the last calls.
 */
module FinishedFlag {
  import opened Wrappers
  import opened OrderedKeys
  import opened SequenceData
  import opened Sequences
  import opened SamplingParams
  import opened Streaming
  import opened ParallelSampling
  import opened GroupStreaming

  /** The number of outputs marked finished. */
  ghost function FinishedCount(outputs: seq<GroupOutput>): nat {
    if outputs == [] then 0
    else FinishedCount(outputs[..|outputs| - 1]) + if outputs[|outputs| - 1].finished then 1 else 0
  }

  /** A call raises the flag exactly when it is for the first remaining member and all are finished. */
  lemma AskEffect(h: History, i: nat)
    requires WellFormed(h) && StreamInv(h) && i in h.group.remaining
    ensures WellFormed(GroupStep(h, Ask(i))) && StreamInv(GroupStep(h, Ask(i)))
    ensures AllDone(GroupStep(h, Ask(i)).group) <==> AllDone(h.group)
    ensures GroupStep(h, Ask(i)).group.remaining == Recorded(h.group, i).remaining
    ensures FinishedCount(GroupStep(h, Ask(i)).outputs)
         == FinishedCount(h.outputs) + if i == h.group.remaining[0] && AllDone(h.group) then 1 else 0
  {
    StepStreamInv(h, Ask(i));
    if i == h.group.remaining[0] {
      AskFirstAnswers(h, i);
      AnsweredKeepsDone(h, i, GroupStep(h, Ask(i)));
    } else {
      AskLater(h, i);
    }
  }

  lemma AnsweredKeepsDone(h: History, i: nat, h': History)
    requires WellFormed(h) && i < |h.group.members| && Answered(h, i, h')
    ensures AllDone(h'.group) <==> AllDone(h.group)
  {
    assert forall k: nat :: k < |h.group.members| ==> h'.group.members[k].Finished() == h.group.members[k].Finished();
  }

  // ---------------------------------------------------------------------------------------
  // Not before all members are finished
  // ---------------------------------------------------------------------------------------

  ghost predicate FlagInv(h: History) {
    !AllDone(h.group) ==> FinishedCount(h.outputs) == 0
  }

  lemma StepFlagInv(h: History, a: Action)
    requires WellFormed(h) && StreamInv(h) && FlagInv(h) && MayHappen(h.group, a)
    ensures FlagInv(GroupStep(h, a))
    ensures !AllDone(h.group) ==> FinishedCount(GroupStep(h, a).outputs) == 0
  {
    match a {
      case Progress(i, s) =>
        assert !AllDone(h.group);
      case Ask(i) =>
        AskEffect(h, i);
    }
  }

  lemma {:induction false} RunFlagInv(h: History, actions: seq<Action>)
    requires WellFormed(h) && StreamInv(h) && FlagInv(h) && IsRun(h, actions)
    ensures FlagInv(GroupRun(h, actions))
    decreases |actions|
  {
    if actions != [] {
      StepStreamInv(h, actions[0]);
      StepFlagInv(h, actions[0]);
      RunFlagInv(GroupStep(h, actions[0]), actions[1..]);
    }
  }

  /** No output is marked finished before all members are finished. */
  lemma NotFinishedEarly(p: Params, prompt: seq<Token>, actions: seq<Action>, k: nat)
    requires p.n >= 1 && p.bufferLength >= 0 && p.outputKind.DeltaOnly? && IsRun(Begin(p, prompt), actions)
    requires k < |GroupRun(Begin(p, prompt), actions).outputs| && GroupRun(Begin(p, prompt), actions).outputs[k].finished
    ensures AllDone(GroupRun(Begin(p, prompt), actions).group)
  {
    BeginStreamInv(p, prompt);
    RunFlagInv(Begin(p, prompt), actions);
    FinishedCounts(GroupRun(Begin(p, prompt), actions).outputs, k);
  }

  lemma {:induction false} FinishedCounts(outputs: seq<GroupOutput>, k: nat)
    requires k < |outputs| && outputs[k].finished
    ensures FinishedCount(outputs) >= 1
  {
    if k < |outputs| - 1 {
      FinishedCounts(outputs[..|outputs| - 1], k);
    }
  }

  // ---------------------------------------------------------------------------------------
  // Exactly once
  // ---------------------------------------------------------------------------------------

  /** The calls are for remaining members, which are recorded one by one until none is left. */
  ghost predicate Records(remaining: seq<nat>, calls: seq<Action>)
    decreases |calls|
  {
    if calls == [] then remaining == []
    else calls[0].Ask? && calls[0].i in remaining && Records(Without(remaining, calls[0].i), calls[1..])
  }

  /** How many of the calls are for the member that is first when they are made. */
  ghost function Raised(remaining: seq<nat>, calls: seq<Action>): nat
    decreases |calls|
  {
    if calls == [] || remaining == [] then 0
    else (if calls[0] == Ask(remaining[0]) then 1 else 0) + Raised(Without(remaining, calls[0].i), calls[1..])
  }

  /** From a state in which all members are finished, the flag is raised by each call for the first one. */
  lemma {:induction false} RestRaises(h: History, actions: seq<Action>)
    requires WellFormed(h) && StreamInv(h) && AllDone(h.group)
    requires IsRun(h, actions) && GroupRun(h, actions).group.remaining == []
    ensures Records(h.group.remaining, actions)
    ensures FinishedCount(GroupRun(h, actions).outputs) == FinishedCount(h.outputs) + Raised(h.group.remaining, actions)
    decreases |actions|
  {
    if actions != [] {
      AskEffect(h, actions[0].i);
      RestRaises(GroupStep(h, actions[0]), actions[1..]);
    }
  }

  /** The first member stays first until it is called. */
  lemma WithoutKeepsFirst(remaining: seq<nat>, i: nat)
    requires Distinct(remaining) && i in remaining
    ensures if i == remaining[0] then Without(remaining, i) == remaining[1..]
            else Without(remaining, i) != [] && Without(remaining, i)[0] == remaining[0]
  {
    if i == remaining[0] {
      WithoutFirst(remaining);
    }
  }

  /** Exactly one call is for the first member of its moment if and only if the last one is for the first of all. */
  lemma {:induction false} RaisedOnceIff(remaining: seq<nat>, calls: seq<Action>)
    requires Distinct(remaining) && remaining != [] && Records(remaining, calls)
    ensures calls != [] && calls[|calls| - 1].Ask? && calls[|calls| - 1].i in remaining
    ensures Raised(remaining, calls) >= 1
    ensures Raised(remaining, calls) == 1 <==> calls[|calls| - 1] == Ask(remaining[0])
    decreases |calls|
  {
    var i := calls[0].i;
    var rest := Without(remaining, i);
    WithoutDistinct(remaining, i);
    WithoutKeepsFirst(remaining, i);
    if rest == [] {
      assert calls[1..] == [];
    } else {
      RaisedOnceIff(rest, calls[1..]);
      assert calls[1..][|calls| - 2] == calls[|calls| - 1];
    }
  }

  lemma SplitRest<T>(s: seq<T>, k: nat)
    requires 0 < k <= |s|
    ensures s[..k][0] == s[0] && s[..k][1..] == s[1..][..k - 1] && s[k..] == s[1..][k - 1..]
  {
  }

  lemma {:induction false} RunSplit(h: History, actions: seq<Action>, k: nat)
    requires WellFormed(h) && IsRun(h, actions) && k <= |actions|
    ensures IsRun(h, actions[..k]) && IsRun(GroupRun(h, actions[..k]), actions[k..])
    ensures GroupRun(h, actions) == GroupRun(GroupRun(h, actions[..k]), actions[k..])
    decreases |actions|
  {
    if k == 0 {
      assert actions[k..] == actions;
    } else {
      StepWellFormed(h, actions[0]);
      RunSplit(GroupStep(h, actions[0]), actions[1..], k - 1);
      SplitRest(actions, k);
      RunCons(h, actions[..k]);
    }
  }

  /** The run up to its `k`-th action leaves some member unfinished, and that action finishes the last one. */
  ghost predicate LastFinishesAt(h: History, actions: seq<Action>, k: nat)
    requires WellFormed(h) && IsRun(h, actions)
  {
    && k < |actions| && IsRun(h, actions[..k]) && IsRun(h, actions[..k + 1])
    && !AllDone(GroupRun(h, actions[..k]).group) && AllDone(GroupRun(h, actions[..k + 1]).group)
  }

  lemma {:induction false} LastFinish(h: History, actions: seq<Action>, n: nat) returns (k: nat)
    requires WellFormed(h) && IsRun(h, actions) && !AllDone(h.group)
    requires n <= |actions| && IsRun(h, actions[..n]) && AllDone(GroupRun(h, actions[..n]).group)
    ensures LastFinishesAt(h, actions, k)
  {
    RunSplit(h, actions, n - 1);
    if AllDone(GroupRun(h, actions[..n - 1]).group) {
      k := LastFinish(h, actions, n - 1);
    } else {
      k := n - 1;
    }
  }

  /** The action that finishes the last member is not a call, and the flag has not been raised yet. */
  lemma LastFinishStep(h: History, a: Action)
    requires WellFormed(h) && StreamInv(h) && FlagInv(h) && MayHappen(h.group, a) && WellFormed(GroupStep(h, a))
    requires !AllDone(h.group) && AllDone(GroupStep(h, a).group)
    ensures StreamInv(GroupStep(h, a)) && GroupStep(h, a).group.remaining != [] && FinishedCount(GroupStep(h, a).outputs) == 0
  {
    StepStreamInv(h, a);
    StepFlagInv(h, a);
    if a.Ask? {
      AskEffect(h, a.i);
      assert false;
    }
  }

  lemma FlagAtLastFinish(h: History, actions: seq<Action>, k: nat)
    requires WellFormed(h) && StreamInv(h) && FlagInv(h) && IsRun(h, actions) && LastFinishesAt(h, actions, k)
    ensures var h' := GroupRun(h, actions[..k + 1]);
            StreamInv(h') && h'.group.remaining != [] && FinishedCount(h'.outputs) == 0
  {
    var before := GroupRun(h, actions[..k]);
    RunStreamInv(h, actions[..k]);
    RunFlagInv(h, actions[..k]);
    RunSplit(h, actions[..k + 1], k);
    assert actions[..k + 1][..k] == actions[..k] && actions[..k + 1][k..] == [actions[k]];
    RunOne(before, actions[k]);
    LastFinishStep(before, actions[k]);
  }

  lemma OnceIffFrom(h: History, actions: seq<Action>) returns (k: nat)
    requires WellFormed(h) && StreamInv(h) && FlagInv(h) && !AllDone(h.group)
    requires IsRun(h, actions) && GroupRun(h, actions).group.remaining == []
    ensures LastFinishesAt(h, actions, k)
    ensures var outputs, g := GroupRun(h, actions).outputs, GroupRun(h, actions[..k + 1]).group;
            && g.remaining != [] && FinishedCount(outputs) >= 1
            && (FinishedCount(outputs) == 1 <==> actions[|actions| - 1] == Ask(g.remaining[0]))
  {
    assert actions[..|actions|] == actions;
    RunStreamInv(h, actions);
    k := LastFinish(h, actions, |actions|);
    FlagAtLastFinish(h, actions, k);
    RunSplit(h, actions, k + 1);
    var h', calls := GroupRun(h, actions[..k + 1]), actions[k + 1..];
    RestRaises(h', calls);
    RaisedOnceIff(h'.group.remaining, calls);
    assert calls[|calls| - 1] == actions[|actions| - 1];
  }

  /**
    The finished flag, exactly: a run that records all members as finished raises it in exactly one
    output if and only if the last call of the run is for the member that was first among the
    remaining ones when the last member finished.
   */
  lemma FinishedOnceIff(p: Params, prompt: seq<Token>, actions: seq<Action>) returns (k: nat)
    requires p.n >= 1 && p.bufferLength >= 0 && p.outputKind.DeltaOnly? && IsRun(Begin(p, prompt), actions)
    requires GroupRun(Begin(p, prompt), actions).group.remaining == []
    ensures LastFinishesAt(Begin(p, prompt), actions, k)
    ensures var outputs, g := GroupRun(Begin(p, prompt), actions).outputs, GroupRun(Begin(p, prompt), actions[..k + 1]).group;
            && g.remaining != [] && FinishedCount(outputs) >= 1
            && (FinishedCount(outputs) == 1 <==> actions[|actions| - 1] == Ask(g.remaining[0]))
  {
    BeginStreamInv(p, prompt);
    assert !Begin(p, prompt).group.members[0].Finished();
    k := OnceIffFrom(Begin(p, prompt), actions);
  }

  // ---------------------------------------------------------------------------------------
  // More than once
  // ---------------------------------------------------------------------------------------

  /** Asking, in order, for the first `m` remaining members. */
  function AskFirst(remaining: seq<nat>, m: nat): (r: seq<Action>)
    requires m <= |remaining|
    ensures |r| == m && forall k :: 0 <= k < m ==> r[k] == Ask(remaining[k])
  {
    seq(m, k requires 0 <= k < m => Ask(remaining[k]))
  }

  lemma AskFirstRest(remaining: seq<nat>, m: nat)
    requires 0 < m <= |remaining|
    ensures AskFirst(remaining, m)[0] == Ask(remaining[0]) && AskFirst(remaining, m)[1..] == AskFirst(remaining[1..], m - 1)
  {
  }

  /** Asking in order, every call is for the first member of its moment. */
  lemma {:induction false} AskFirstRaises(h: History, m: nat)
    requires WellFormed(h) && StreamInv(h) && AllDone(h.group) && m == |h.group.remaining|
    ensures IsRun(h, AskFirst(h.group.remaining, m))
    ensures var h' := GroupRun(h, AskFirst(h.group.remaining, m));
            h'.group.remaining == [] && FinishedCount(h'.outputs) == FinishedCount(h.outputs) + m
    decreases m
  {
    if m > 0 {
      var i, actions := h.group.remaining[0], AskFirst(h.group.remaining, m);
      AskEffect(h, i);
      WithoutFirst(h.group.remaining);
      var h1 := GroupStep(h, Ask(i));
      AskFirstRaises(h1, m - 1);
      AskFirstRest(h.group.remaining, m);
      RunCons(h, actions);
    }
  }

  lemma {:induction false} CallsAreSampled(h: History, actions: seq<Action>, r: Rules)
    requires WellFormed(h) && IsRun(h, actions) && forall k :: 0 <= k < |actions| ==> actions[k].Ask?
    ensures SampledRun(h, actions, r)
    decreases |actions|
  {
    if actions != [] {
      StepWellFormed(h, actions[0]);
      CallsAreSampled(GroupStep(h, actions[0]), actions[1..], r);
      SampledCons(h, actions, r);
    }
  }

  /** With one token allowed, the first token of a member finishes it. */
  lemma OneTokenFinishes(prompt: seq<Token>, r: Rules)
    requires r.maxTokens == Some(1) && r.minTokens <= 1
    ensures AfterToken(NewSeq(prompt), 0, "", 0.0, r).Finished()
  {
  }

  /** The first `m` members are finished, the others are new, and nothing has been called. */
  ghost predicate FirstFinished(h: History, p: Params, prompt: seq<Token>, m: nat)
    requires p.n >= 1 && p.bufferLength >= 0
  {
    && h == Begin(p, prompt).(group := Begin(p, prompt).group.(members := h.group.members)) && |h.group.members| == p.n
    && forall k: nat :: k < p.n ==> if k < m then h.group.members[k].Finished() else h.group.members[k] == NewSeq(prompt)
  }

  lemma {:induction false} FinishFirst(p: Params, prompt: seq<Token>, r: Rules, m: nat) returns (actions: seq<Action>)
    requires 1 <= p.n && p.bufferLength >= 0 && m <= p.n && r.maxTokens == Some(1) && r.minTokens <= 1
    ensures SampledRun(Begin(p, prompt), actions, r) && IsRun(Begin(p, prompt), actions)
    ensures FirstFinished(GroupRun(Begin(p, prompt), actions), p, prompt, m)
  {
    var h := Begin(p, prompt);
    if m == 0 {
      actions := [];
    } else {
      var start := FinishFirst(p, prompt, r, m - 1);
      var a := Progress(m - 1, AfterToken(NewSeq(prompt), 0, "", 0.0, r));
      OneTokenFinishes(prompt, r);
      TokenStepEvolves(NewSeq(prompt), 0, "", 0.0, r);
      SampledOne(GroupRun(h, start), a, r);
      SampledAppend(h, start, [a], r);
      RunAppend(h, start, [a]);
      actions := start + [a];
    }
  }

  /**
    The failing case, for any number of samples: with one token per member, all members may finish
    before any of them is called, and then every call raises the flag.
   */
  lemma FinishedByEveryCall(p: Params, prompt: seq<Token>, r: Rules) returns (actions: seq<Action>)
    requires p.n >= 1 && p.outputKind.DeltaOnly? && RequestRules(p, r) && p.maxTokens == Some(1) && p.minTokens <= 1
    ensures SampledRun(Begin(p, prompt), actions, r) && IsRun(Begin(p, prompt), actions)
    ensures var h := GroupRun(Begin(p, prompt), actions);
            h.group.remaining == [] && FinishedCount(h.outputs) == p.n
  {
    var h := Begin(p, prompt);
    var start := FinishFirst(p, prompt, r, p.n);
    var done := GroupRun(h, start);
    BeginStreamInv(p, prompt);
    RunStreamInv(h, start);
    var calls := AskFirst(done.group.remaining, p.n);
    AskFirstRaises(done, p.n);
    CallsAreSampled(done, calls, r);
    SampledAppend(h, start, calls, r);
    RunAppend(h, start, calls);
    actions := start + calls;
  }
}
