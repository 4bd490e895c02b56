/**
  Streaming parallel sampling with real engine steps: every member progresses by sampled tokens whose
  characters pass the stop check, in any order with the calls. The texts the client collects are
  compared with the texts of the members, over every run.
 */
module GroupStreaming {
  import opened Wrappers
  import opened OrderedKeys
  import opened SequenceData
  import opened Sequences
  import opened SamplingParams
  import opened Streaming
  import opened StopStrings
  import opened ParallelSampling

  /** A token with log-probability `lp` is appended, its characters arrive and the stop check runs. */
  function AfterToken(s: Seq, t: Token, chars: string, lp: real, r: Rules): Seq {
    MaybeStop(Extended(s, t, chars), |chars|, r).(logprob := s.logprob + lp)
  }

  ghost predicate IsTokenStep(s: Seq, s': Seq, r: Rules) {
    exists t, chars, lp :: s' == AfterToken(s, t, chars, lp, r)
  }

  /** A run of the group in which progress is made by sampled tokens only. */
  ghost predicate SampledRun(h: History, actions: seq<Action>, r: Rules)
    requires WellFormed(h)
    decreases |actions|
  {
    actions == []
    || (&& MayHappen(h.group, actions[0])
        && (actions[0].Progress? ==> IsTokenStep(h.group.members[actions[0].i], actions[0].s, r))
        && (StepWellFormed(h, actions[0]); SampledRun(GroupStep(h, actions[0]), actions[1..], r)))
  }

  lemma {:induction false} SampledIsRun(h: History, actions: seq<Action>, r: Rules)
    requires WellFormed(h) && SampledRun(h, actions, r)
    ensures IsRun(h, actions)
    decreases |actions|
  {
    if actions != [] {
      StepWellFormed(h, actions[0]);
      SampledIsRun(GroupStep(h, actions[0]), actions[1..], r);
    }
  }

  /** The rules belong to the request: same stop strings and minimum length, and the hold-back derived from them. */
  ghost predicate RequestRules(p: Params, r: Rules) {
    && r.stop == p.stop && r.includeStop == p.includeStop && r.minTokens == p.minTokens && r.maxTokens == p.maxTokens
    && NoEmptyStop(r) && p.bufferLength == Buffer(r)
  }

  /** A token step of an unfinished member is a permitted evolution. */
  lemma TokenStepEvolves(s: Seq, t: Token, chars: string, lp: real, r: Rules)
    requires !s.Finished()
    ensures Evolves(s, AfterToken(s, t, chars, lp, r))
  {
    MaybeStopText(Extended(s, t, chars), chars, r);
  }

  // ---------------------------------------------------------------------------------------
  // No text is lost, repeated or taken back
  // ---------------------------------------------------------------------------------------

  /** A member and what was collected for it, seen as a single stream. */
  ghost predicate StreamSync(s: Seq, c: Output, r: Rules)
    requires NoEmptyStop(r)
  {
    InSync(Stream(s, Some(c)), r) && EndChecked(Stream(s, Some(c)), r)
  }

  ghost predicate TextInv(h: History, r: Rules)
    requires WellFormed(h) && NoEmptyStop(r)
  {
    && StreamInv(h) && h.group.p.bufferLength == Buffer(r)
    && (forall i :: 0 <= i < |h.group.members| ==> StreamSync(h.group.members[i], h.collected[i], r))
    && (h.group.remaining == [] ==>
          forall i :: 0 <= i < |h.group.members| ==> h.collected[i].text == h.group.members[i].text)
  }

  lemma BeginTextInv(p: Params, prompt: seq<Token>, r: Rules)
    requires p.n >= 1 && p.outputKind.DeltaOnly? && RequestRules(p, r)
    ensures TextInv(Begin(p, prompt), r)
  {
    BeginRest(p, prompt);
    assert forall k :: 0 <= k < |r.stop| ==> |r.stop[k]| > 0;
  }

  lemma TokenStreamSync(s: Seq, c: Output, t: Token, chars: string, lp: real, r: Rules)
    requires NoEmptyStop(r) && HoldBackSafe(r.stop, r.includeStop, r.minTokens)
    requires StreamSync(s, c, r) && !s.Finished()
    ensures StreamSync(AfterToken(s, t, chars, lp, r), c, r)
  {
    var st := Stream(s, Some(c));
    TokenInSync(st, t, chars, r);
    TokenEndChecked(st, t, chars, r);
  }

  /** Reading a delta brings the client to the cumulative output of the member. */
  lemma ReadStreamSync(s: Seq, c: Output, r: Rules)
    requires NoEmptyStop(r) && StreamSync(s, c, r)
    ensures StreamSync(AfterDelta(s, Buffer(r)), Add(c, DeltaOutput(s, Buffer(r))), r)
    ensures Add(c, DeltaOutput(s, Buffer(r))) == CumulativeOutput(s, Buffer(r))
  {
    ReadInSync(Stream(s, Some(c)), r);
  }

  lemma ProgressTextInv(h: History, i: nat, s: Seq, r: Rules)
    requires WellFormed(h) && NoEmptyStop(r) && HoldBackSafe(r.stop, r.includeStop, r.minTokens) && TextInv(h, r)
    requires i < |h.group.members| && Evolves(h.group.members[i], s) && IsTokenStep(h.group.members[i], s, r)
    ensures TextInv(GroupStep(h, Progress(i, s)), r)
  {
    ProgressStreamInv(h, i, s);
    var t, chars, lp :| s == AfterToken(h.group.members[i], t, chars, lp, r);
    TokenStreamSync(h.group.members[i], h.collected[i], t, chars, lp, r);
  }

  /**
    An answered call brings the client, for every member at once, to the cumulative output of that
    moment.
   */
  lemma AnsweredTextInv(h: History, i: nat, h': History, r: Rules)
    requires WellFormed(h) && NoEmptyStop(r) && TextInv(h, r) && i in h.group.remaining
    requires WellFormed(h') && Answered(h, i, h')
    ensures TextInv(h', r)
    ensures forall k :: 0 <= k < |h.group.members| ==> h'.collected[k] == CumulativeOutput(h.group.members[k], Buffer(r))
  {
    AnsweredStreamInv(h, i, h');
    var g := h.group;
    forall k: nat | k < |g.members|
      ensures StreamSync(h'.group.members[k], h'.collected[k], r)
      ensures h'.collected[k] == CumulativeOutput(g.members[k], Buffer(r))
    {
      ReadStreamSync(g.members[k], h.collected[k], r);
    }
    if h'.group.remaining == [] {
      LastRemaining(g, i);
    }
  }

  lemma AskTextInv(h: History, i: nat, r: Rules)
    requires WellFormed(h) && NoEmptyStop(r) && TextInv(h, r) && i in h.group.remaining
    ensures WellFormed(GroupStep(h, Ask(i))) && TextInv(GroupStep(h, Ask(i)), r)
  {
    StepWellFormed(h, Ask(i));
    if i == h.group.remaining[0] {
      AskFirstAnswers(h, i);
      AnsweredTextInv(h, i, GroupStep(h, Ask(i)), r);
    } else {
      AskLaterStreamInv(h, i);
      AskLater(h, i);
    }
  }

  lemma {:induction false} RunTextInv(h: History, actions: seq<Action>, r: Rules)
    requires WellFormed(h) && NoEmptyStop(r) && HoldBackSafe(r.stop, r.includeStop, r.minTokens) && TextInv(h, r)
    requires SampledRun(h, actions, r) && IsRun(h, actions)
    ensures TextInv(GroupRun(h, actions), r)
    decreases |actions|
  {
    if actions != [] {
      StepWellFormed(h, actions[0]);
      match actions[0] {
        case Progress(i, s) =>
          ProgressTextInv(h, i, s, r);
        case Ask(i) =>
          AskTextInv(h, i, r);
      }
      RunTextInv(GroupStep(h, actions[0]), actions[1..], r);
    }
  }

  /**
    Streaming parallel sampling loses, repeats and takes back no text when the hold-back is safe. In
    every run of sampled tokens and calls, what the client has collected for a member is a prefix of
    its text and of its tokens, and all of them once the last member is recorded as finished.
   */
  lemma TextConserved(p: Params, prompt: seq<Token>, actions: seq<Action>, r: Rules)
    requires p.n >= 1 && p.outputKind.DeltaOnly? && RequestRules(p, r)
    requires HoldBackSafe(p.stop, p.includeStop, p.minTokens) && SampledRun(Begin(p, prompt), actions, r)
    ensures IsRun(Begin(p, prompt), actions)
    ensures var h := GroupRun(Begin(p, prompt), actions);
            && (forall i :: 0 <= i < |h.group.members| ==>
                  h.collected[i].text <= h.group.members[i].text && h.collected[i].tokens <= h.group.members[i].output)
            && (h.group.remaining == [] ==>
                  forall i :: 0 <= i < |h.group.members| ==>
                    && h.group.members[i].Finished()
                    && h.collected[i].text == h.group.members[i].text && h.collected[i].tokens == h.group.members[i].output)
  {
    SampledIsRun(Begin(p, prompt), actions, r);
    BeginTextInv(p, prompt, r);
    RunTextInv(Begin(p, prompt), actions, r);
  }

  // ---------------------------------------------------------------------------------------
  // The exact condition
  // ---------------------------------------------------------------------------------------

  lemma {:induction false} SampledAppend(h: History, a: seq<Action>, b: seq<Action>, r: Rules)
    requires WellFormed(h) && SampledRun(h, a, r) && IsRun(h, a) && SampledRun(GroupRun(h, a), b, r)
    ensures SampledRun(h, a + b, r)
    decreases |a|
  {
    if a == [] {
      assert a + b == b;
    } else {
      StepWellFormed(h, a[0]);
      SampledAppend(GroupStep(h, a[0]), a[1..], b, r);
      AppendRest(a, b);
      SampledCons(h, a + b, r);
    }
  }

  lemma SampledCons(h: History, actions: seq<Action>, r: Rules)
    requires WellFormed(h) && actions != [] && MayHappen(h.group, actions[0]) && WellFormed(GroupStep(h, actions[0]))
    requires actions[0].Progress? ==> IsTokenStep(h.group.members[actions[0].i], actions[0].s, r)
    requires SampledRun(GroupStep(h, actions[0]), actions[1..], r)
    ensures SampledRun(h, actions, r)
  {
  }

  lemma SampledOne(h: History, a: Action, r: Rules)
    requires WellFormed(h) && MayHappen(h.group, a) && (a.Progress? ==> IsTokenStep(h.group.members[a.i], a.s, r))
    ensures WellFormed(GroupStep(h, a)) && SampledRun(h, [a], r) && IsRun(h, [a]) && GroupRun(h, [a]) == GroupStep(h, a)
  {
    RunOne(h, a);
    assert [a][1..] == [];
    SampledCons(h, [a], r);
  }

  /** Member 0, still the first remaining one, is in the state of a single stream. */
  ghost predicate Mirrors(h: History, st: Stream)
    requires WellFormed(h)
  {
    && StreamInv(h) && h.group.remaining != [] && h.group.remaining[0] == 0
    && h.group.members[0] == st.s && h.collected[0].text == ReceivedText(st)
  }

  /** The action by which a group follows one event of a single, unfinished stream. */
  function Following(st: Stream, e: StreamEvent, r: Rules): Action {
    match e
    case NewToken(t, chars) => Progress(0, AfterToken(st.s, t, chars, 0.0, r))
    case Read => Ask(0)
  }

  lemma FollowRead(h: History, st: Stream, r: Rules)
    requires WellFormed(h) && NoEmptyStop(r) && h.group.p.bufferLength == Buffer(r) && Mirrors(h, st) && !st.s.Finished()
    ensures WellFormed(GroupStep(h, Ask(0))) && GroupStep(h, Ask(0)).group.p == h.group.p
    ensures Mirrors(GroupStep(h, Ask(0)), Step(st, Read, r))
  {
    AskFirstStreamInv(h, 0);
    AskFirstAnswers(h, 0);
  }

  lemma FollowEvent(h: History, st: Stream, e: StreamEvent, r: Rules)
    requires WellFormed(h) && NoEmptyStop(r) && h.group.p.bufferLength == Buffer(r) && Mirrors(h, st) && !st.s.Finished()
    ensures var a := Following(st, e, r);
            && SampledRun(h, [a], r) && IsRun(h, [a])
            && GroupRun(h, [a]).group.p == h.group.p
            && Mirrors(GroupRun(h, [a]), Step(st, e, r))
  {
    var a := Following(st, e, r);
    match e {
      case NewToken(t, chars) =>
        TokenStepEvolves(st.s, t, chars, 0.0, r);
        ProgressStreamInv(h, 0, a.s);
        assert IsTokenStep(h.group.members[0], a.s, r);
      case Read =>
        FollowRead(h, st, r);
    }
    SampledOne(h, a, r);
  }

  /** A single stream whose last event met an unfinished sequence can happen to a member of a group. */
  lemma {:induction false} GroupFollows(p: Params, prompt: seq<Token>, events: seq<StreamEvent>, r: Rules)
    returns (actions: seq<Action>)
    requires p.n >= 1 && p.outputKind.DeltaOnly? && RequestRules(p, r)
    requires events != [] ==> !Run(prompt, events[..|events| - 1], r).s.Finished()
    ensures SampledRun(Begin(p, prompt), actions, r) && IsRun(Begin(p, prompt), actions)
    ensures GroupRun(Begin(p, prompt), actions).group.p == p
    ensures Mirrors(GroupRun(Begin(p, prompt), actions), Run(prompt, events, r))
    decreases |events|
  {
    var h := Begin(p, prompt);
    if events == [] {
      BeginTextInv(p, prompt, r);
      actions := [];
    } else {
      var before, e := events[..|events| - 1], events[|events| - 1];
      var start := GroupFollows(p, prompt, before, r);
      var a := Following(Run(prompt, before, r), e, r);
      FollowEvent(GroupRun(h, start), Run(prompt, before, r), e, r);
      SampledAppend(h, start, [a], r);
      RunAppend(h, start, [a]);
      actions := start + [a];
    }
  }

  ghost predicate TextsKept(h: History)
    requires WellFormed(h)
  {
    forall i :: 0 <= i < |h.group.members| ==> h.collected[i].text <= h.group.members[i].text
  }

  /** Whatever the limits, the prompt and the run, the texts collected stay part of the members' texts. */
  ghost predicate GroupNeverRetracts(p: Params)
    requires p.n >= 1 && p.bufferLength >= 0
  {
    forall r, prompt, actions ::
      RequestRules(p, r) && SampledRun(Begin(p, prompt), actions, r) && IsRun(Begin(p, prompt), actions) ==>
        TextsKept(GroupRun(Begin(p, prompt), actions))
  }

  /**
    For a request of any number of samples, text returned by the group is never taken back if and only
    if the hold-back is safe for a single sequence.
   */
  lemma GroupNeverRetractsIff(p: Params, c: char)
    requires p.n >= 1 && p.outputKind.DeltaOnly? && p.bufferLength == HoldBack(p.stop, p.includeStop)
    requires (forall k :: 0 <= k < |p.stop| ==> p.stop[k] != "") && Unused(c, p.stop)
    ensures p.bufferLength >= 0
    ensures GroupNeverRetracts(p) <==> HoldBackSafe(p.stop, p.includeStop, p.minTokens)
  {
    assert forall k :: 0 <= k < |p.stop| ==> |p.stop[k]| > 0;
    if HoldBackSafe(p.stop, p.includeStop, p.minTokens) {
      forall r, prompt, actions
        | RequestRules(p, r) && SampledRun(Begin(p, prompt), actions, r) && IsRun(Begin(p, prompt), actions)
        ensures TextsKept(GroupRun(Begin(p, prompt), actions))
      {
        TextConserved(p, prompt, actions, r);
      }
    } else {
      RetractingGroup(p, c);
    }
  }

  lemma RetractingGroup(p: Params, c: char)
    requires p.n >= 1 && p.outputKind.DeltaOnly? && p.bufferLength == HoldBack(p.stop, p.includeStop) && p.bufferLength >= 0
    requires (forall k :: 0 <= k < |p.stop| ==> p.stop[k] != "") && Unused(c, p.stop)
    requires !HoldBackSafe(p.stop, p.includeStop, p.minTokens)
    ensures !GroupNeverRetracts(p)
  {
    var k :| 0 <= k < |p.stop| && |p.stop[k]| == MaxLen(p.stop) && !Shadowed(p.stop, k);
    var r := Unlimited(p.stop, p.minTokens, p.maxTokens);
    var events := RetractingRun(p.stop, p.minTokens, p.maxTokens, k, c);
    assert RequestRules(p, r);
    var actions := GroupFollows(p, [], events, r);
    var h := GroupRun(Begin(p, []), actions);
    assert !(h.collected[0].text <= h.group.members[0].text);
    assert !TextsKept(h);
  }
}
