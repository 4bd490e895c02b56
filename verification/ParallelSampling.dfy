/**
  One request split into `n` sequences and reassembled: `ParallelSampleSequenceGroup` together with
  `RequestOutput.from_seq_group`, over every order in which the members progress and finish.
 */
module ParallelSampling {
  import opened Wrappers
  import opened OrderedKeys
  import opened SequenceData
  import opened Sequences
  import opened SamplingParams
  import opened Streaming

  function Iota(n: nat): (r: seq<nat>)
    ensures |r| == n && forall k :: 0 <= k < n ==> r[k] == k
  {
    seq(n, k requires 0 <= k < n => k)
  }

  // ---------------------------------------------------------------------------------------
  // Choosing the best sequences
  // ---------------------------------------------------------------------------------------

  /** Insertion behind the members with at least the same log-probability. */
  function InsertBest(s: seq<nat>, x: nat, logprobs: seq<real>): (r: seq<nat>)
    requires x < |logprobs| && forall k :: 0 <= k < |s| ==> s[k] < |logprobs|
    ensures multiset(r) == multiset(s) + multiset{x}
    ensures forall k :: 0 <= k < |r| ==> r[k] < |logprobs|
  {
    if s == [] || logprobs[s[0]] < logprobs[x] then [x] + s
    else
      assert s == [s[0]] + s[1..];
      [s[0]] + InsertBest(s[1..], x, logprobs)
  }

  /** `sorted(seqs, key=cumulative logprob, reverse=True)`, which keeps the order of equal keys. */
  function SortBest(ids: seq<nat>, logprobs: seq<real>): (r: seq<nat>)
    requires forall k :: 0 <= k < |ids| ==> ids[k] < |logprobs|
    ensures multiset(r) == multiset(ids) && |r| == |ids|
    ensures forall k :: 0 <= k < |r| ==> r[k] < |logprobs|
  {
    if ids == [] then []
    else
      var n := |ids| - 1;
      assert ids == ids[..n] + [ids[n]];
      var r := InsertBest(SortBest(ids[..n], logprobs), ids[n], logprobs);
      assert |multiset(r)| == |multiset(ids)|;
      r
  }

  /** `a` is preferred to `b`: a higher log-probability, or the same one and an earlier place. */
  ghost predicate Preferred(a: nat, b: nat, logprobs: seq<real>)
    requires a < |logprobs| && b < |logprobs|
  {
    logprobs[a] > logprobs[b] || (logprobs[a] == logprobs[b] && a < b)
  }

  ghost predicate Ranked(s: seq<nat>, logprobs: seq<real>)
    requires forall k :: 0 <= k < |s| ==> s[k] < |logprobs|
  {
    forall i, j :: 0 <= i < j < |s| ==> Preferred(s[i], s[j], logprobs)
  }

  lemma {:induction false} InsertBestRanked(s: seq<nat>, x: nat, logprobs: seq<real>)
    requires x < |logprobs| && (forall k :: 0 <= k < |s| ==> s[k] < x) && Ranked(s, logprobs)
    ensures Ranked(InsertBest(s, x, logprobs), logprobs)
  {
    if s == [] || logprobs[s[0]] < logprobs[x] {
      assert forall k :: 0 <= k < |s| ==> logprobs[s[k]] <= logprobs[s[0]];
    } else {
      InsertBestRanked(s[1..], x, logprobs);
      var rest := InsertBest(s[1..], x, logprobs);
      forall i | 0 <= i < |rest|
        ensures Preferred(s[0], rest[i], logprobs)
      {
        assert rest[i] in multiset(rest);
        assert rest[i] == x || rest[i] in multiset(s[1..]);
      }
    }
  }

  lemma {:induction false} SortBestRanked(ids: seq<nat>, logprobs: seq<real>)
    requires forall k :: 0 <= k < |ids| ==> ids[k] < |logprobs|
    requires forall i, j :: 0 <= i < j < |ids| ==> ids[i] < ids[j]
    ensures Ranked(SortBest(ids, logprobs), logprobs)
  {
    if ids != [] {
      var n := |ids| - 1;
      SortBestRanked(ids[..n], logprobs);
      var sorted := SortBest(ids[..n], logprobs);
      forall k | 0 <= k < |sorted|
        ensures sorted[k] < ids[n]
      {
        assert sorted[k] in multiset(sorted);
        assert sorted[k] in multiset(ids[..n]);
      }
      InsertBestRanked(sorted, ids[n], logprobs);
    }
  }

  /** Python's `s[:k]`, also for negative `k`. */
  function UpTo<T>(s: seq<T>, k: int): (r: seq<T>)
    ensures r <= s
  {
    if k > |s| then s
    else if k >= 0 then s[..k]
    else if -k <= |s| then s[..|s| + k]
    else []
  }

  /** `params._real_n or params.n`. */
  function WantedCount(p: Params): int {
    if Truthy(p.realN) then p.realN.value else p.n
  }

  /** The sequences of the assembled group when the last member finishes. */
  function Chosen(p: Params, logprobs: seq<real>): (r: seq<nat>) {
    var all := Iota(|logprobs|);
    if p.realN.None? then all else UpTo(SortBest(all, logprobs), WantedCount(p))
  }

  /** In a ranking every member of a prefix is preferred to the members outside it. */
  lemma PrefixIsBest(sorted: seq<nat>, r: seq<nat>, logprobs: seq<real>, k: nat, x: nat)
    requires (forall j :: 0 <= j < |sorted| ==> sorted[j] < |logprobs|) && Ranked(sorted, logprobs)
    requires r <= sorted && k < |r| && x in sorted && x !in r
    ensures Preferred(r[k], x, logprobs)
  {
  }

  /** How many of `total` sequences are selected. */
  ghost function SelectedCount(p: Params, total: nat): nat {
    if p.realN.None? then total
    else
      var wanted := if p.realN.value != 0 then p.realN.value else p.n;
      if wanted >= 0 then (if wanted < total then wanted else total)
      else if total + wanted >= 0 then total + wanted else 0
  }

  /**
    The selection: all sequences in their order, or, if fewer may be wanted, a ranking of the right
    number of them in which each is preferred to all that are left out.
   */
  ghost predicate IsSelection(p: Params, logprobs: seq<real>, r: seq<nat>) {
    && (forall k :: 0 <= k < |r| ==> r[k] < |logprobs|) && Distinct(r) && |r| == SelectedCount(p, |logprobs|)
    && (p.realN.None? ==> forall k :: 0 <= k < |r| ==> r[k] == k)
    && (p.realN.Some? ==>
          && Ranked(r, logprobs)
          && forall k, x: nat :: 0 <= k < |r| && x < |logprobs| && x !in r ==> Preferred(r[k], x, logprobs))
  }

  /** A prefix of the ranking of all members is preferred to the rest of them. */
  lemma RankingPrefix(sorted: seq<nat>, r: seq<nat>, logprobs: seq<real>)
    requires multiset(sorted) == multiset(Iota(|logprobs|)) && (forall k :: 0 <= k < |sorted| ==> sorted[k] < |logprobs|)
    requires Ranked(sorted, logprobs) && r <= sorted
    ensures (forall k :: 0 <= k < |r| ==> r[k] < |logprobs|) && Distinct(r) && Ranked(r, logprobs)
    ensures forall k, x: nat :: 0 <= k < |r| && x < |logprobs| && x !in r ==> Preferred(r[k], x, logprobs)
  {
    IotaReordered(|logprobs|, sorted);
    forall k, x: nat | 0 <= k < |r| && x < |logprobs| && x !in r
      ensures Preferred(r[k], x, logprobs)
    {
      PrefixIsBest(sorted, r, logprobs, k, x);
    }
  }

  lemma ChosenAreBest(p: Params, logprobs: seq<real>)
    ensures IsSelection(p, logprobs, Chosen(p, logprobs))
  {
    if p.realN.Some? {
      var all := Iota(|logprobs|);
      SortBestRanked(all, logprobs);
      RankingPrefix(SortBest(all, logprobs), Chosen(p, logprobs), logprobs);
    }
  }

  lemma IotaReordered(n: nat, s: seq<nat>)
    requires multiset(s) == multiset(Iota(n))
    ensures Distinct(s) && forall x: nat :: x < n ==> x in s
  {
    var all := Iota(n);
    SameMultisetDistinct(all, s);
    forall x: nat | x < n
      ensures x in s
    {
      assert all[x] == x;
      assert x in multiset(all);
      assert x in multiset(s);
    }
  }

  /**
    With `best_of`, exactly the requested number of sequences is returned if and only if that number
    is at least 1: the validation of `n` sees the rewritten value, so smaller requests are accepted, and
    then 0 returns all sequences and -k returns all but the last k.
   */
  lemma BestOfReturnsRequestedIff(p: Params, logprobs: seq<real>)
    requires Fresh(p) && Truthy(p.bestOf) && PostInit(p).Success?
    requires |logprobs| == PostInit(p).value.n
    ensures |logprobs| == p.bestOf.value >= 1
    ensures |Chosen(PostInit(p).value, logprobs)| == p.n <==> p.n >= 1
    ensures p.n == 0 ==> |Chosen(PostInit(p).value, logprobs)| == p.bestOf.value
  {
    Accepted(p);
  }

  // ---------------------------------------------------------------------------------------
  // The group
  // ---------------------------------------------------------------------------------------

  /** An emitted `RequestOutput`: which members it shows, their completions and the finished flag. */
  datatype GroupOutput = GroupOutput(shown: seq<nat>, outputs: seq<Output>, finished: bool)

  /**
    The members, those still to be finished in insertion order, those recorded as finished, whether
    the output has been produced, and the members of the assembled group.
   */
  datatype Group = Group(p: Params, members: seq<Seq>, remaining: seq<nat>, recorded: set<nat>, produced: bool, assembled: seq<nat>)
  {
    predicate Streaming() { p.outputKind.DeltaOnly? }
  }

  /** `add_request`: one single-sequence request per sample. */
  function NewGroup(p: Params, prompt: seq<Token>): Group
    requires p.n >= 0
  {
    Group(p, seq(p.n, _ => NewSeq(prompt)), Iota(p.n), {}, false, Iota(p.n))
  }

  ghost predicate InRange(g: Group) {
    && 0 <= g.p.bufferLength
    && Distinct(g.remaining) && (forall k :: 0 <= k < |g.remaining| ==> g.remaining[k] < |g.members|)
    && (forall k :: 0 <= k < |g.assembled| ==> g.assembled[k] < |g.members|)
  }

  function Logprobs(members: seq<Seq>): (r: seq<real>)
    ensures |r| == |members| && forall k :: 0 <= k < |members| ==> r[k] == members[k].logprob
  {
    seq(|members|, k requires 0 <= k < |members| => members[k].logprob)
  }

  /** `maybe_assemble_group` returns the group. */
  predicate Ready(g: Group, i: nat)
    requires i < |g.members|
  {
    if g.Streaming() then g.remaining != [] && g.remaining[0] == i
    else |g.remaining| == 1 && i in g.remaining && g.members[i].Finished() && !g.produced
  }

  /** `maybe_assemble_group`, then `finish_seq` for a finished member. */
  function AfterAssemble(g: Group, i: nat): (r: Group)
    requires InRange(g) && i < |g.members|
  {
    var g1 := if Ready(g, i) && !g.Streaming() then g.(produced := true, assembled := Chosen(g.p, Logprobs(g.members))) else g;
    if g.members[i].Finished() then g1.(remaining := Without(g.remaining, i), recorded := g.recorded + {i}) else g1
  }

  predicate AllFinished(members: seq<Seq>, shown: seq<nat>)
    requires forall k :: 0 <= k < |shown| ==> shown[k] < |members|
  {
    forall k :: 0 <= k < |shown| ==> members[shown[k]].Finished()
  }

  /** The completions of the members shown. */
  function Completions(g: Group): (r: seq<Output>)
    requires InRange(g)
    ensures |r| == |g.assembled|
    ensures forall k :: 0 <= k < |r| ==>
              var s := g.members[g.assembled[k]];
              r[k] == if g.Streaming() then DeltaOutput(s, g.p.bufferLength) else CumulativeOutput(s, g.p.bufferLength)
  {
    seq(|g.assembled|, k requires 0 <= k < |g.assembled| =>
      var s := g.members[g.assembled[k]];
      if g.Streaming() then DeltaOutput(s, g.p.bufferLength) else CumulativeOutput(s, g.p.bufferLength))
  }

  /** The members after their deltas have been taken. */
  function AfterRead(g: Group): (r: seq<Seq>)
    requires InRange(g)
    ensures |r| == |g.members|
    ensures forall k :: 0 <= k < |r| ==>
              r[k] == if g.Streaming() && k in g.assembled then AfterDelta(g.members[k], g.p.bufferLength) else g.members[k]
  {
    seq(|g.members|, k requires 0 <= k < |g.members| =>
      if g.Streaming() && k in g.assembled then AfterDelta(g.members[k], g.p.bufferLength) else g.members[k])
  }

  /** The output of the assembled group; None for an unfinished group in final-only mode. */
  function OutputOf(g: Group): Option<GroupOutput>
    requires InRange(g)
  {
    var finished := AllFinished(g.members, g.assembled);
    if g.p.outputKind.FinalOnly? && !finished then None
    else Some(GroupOutput(g.assembled, Completions(g), finished))
  }

  lemma AssembleInRange(g: Group, i: nat)
    requires InRange(g) && i < |g.members|
    ensures InRange(AfterAssemble(g, i))
  {
    WithoutDistinct(g.remaining, i);
    ChosenAreBest(g.p, Logprobs(g.members));
    var r := Without(g.remaining, i);
    forall k | 0 <= k < |r|
      ensures r[k] < |g.members|
    {
      assert r[k] in g.remaining;
    }
  }

  /** `from_seq_group` called for member `i`: the group afterwards and the output, if any. */
  function CallFor(g: Group, i: nat): (r: (Group, Option<GroupOutput>))
    requires InRange(g) && i < |g.members|
  {
    AssembleInRange(g, i);
    var g1 := AfterAssemble(g, i);
    if !Ready(g, i) then (g1, None)
    else
      var out := OutputOf(g1);
      (if out.Some? then g1.(members := AfterRead(g1)) else g1, out)
  }

  // ---------------------------------------------------------------------------------------
  // Every order of progress and finishing
  // ---------------------------------------------------------------------------------------

  /** A member makes progress or is asked for its output. */
  datatype Action = Progress(i: nat, s: Seq) | Ask(i: nat)

  /**
    What the engine may do to an unfinished member between two calls: tokens are appended. Nothing is
    asked of the text, which the stop check may cut anywhere.
   */
  ghost predicate Evolves(s: Seq, s': Seq) {
    !s.Finished() && s.output <= s'.output && s'.tokenOffset == s.tokenOffset
  }

  /** A member is asked only until the call that finds it finished. */
  ghost predicate MayHappen(g: Group, a: Action) {
    match a
    case Progress(i, s) => i < |g.members| && Evolves(g.members[i], s)
    case Ask(i) => i in g.remaining
  }

  /** The group, what the client has collected per member, and all outputs so far. */
  datatype History = History(group: Group, collected: seq<Output>, outputs: seq<GroupOutput>)

  /** Adding each completion shown to what was collected for its member. */
  ghost function Collect(collected: seq<Output>, o: GroupOutput): (r: seq<Output>)
    requires |o.outputs| == |o.shown| && forall k :: 0 <= k < |o.shown| ==> o.shown[k] < |collected|
    ensures |r| == |collected|
    decreases |o.shown|
  {
    if o.shown == [] then collected
    else
      var n := |o.shown| - 1;
      var before := Collect(collected, GroupOutput(o.shown[..n], o.outputs[..n], o.finished));
      before[o.shown[n] := Add(before[o.shown[n]], o.outputs[n])]
  }

  ghost function GroupStep(h: History, a: Action): (r: History)
    requires InRange(h.group) && MayHappen(h.group, a) && |h.collected| == |h.group.members|
  {
    match a
    case Progress(i, s) => h.(group := h.group.(members := h.group.members[i := s]))
    case Ask(i) =>
      AssembleInRange(h.group, i);
      var (g, out) := CallFor(h.group, i);
      if out.None? then h.(group := g)
      else History(g, Collect(h.collected, out.value), h.outputs + [out.value])
  }

  ghost predicate WellFormed(h: History) {
    InRange(h.group) && |h.collected| == |h.group.members|
  }

  lemma StepWellFormed(h: History, a: Action)
    requires WellFormed(h) && MayHappen(h.group, a)
    ensures WellFormed(GroupStep(h, a))
  {
    if a.Ask? {
      AssembleInRange(h.group, a.i);
    }
  }

  ghost predicate IsRun(h: History, actions: seq<Action>)
    requires WellFormed(h)
    decreases |actions|
  {
    actions == [] || (MayHappen(h.group, actions[0]) && (StepWellFormed(h, actions[0]); IsRun(GroupStep(h, actions[0]), actions[1..])))
  }

  ghost function GroupRun(h: History, actions: seq<Action>): (r: History)
    requires WellFormed(h) && IsRun(h, actions)
    ensures WellFormed(r)
    decreases |actions|
  {
    if actions == [] then h
    else
      StepWellFormed(h, actions[0]);
      GroupRun(GroupStep(h, actions[0]), actions[1..])
  }

  lemma RunCons(h: History, actions: seq<Action>)
    requires WellFormed(h) && actions != [] && MayHappen(h.group, actions[0]) && WellFormed(GroupStep(h, actions[0]))
    requires IsRun(GroupStep(h, actions[0]), actions[1..])
    ensures IsRun(h, actions) && GroupRun(h, actions) == GroupRun(GroupStep(h, actions[0]), actions[1..])
  {
  }

  lemma RunOne(h: History, a: Action)
    requires WellFormed(h) && MayHappen(h.group, a)
    ensures WellFormed(GroupStep(h, a)) && IsRun(h, [a]) && GroupRun(h, [a]) == GroupStep(h, a)
  {
    StepWellFormed(h, a);
    assert [a][1..] == [];
    RunCons(h, [a]);
  }

  lemma AppendRest<T>(a: seq<T>, b: seq<T>)
    requires a != []
    ensures a + b != [] && (a + b)[0] == a[0] && (a + b)[1..] == a[1..] + b
  {
  }

  lemma {:induction false} RunAppend(h: History, a: seq<Action>, b: seq<Action>)
    requires WellFormed(h) && IsRun(h, a) && IsRun(GroupRun(h, a), b)
    ensures IsRun(h, a + b) && GroupRun(h, a + b) == GroupRun(GroupRun(h, a), b)
    decreases |a|
  {
    if a == [] {
      assert a + b == b;
    } else {
      StepWellFormed(h, a[0]);
      RunAppend(GroupStep(h, a[0]), a[1..], b);
      AppendRest(a, b);
      RunCons(h, a + b);
    }
  }

  ghost function Begin(p: Params, prompt: seq<Token>): (h: History)
    requires p.n >= 1 && p.bufferLength >= 0
    ensures WellFormed(h)
  {
    History(NewGroup(p, prompt), seq(p.n, _ => Output("", [], false)), [])
  }

  /** Every member is either still to be finished or recorded, and the recorded ones are finished. */
  ghost predicate RestFinished(g: Group) {
    forall i: nat :: i < |g.members| ==>
                       (i in g.recorded <==> i !in g.remaining) && (i in g.recorded ==> g.members[i].Finished())
  }

  lemma BeginRest(p: Params, prompt: seq<Token>)
    requires p.n >= 1 && p.bufferLength >= 0
    ensures RestFinished(Begin(p, prompt).group)
  {
    var g := Begin(p, prompt).group;
    forall i: nat | i < |g.members|
      ensures i in g.remaining
    {
      assert g.remaining[i] == i;
    }
  }

  /** The members have the same texts, tokens and statuses. */
  ghost predicate SameContents(a: seq<Seq>, b: seq<Seq>) {
    |a| == |b|
    && forall k :: 0 <= k < |a| ==> a[k].text == b[k].text && a[k].output == b[k].output && a[k].status == b[k].status
  }

  lemma AfterReadSameContents(g: Group)
    requires InRange(g)
    ensures SameContents(AfterRead(g), g.members)
  {
  }

  lemma AssembleRecords(g: Group, i: nat)
    requires InRange(g) && i < |g.members|
    ensures var g' := AfterAssemble(g, i);
            && InRange(g') && g'.p == g.p && g'.members == g.members
            && g'.remaining == (if g.members[i].Finished() then Without(g.remaining, i) else g.remaining)
            && g'.recorded == (if g.members[i].Finished() then g.recorded + {i} else g.recorded)
  {
    AssembleInRange(g, i);
  }

  lemma CallRecords(g: Group, i: nat)
    requires InRange(g) && i < |g.members|
    ensures var g' := CallFor(g, i).0;
            && g'.p == g.p && SameContents(g'.members, g.members)
            && g'.remaining == (if g.members[i].Finished() then Without(g.remaining, i) else g.remaining)
            && g'.recorded == (if g.members[i].Finished() then g.recorded + {i} else g.recorded)
  {
    AssembleRecords(g, i);
    AfterReadSameContents(AfterAssemble(g, i));
  }

  /** In every mode, a call moves a finished member from one dictionary to the other and leaves the rest. */
  lemma AskRecords(h: History, i: nat)
    requires WellFormed(h) && i in h.group.remaining
    ensures var g, g' := h.group, GroupStep(h, Ask(i)).group;
            && g'.p == g.p && SameContents(g'.members, g.members)
            && g'.remaining == (if g.members[i].Finished() then Without(g.remaining, i) else g.remaining)
            && g'.recorded == (if g.members[i].Finished() then g.recorded + {i} else g.recorded)
  {
    CallRecords(h.group, i);
  }

  // ---------------------------------------------------------------------------------------
  // Streaming: no token is lost and none is repeated
  // ---------------------------------------------------------------------------------------

  /** The tokens collected for a member are its tokens up to the offset. */
  ghost predicate MemberSync(s: Seq, c: Output) {
    s.tokenOffset <= |s.output| && c.tokens == s.output[..s.tokenOffset]
  }

  ghost predicate Complete(s: Seq, c: Output) {
    s.Finished() && c.tokens == s.output
  }

  lemma ReadSync(s: Seq, c: Output, buffer: nat)
    requires MemberSync(s, c)
    ensures MemberSync(AfterDelta(s, buffer), Add(c, DeltaOutput(s, buffer)))
    ensures s.Finished() ==> Complete(AfterDelta(s, buffer), Add(c, DeltaOutput(s, buffer)))
  {
  }

  lemma {:induction false} CollectAt(collected: seq<Output>, o: GroupOutput, k: nat)
    requires |o.outputs| == |o.shown| && Distinct(o.shown) && k < |o.shown|
    requires forall j :: 0 <= j < |o.shown| ==> o.shown[j] < |collected|
    ensures Collect(collected, o)[o.shown[k]] == Add(collected[o.shown[k]], o.outputs[k])
    decreases |o.shown|
  {
    var n := |o.shown| - 1;
    var before := GroupOutput(o.shown[..n], o.outputs[..n], o.finished);
    if k < n {
      CollectAt(collected, before, k);
    } else {
      CollectOther(collected, before, o.shown[n]);
    }
  }

  lemma {:induction false} CollectOther(collected: seq<Output>, o: GroupOutput, x: nat)
    requires |o.outputs| == |o.shown| && x < |collected| && x !in o.shown
    requires forall j :: 0 <= j < |o.shown| ==> o.shown[j] < |collected|
    ensures Collect(collected, o)[x] == collected[x]
    decreases |o.shown|
  {
    if o.shown != [] {
      var n := |o.shown| - 1;
      CollectOther(collected, GroupOutput(o.shown[..n], o.outputs[..n], o.finished), x);
    }
  }

  ghost predicate StreamInv(h: History)
    requires WellFormed(h)
  {
    var g := h.group;
    && g.Streaming() && g.members != [] && g.assembled == Iota(|g.members|) && RestFinished(g)
    && (forall i :: 0 <= i < |g.members| ==> MemberSync(g.members[i], h.collected[i]))
    && (g.remaining == [] ==>
          && (forall i :: 0 <= i < |g.members| ==> Complete(g.members[i], h.collected[i]))
          && h.outputs != [] && h.outputs[|h.outputs| - 1].finished)
  }

  /** Every member is finished. */
  ghost predicate AllDone(g: Group) {
    forall k: nat :: k < |g.members| ==> g.members[k].Finished()
  }

  /** The dictionaries after a call for member `i`. */
  ghost function Recorded(g: Group, i: nat): Group
    requires i < |g.members|
  {
    if g.members[i].Finished() then g.(remaining := Without(g.remaining, i), recorded := g.recorded + {i}) else g
  }

  /** A delta of every member is added to what was collected, and the offsets advance. */
  ghost predicate Delivered(g: Group, collected: seq<Output>, members': seq<Seq>, collected': seq<Output>)
    requires InRange(g) && |collected| == |g.members|
  {
    && |members'| == |collected'| == |g.members|
    && (forall k: nat :: k < |g.members| ==> members'[k] == AfterDelta(g.members[k], g.p.bufferLength))
    && (forall k: nat :: k < |g.members| ==> collected'[k] == Add(collected[k], DeltaOutput(g.members[k], g.p.bufferLength)))
  }

  /**
    The effect of a call that is answered: a delta of every member is delivered, in an output that is
    marked finished exactly when all members are finished.
   */
  ghost predicate Answered(h: History, i: nat, h': History)
    requires WellFormed(h) && i < |h.group.members|
  {
    var g, n := h.group, |h.outputs|;
    && Delivered(g, h.collected, h'.group.members, h'.collected)
    && h'.group == Recorded(g, i).(members := h'.group.members)
    && |h'.outputs| == n + 1 && h'.outputs[..n] == h.outputs && (h'.outputs[n].finished <==> AllDone(g))
  }

  lemma WithoutRest(g: Group, i: nat)
    requires RestFinished(g) && i < |g.members|
    ensures RestFinished(Recorded(g, i))
  {
  }

  /** A call for a member that is not the first remaining one only records its finish. */
  lemma AskLater(h: History, i: nat)
    requires WellFormed(h) && h.group.Streaming() && i in h.group.remaining && i != h.group.remaining[0]
    ensures GroupStep(h, Ask(i)) == h.(group := Recorded(h.group, i))
    ensures Recorded(h.group, i).remaining != [] && Recorded(h.group, i).remaining[0] == h.group.remaining[0]
  {
  }

  lemma AskLaterStreamInv(h: History, i: nat)
    requires WellFormed(h) && StreamInv(h) && i in h.group.remaining && i != h.group.remaining[0]
    ensures WellFormed(GroupStep(h, Ask(i))) && StreamInv(GroupStep(h, Ask(i)))
  {
    StepWellFormed(h, Ask(i));
    AskLater(h, i);
    WithoutRest(h.group, i);
  }

  /** An assembled group that holds all members shows a delta of each of them. */
  lemma ShowsAll(g: Group)
    requires InRange(g) && g.Streaming() && g.assembled == Iota(|g.members|)
    ensures forall k: nat :: k < |g.members| ==> AfterRead(g)[k] == AfterDelta(g.members[k], g.p.bufferLength)
    ensures forall k: nat :: k < |g.members| ==> Completions(g)[k] == DeltaOutput(g.members[k], g.p.bufferLength)
    ensures OutputOf(g) == Some(GroupOutput(g.assembled, Completions(g), AllDone(g)))
  {
    forall k: nat | k < |g.members|
      ensures k in g.assembled && (AllFinished(g.members, g.assembled) ==> g.members[k].Finished())
    {
      assert g.assembled[k] == k;
    }
  }

  lemma FirstCall(g: Group, i: nat)
    requires InRange(g) && g.Streaming() && g.remaining != [] && i == g.remaining[0] && g.assembled == Iota(|g.members|)
    ensures InRange(Recorded(g, i))
    ensures var g1 := Recorded(g, i);
            CallFor(g, i) == (g1.(members := AfterRead(g1)), Some(GroupOutput(g1.assembled, Completions(g1), AllDone(g1))))
  {
    AssembleInRange(g, i);
    ShowsAll(Recorded(g, i));
  }

  lemma CollectAll(collected: seq<Output>, o: GroupOutput)
    requires |o.outputs| == |o.shown| == |collected| && o.shown == Iota(|collected|)
    ensures forall k: nat :: k < |collected| ==> Collect(collected, o)[k] == Add(collected[k], o.outputs[k])
  {
    forall k: nat | k < |collected|
      ensures Collect(collected, o)[k] == Add(collected[k], o.outputs[k])
    {
      CollectAt(collected, o, k);
    }
  }

  lemma ShownIsDelivered(g: Group, collected: seq<Output>, finished: bool)
    requires InRange(g) && g.Streaming() && g.assembled == Iota(|g.members|) && |collected| == |g.members|
    ensures Delivered(g, collected, AfterRead(g), Collect(collected, GroupOutput(g.assembled, Completions(g), finished)))
  {
    ShowsAll(g);
    CollectAll(collected, GroupOutput(g.assembled, Completions(g), finished));
  }

  lemma ShownIsAnswered(h: History, i: nat, g1: Group, o: GroupOutput, h': History)
    requires WellFormed(h) && i < |h.group.members| && g1 == Recorded(h.group, i) && InRange(g1)
    requires h'.group == g1.(members := h'.group.members) && Delivered(g1, h.collected, h'.group.members, h'.collected)
    requires h'.outputs == h.outputs + [o] && o.finished == AllDone(g1)
    ensures Answered(h, i, h')
  {
  }

  /** A call for the first remaining member is answered with a delta of every member. */
  lemma AskFirstAnswers(h: History, i: nat)
    requires WellFormed(h) && h.group.Streaming() && h.group.assembled == Iota(|h.group.members|)
    requires h.group.remaining != [] && i == h.group.remaining[0]
    ensures Answered(h, i, GroupStep(h, Ask(i)))
  {
    FirstCall(h.group, i);
    var g1 := Recorded(h.group, i);
    ShownIsDelivered(g1, h.collected, AllDone(g1));
    ShownIsAnswered(h, i, g1, GroupOutput(g1.assembled, Completions(g1), AllDone(g1)), GroupStep(h, Ask(i)));
  }

  /** When nothing remains once `i` is taken out, all members are finished. */
  lemma LastRemaining(g: Group, i: nat)
    requires RestFinished(g) && i in g.remaining && i < |g.members| && Recorded(g, i).remaining == []
    ensures AllDone(g)
  {
  }

  lemma AnsweredStreamInv(h: History, i: nat, h': History)
    requires WellFormed(h) && StreamInv(h) && i in h.group.remaining && WellFormed(h') && Answered(h, i, h')
    ensures StreamInv(h')
  {
    var g := h.group;
    forall k: nat | k < |g.members|
      ensures MemberSync(h'.group.members[k], h'.collected[k])
      ensures g.members[k].Finished() ==> Complete(h'.group.members[k], h'.collected[k])
    {
      ReadSync(g.members[k], h.collected[k], g.p.bufferLength);
    }
    WithoutRest(g, i);
    if h'.group.remaining == [] {
      LastRemaining(g, i);
    }
  }

  lemma AskFirstStreamInv(h: History, i: nat)
    requires WellFormed(h) && StreamInv(h) && h.group.remaining != [] && i == h.group.remaining[0]
    ensures WellFormed(GroupStep(h, Ask(i))) && StreamInv(GroupStep(h, Ask(i)))
  {
    StepWellFormed(h, Ask(i));
    AskFirstAnswers(h, i);
    AnsweredStreamInv(h, i, GroupStep(h, Ask(i)));
  }

  lemma ProgressStreamInv(h: History, i: nat, s: Seq)
    requires WellFormed(h) && StreamInv(h) && i < |h.group.members| && Evolves(h.group.members[i], s)
    ensures StreamInv(GroupStep(h, Progress(i, s)))
  {
  }

  lemma StepStreamInv(h: History, a: Action)
    requires WellFormed(h) && MayHappen(h.group, a) && StreamInv(h)
    ensures WellFormed(GroupStep(h, a)) && StreamInv(GroupStep(h, a))
  {
    StepWellFormed(h, a);
    match a {
      case Progress(i, s) =>
        ProgressStreamInv(h, i, s);
      case Ask(i) =>
        if i == h.group.remaining[0] {
          AskFirstStreamInv(h, i);
        } else {
          AskLaterStreamInv(h, i);
        }
    }
  }

  lemma {:induction false} RunStreamInv(h: History, actions: seq<Action>)
    requires WellFormed(h) && IsRun(h, actions) && StreamInv(h)
    ensures StreamInv(GroupRun(h, actions))
    decreases |actions|
  {
    if actions != [] {
      StepStreamInv(h, actions[0]);
      RunStreamInv(GroupStep(h, actions[0]), actions[1..]);
    }
  }

  lemma BeginStreamInv(p: Params, prompt: seq<Token>)
    requires p.n >= 1 && p.bufferLength >= 0 && p.outputKind.DeltaOnly?
    ensures StreamInv(Begin(p, prompt))
  {
    BeginRest(p, prompt);
  }

  /**
    Streaming parallel sampling loses and repeats no token, whatever happens to the texts. Over every
    order of progress and calls, the tokens the client has collected for a member are a prefix of its
    tokens; once the last member has been recorded as finished all of them have been delivered, and
    the call that did it emitted an output marked finished.
   */
  lemma StreamingConserves(p: Params, prompt: seq<Token>, actions: seq<Action>)
    requires p.n >= 1 && p.bufferLength >= 0 && p.outputKind.DeltaOnly?
    requires IsRun(Begin(p, prompt), actions)
    ensures var h := GroupRun(Begin(p, prompt), actions);
            && RestFinished(h.group)
            && (forall i :: 0 <= i < |h.group.members| ==> h.collected[i].tokens <= h.group.members[i].output)
            && (h.group.remaining == [] ==>
                  && (forall i :: 0 <= i < |h.group.members| ==> Complete(h.group.members[i], h.collected[i]))
                  && h.outputs != [] && h.outputs[|h.outputs| - 1].finished)
  {
    BeginStreamInv(p, prompt);
    RunStreamInv(Begin(p, prompt), actions);
  }

  // ---------------------------------------------------------------------------------------
  // Non-streaming: exactly one answer
  // ---------------------------------------------------------------------------------------

  /** The answer: the full output of each chosen member, in order of choice. */
  ghost predicate IsAnswer(g: Group, o: GroupOutput)
    requires 0 <= g.p.bufferLength
  {
    var chosen := Chosen(g.p, Logprobs(g.members));
    && o.finished && o.shown == chosen && |o.outputs| == |chosen|
    && forall k :: 0 <= k < |chosen| ==>
         chosen[k] < |g.members|
         && o.outputs[k] == Output(g.members[chosen[k]].text, g.members[chosen[k]].output, true)
  }

  ghost predicate AnswerInv(h: History)
    requires WellFormed(h)
  {
    var g := h.group;
    && !g.Streaming() && g.members != [] && RestFinished(g)
    && (g.produced <==> g.remaining == [])
    && |h.outputs| == (if g.remaining == [] then 1 else 0)
    && (g.remaining == [] ==> IsAnswer(g, h.outputs[0]))
  }

  /** The call for the finished last member is answered with the full output of the chosen members. */
  lemma LastCall(g: Group, i: nat)
    requires InRange(g) && !g.Streaming() && i < |g.members| && AllDone(g) && Ready(g, i)
    ensures var chosen := Chosen(g.p, Logprobs(g.members));
            && CallFor(g, i).0 == Recorded(g, i).(produced := true, assembled := chosen)
            && CallFor(g, i).1.Some? && IsAnswer(CallFor(g, i).0, CallFor(g, i).1.value)
  {
    AssembleInRange(g, i);
    var g1 := AfterAssemble(g, i);
    assert AllFinished(g1.members, g1.assembled);
    assert AfterRead(g1) == g1.members;
  }

  lemma AskAnswerInv(h: History, i: nat)
    requires WellFormed(h) && AnswerInv(h) && i in h.group.remaining
    ensures WellFormed(GroupStep(h, Ask(i))) && AnswerInv(GroupStep(h, Ask(i)))
  {
    StepWellFormed(h, Ask(i));
    var g := h.group;
    WithoutDistinct(g.remaining, i);
    WithoutRest(g, i);
    if Ready(g, i) {
      LastRemaining(g, i);
      LastCall(g, i);
    }
  }

  lemma {:induction false} RunAnswerInv(h: History, actions: seq<Action>)
    requires WellFormed(h) && IsRun(h, actions) && AnswerInv(h)
    ensures AnswerInv(GroupRun(h, actions))
    decreases |actions|
  {
    if actions != [] {
      StepWellFormed(h, actions[0]);
      match actions[0] {
        case Progress(i, s) =>
          assert i in h.group.remaining;
        case Ask(i) =>
          AskAnswerInv(h, i);
      }
      RunAnswerInv(GroupStep(h, actions[0]), actions[1..]);
    }
  }

  lemma {:induction false} RunKeepsRequest(h: History, actions: seq<Action>)
    requires WellFormed(h) && IsRun(h, actions)
    ensures GroupRun(h, actions).group.p == h.group.p && |GroupRun(h, actions).group.members| == |h.group.members|
    decreases |actions|
  {
    if actions != [] {
      StepWellFormed(h, actions[0]);
      RunKeepsRequest(GroupStep(h, actions[0]), actions[1..]);
    }
  }

  /** The group of a request as given by the user, if it is accepted. */
  ghost function BeginRequest(request: Params, prompt: seq<Token>): (h: History)
    requires Fresh(request) && PostInit(request).Success?
    ensures WellFormed(h)
  {
    Accepted(request);
    Begin(PostInit(request).value, prompt)
  }

  /** How many sequences a request is answered with; only with `best_of` can it ask for less than one. */
  ghost function ReturnedCount(request: Params): int {
    if !Truthy(request.bestOf) || request.n >= 1 then request.n
    else if request.n == 0 then request.bestOf.value
    else if request.bestOf.value + request.n >= 0 then request.bestOf.value + request.n else 0
  }

  /**
    The answer to a request: full outputs of finished sequences, all `n` of them in order, or with
    `best_of` the best ones in order of preference.
   */
  ghost predicate AnswersRequest(request: Params, members: seq<Seq>, o: GroupOutput) {
    && o.finished && |o.outputs| == |o.shown| == ReturnedCount(request) && Distinct(o.shown)
    && (forall k :: 0 <= k < |o.shown| ==>
          && o.shown[k] < |members| && members[o.shown[k]].Finished()
          && o.outputs[k] == Output(members[o.shown[k]].text, members[o.shown[k]].output, true))
    && (!Truthy(request.bestOf) ==> forall k :: 0 <= k < |o.shown| ==> o.shown[k] == k)
    && (Truthy(request.bestOf) ==>
          && Ranked(o.shown, Logprobs(members))
          && forall k, x: nat :: 0 <= k < |o.shown| && x < |members| && x !in o.shown ==>
               Preferred(o.shown[k], x, Logprobs(members)))
  }

  /** What is selected for an accepted request, in terms of the request as given. */
  lemma SelectionForRequest(request: Params, p: Params, members: seq<Seq>, o: GroupOutput)
    requires Fresh(request) && PostInit(request) == Success(p) && |members| == p.n
    requires IsSelection(p, Logprobs(members), o.shown) && |o.outputs| == |o.shown| && o.finished
    requires forall i :: 0 <= i < |members| ==> members[i].Finished()
    requires forall k :: 0 <= k < |o.shown| ==>
               o.shown[k] < |members| && o.outputs[k] == Output(members[o.shown[k]].text, members[o.shown[k]].output, true)
    ensures AnswersRequest(request, members, o)
  {
    Accepted(request);
  }

  lemma AnswerMeetsRequest(request: Params, p: Params, h: History)
    requires Fresh(request) && PostInit(request) == Success(p) && h.group.p == p && |h.group.members| == p.n
    requires WellFormed(h) && AnswerInv(h) && h.group.remaining == []
    ensures AllDone(h.group) && AnswersRequest(request, h.group.members, h.outputs[0])
  {
    ChosenAreBest(p, Logprobs(h.group.members));
    SelectionForRequest(request, p, h.group.members, h.outputs[0]);
  }

  /**
    Non-streaming parallel sampling answers every accepted request exactly once: over every order of
    progress and calls there is no output while a member remains to be finished, and one
    afterwards, which is the answer to the request as given.
   */
  lemma AnswersExactlyOnce(request: Params, prompt: seq<Token>, actions: seq<Action>)
    requires Fresh(request) && PostInit(request).Success? && !request.outputKind.DeltaOnly?
    requires IsRun(BeginRequest(request, prompt), actions)
    ensures var h := GroupRun(BeginRequest(request, prompt), actions);
            && |h.group.members| == Sampled(request)
            && RestFinished(h.group) && |h.outputs| == (if h.group.remaining == [] then 1 else 0)
            && (h.group.remaining == [] ==>
                  AllDone(h.group) && AnswersRequest(request, h.group.members, h.outputs[0]))
  {
    Accepted(request);
    var p, h := PostInit(request).value, BeginRequest(request, prompt);
    BeginRest(p, prompt);
    RunAnswerInv(h, actions);
    RunKeepsRequest(h, actions);
    if GroupRun(h, actions).group.remaining == [] {
      AnswerMeetsRequest(request, p, GroupRun(h, actions));
    }
  }
}
