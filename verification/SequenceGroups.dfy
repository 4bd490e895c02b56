/**
  The objects behind parallel sampling: the group with its dictionaries and flags, and the loop of
  `RequestOutput.from_seq_group` that advances the offsets of the sequences it shows. Each method
  refines the functions of module `ParallelSampling`.
 */
module SequenceGroups {
  import opened Wrappers
  import opened OrderedKeys
  import opened SequenceData
  import opened Sequences
  import opened SamplingParams
  import opened Streaming
  import opened ParallelSampling

  /** A sequence whose cached ids and offsets are in order. */
  ghost predicate Sound(s: Sequence)
    reads s, s.data
  {
    s.data.View().Coherent() && s.lastTokenOffset <= |s.data.output|
  }

  /** The text and tokens of one completion. */
  method ReadOutput(s: Sequence, buffer: nat, delta: bool) returns (o: Output)
    requires Sound(s)
    modifies s`lastTextOffset, s`lastTokenOffset
    ensures Sound(s)
    ensures delta ==> o == DeltaOutput(old(s.View()), buffer) && s.View() == AfterDelta(old(s.View()), buffer)
    ensures !delta ==> o == CumulativeOutput(old(s.View()), buffer) && s.View() == old(s.View())
  {
    var text := s.GetOutputTextToReturn(buffer, delta);
    var ids := s.GetOutputTokenIdsToReturn(delta);
    o := Output(text, ids.AsList(), s.IsFinished());
  }

  /** One completion of a group; the other sequences stay as they are. */
  method ReadAt(seqs: seq<Sequence>, i: nat, buffer: nat, delta: bool) returns (o: Output)
    requires Distinct(seqs) && i < |seqs| && forall x :: 0 <= x < |seqs| ==> Sound(seqs[x])
    modifies seqs[i]
    ensures forall x :: 0 <= x < |seqs| ==> Sound(seqs[x])
    ensures o == if delta then DeltaOutput(old(seqs[i].View()), buffer) else CumulativeOutput(old(seqs[i].View()), buffer)
    ensures seqs[i].View() == if delta then AfterDelta(old(seqs[i].View()), buffer) else old(seqs[i].View())
    ensures forall x :: 0 <= x < |seqs| && x != i ==> seqs[x].View() == old(seqs[x].View())
  {
    o := ReadOutput(seqs[i], buffer, delta);
  }

  /** The loop over the sequences shown: texts and tokens are read and, in delta mode, offsets advance. */
  method ReadShown(seqs: seq<Sequence>, shown: seq<nat>, buffer: nat, delta: bool) returns (outputs: seq<Output>)
    requires Distinct(seqs) && Distinct(shown)
    requires forall k :: 0 <= k < |shown| ==> shown[k] < |seqs|
    requires forall x :: 0 <= x < |seqs| ==> Sound(seqs[x])
    modifies seqs
    ensures forall x :: 0 <= x < |seqs| ==> Sound(seqs[x])
    ensures |outputs| == |shown|
    ensures forall k :: 0 <= k < |shown| ==>
              outputs[k] == if delta then DeltaOutput(old(seqs[shown[k]].View()), buffer)
                            else CumulativeOutput(old(seqs[shown[k]].View()), buffer)
    ensures forall x :: 0 <= x < |seqs| ==>
              seqs[x].View() == if delta && x in shown then AfterDelta(old(seqs[x].View()), buffer) else old(seqs[x].View())
  {
    outputs := [];
    for k := 0 to |shown|
      invariant |outputs| == k
      invariant forall j :: 0 <= j < k ==>
                  outputs[j] == if delta then DeltaOutput(old(seqs[shown[j]].View()), buffer)
                                else CumulativeOutput(old(seqs[shown[j]].View()), buffer)
      invariant forall x :: 0 <= x < |seqs| ==> Sound(seqs[x])
      invariant forall x :: 0 <= x < |seqs| ==>
                  seqs[x].View() == if delta && x in shown[..k] then AfterDelta(old(seqs[x].View()), buffer) else old(seqs[x].View())
    {
      assert shown[..k + 1] == shown[..k] + [shown[k]];
      assert shown[k] !in shown[..k];
      var o := ReadAt(seqs, shown[k], buffer, delta);
      outputs := outputs + [o];
    }
    assert shown[..|shown|] == shown;
  }

  /** A `RequestOutput` with one completion, merged in place with the outputs that follow it. */
  class RequestOutput {
    var text: string
    var tokenIds: seq<Token>
    var finished: bool

    ghost function View(): Output
      reads this
    {
      Output(text, tokenIds, finished)
    }

    constructor (o: Output)
      ensures View() == o
    {
      text, tokenIds, finished := o.text, o.tokens, o.finished;
    }

    /** `add`. */
    method AddNext(next: RequestOutput)
      requires next != this
      modifies this
      ensures View() == Add(old(View()), next.View()) && next.View() == old(next.View())
      ensures text == old(text) + next.text && tokenIds == old(tokenIds) + next.tokenIds
      ensures finished == (old(finished) || next.finished)
    {
      finished := finished || next.finished;
      text := text + next.text;
      tokenIds := tokenIds + next.tokenIds;
    }
  }

  class ParallelSampleSequenceGroup {
    const p: Params
    const seqs: seq<Sequence>
    var remaining: seq<nat>
    var recorded: set<nat>
    var produced: bool
    var assembled: seq<nat>

    ghost function Members(): (r: seq<Seq>)
      reads seqs, set s | s in seqs :: s.data
      ensures |r| == |seqs| && forall k :: 0 <= k < |seqs| ==> r[k] == seqs[k].View()
    {
      seq(|seqs|, k requires 0 <= k < |seqs| reads seqs, set s | s in seqs :: s.data => seqs[k].View())
    }

    ghost function View(): Group
      reads this, seqs, set s | s in seqs :: s.data
    {
      Group(p, Members(), remaining, recorded, produced, assembled)
    }

    ghost predicate Valid()
      reads this, seqs, set s | s in seqs :: s.data
    {
      InRange(View()) && Distinct(seqs) && Distinct(assembled) && forall k :: 0 <= k < |seqs| ==> Sound(seqs[k])
    }

    /** `add_request`: one sequence per sample, all of them to be finished. */
    constructor (p: Params, prompt: seq<Token>)
      requires p.n >= 1 && p.bufferLength >= 0
      ensures Valid() && View() == NewGroup(p, prompt) && fresh(seqs)
      ensures |seqs| == |remaining| == |assembled| == p.n && recorded == {} && !produced
      ensures forall k :: 0 <= k < p.n ==>
                && remaining[k] == assembled[k] == k
                && seqs[k].data.prompt == prompt && seqs[k].data.output == [] && seqs[k].outputText == "" && !seqs[k].IsFinished()
    {
      var made: seq<Sequence> := [];
      for k := 0 to p.n
        invariant |made| == k && fresh(made) && Distinct(made)
        invariant forall j :: 0 <= j < k ==> made[j].View() == NewSeq(prompt) && Sound(made[j]) && fresh(made[j].data)
      {
        var s := new Sequence(prompt);
        assert s !in made;
        made := made + [s];
      }
      this.p := p;
      seqs := made;
      remaining := Iota(p.n);
      recorded := {};
      produced := false;
      assembled := Iota(p.n);
      new;
      assert Members() == seq(p.n, _ => NewSeq(prompt));
    }

    method GetLogprobs() returns (logprobs: seq<real>)
      ensures logprobs == Logprobs(Members())
    {
      logprobs := [];
      for k := 0 to |seqs|
        invariant |logprobs| == k && forall j :: 0 <= j < k ==> logprobs[j] == seqs[j].View().logprob
      {
        logprobs := logprobs + [seqs[k].data.logprob];
      }
    }

    /** The output is produced once, from the best members. */
    method SelectBest()
      modifies this`produced, this`assembled
      ensures produced && assembled == Chosen(p, Logprobs(old(Members())))
    {
      var logprobs := GetLogprobs();
      produced := true;
      assembled := Chosen(p, logprobs);
    }

    /** `maybe_assemble_group`: whether the assembled group is returned for member `i`. */
    method MaybeAssembleGroup(i: nat) returns (ready: bool)
      requires i < |seqs|
      modifies this`produced, this`assembled
      ensures ready == Ready(old(View()), i)
      ensures produced == (old(produced) || (ready && !p.outputKind.DeltaOnly?))
      ensures assembled == if ready && !p.outputKind.DeltaOnly? then Chosen(p, Logprobs(old(Members()))) else old(assembled)
      ensures ready && !p.outputKind.DeltaOnly? ==> IsSelection(p, Logprobs(old(Members())), assembled)
    {
      ChosenAreBest(p, Logprobs(Members()));
      if p.outputKind.DeltaOnly? {
        return remaining != [] && remaining[0] == i;
      }
      if |remaining| == 1 && i in remaining && seqs[i].IsFinished() {
        if !produced {
          SelectBest();
          return true;
        }
        return false;
      }
      return false;
    }

    /** `finish_seq`: the member moves from the one dictionary to the other. */
    method FinishSeq(i: nat)
      requires i in remaining
      modifies this`remaining, this`recorded
      ensures remaining == Without(old(remaining), i) && recorded == old(recorded) + {i}
    {
      remaining := Without(remaining, i);
      recorded := recorded + {i};
    }

    /** `is_finished` of the assembled group. */
    method AssembledFinished() returns (finished: bool)
      requires Valid()
      ensures finished == AllFinished(Members(), assembled)
    {
      for k := 0 to |assembled|
        invariant forall j :: 0 <= j < k ==> seqs[assembled[j]].View().Finished()
      {
        if !seqs[assembled[k]].IsFinished() {
          assert !Members()[assembled[k]].Finished();
          return false;
        }
      }
      return true;
    }

    /** The completions of the assembled group; in delta mode the offsets advance. */
    method ReadOutputs() returns (outputs: seq<Output>)
      requires Valid()
      modifies seqs
      ensures Valid()
      ensures outputs == Completions(old(View()))
      ensures Members() == AfterRead(old(View()))
    {
      outputs := ReadShown(seqs, assembled, p.bufferLength, p.outputKind.DeltaOnly?);
    }

    /** The output of the assembled group, if there is one. */
    method ProduceOutput() returns (out: Option<GroupOutput>)
      requires Valid()
      modifies seqs
      ensures Valid() && out == OutputOf(old(View()))
      ensures Members() == if out.Some? then AfterRead(old(View())) else old(Members())
    {
      var allFinished := AssembledFinished();
      if p.outputKind.FinalOnly? && !allFinished {
        return None;
      }
      var outputs := ReadOutputs();
      out := Some(GroupOutput(assembled, outputs, allFinished));
    }

    /** Assembling, and recording the finish of a finished member. */
    method AssembleAndFinish(i: nat) returns (ready: bool)
      requires Valid() && i in remaining && i < |seqs|
      modifies this
      ensures Valid()
      ensures ready == Ready(old(View()), i) && View() == AfterAssemble(old(View()), i)
    {
      ghost var members := Members();
      AssembleInRange(View(), i);
      ChosenAreBest(p, Logprobs(members));
      ready := MaybeAssembleGroup(i);
      if seqs[i].IsFinished() {
        FinishSeq(i);
      }
      assert Members() == members;
    }

    /**
      `from_seq_group` for member `i`, which is still to be finished: assemble, record the finish,
      and produce the output of the assembled group.
     */
    method FromSeqGroup(i: nat) returns (out: Option<GroupOutput>)
      requires Valid() && i in remaining && i < |seqs|
      modifies this, seqs
      ensures Valid()
      ensures View() == CallFor(old(View()), i).0 && out == CallFor(old(View()), i).1
    {
      var ready := AssembleAndFinish(i);
      if !ready {
        return None;
      }
      out := ProduceOutput();
    }
  }
}
