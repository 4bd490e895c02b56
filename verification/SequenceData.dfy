/**
  `SequenceData`: the tokens of one sequence with a redundant cache of all of them, the prefill or
  decode stage, and the list of tokens not yet sent to the worker's replica.
 */
module SequenceData {
  import opened Wrappers

  type Token = int

  datatype Stage = Prefill | Decode

  /** `SequenceDataDelta`. */
  datatype Delta = Delta(newTokens: seq<Token>, logprob: real, computed: int, stage: Stage)

  /** The value of a `SequenceData` object; `pending` is `_new_appended_tokens`. */
  datatype Data = Data(prompt: seq<Token>, output: seq<Token>, logprob: real, computed: int, stage: Stage,
                       allTokens: seq<Token>, pending: seq<Token>)
  {
    function Len(): nat { |prompt| + |output| }

    function Uncomputed(): int { Len() - computed }

    /** `Sequence.get_num_new_tokens`. */
    function NumNewTokens(): int { if stage.Decode? then 1 else Uncomputed() }

    /** The cached list is the prompt followed by the output. */
    ghost predicate Coherent() { allTokens == prompt + output }

    function Append(t: Token, lp: real): Data {
      this.(output := output + [t], pending := pending + [t], allTokens := allTokens + [t], logprob := logprob + lp)
    }

    /** `update_num_computed_tokens`: the count changes even when the assertion on it then fails. */
    function Compute(n: int): Data {
      var d := this.(computed := computed + n);
      if d.computed == d.Len() then d.(stage := Decode) else d
    }

    function Reset(): Data {
      this.(computed := 0, stage := Prefill, pending := [])
    }

    function MakeDelta(): Delta {
      Delta(pending, logprob, computed, stage)
    }

    function Apply(d: Delta): Data {
      this.(output := output + d.newTokens, allTokens := allTokens + d.newTokens,
            logprob := d.logprob, computed := d.computed, stage := d.stage)
    }
  }

  function NewData(prompt: seq<Token>, output: seq<Token>): (d: Data)
    ensures d.Coherent()
  {
    Data(prompt, output, 0.0, 0, Prefill, prompt + output, [])
  }

  class SequenceData {
    const prompt: seq<Token>
    var output: seq<Token>
    var logprob: real
    var computed: int
    var stage: Stage
    var allTokens: seq<Token>
    var pending: seq<Token>

    ghost function View(): Data
      reads this
    {
      Data(prompt, output, logprob, computed, stage, allTokens, pending)
    }

    /** `from_seqs` with `__post_init__`. */
    constructor (prompt: seq<Token>, output: seq<Token>)
      ensures View() == NewData(prompt, output)
    {
      this.prompt, this.output := prompt, output;
      logprob, computed, stage, pending := 0.0, 0, Prefill, [];
      allTokens := prompt + output;
    }

    function GetLen(): nat
      reads this
    {
      |output| + |prompt|
    }

    method AppendTokenId(t: Token, lp: real)
      modifies this
      ensures View() == old(View()).Append(t, lp)
      ensures old(View()).Coherent() ==> View().Coherent()
    {
      output := output + [t];
      pending := pending + [t];
      allTokens := allTokens + [t];
      logprob := logprob + lp;
    }

    /** False stands for the failed assertion that no more tokens are computed than exist. */
    method UpdateNumComputedTokens(n: int) returns (ok: bool)
      modifies this
      ensures ok <==> old(computed) + n <= GetLen()
      ensures computed == old(computed) + n && stage == if computed == GetLen() then Decode else old(stage)
      ensures View() == old(View()).Compute(n)
    {
      computed := computed + n;
      if computed > GetLen() {
        return false;
      }
      if GetLen() - computed == 0 {
        stage := Decode;
      }
      return true;
    }

    method ResetStateForRecompute()
      modifies this
      ensures computed == 0 && stage == Prefill && pending == [] && output == old(output) && allTokens == old(allTokens)
      ensures View() == old(View()).Reset()
    {
      computed := 0;
      stage := Prefill;
      pending := [];
    }

    method GetDeltaAndReset() returns (d: Delta)
      modifies this
      ensures d == old(View()).MakeDelta()
      ensures View() == old(View()).(pending := [])
    {
      d := Delta(pending, logprob, computed, stage);
      pending := [];
    }

    method ApplyDelta(d: Delta)
      modifies this
      ensures View() == old(View()).Apply(d)
      ensures old(View()).Coherent() ==> View().Coherent()
    {
      computed := d.computed;
      logprob := d.logprob;
      stage := d.stage;
      output := output + d.newTokens;
      allTokens := allTokens + d.newTokens;
    }

    /** `get_last_token_id`; None stands for the IndexError without any token. */
    function GetLastTokenId(): (r: Option<Token>)
      reads this
      ensures r.None? <==> prompt == [] && output == []
      ensures r.Some? && View().Coherent() ==> allTokens != [] && r.value == allTokens[|allTokens| - 1]
    {
      if output == [] then
        if prompt == [] then None else Some(prompt[|prompt| - 1])
      else Some(output[|output| - 1])
    }
  }

  // ---------------------------------------------------------------------------------------
  // Scheduling progress
  // ---------------------------------------------------------------------------------------

  datatype Event = Appended(token: Token, logprob: real) | Computed(n: int) | Preempted

  /** A token is sampled only when everything before it is computed; no more is computed than exists. */
  ghost predicate Allowed(d: Data, e: Event) {
    match e
    case Appended(_, _) => d.Uncomputed() == 0
    case Computed(n) => 0 <= n <= d.Uncomputed()
    case Preempted => true
  }

  function Next(d: Data, e: Event): Data {
    match e
    case Appended(t, lp) => d.Append(t, lp)
    case Computed(n) => d.Compute(n)
    case Preempted => d.Reset()
  }

  ghost predicate Allows(d: Data, events: seq<Event>) {
    events == []
    || (Allows(d, events[..|events| - 1]) && Allowed(After(d, events[..|events| - 1]), events[|events| - 1]))
  }

  ghost function After(d: Data, events: seq<Event>): Data {
    if events == [] then d else Next(After(d, events[..|events| - 1]), events[|events| - 1])
  }

  /** In the prefill stage some token is uncomputed, in the decode stage at most one is. */
  ghost predicate ProgressInv(d: Data) {
    && d.prompt != [] && d.Coherent() && 0 <= d.computed <= d.Len()
    && (d.stage.Prefill? ==> d.Uncomputed() > 0)
    && (d.stage.Decode? ==> d.Uncomputed() <= 1)
  }

  lemma {:induction false} ProgressKept(d: Data, events: seq<Event>)
    requires ProgressInv(d) && Allows(d, events)
    ensures ProgressInv(After(d, events))
  {
    if events != [] {
      ProgressKept(d, events[..|events| - 1]);
    }
  }

  /**
    Over every run from a non-empty prompt, chunked prefill and preemption included: the cached list
    is prompt ++ output, the stage tells whether work remains, and whenever work remains the number
    of tokens to schedule is exactly the number of uncomputed tokens.
   */
  lemma ScheduledIsUncomputed(prompt: seq<Token>, output: seq<Token>, events: seq<Event>)
    requires prompt != [] && Allows(NewData(prompt, output), events)
    ensures var d := After(NewData(prompt, output), events);
            && d.allTokens == d.prompt + d.output && 0 <= d.computed <= d.Len()
            && (d.stage.Prefill? ==> d.Uncomputed() > 0)
            && (d.Uncomputed() > 0 ==> d.NumNewTokens() == d.Uncomputed())
  {
    ProgressKept(NewData(prompt, output), events);
  }

  /** The tokens appended in a run, whatever was preempted. */
  ghost function AppendedTokens(events: seq<Event>): seq<Token> {
    if events == [] then []
    else
      var e := events[|events| - 1];
      AppendedTokens(events[..|events| - 1]) + if e.Appended? then [e.token] else []
  }

  ghost function AppendedLogprob(events: seq<Event>): real {
    if events == [] then 0.0
    else
      var e := events[|events| - 1];
      AppendedLogprob(events[..|events| - 1]) + if e.Appended? then e.logprob else 0.0
  }

  /** The events since the last preemption. */
  ghost function SincePreempted(events: seq<Event>): seq<Event> {
    if events == [] || events[|events| - 1].Preempted? then []
    else SincePreempted(events[..|events| - 1]) + [events[|events| - 1]]
  }

  /** The number of tokens computed in a run. */
  ghost function ComputedSum(events: seq<Event>): int {
    if events == [] then 0
    else
      var e := events[|events| - 1];
      ComputedSum(events[..|events| - 1]) + if e.Computed? then e.n else 0
  }

  /** After the first `j` events, and with no preemption since, as much was computed as there were tokens. */
  ghost predicate ReachedAt(length: nat, events: seq<Event>, j: nat) {
    && j <= |events| && (forall k :: j <= k < |events| ==> !events[k].Preempted?)
    && ComputedSum(SincePreempted(events[..j])) == length + |AppendedTokens(events[..j])|
  }

  /** At some moment since the last preemption everything was computed; `length` is the initial one. */
  ghost predicate Reached(length: nat, events: seq<Event>) {
    exists j :: ReachedAt(length, events, j)
  }

  /** How `Reached` changes with one more event. */
  lemma ReachedSnoc(length: nat, events: seq<Event>)
    requires events != []
    ensures var before, e := events[..|events| - 1], events[|events| - 1];
            Reached(length, events) <==>
              || (!e.Preempted? && Reached(length, before))
              || ComputedSum(SincePreempted(events)) == length + |AppendedTokens(events)|
  {
    var before, e := events[..|events| - 1], events[|events| - 1];
    assert events[..|events|] == events;
    forall j: nat | j < |events|
      ensures ReachedAt(length, events, j) <==> !e.Preempted? && ReachedAt(length, before, j)
    {
      assert events[..j] == before[..j];
      assert forall k :: j <= k < |before| ==> before[k] == events[k];
    }
    assert ReachedAt(length, events, |events|) <==> ComputedSum(SincePreempted(events)) == length + |AppendedTokens(events)|;
    if !e.Preempted? && Reached(length, before) {
      var j :| ReachedAt(length, before, j);
      assert ReachedAt(length, events, j);
    }
  }

  /** The tokens are those that the events tell of. */
  ghost predicate TokensTold(d: Data, prompt: seq<Token>, output: seq<Token>, events: seq<Event>) {
    && d.prompt == prompt && d.output == output + AppendedTokens(events) && d.allTokens == prompt + d.output
    && d.logprob == AppendedLogprob(events) && d.pending == AppendedTokens(SincePreempted(events))
  }

  /** The progress is the one that the events tell of. */
  ghost predicate ProgressTold(d: Data, prompt: seq<Token>, output: seq<Token>, events: seq<Event>) {
    && d.computed == ComputedSum(SincePreempted(events))
    && (d.stage.Decode? <==> Reached(|prompt| + |output|, events))
  }

  lemma TokensToldNext(d: Data, prompt: seq<Token>, output: seq<Token>, events: seq<Event>)
    requires events != [] && TokensTold(d, prompt, output, events[..|events| - 1])
    ensures TokensTold(Next(d, events[|events| - 1]), prompt, output, events)
  {
    var before, e := events[..|events| - 1], events[|events| - 1];
    SinceSnoc(events);
    if e.Appended? {
      var d' := Next(d, e);
      assert d'.output == output + AppendedTokens(events);
      assert d'.allTokens == prompt + d'.output;
    } else {
      assert AppendedTokens(events) == AppendedTokens(before);
    }
  }

  lemma ProgressToldNext(d: Data, prompt: seq<Token>, output: seq<Token>, events: seq<Event>)
    requires events != [] && ProgressTold(d, prompt, output, events[..|events| - 1])
    requires ProgressInv(d) && Allowed(d, events[|events| - 1]) && d.prompt == prompt
    requires |d.output| == |output| + |AppendedTokens(events[..|events| - 1])|
    ensures ProgressTold(Next(d, events[|events| - 1]), prompt, output, events)
  {
    ReachedSnoc(|prompt| + |output|, events);
    SinceSnoc(events);
    var before, e := events[..|events| - 1], events[|events| - 1];
    StageNext(d, e, |prompt| + |output| + |AppendedTokens(before)|, ComputedSum(SincePreempted(before)),
              Reached(|prompt| + |output|, before));
    assert |AppendedTokens(events)| == |AppendedTokens(before)| + if e.Appended? then 1 else 0;
  }

  /** How one event changes the computed count and the stage, given the length and whether it was reached. */
  lemma StageNext(d: Data, e: Event, length: nat, computed: int, reached: bool)
    requires ProgressInv(d) && Allowed(d, e) && d.Len() == length && d.computed == computed && (d.stage.Decode? <==> reached)
    ensures Next(d, e).computed == match e case Appended(_, _) => computed case Computed(n) => computed + n case Preempted => 0
    ensures Next(d, e).stage.Decode? <==>
              match e
              case Appended(_, _) => reached
              case Computed(n) => reached || computed + n == length
              case Preempted => false
    ensures e.Appended? ==> computed != length + 1
    ensures length > 0
  {
  }

  /**
    The state after any run, told from the events alone: the output is what was appended, whatever was
    preempted; the computed count is the sum of what was computed since the last preemption; the
    stage is decode if and only if that sum has reached the length since then; and the tokens not
    yet sent are those appended since then.
   */
  lemma {:induction false} RunSummary(prompt: seq<Token>, output: seq<Token>, events: seq<Event>)
    requires prompt != [] && Allows(NewData(prompt, output), events)
    ensures TokensTold(After(NewData(prompt, output), events), prompt, output, events)
    ensures ProgressTold(After(NewData(prompt, output), events), prompt, output, events)
  {
    if events == [] {
      assert events[..0] == [];
    } else {
      var before := events[..|events| - 1];
      RunSummary(prompt, output, before);
      ProgressKept(NewData(prompt, output), before);
      TokensToldNext(After(NewData(prompt, output), before), prompt, output, events);
      ProgressToldNext(After(NewData(prompt, output), before), prompt, output, events);
    }
  }

  lemma SinceSnoc(events: seq<Event>)
    requires events != []
    ensures var before, e := events[..|events| - 1], events[|events| - 1];
            && (e.Preempted? ==> SincePreempted(events) == [])
            && (!e.Preempted? ==>
                  && ComputedSum(SincePreempted(events)) == ComputedSum(SincePreempted(before)) + (if e.Computed? then e.n else 0)
                  && AppendedTokens(SincePreempted(events))
                     == AppendedTokens(SincePreempted(before)) + (if e.Appended? then [e.token] else []))
  {
    var since := SincePreempted(events);
    if since != [] {
      assert since[..|since| - 1] == SincePreempted(events[..|events| - 1]);
    }
  }

  /** The condition on sampling is needed: in the decode stage the two counts then agree only under it. */
  lemma AppendKeepsCountIff(d: Data, t: Token, lp: real)
    requires ProgressInv(d) && d.stage.Decode?
    ensures d.Append(t, lp).NumNewTokens() == d.Append(t, lp).Uncomputed() <==> Allowed(d, Appended(t, lp))
  {
  }

  // ---------------------------------------------------------------------------------------
  // Prefix keys
  // ---------------------------------------------------------------------------------------

  /** `get_prefix_token_ids`: the prompt part, and the output part if the prefix reaches into it. */
  datatype PrefixKey = PrefixKey(prompt: seq<Token>, output: Option<seq<Token>>)

  function KeyOf(prompt: seq<Token>, output: seq<Token>, n: nat): (k: PrefixKey) {
    if n > |prompt| then
      var m := n - |prompt|;
      PrefixKey(prompt, Some(if m <= |output| then output[..m] else output))
    else PrefixKey(prompt[..n], None)
  }

  ghost function Joined(k: PrefixKey): seq<Token> {
    k.prompt + if k.output.Some? then k.output.value else []
  }

  /** `num_hashed_tokens_of_block`. */
  function HashedTokens(block: nat, blockSize: nat): nat {
    block * blockSize + blockSize
  }

  /** The parts of a key join to the first `n` tokens, or to all when there are fewer. */
  lemma KeyJoinsToPrefix(prompt: seq<Token>, output: seq<Token>, n: nat)
    ensures Joined(KeyOf(prompt, output, n)) == if n <= |prompt| + |output| then (prompt + output)[..n] else prompt + output
    ensures KeyOf(prompt, output, n).output.None? <==> n <= |prompt|
  {
  }

  /** Blocks `0` to `block` of the tokens, one after the other. */
  ghost function BlocksThrough(tokens: seq<Token>, block: nat, blockSize: nat): seq<Token>
    requires (block + 1) * blockSize <= |tokens|
  {
    if block == 0 then tokens[..blockSize]
    else
      BlocksOrdered(block, blockSize);
      BlocksThrough(tokens, block - 1, blockSize) + tokens[block * blockSize..(block + 1) * blockSize]
  }

  lemma BlocksOrdered(block: nat, blockSize: nat)
    ensures (block + 1) * blockSize == block * blockSize + blockSize
    ensures block > 0 ==> (block - 1 + 1) * blockSize == block * blockSize
    ensures 0 <= block * blockSize
  {
  }

  /** The key of a block wholly inside the sequence covers exactly the blocks through that one. */
  lemma KeyCoversBlocks(prompt: seq<Token>, output: seq<Token>, block: nat, blockSize: nat)
    requires (block + 1) * blockSize <= |prompt| + |output|
    ensures Joined(KeyOf(prompt, output, HashedTokens(block, blockSize))) == BlocksThrough(prompt + output, block, blockSize)
    ensures HashedTokens(0, blockSize) == blockSize
  {
    BlocksOrdered(block, blockSize);
    KeyJoinsToPrefix(prompt, output, HashedTokens(block, blockSize));
    BlocksArePrefix(prompt + output, block, blockSize);
  }

  lemma {:induction false} BlocksArePrefix(tokens: seq<Token>, block: nat, blockSize: nat)
    requires (block + 1) * blockSize <= |tokens|
    ensures BlocksThrough(tokens, block, blockSize) == tokens[..(block + 1) * blockSize]
  {
    if block > 0 {
      BlocksOrdered(block, blockSize);
      BlocksArePrefix(tokens, block - 1, blockSize);
      PrefixExtends(tokens, block * blockSize, (block + 1) * blockSize);
    }
  }

  lemma PrefixExtends(tokens: seq<Token>, a: nat, b: nat)
    requires a <= b <= |tokens|
    ensures tokens[..a] + tokens[a..b] == tokens[..b]
  {
  }

  /**
    Soundness of the prefix key, whatever the split into prompt and output: equal keys mean equal
    token prefixes. The converse holds exactly when the prefix ends inside both prompts, or
    outside both and the prompts are equally long.
   */
  lemma KeysEqualIff(p1: seq<Token>, o1: seq<Token>, p2: seq<Token>, o2: seq<Token>, block: nat, blockSize: nat)
    requires HashedTokens(block, blockSize) <= |p1| + |o1| && HashedTokens(block, blockSize) <= |p2| + |o2|
    ensures var n := HashedTokens(block, blockSize);
            KeyOf(p1, o1, n) == KeyOf(p2, o2, n) <==>
              && (p1 + o1)[..n] == (p2 + o2)[..n]
              && ((n <= |p1| && n <= |p2|) || (n > |p1| && |p1| == |p2|))
  {
    var n := HashedTokens(block, blockSize);
    KeyJoinsToPrefix(p1, o1, n);
    KeyJoinsToPrefix(p2, o2, n);
    assert n <= |p1| ==> p1[..n] == (p1 + o1)[..n];
    assert n <= |p2| ==> p2[..n] == (p2 + o2)[..n];
    if n > |p1| && |p1| == |p2| && (p1 + o1)[..n] == (p2 + o2)[..n] {
      assert p1 == (p1 + o1)[..n][..|p1|] && p2 == (p2 + o2)[..n][..|p2|];
      assert o1[..n - |p1|] == (p1 + o1)[..n][|p1|..];
      assert o2[..n - |p2|] == (p2 + o2)[..n][|p2|..];
    }
  }
}
