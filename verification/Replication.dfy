/**
  The protocol that keeps a worker's copy of a `SequenceData` up to date: the scheduler sends a full
  snapshot for a first prefill and deltas otherwise, over a FIFO channel, while the driver's copy
  grows, is computed and is preempted.
 */
module Replication {
  import opened Wrappers
  import opened SequenceData

  /** What a scheduling step sends for one sequence. */
  datatype Message = Snapshot(data: Data) | DeltaMessage(delta: Delta)

  /** The worker's metadata cache: a snapshot replaces the entry, a delta needs one to apply to. */
  function Receive(replica: Option<Data>, m: Message): (r: Result<Option<Data>, string>) {
    match m
    case Snapshot(d) => Success(Some(d))
    case DeltaMessage(delta) =>
      if replica.Some? then Success(Some(replica.value.Apply(delta))) else Failure("first message is not a snapshot")
  }

  /** The replica after all messages under way have been received. */
  function Drain(replica: Option<Data>, channel: seq<Message>): (r: Result<Option<Data>, string>)
    decreases |channel|
  {
    if channel == [] then Success(replica)
    else
      match Receive(replica, channel[0])
      case Success(next) => Drain(next, channel[1..])
      case Failure(e) => Failure(e)
  }

  lemma {:induction false} DrainSnoc(replica: Option<Data>, channel: seq<Message>, m: Message)
    requires Drain(replica, channel).Success?
    ensures Drain(replica, channel + [m]) == Receive(Drain(replica, channel).value, m)
    decreases |channel|
  {
    if channel == [] {
      assert [m][1..] == [];
    } else {
      assert (channel + [m])[1..] == channel[1..] + [m];
      DrainSnoc(Receive(replica, channel[0]).value, channel[1..], m);
    }
  }

  /** The worker rejects the messages exactly when a delta comes before any snapshot. */
  lemma {:induction false} DrainRejectsIff(replica: Option<Data>, channel: seq<Message>)
    ensures Drain(replica, channel).Failure? <==> replica.None? && channel != [] && channel[0].DeltaMessage?
    ensures replica.Some? ==> Drain(replica, channel).value.Some?
    decreases |channel|
  {
    if channel != [] && Receive(replica, channel[0]).Success? {
      DrainRejectsIff(Receive(replica, channel[0]).value, channel[1..]);
    }
  }

  /** The driver's copy, whether it is scheduled, the messages under way, the replica, and the driver as last sent. */
  datatype System = System(driver: Data, running: bool, channel: seq<Message>, replica: Option<Data>, sent: Option<Data>)

  datatype Action = Append(token: Token, logprob: real) | Compute(n: int) | Send | Deliver | Preempt

  /** The scheduler's choice of message: a first prefill is sent in full. */
  function MessageFor(d: Data): Message {
    if d.stage.Prefill? && d.computed == 0 then Snapshot(d) else DeltaMessage(d.MakeDelta())
  }

  /** The driver's copy after the message is taken; only a delta empties the pending list. */
  function AfterSend(d: Data): Data {
    if MessageFor(d).DeltaMessage? then d.(pending := []) else d
  }

  /**
    When the engine takes each step: sequences are computed and extended only once scheduled, and
    extended only in the decode stage; a preempted sequence waits to be scheduled again.
   */
  ghost predicate Enabled(s: System, a: Action) {
    match a
    case Append(_, _) => s.running && s.driver.stage.Decode?
    case Compute(n) => s.running && 0 <= n <= s.driver.Uncomputed()
    case Send => true
    case Deliver => s.channel != []
    case Preempt => s.running
  }

  function Step(s: System, a: Action): (r: Result<System, string>)
    requires a.Deliver? ==> s.channel != []
  {
    match a
    case Append(t, lp) => Success(s.(driver := s.driver.Append(t, lp)))
    case Compute(n) => Success(s.(driver := s.driver.Compute(n)))
    case Send => Success(s.(driver := AfterSend(s.driver), running := true, channel := s.channel + [MessageFor(s.driver)],
                            sent := Some(s.driver)))
    case Deliver =>
      (match Receive(s.replica, s.channel[0])
       case Success(replica) => Success(s.(replica := replica, channel := s.channel[1..]))
       case Failure(e) => Failure(e))
    case Preempt => Success(s.(driver := s.driver.Reset(), running := false))
  }

  function Start(prompt: seq<Token>): System {
    System(NewData(prompt, []), false, [], None, None)
  }

  /** The two copies agree on everything the worker reads. */
  ghost predicate Agree(r: Data, d: Data) {
    && r.prompt == d.prompt && r.output == d.output && r.allTokens == d.allTokens
    && r.computed == d.computed && r.stage == d.stage && r.logprob == d.logprob
  }

  ghost predicate Inv(s: System) {
    && s.driver.Coherent() && s.driver.prompt != [] && 0 <= s.driver.computed <= s.driver.Len()
    && (s.driver.stage.Prefill? ==> s.driver.pending == [] && s.driver.computed < s.driver.Len())
    && (s.driver.stage.Decode? ==> s.driver.computed > 0)
    && (!s.running ==> s.driver.stage.Prefill? && s.driver.computed == 0)
    && (s.sent.None? ==> !s.running && s.channel == [] && s.replica.None?)
    && (s.sent.Some? ==>
          && Drain(s.replica, s.channel).Success? && Drain(s.replica, s.channel).value.Some?
          && Agree(Drain(s.replica, s.channel).value.value, s.sent.value)
          && s.sent.value.Coherent() && s.sent.value.prompt == s.driver.prompt)
    && (s.running ==> s.sent.Some? && s.sent.value.output + s.driver.pending == s.driver.output)
  }

  lemma SendInv(s: System)
    requires Inv(s)
    ensures Inv(Step(s, Send).value)
  {
    var s', m := Step(s, Send).value, MessageFor(s.driver);
    if s.sent.Some? {
      DrainSnoc(s.replica, s.channel, m);
    } else {
      assert s'.channel == [m];
      assert s'.channel[1..] == [];
    }
    if m.DeltaMessage? {
      var r := Drain(s.replica, s.channel).value.value;
      assert r.output + s.driver.pending == s.driver.output;
      assert r.allTokens + s.driver.pending == s.driver.prompt + (r.output + s.driver.pending);
    }
  }

  lemma StepInv(s: System, a: Action)
    requires Inv(s) && Enabled(s, a)
    ensures Step(s, a).Success? && Inv(Step(s, a).value)
  {
    match a
    case Append(t, _) =>
      assert s.sent.value.output + (s.driver.pending + [t]) == (s.sent.value.output + s.driver.pending) + [t];
    case Send => SendInv(s);
    case _ =>
  }

  ghost predicate CanRun(s: System, actions: seq<Action>)
    decreases |actions|
  {
    actions == [] || (Enabled(s, actions[0]) && Step(s, actions[0]).Success? && CanRun(Step(s, actions[0]).value, actions[1..]))
  }

  /** Every step of the schedule is taken when the engine would take it; nothing is said about its outcome. */
  ghost predicate Scheduled(s: System, actions: seq<Action>)
    decreases |actions|
  {
    actions == [] || (Enabled(s, actions[0]) && (Step(s, actions[0]).Success? ==> Scheduled(Step(s, actions[0]).value, actions[1..])))
  }

  ghost function Run(s: System, actions: seq<Action>): (r: System)
    requires CanRun(s, actions)
    decreases |actions|
  {
    if actions == [] then s else Run(Step(s, actions[0]).value, actions[1..])
  }

  lemma {:induction false} RunInv(s: System, actions: seq<Action>)
    requires Inv(s) && Scheduled(s, actions)
    ensures CanRun(s, actions) && Inv(Run(s, actions))
    decreases |actions|
  {
    if actions != [] {
      StepInv(s, actions[0]);
      RunInv(Step(s, actions[0]).value, actions[1..]);
    }
  }

  /**
    Replica agreement. In every schedule of sampling, computing, sending, delivering and preempting,
    with any delays on the channel: the worker never rejects a message; what the replica will hold
    once the channel is drained is the driver as last sent; while the sequence is scheduled that
    and the pending tokens make up the driver's output; and a drained replica is the driver as
    last sent.
   */
  lemma ReplicaAgreement(prompt: seq<Token>, actions: seq<Action>)
    requires prompt != [] && Scheduled(Start(prompt), actions)
    ensures CanRun(Start(prompt), actions)
    ensures var s := Run(Start(prompt), actions);
            && (s.sent.Some? ==>
                  && Drain(s.replica, s.channel).Success? && Drain(s.replica, s.channel).value.Some?
                  && Agree(Drain(s.replica, s.channel).value.value, s.sent.value))
            && (s.running ==>
                  s.sent.Some? && Drain(s.replica, s.channel).value.value.output + s.driver.pending == s.driver.output)
            && (s.sent.Some? && s.channel == [] ==> s.replica.Some? && Agree(s.replica.value, s.sent.value))
  {
    RunInv(Start(prompt), actions);
  }

  /**
    From any reachable state, preempted ones included, one more send makes the drained replica equal
    to the driver; a full snapshot is sent exactly when nothing is computed.
   */
  lemma SendResynchronises(prompt: seq<Token>, actions: seq<Action>)
    requires prompt != [] && Scheduled(Start(prompt), actions)
    ensures CanRun(Start(prompt), actions)
    ensures var s := Step(Run(Start(prompt), actions), Send).value;
            && Drain(s.replica, s.channel).Success? && Drain(s.replica, s.channel).value.Some?
            && Agree(Drain(s.replica, s.channel).value.value, s.driver)
    ensures var s := Run(Start(prompt), actions);
            && Step(s, Send).value.channel == s.channel + [MessageFor(s.driver)]
            && (MessageFor(s.driver).Snapshot? <==> s.driver.computed == 0)
  {
    RunInv(Start(prompt), actions);
    SendInv(Run(Start(prompt), actions));
  }

  ghost function DeltaTokens(channel: seq<Message>): seq<Token>
    requires forall k :: 0 <= k < |channel| ==> channel[k].DeltaMessage?
  {
    if channel == [] then [] else channel[0].delta.newTokens + DeltaTokens(channel[1..])
  }

  /** With only deltas under way, the drained output is the replica's followed by their tokens. */
  lemma {:induction false} DrainDeltas(replica: Data, channel: seq<Message>)
    requires forall k :: 0 <= k < |channel| ==> channel[k].DeltaMessage?
    ensures Drain(Some(replica), channel).Success? && Drain(Some(replica), channel).value.Some?
    ensures Drain(Some(replica), channel).value.value.output == replica.output + DeltaTokens(channel)
    decreases |channel|
  {
    if channel != [] {
      var next := replica.Apply(channel[0].delta);
      DrainDeltas(next, channel[1..]);
      assert next.output + DeltaTokens(channel[1..]) == replica.output + DeltaTokens(channel);
    }
  }

  /**
    A snapshot does not clear the pending list, so a delta that follows it repeats the pending
    tokens: the copies agree afterwards exactly when nothing was pending.
   */
  lemma SnapshotNeedsNothingPending(d: Data)
    ensures Agree(d.Apply(d.MakeDelta()), d) <==> d.pending == []
  {
  }

  /**
    The rule that a sequence is extended only in the decode stage is needed: extending it during
    prefill, then sending twice, leaves the replica with the token twice.
   */
  lemma AppendDuringPrefillDuplicates(prompt: seq<Token>, t: Token)
    requires prompt != []
    ensures var d := NewData(prompt, []).Append(t, 0.0);
            var first := Receive(None, MessageFor(d)).value;
            var later := AfterSend(d).Compute(1);
            first == Some(d) && later.computed <= later.Len()
            && Receive(first, MessageFor(later)).Success?
            && Receive(first, MessageFor(later)).value.value.output == [t, t]
            && later.output == [t]
  {
  }
}
