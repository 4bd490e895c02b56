/**
  The part of `SamplingParams` that decides how many sequences are sampled and returned, and how
  many characters are held back for stop strings: `__post_init__` and the checks it depends on.
 */
module SamplingParams {
  import opened Wrappers

  datatype OutputKind = Cumulative | DeltaOnly | FinalOnly

  datatype ParamError =
    | BestOfTooSmall | TooFewSequences | NegativeTemperature | BadMaxTokens | BadMinTokens
    | EmptyStopString | StopNeedsDetokenize | BestOfWithDelta | GreedyWithSeveral

  datatype Params = Params(n: int, bestOf: Option<int>, realN: Option<int>, temperature: real,
                           stop: seq<string>, includeStop: bool, detokenize: bool, bufferLength: int,
                           minTokens: int, maxTokens: Option<int>, outputKind: OutputKind)

  /** An optional integer that Python's `if` takes as true. */
  predicate Truthy(x: Option<int>) {
    x.Some? && x.value != 0
  }

  /** `max(len(s) for s in stop)`. */
  function MaxLen(stop: seq<string>): (m: nat)
    requires stop != []
    ensures forall k :: 0 <= k < |stop| ==> |stop[k]| <= m
    ensures exists k :: 0 <= k < |stop| && |stop[k]| == m
  {
    if |stop| == 1 then |stop[0]|
    else
      var m := MaxLen(stop[1..]);
      assert exists k :: 0 <= k < |stop[1..]| && |stop[1..][k]| == m;
      assert var k :| 0 <= k < |stop[1..]| && |stop[1..][k]| == m; |stop[k + 1]| == m;
      assert forall k :: 1 <= k < |stop| ==> |stop[k]| == |stop[1..][k - 1]|;
      if |stop[0]| > m then |stop[0]| else m
  }

  /** The characters held back until a sequence is finished. */
  function HoldBack(stop: seq<string>, includeStop: bool): int {
    if stop != [] && !includeStop then MaxLen(stop) - 1 else 0
  }

  /** `_verify_args`, for the arguments modelled. */
  function Verify(p: Params): Option<ParamError> {
    if p.n < 1 then Some(TooFewSequences)
    else if p.temperature < 0.0 then Some(NegativeTemperature)
    else if p.maxTokens.Some? && p.maxTokens.value < 1 then Some(BadMaxTokens)
    else if p.minTokens < 0 || (p.maxTokens.Some? && p.minTokens > p.maxTokens.value) then Some(BadMinTokens)
    else if exists k :: 0 <= k < |p.stop| && p.stop[k] == "" then Some(EmptyStopString)
    else if p.stop != [] && !p.detokenize then Some(StopNeedsDetokenize)
    else if p.bestOf != p.realN && p.outputKind.DeltaOnly? then Some(BestOfWithDelta)
    else None
  }

  /** `if self.best_of and not self._real_n`: sample `best_of` sequences, remember how many were asked for. */
  function WithBestOf(p: Params): Params {
    if Truthy(p.bestOf) && !Truthy(p.realN) then p.(realN := Some(p.n), n := p.bestOf.value) else p
  }

  /** Everything `__post_init__` rewrites before it verifies. */
  function Rewritten(p: Params): Params {
    var q := WithBestOf(p);
    var q := if 0.0 < q.temperature < 0.01 then q.(temperature := 0.01) else q;
    if q.stop != [] && !q.includeStop then q.(bufferLength := HoldBack(q.stop, q.includeStop)) else q
  }

  function PostInit(p: Params): (r: Result<Params, ParamError>) {
    if Truthy(p.bestOf) && p.bestOf.value < p.n then Failure(BestOfTooSmall)
    else
      var q := Rewritten(p);
      match Verify(q)
      case Some(e) => Failure(e)
      case None => if q.temperature < 0.00001 && q.n > 1 then Failure(GreedyWithSeveral) else Success(q)
  }

  /** A freshly built request: nothing rewritten yet. */
  ghost predicate Fresh(p: Params) {
    p.realN == None && p.bufferLength == 0
  }

  method LongestStop(stop: seq<string>) returns (longest: nat)
    requires stop != []
    ensures longest == MaxLen(stop)
  {
    longest := |stop[0]|;
    for k := 1 to |stop|
      invariant forall j :: 0 <= j < k ==> |stop[j]| <= longest
      invariant exists j :: 0 <= j < k && |stop[j]| == longest
    {
      if |stop[k]| > longest {
        longest := |stop[k]|;
      }
    }
  }

  class Parameters {
    var p: Params

    constructor (p: Params)
      ensures this.p == p
    {
      this.p := p;
    }

    method Rewrite()
      modifies this
      ensures p == Rewritten(old(p))
    {
      if Truthy(p.bestOf) && !Truthy(p.realN) {
        p := p.(realN := Some(p.n), n := p.bestOf.value);
      }
      if 0.0 < p.temperature < 0.01 {
        p := p.(temperature := 0.01);
      }
      if p.stop != [] && !p.includeStop {
        var longest: int;
        longest := LongestStop(p.stop);
        p := p.(bufferLength := longest - 1);
      }
    }

    /** `__post_init__`: the parameters are rewritten before they are verified. */
    method Initialise() returns (r: Result<(), ParamError>)
      modifies this
      ensures r.Success? <==> PostInit(old(p)).Success?
      ensures r.Success? ==> p == PostInit(old(p)).value
      ensures r.Failure? ==> r.error == PostInit(old(p)).error
      ensures Fresh(old(p)) ==> (r.Success? <==> Admissible(old(p)))
      ensures Fresh(old(p)) && r.Failure? ==>
                Offends(old(p), r.error) && forall e :: Offends(old(p), e) ==> Rank(r.error) <= Rank(e)
    {
      if Fresh(p) {
        AcceptedIff(p);
      }
      if Truthy(p.bestOf) && p.bestOf.value < p.n {
        return Failure(BestOfTooSmall);
      }
      Rewrite();
      var failure := Verify(p);
      if failure.Some? {
        return Failure(failure.value);
      }
      if p.temperature < 0.00001 && p.n > 1 {
        return Failure(GreedyWithSeveral);
      }
      return Success(());
    }
  }

  // ---------------------------------------------------------------------------------------
  // Which requests are accepted, and what they become
  // ---------------------------------------------------------------------------------------

  /** How many sequences a request samples: `best_of` if it is set, else `n`. */
  ghost function Sampled(p: Params): int {
    if Truthy(p.bestOf) then p.bestOf.value else p.n
  }

  /** What is wrong with a request as given. */
  ghost predicate Offends(p: Params, e: ParamError) {
    match e
    case BestOfTooSmall => Sampled(p) < p.n
    case TooFewSequences => Sampled(p) < 1
    case NegativeTemperature => p.temperature < 0.0
    case BadMaxTokens => p.maxTokens.Some? && p.maxTokens.value <= 0
    case BadMinTokens => p.minTokens < 0 || (p.maxTokens.Some? && p.maxTokens.value < p.minTokens)
    case EmptyStopString => "" in p.stop
    case StopNeedsDetokenize => p.stop != [] && !p.detokenize
    case BestOfWithDelta => p.outputKind.DeltaOnly? && p.bestOf.Some? && (p.bestOf.value == 0 || p.bestOf.value != p.n)
    case GreedyWithSeveral => p.temperature <= 0.0 && Sampled(p) > 1
  }

  /** The order in which the faults are looked for. */
  function Rank(e: ParamError): nat {
    match e
    case BestOfTooSmall => 0
    case TooFewSequences => 1
    case NegativeTemperature => 2
    case BadMaxTokens => 3
    case BadMinTokens => 4
    case EmptyStopString => 5
    case StopNeedsDetokenize => 6
    case BestOfWithDelta => 7
    case GreedyWithSeveral => 8
  }

  /** The conditions on a request as given. */
  ghost predicate Admissible(p: Params) {
    && p.n <= Sampled(p) && 1 <= Sampled(p)
    && 0.0 <= p.temperature && (p.temperature == 0.0 ==> Sampled(p) == 1)
    && 0 <= p.minTokens && (p.maxTokens.Some? ==> 1 <= p.maxTokens.value && p.minTokens <= p.maxTokens.value)
    && (forall k :: 0 <= k < |p.stop| ==> p.stop[k] != "") && (p.stop != [] ==> p.detokenize)
    && (p.outputKind.DeltaOnly? && p.bestOf.Some? ==> p.bestOf.value == p.n != 0)
  }

  lemma AdmissibleIffNoOffence(p: Params)
    ensures Admissible(p) <==> forall e :: !Offends(p, e)
  {
    if forall e :: !Offends(p, e) {
      assert !Offends(p, BestOfTooSmall) && !Offends(p, TooFewSequences) && !Offends(p, NegativeTemperature);
      assert !Offends(p, BadMaxTokens) && !Offends(p, BadMinTokens) && !Offends(p, EmptyStopString);
      assert !Offends(p, StopNeedsDetokenize) && !Offends(p, BestOfWithDelta) && !Offends(p, GreedyWithSeveral);
    }
  }

  lemma RewrittenFacts(p: Params)
    requires Fresh(p)
    ensures var q := Rewritten(p);
            && q.n == Sampled(p) && q.realN == (if Truthy(p.bestOf) then Some(p.n) else None)
            && q.temperature == (if 0.0 < p.temperature < 0.01 then 0.01 else p.temperature)
            && q == p.(n := q.n, realN := q.realN, temperature := q.temperature, bufferLength := q.bufferLength)
  {
  }

  /** The verification of the rewritten request finds the first fault of the request as given. */
  lemma VerifyFindsFirst(p: Params, q: Params, e: ParamError)
    requires q == p.(n := q.n, realN := q.realN, temperature := q.temperature, bufferLength := q.bufferLength)
    requires q.n == Sampled(p) && q.realN == (if Truthy(p.bestOf) then Some(p.n) else None)
    requires q.temperature == (if 0.0 < p.temperature < 0.01 then 0.01 else p.temperature)
    ensures Verify(q).Some? ==> Offends(p, Verify(q).value) && 1 <= Rank(Verify(q).value) <= 7
    ensures 1 <= Rank(e) <= 7 && Offends(p, e) ==> Verify(q).Some? && Rank(Verify(q).value) <= Rank(e)
  {
    assert (exists k :: 0 <= k < |q.stop| && q.stop[k] == "") <==> "" in p.stop;
  }

  /** The faults looked for before and after the verification. */
  lemma FirstFault(p: Params, e: ParamError)
    requires Fresh(p)
    ensures PostInit(p).Failure? ==> Offends(p, PostInit(p).error)
    ensures Offends(p, e) ==> PostInit(p).Failure? && Rank(PostInit(p).error) <= Rank(e)
  {
    RewrittenFacts(p);
    VerifyFindsFirst(p, Rewritten(p), e);
  }

  /**
    A request is accepted if and only if it meets every condition as given, and otherwise the error
    reported is the first one of which it is guilty.
   */
  lemma AcceptedIff(p: Params)
    requires Fresh(p)
    ensures PostInit(p).Success? <==> Admissible(p)
    ensures PostInit(p).Failure? ==> Offends(p, PostInit(p).error)
                                     && forall e :: Offends(p, e) ==> Rank(PostInit(p).error) <= Rank(e)
  {
    AdmissibleIffNoOffence(p);
    forall e
      ensures PostInit(p).Failure? ==> Offends(p, PostInit(p).error)
      ensures Offends(p, e) ==> PostInit(p).Failure? && Rank(PostInit(p).error) <= Rank(e)
    {
      FirstFault(p, e);
    }
    FirstFault(p, TooFewSequences);
  }

  /** What an accepted request becomes: how many are sampled, the temperature and the hold-back. */
  lemma Accepted(p: Params)
    requires Fresh(p) && PostInit(p).Success?
    ensures var q := PostInit(p).value;
            && q.n >= 1 && q.bufferLength == HoldBack(p.stop, p.includeStop) && q.bufferLength >= 0
            && (forall k :: 0 <= k < |q.stop| ==> q.stop[k] != "")
            && q == p.(n := q.n, realN := q.realN, temperature := q.temperature, bufferLength := q.bufferLength)
            && (if Truthy(p.bestOf) then q.n == p.bestOf.value >= p.n && q.realN == Some(p.n)
                else q.n == p.n && q.realN == None)
            && q.temperature == (if 0.0 < p.temperature < 0.01 then 0.01 else p.temperature)
  {
  }

  /** The hold-back is one less than the longest stop string that is to be removed, or nothing. */
  lemma HoldBackIsLongest(stop: seq<string>, includeStop: bool)
    ensures stop == [] || includeStop ==> HoldBack(stop, includeStop) == 0
    ensures stop != [] && !includeStop ==>
              && (forall k :: 0 <= k < |stop| ==> |stop[k]| <= HoldBack(stop, includeStop) + 1)
              && (exists k :: 0 <= k < |stop| && |stop[k]| == HoldBack(stop, includeStop) + 1)
  {
    if stop != [] && !includeStop {
      var k :| 0 <= k < |stop| && |stop[k]| == MaxLen(stop);
    }
  }
}
