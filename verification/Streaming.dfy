/**
  Streaming one sequence to a client: tokens arrive with detokenized characters, the stop checker
  may cut the text, and deltas are read at arbitrary moments. What the client holds is compared
  with the text and tokens of the sequence, over every run.
 */
module Streaming {
  import opened Wrappers
  import opened SequenceData
  import opened Sequences
  import opened SamplingParams

  /** The text, tokens and finished flag of a `RequestOutput` with a single completion. */
  datatype Output = Output(text: string, tokens: seq<Token>, finished: bool)

  /** `from_seq_group` in delta mode, and the sequence after it. */
  function DeltaOutput(s: Seq, buffer: nat): Output {
    Output(DeltaText(s, buffer), DeltaTokens(s), s.Finished())
  }

  function AfterDelta(s: Seq, buffer: nat): Seq {
    AfterDeltaText(s, buffer).(tokenOffset := |s.output|)
  }

  /** `from_seq_group` in cumulative mode. */
  function CumulativeOutput(s: Seq, buffer: nat): Output {
    Output(CumulativeText(s, buffer), s.output, s.Finished())
  }

  /** `RequestOutput.add`. */
  function Add(a: Output, b: Output): Output {
    Output(a.text + b.text, a.tokens + b.tokens, a.finished || b.finished)
  }

  /** A sequence and what the client has made of the deltas read so far. */
  datatype Stream = Stream(s: Seq, received: Option<Output>)

  datatype StreamEvent = NewToken(token: Token, chars: string) | Read

  ghost predicate NoEmptyStop(r: Rules) {
    forall k :: 0 <= k < |r.stop| ==> r.stop[k] != ""
  }

  /** The hold-back that `SamplingParams` derives from the rules. */
  ghost function Buffer(r: Rules): nat
    requires NoEmptyStop(r)
  {
    HoldBack(r.stop, r.includeStop)
  }

  /** The sequence after a token and its characters, before the stop check. */
  function Extended(s: Seq, t: Token, chars: string): Seq {
    s.(output := s.output + [t], text := s.text + chars)
  }

  /** One engine step on an unfinished sequence, or one read of a delta. */
  ghost function Step(st: Stream, e: StreamEvent, r: Rules): Stream
    requires NoEmptyStop(r)
  {
    match e
    case NewToken(t, chars) =>
      if st.s.Finished() then st
      else st.(s := MaybeStop(Extended(st.s, t, chars), |chars|, r))
    case Read =>
      var d := DeltaOutput(st.s, Buffer(r));
      Stream(AfterDelta(st.s, Buffer(r)), Some(if st.received.Some? then Add(st.received.value, d) else d))
  }

  ghost function Run(prompt: seq<Token>, events: seq<StreamEvent>, r: Rules): Stream
    requires NoEmptyStop(r)
  {
    if events == [] then Stream(NewSeq(prompt), None)
    else Step(Run(prompt, events[..|events| - 1], r), events[|events| - 1], r)
  }

  ghost function ReceivedText(st: Stream): string {
    if st.received.Some? then st.received.value.text else ""
  }

  ghost function ReceivedTokens(st: Stream): seq<Token> {
    if st.received.Some? then st.received.value.tokens else []
  }

  ghost predicate IsSuffix(a: string, b: string) {
    |a| <= |b| && b[|b| - |a|..] == a
  }

  /** The longest stop string at `k` ends with an earlier listed, shorter one, which is found first. */
  ghost predicate Shadowed(stop: seq<string>, k: nat)
    requires k < |stop|
  {
    exists j :: 0 <= j < k && |stop[j]| < MaxLen(stop) && IsSuffix(stop[j], stop[k])
  }

  /** The condition under which returned text is never taken back. */
  ghost predicate HoldBackSafe(stop: seq<string>, includeStop: bool, minTokens: int) {
    || stop == [] || includeStop || minTokens <= 1
    || forall k :: 0 <= k < |stop| && |stop[k]| == MaxLen(stop) ==> Shadowed(stop, k)
  }

  // ---------------------------------------------------------------------------------------
  // Single steps
  // ---------------------------------------------------------------------------------------

  /** A stop string that ends the old text is within the search range of the next check. */
  lemma SuffixIsFound(text: string, chars: string, sub: string)
    requires IsSuffix(sub, text)
    ensures Find(text + chars, sub, SearchStart(text + chars, |chars|, sub)).Some?
  {
  }

  /** An occurrence at the very start of the search range lies at the end of the old text. */
  lemma FoundAtStartIsSuffix(text: string, chars: string, sub: string)
    requires |sub| <= |text| && OccursAt(text + chars, sub, |text| - |sub|)
    ensures IsSuffix(sub, text)
  {
  }

  lemma SuffixOccurs(sub: string, text: string)
    requires |sub| <= |text|
    ensures IsSuffix(sub, text) <==> OccursAt(text, sub, |text| - |sub|)
  {
  }

  /** No listed stop string ends the text. */
  ghost predicate NoStopAtEnd(text: string, stop: seq<string>) {
    forall k :: 0 <= k < |stop| ==> !IsSuffix(stop[k], text)
  }

  /**
    The heart of the hold-back: a cut for a stop string falls at or after everything returnable
    before the newest characters arrived.
   */
  lemma CutAfterReturned(text: string, chars: string, r: Rules, offset: nat)
    requires NoEmptyStop(r) && HoldBackSafe(r.stop, r.includeStop, r.minTokens)
    requires r.minTokens <= 1 && !r.includeStop ==> NoStopAtEnd(text, r.stop)
    requires offset == 0 || offset + Buffer(r) <= |text|
    ensures match CheckStop(text + chars, |chars|, r.stop, r.includeStop)
            case Some(Match(_, Some(cut))) => offset <= cut <= |text + chars|
            case _ => true
  {
    var all := text + chars;
    var m := CheckStop(all, |chars|, r.stop, r.includeStop);
    if m.Some? {
      var k, i := MatchFacts(all, |chars|, r.stop, r.includeStop);
      var sub := r.stop[k];
      assert i + |sub| >= |text|;
      if !r.includeStop && offset > 0 && i < offset {
        assert i == |text| - |sub| && |sub| == MaxLen(r.stop);
        FoundAtStartIsSuffix(text, chars, sub);
        assert Shadowed(r.stop, k);
        ShadowedNotFirst(text, chars, r.stop, k);
        assert false;
      }
    }
  }

  lemma ShadowedNotFirst(text: string, chars: string, stop: seq<string>, k: nat)
    requires k < |stop| && Shadowed(stop, k) && IsSuffix(stop[k], text)
    ensures exists j :: 0 <= j < k && Find(text + chars, stop[j], SearchStart(text + chars, |chars|, stop[j])).Some?
  {
  }

  /** The client holds exactly the part of the text and tokens before the offsets. */
  ghost predicate InSync(st: Stream, r: Rules)
    requires NoEmptyStop(r)
  {
    var s := st.s;
    && s.textOffset <= |s.text| && ReceivedText(st) == s.text[..s.textOffset]
    && s.tokenOffset <= |s.output| && ReceivedTokens(st) == s.output[..s.tokenOffset]
    && (!s.Finished() ==> s.textOffset == 0 || s.textOffset + Buffer(r) <= |s.text|)
    && (st.received.Some? && st.received.value.finished ==> s.Finished())
  }

  /** With every token checked, an unfinished text does not end in a stop string. */
  ghost predicate EndChecked(st: Stream, r: Rules) {
    r.minTokens <= 1 && !r.includeStop && !st.s.Finished() ==> NoStopAtEnd(st.s.text, r.stop)
  }

  lemma ReadInSync(st: Stream, r: Rules)
    requires NoEmptyStop(r) && InSync(st, r)
    ensures InSync(Step(st, Read, r), r)
    ensures Step(st, Read, r).received == Some(CumulativeOutput(st.s, Buffer(r)))
    ensures CumulativeOutput(Step(st, Read, r).s, Buffer(r)) == CumulativeOutput(st.s, Buffer(r))
  {
    var s, n := st.s, Returnable(st.s, Buffer(r));
    if s.textOffset < n {
      assert s.text[..s.textOffset] + s.text[s.textOffset..n] == s.text[..n];
    } else {
      assert s.text[..s.textOffset] + "" == s.text[..s.textOffset];
    }
    assert s.output[..s.tokenOffset] + s.output[s.tokenOffset..] == s.output;
    assert ReceivedText(st) + DeltaText(s, Buffer(r)) == CumulativeText(s, Buffer(r));
  }

  /** What the stop check can do to the text: nothing, drop the newest characters, or cut it. */
  lemma MaybeStopText(s: Seq, chars: string, r: Rules)
    requires s.output != [] && |chars| <= |s.text|
    ensures var s' := MaybeStop(s, |chars|, r);
            && s' == s.(text := s'.text, status := s'.status)
            && (!s'.Finished() ==> s'.text == s.text)
            && (s'.text == s.text || s'.text == s.text[..|s.text| - |chars|]
                || exists m :: CheckStop(s.text, |chars|, r.stop, r.includeStop) == Some(m) && m.cut.Some?
                               && m.cut.value <= |s.text| && s'.text == s.text[..m.cut.value])
    ensures |s.output| >= r.minTokens && !MaybeStop(s, |chars|, r).Finished() ==>
              CheckStop(s.text, |chars|, r.stop, r.includeStop).None?
  {
  }

  lemma TokenInSync(st: Stream, t: Token, chars: string, r: Rules)
    requires NoEmptyStop(r) && HoldBackSafe(r.stop, r.includeStop, r.minTokens)
    requires InSync(st, r) && EndChecked(st, r)
    ensures InSync(Step(st, NewToken(t, chars), r), r)
  {
    if !st.s.Finished() {
      var s := Extended(st.s, t, chars);
      var s' := Step(st, NewToken(t, chars), r).s;
      MaybeStopText(s, chars, r);
      CutAfterReturned(st.s.text, chars, r, st.s.textOffset);
      assert s.text[..|s.text| - |chars|] == st.s.text;
      assert s'.text[..st.s.textOffset] == st.s.text[..st.s.textOffset];
      assert s.output[..s.tokenOffset] == st.s.output[..st.s.tokenOffset];
    }
  }

  lemma TokenEndChecked(st: Stream, t: Token, chars: string, r: Rules)
    requires NoEmptyStop(r) && EndChecked(st, r)
    ensures EndChecked(Step(st, NewToken(t, chars), r), r)
  {
    var st' := Step(st, NewToken(t, chars), r);
    if r.minTokens <= 1 && !r.includeStop && !st'.s.Finished() && !st.s.Finished() {
      var s := Extended(st.s, t, chars);
      MaybeStopText(s, chars, r);
      if chars == "" {
        assert s.text == st.s.text;
      } else {
        forall k | 0 <= k < |r.stop|
          ensures !IsSuffix(r.stop[k], s.text)
        {
          NoMatchFacts(s.text, |chars|, r.stop, r.includeStop, k);
          if |r.stop[k]| <= |s.text| {
            SuffixOccurs(r.stop[k], s.text);
          }
        }
      }
    }
  }

  lemma {:induction false} RunInSync(prompt: seq<Token>, events: seq<StreamEvent>, r: Rules)
    requires NoEmptyStop(r) && HoldBackSafe(r.stop, r.includeStop, r.minTokens)
    ensures InSync(Run(prompt, events, r), r) && EndChecked(Run(prompt, events, r), r)
  {
    if events == [] {
      assert forall k :: 0 <= k < |r.stop| ==> |r.stop[k]| > 0;
    } else {
      var before, e := events[..|events| - 1], events[|events| - 1];
      RunInSync(prompt, before, r);
      var st := Run(prompt, before, r);
      match e
      case NewToken(t, chars) =>
        TokenInSync(st, t, chars, r);
        TokenEndChecked(st, t, chars, r);
      case Read =>
        ReadInSync(st, r);
    }
  }

  // ---------------------------------------------------------------------------------------
  // The theorems about every run
  // ---------------------------------------------------------------------------------------

  /** Whatever the limits, the prompt and the run, the text received so far stays part of the text. */
  ghost predicate NeverRetracts(stop: seq<string>, includeStop: bool, minTokens: int) {
    forall r: Rules, prompt, events ::
      r.stop == stop && r.includeStop == includeStop && r.minTokens == minTokens && NoEmptyStop(r) ==>
        ReceivedText(Run(prompt, events, r)) <= Run(prompt, events, r).s.text
  }

  /**
    Delta mode equals cumulative mode: when returned text is never taken back, after every read the
    outputs added up by the client are the cumulative output of that moment, in text, tokens and
    finished flag.
   */
  lemma DeltasAddUpToCumulative(prompt: seq<Token>, events: seq<StreamEvent>, r: Rules)
    requires NoEmptyStop(r) && HoldBackSafe(r.stop, r.includeStop, r.minTokens)
    requires events != [] && events[|events| - 1] == Read
    ensures var st := Run(prompt, events, r);
            && st.received == Some(CumulativeOutput(st.s, Buffer(r)))
            && (st.s.Finished() ==> st.received.value == Output(st.s.text, st.s.output, true))
  {
    var before := events[..|events| - 1];
    RunInSync(prompt, before, r);
    ReadInSync(Run(prompt, before, r), r);
  }

  /** Token deltas add up whatever the stop rules are. */
  lemma {:induction false} TokensAddUp(prompt: seq<Token>, events: seq<StreamEvent>, r: Rules)
    requires NoEmptyStop(r)
    ensures var st := Run(prompt, events, r);
            && st.s.tokenOffset <= |st.s.output| && ReceivedTokens(st) == st.s.output[..st.s.tokenOffset]
            && (events != [] && events[|events| - 1] == Read ==> ReceivedTokens(st) == st.s.output)
  {
    if events != [] {
      var before, e := events[..|events| - 1], events[|events| - 1];
      TokensAddUp(prompt, before, r);
      var st := Run(prompt, before, r);
      match e
      case NewToken(t, chars) =>
        if !st.s.Finished() {
          MaybeStopText(Extended(st.s, t, chars), chars, r);
          assert Extended(st.s, t, chars).output[..st.s.tokenOffset] == st.s.output[..st.s.tokenOffset];
        }
      case Read =>
        assert st.s.output[..st.s.tokenOffset] + st.s.output[st.s.tokenOffset..] == st.s.output;
    }
  }
}
