/**
  `Sequence`: text and token deltas by offset with characters held back for stop strings, and the
  stop checker that cuts the text and finishes the sequence.
 */
module Sequences {
  import opened Wrappers
  import opened SequenceData

  datatype Status =
    | Waiting | Running | Swapped
    | FinishedStopped | FinishedLengthCapped | FinishedAborted | FinishedIgnored
  {
    predicate Finished() { !Waiting? && !Running? && !Swapped? }
  }

  /** The value of a `Sequence`: its tokens, text and the offsets of what has been returned as deltas. */
  datatype Seq = Seq(prompt: seq<Token>, output: seq<Token>, logprob: real, text: string, status: Status,
                     textOffset: nat, tokenOffset: nat)
  {
    predicate Finished() { status.Finished() }
  }

  function NewSeq(prompt: seq<Token>): Seq {
    Seq(prompt, [], 0.0, "", Waiting, 0, 0)
  }

  /** How much of the text may be returned now; negative if less than the held-back part exists. */
  function Returnable(s: Seq, buffer: nat): int {
    if buffer != 0 && !s.Finished() then |s.text| - buffer else |s.text|
  }

  /** `get_output_text_to_return(buffer, False)`. */
  function CumulativeText(s: Seq, buffer: nat): string {
    if Returnable(s, buffer) < 0 then "" else s.text[..Returnable(s, buffer)]
  }

  /** `get_output_text_to_return(buffer, True)`: the new text, and the new offset. */
  function DeltaText(s: Seq, buffer: nat): string {
    if s.textOffset < Returnable(s, buffer) then s.text[s.textOffset..Returnable(s, buffer)] else ""
  }

  function AfterDeltaText(s: Seq, buffer: nat): Seq {
    if s.textOffset < Returnable(s, buffer) then s.(textOffset := Returnable(s, buffer)) else s
  }

  /**
    What a call returns: all of a finished text, all but the last `buffer` characters of an unfinished
    one, and as a delta what is missing from the part returned before.
   */
  lemma ReturnedText(s: Seq, buffer: nat)
    ensures s.Finished() || buffer == 0 ==> CumulativeText(s, buffer) == s.text
    ensures !s.Finished() && buffer <= |s.text| ==> CumulativeText(s, buffer) + s.text[|s.text| - buffer..] == s.text
    ensures !s.Finished() && buffer > |s.text| ==> CumulativeText(s, buffer) == ""
    ensures s.textOffset <= |CumulativeText(s, buffer)| ==>
              && s.text[..s.textOffset] + DeltaText(s, buffer) == CumulativeText(s, buffer)
              && AfterDeltaText(s, buffer) == s.(textOffset := |CumulativeText(s, buffer)|)
    ensures s.textOffset > |CumulativeText(s, buffer)| ==> DeltaText(s, buffer) == "" && AfterDeltaText(s, buffer) == s
  {
    assert s.text[..|s.text|] == s.text;
  }

  /** A list of token ids, or the bare id that stands for a list of one. */
  datatype TokenIds = Single(id: Token) | Many(ids: seq<Token>)
  {
    function AsList(): seq<Token> {
      if Single? then [id] else ids
    }
  }

  /** The tokens appended since the last delta. */
  function DeltaTokens(s: Seq): seq<Token> {
    if s.tokenOffset <= |s.output| then s.output[s.tokenOffset..] else []
  }

  // ---------------------------------------------------------------------------------------
  // The stop checker
  // ---------------------------------------------------------------------------------------

  predicate OccursAt(text: string, sub: string, i: nat) {
    i + |sub| <= |text| && text[i..i + |sub|] == sub
  }

  ghost predicate Occurs(text: string, sub: string) {
    exists i: nat :: OccursAt(text, sub, i)
  }

  /** `text.find(sub, from)`. */
  function Find(text: string, sub: string, from: nat): (r: Option<nat>)
    ensures r.Some? ==> from <= r.value && OccursAt(text, sub, r.value)
                        && forall j: nat :: from <= j < r.value ==> !OccursAt(text, sub, j)
    ensures r.None? ==> forall j: nat :: from <= j ==> !OccursAt(text, sub, j)
    decreases |text| - from
  {
    if from + |sub| > |text| then None
    else if OccursAt(text, sub, from) then Some(from)
    else Find(text, sub, from + 1)
  }

  /** Python's negative start index `-new_char_count - len(sub)`, clamped at the beginning. */
  function SearchStart(text: string, newChars: nat, sub: string): nat {
    if newChars + |sub| <= |text| then |text| - newChars - |sub| else 0
  }

  /** The stop string matched and the length to cut to; None for no cut. */
  datatype Match = Match(stop: string, cut: Option<nat>)

  function MatchOf(text: string, sub: string, i: nat, inclusive: bool): Match {
    if !inclusive then Match(sub, Some(i))
    else if i + |sub| >= |text| then Match(sub, None)
    else Match(sub, Some(i + |sub|))
  }

  /** The first listed stop string found near the new characters. */
  function FirstMatch(text: string, newChars: nat, stop: seq<string>, inclusive: bool): (r: Option<Match>) {
    if stop == [] then None
    else
      match Find(text, stop[0], SearchStart(text, newChars, stop[0]))
      case Some(i) => Some(MatchOf(text, stop[0], i, inclusive))
      case None => FirstMatch(text, newChars, stop[1..], inclusive)
  }

  function CheckStop(text: string, newChars: nat, stop: seq<string>, inclusive: bool): Option<Match> {
    if newChars == 0 || stop == [] then None else FirstMatch(text, newChars, stop, inclusive)
  }

  /** `check_stop_strings`. */
  method CheckStopStrings(text: string, newChars: nat, stop: seq<string>, inclusive: bool) returns (r: Option<Match>)
    ensures r == CheckStop(text, newChars, stop, inclusive)
    ensures r.Some? ==> r.value.stop in stop && Occurs(text, r.value.stop)
    ensures r.None? && newChars > 0 ==>
              forall k, i: nat :: 0 <= k < |stop| && SearchStart(text, newChars, stop[k]) <= i ==> !OccursAt(text, stop[k], i)
  {
    if newChars == 0 || stop == [] {
      return None;
    }
    for k := 0 to |stop|
      invariant FirstMatch(text, newChars, stop, inclusive) == FirstMatch(text, newChars, stop[k..], inclusive)
      invariant forall j, i: nat :: 0 <= j < k && SearchStart(text, newChars, stop[j]) <= i ==> !OccursAt(text, stop[j], i)
    {
      var found := Find(text, stop[k], SearchStart(text, newChars, stop[k]));
      if found.Some? {
        var at := found.value;
        assert OccursAt(text, stop[k], at);
        if inclusive {
          at := at + |stop[k]|;
          if at >= |text| {
            return Some(Match(stop[k], None));
          }
        }
        return Some(Match(stop[k], Some(at)));
      }
      assert stop[k..][1..] == stop[k + 1..];
    }
    return None;
  }

  /** The rules that decide when a sequence stops. */
  datatype Rules = Rules(stop: seq<string>, includeStop: bool, minTokens: int, ignoreEos: bool, eos: Option<Token>,
                         stopTokens: set<Token>, maxModelLen: int, maxTokens: Option<int>)

  function Cut(s: Seq, n: nat): Seq
  {
    s.(text := if n <= |s.text| then s.text[..n] else s.text)
  }

  /** The text without the newest characters, unless stop strings are to be included. */
  function DropNewest(s: Seq, newChars: nat, inclusive: bool): Seq {
    if newChars != 0 && !inclusive && newChars <= |s.text| then Cut(s, |s.text| - newChars) else s
  }

  /** `maybe_stop_sequence`. */
  function MaybeStop(s: Seq, newChars: nat, r: Rules): Seq
    requires s.output != []
  {
    var last := s.output[|s.output| - 1];
    if |s.output| < r.minTokens then s
    else if !r.ignoreEos && r.eos == Some(last) then DropNewest(s, newChars, r.includeStop).(status := FinishedStopped)
    else if last in r.stopTokens then DropNewest(s, newChars, r.includeStop).(status := FinishedStopped)
    else
      match CheckStop(s.text, newChars, r.stop, r.includeStop)
      case Some(m) => (if m.cut.Some? then Cut(s, m.cut.value) else s).(status := FinishedStopped)
      case None =>
        if |s.prompt| + |s.output| > r.maxModelLen then s.(status := FinishedLengthCapped)
        else if r.maxTokens == Some(|s.output|) then s.(status := FinishedLengthCapped)
        else s
  }

  // ---------------------------------------------------------------------------------------
  // What the stop checker decides
  // ---------------------------------------------------------------------------------------

  /** The newest token is the end-of-sequence token, unless that is ignored, or a stop token. */
  ghost predicate EndsByToken(s: Seq, r: Rules)
    requires s.output != []
  {
    var last := s.output[|s.output| - 1];
    (!r.ignoreEos && r.eos == Some(last)) || last in r.stopTokens
  }

  /** `sub` occurs at `i`, and ends at most `newChars` characters after where it could have been found before. */
  ghost predicate NewlyAt(text: string, newChars: nat, sub: string, i: nat) {
    OccursAt(text, sub, i) && |text| <= i + |sub| + newChars
  }

  ghost predicate EndsByString(s: Seq, newChars: nat, r: Rules) {
    newChars > 0 && exists k, i: nat :: 0 <= k < |r.stop| && NewlyAt(s.text, newChars, r.stop[k], i)
  }

  /** The stop string at `k` is the first listed one found near the new characters, and `i` its first place there. */
  ghost predicate Decides(text: string, newChars: nat, stop: seq<string>, k: nat, i: nat) {
    && k < |stop| && NewlyAt(text, newChars, stop[k], i)
    && (forall j: nat :: j < i ==> !NewlyAt(text, newChars, stop[k], j))
    && (forall l, j: nat :: 0 <= l < k ==> !NewlyAt(text, newChars, stop[l], j))
  }

  ghost predicate AtLimit(s: Seq, r: Rules) {
    |s.prompt| + |s.output| > r.maxModelLen || r.maxTokens == Some(|s.output|)
  }

  /** The text left by the stop string that decides: up to it, or through it when stop strings are included. */
  ghost predicate CutByString(text: string, newChars: nat, r: Rules, text': string) {
    exists k: nat, i: nat :: Decides(text, newChars, r.stop, k, i) && text' == text[..if r.includeStop then i + |r.stop[k]| else i]
  }

  /** What `maybe_stop_sequence` makes of a sequence, without naming how. */
  ghost predicate Stopped(s: Seq, newChars: nat, r: Rules, s': Seq)
    requires s.output != [] && newChars <= |s.text|
  {
    && s' == s.(status := s'.status, text := s'.text)
    && if |s.output| < r.minTokens then s' == s
       else
         && (s'.status == if EndsByToken(s, r) || EndsByString(s, newChars, r) then FinishedStopped
                          else if AtLimit(s, r) then FinishedLengthCapped else s.status)
         && (EndsByToken(s, r) ==> s'.text == if r.includeStop then s.text else s.text[..|s.text| - newChars])
         && (!EndsByToken(s, r) && EndsByString(s, newChars, r) ==> CutByString(s.text, newChars, r, s'.text))
         && (!EndsByToken(s, r) && !EndsByString(s, newChars, r) ==> s'.text == s.text)
  }

  /** The search range of the code holds exactly the places near the new characters. */
  lemma NewlyIffInRange(text: string, newChars: nat, sub: string)
    ensures forall i: nat :: NewlyAt(text, newChars, sub, i) <==> OccursAt(text, sub, i) && SearchStart(text, newChars, sub) <= i
  {
  }

  /** The match found is that of the first listed string with an occurrence in its search range. */
  lemma {:induction false} MatchFacts(text: string, newChars: nat, stop: seq<string>, inclusive: bool)
    returns (k: nat, i: nat)
    requires FirstMatch(text, newChars, stop, inclusive).Some?
    ensures k < |stop| && Find(text, stop[k], SearchStart(text, newChars, stop[k])) == Some(i)
    ensures FirstMatch(text, newChars, stop, inclusive).value == MatchOf(text, stop[k], i, inclusive)
    ensures forall j :: 0 <= j < k ==> Find(text, stop[j], SearchStart(text, newChars, stop[j])).None?
  {
    var found := Find(text, stop[0], SearchStart(text, newChars, stop[0]));
    if found.Some? {
      k, i := 0, found.value;
    } else {
      var k', i' := MatchFacts(text, newChars, stop[1..], inclusive);
      k, i := k' + 1, i';
      assert forall j :: 1 <= j < |stop| ==> stop[j] == stop[1..][j - 1];
    }
  }

  lemma {:induction false} NoMatchFacts(text: string, newChars: nat, stop: seq<string>, inclusive: bool, k: nat)
    requires FirstMatch(text, newChars, stop, inclusive).None? && k < |stop|
    ensures Find(text, stop[k], SearchStart(text, newChars, stop[k])).None?
  {
    if k > 0 {
      NoMatchFacts(text, newChars, stop[1..], inclusive, k - 1);
    }
  }

  /** The match is that of the string that decides. */
  lemma FirstMatchDecides(text: string, newChars: nat, stop: seq<string>, inclusive: bool)
    returns (k: nat, i: nat)
    requires FirstMatch(text, newChars, stop, inclusive).Some?
    ensures Decides(text, newChars, stop, k, i)
    ensures FirstMatch(text, newChars, stop, inclusive).value == MatchOf(text, stop[k], i, inclusive)
  {
    k, i := MatchFacts(text, newChars, stop, inclusive);
    NewlyIffInRange(text, newChars, stop[k]);
    forall l, j: nat | 0 <= l < k
      ensures !NewlyAt(text, newChars, stop[l], j)
    {
      NewlyIffInRange(text, newChars, stop[l]);
    }
  }

  /** Without a match no stop string is near the new characters. */
  lemma NoMatchNothingNew(text: string, newChars: nat, stop: seq<string>, inclusive: bool)
    requires FirstMatch(text, newChars, stop, inclusive).None?
    ensures forall k, i: nat :: 0 <= k < |stop| ==> !NewlyAt(text, newChars, stop[k], i)
  {
    forall k, i: nat | 0 <= k < |stop|
      ensures !NewlyAt(text, newChars, stop[k], i)
    {
      NoMatchFacts(text, newChars, stop, inclusive, k);
      NewlyIffInRange(text, newChars, stop[k]);
    }
  }

  /** Included stop strings end the text; others are cut off. */
  lemma MatchCuts(s: Seq, newChars: nat, r: Rules, k: nat, i: nat)
    requires Decides(s.text, newChars, r.stop, k, i)
    ensures var m := MatchOf(s.text, r.stop[k], i, r.includeStop);
            (if m.cut.Some? then Cut(s, m.cut.value) else s) == s.(text := s.text[..if r.includeStop then i + |r.stop[k]| else i])
  {
    assert s.text[..|s.text|] == s.text;
  }

  /** A text cut by an included stop string ends with it; without inclusion what follows the text begins with it. */
  lemma CutMeetsStop(text: string, newChars: nat, r: Rules, text': string)
    requires CutByString(text, newChars, r, text')
    ensures exists k :: 0 <= k < |r.stop| &&
              if r.includeStop then |r.stop[k]| <= |text'| && text'[|text'| - |r.stop[k]|..] == r.stop[k]
              else text' + r.stop[k] <= text
  {
    var k: nat, i: nat :| Decides(text, newChars, r.stop, k, i) && text' == text[..if r.includeStop then i + |r.stop[k]| else i];
    assert text[..i] + r.stop[k] == text[..i + |r.stop[k]|];
  }

  /** The outcome of the stop checker, in every case. */
  lemma MaybeStopOutcome(s: Seq, newChars: nat, r: Rules)
    requires s.output != [] && newChars <= |s.text|
    ensures Stopped(s, newChars, r, MaybeStop(s, newChars, r))
  {
    assert s.text[..|s.text| - 0] == s.text;
    if newChars > 0 {
      if FirstMatch(s.text, newChars, r.stop, r.includeStop).None? {
        NoMatchNothingNew(s.text, newChars, r.stop, r.includeStop);
      } else {
        var k, i := FirstMatchDecides(s.text, newChars, r.stop, r.includeStop);
        MatchCuts(s, newChars, r, k, i);
      }
    }
  }

  /** The last `n` cached ids, with the shortcut for one. */
  function Newest(all: seq<Token>, n: nat): TokenIds
    requires n <= |all|
  {
    if n == 1 then Single(all[|all| - 1])
    else if n == 0 then Many([])
    else Many(all[|all| - n..])
  }

  /** The end of the cached list is the end of the output. */
  lemma NewestIsDelta(prompt: seq<Token>, output: seq<Token>, offset: nat)
    requires offset <= |output|
    ensures Newest(prompt + output, |output| - offset).AsList() == output[offset..]
  {
  }

  class Sequence {
    const data: SequenceData
    var outputText: string
    var status: Status
    var lastTextOffset: nat
    var lastTokenOffset: nat

    ghost function View(): Seq
      reads this, data
    {
      Seq(data.prompt, data.output, data.logprob, outputText, status, lastTextOffset, lastTokenOffset)
    }

    constructor (prompt: seq<Token>)
      ensures View() == NewSeq(prompt) && fresh(data) && data.View().Coherent()
    {
      data := new SequenceData(prompt, []);
      outputText, status := "", Waiting;
      lastTextOffset, lastTokenOffset := 0, 0;
    }

    predicate IsFinished()
      reads this
      ensures IsFinished() <==> status in {FinishedStopped, FinishedLengthCapped, FinishedAborted, FinishedIgnored}
    {
      status.Finished()
    }

    method GetOutputTextToReturn(buffer: nat, delta: bool) returns (r: string)
      modifies this`lastTextOffset
      ensures !delta ==> View() == old(View()) && r == CumulativeText(old(View()), buffer)
      ensures delta ==> View() == AfterDeltaText(old(View()), buffer) && r == DeltaText(old(View()), buffer)
    {
      var truncate := buffer != 0 && !IsFinished();
      if !delta {
        return if !truncate then outputText else if |outputText| < buffer then "" else outputText[..|outputText| - buffer];
      }
      var length: int := |outputText|;
      if truncate {
        length := length - buffer;
      }
      var lastOffset := lastTextOffset;
      if lastOffset < length {
        lastTextOffset := length;
        return outputText[lastOffset..length];
      }
      return "";
    }

    /** The last cached ids, with the shortcut for a single new token. */
    method GetOutputTokenIdsToReturn(delta: bool) returns (r: TokenIds)
      requires data.View().Coherent() && lastTokenOffset <= |data.output|
      modifies this`lastTokenOffset
      ensures !delta ==> View() == old(View()) && r.AsList() == data.output
      ensures delta ==> View() == old(View()).(tokenOffset := |data.output|) && r.AsList() == DeltaTokens(old(View()))
      ensures r.Single? <==> delta && |data.output| == old(lastTokenOffset) + 1
    {
      if !delta {
        return Many(data.output);
      }
      var outputLen := |data.output|;
      var numNew := outputLen - lastTokenOffset;
      NewestIsDelta(data.prompt, data.output, lastTokenOffset);
      lastTokenOffset := outputLen;
      r := Newest(data.allTokens, numNew);
    }

    /** `append_token_id`. */
    method AppendTokenId(t: Token, lp: real)
      modifies data
      ensures View() == old(View()).(output := old(View()).output + [t], logprob := old(View()).logprob + lp)
      ensures old(data.View()).Coherent() ==> data.View().Coherent()
    {
      data.AppendTokenId(t, lp);
    }

    /** `StopChecker.maybe_stop_sequence`, after a token has been appended. */
    method MaybeStopSequence(newChars: nat, r: Rules)
      requires data.output != [] && newChars <= |outputText|
      modifies this`outputText, this`status
      ensures View() == MaybeStop(old(View()), newChars, r)
      ensures Stopped(old(View()), newChars, r, View())
    {
      MaybeStopOutcome(View(), newChars, r);
      if |data.output| < r.minTokens {
        return;
      }
      var last := data.output[|data.output| - 1];
      if !r.ignoreEos && r.eos == Some(last) {
        if newChars != 0 && !r.includeStop {
          outputText := outputText[..|outputText| - newChars];
        }
        status := FinishedStopped;
        return;
      }
      if last in r.stopTokens {
        if newChars != 0 && !r.includeStop {
          outputText := outputText[..|outputText| - newChars];
        }
        status := FinishedStopped;
        return;
      }
      var found := CheckStopStrings(outputText, newChars, r.stop, r.includeStop);
      if found.Some? {
        if found.value.cut.Some? && found.value.cut.value <= |outputText| {
          outputText := outputText[..found.value.cut.value];
        }
        status := FinishedStopped;
        return;
      }
      if |data.prompt| + |data.output| > r.maxModelLen {
        status := FinishedLengthCapped;
        return;
      }
      if r.maxTokens == Some(|data.output|) {
        status := FinishedLengthCapped;
      }
    }
  }
}
