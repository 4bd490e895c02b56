/**
  The two promises about stop strings, each with the exact condition under which it holds: text once
  returned is never taken back, and the returned output does not contain a stop string.
 */
module StopStrings {
  import opened Wrappers
  import opened SequenceData
  import opened Sequences
  import opened SamplingParams
  import opened Streaming

  lemma RunSnoc(prompt: seq<Token>, events: seq<StreamEvent>, e: StreamEvent, r: Rules)
    requires NoEmptyStop(r)
    ensures Run(prompt, events + [e], r) == Step(Run(prompt, events, r), e, r)
  {
  }

  /** The state after `n` unchecked tokens that brought the text `chars`. */
  ghost predicate WarmedUp(st: Stream, chars: string, n: nat) {
    |st.s.output| == n && st == Stream(NewSeq([]).(output := st.s.output, text := chars), None)
  }

  /** Before the minimum number of tokens nothing is checked: one token brings all characters. */
  lemma {:induction false} WarmUp(chars: string, n: nat, r: Rules) returns (events: seq<StreamEvent>)
    requires NoEmptyStop(r) && 1 <= n < r.minTokens
    ensures WarmedUp(Run([], events, r), chars, n)
  {
    if n == 1 {
      var start := Run([], [], r);
      UncheckedStep(start, NewToken(0, chars), r);
      assert "" + chars == chars;
      RunSnoc([], [], NewToken(0, chars), r);
      events := [] + [NewToken(0, chars)];
    } else {
      var before := WarmUp(chars, n - 1, r);
      UncheckedStep(Run([], before, r), NewToken(0, ""), r);
      assert chars + "" == chars;
      RunSnoc([], before, NewToken(0, ""), r);
      events := before + [NewToken(0, "")];
    }
  }

  lemma UncheckedStep(st: Stream, e: StreamEvent, r: Rules)
    requires NoEmptyStop(r) && e.NewToken? && !st.s.Finished() && |st.s.output| + 1 < r.minTokens
    ensures Step(st, e, r) == st.(s := Extended(st.s, e.token, e.chars))
  {
  }

  // ---------------------------------------------------------------------------------------
  // Returned text is never taken back
  // ---------------------------------------------------------------------------------------

  /** The character occurs in no stop string. */
  ghost predicate Unused(c: char, stop: seq<string>) {
    forall k :: 0 <= k < |stop| ==> c !in stop[k]
  }

  /** An occurrence does not cover a character that the string does not contain. */
  lemma OccurrenceAvoids(text: string, sub: string, i: nat, p: nat)
    requires OccursAt(text, sub, i) && p < |text| && text[p] !in sub
    ensures p < i || i + |sub| <= p
  {
  }

  /** After an unshadowed longest stop string and one more character, the cut falls before both. */
  lemma CutsWholeText(stop: seq<string>, k: nat, c: char)
    requires k < |stop| && |stop[k]| == MaxLen(stop) && !Shadowed(stop, k) && Unused(c, stop)
    ensures CheckStop(stop[k] + [c], 1, stop, false) == Some(Match(stop[k], Some(0)))
  {
    var longest, text := stop[k], stop[k] + [c];
    SuffixIsFound(longest, [c], stop[k]);
    if FirstMatch(text, 1, stop, false).None? {
      NoMatchFacts(text, 1, stop, false, k);
      assert false;
    }
    var j, i := MatchFacts(text, 1, stop, false);
    var sub := stop[j];
    assert j <= k;
    OccurrenceAvoids(text, sub, i, |longest|);
    assert i == |longest| - |sub|;
    FoundAtStartIsSuffix(longest, [c], sub);
    assert |sub| == MaxLen(stop);
  }

  /** The limits of the counterexamples: no end-of-sequence token and no length limit in reach. */
  function Unlimited(stop: seq<string>, minTokens: int, maxTokens: Option<int>): Rules {
    Rules(stop, false, minTokens, true, None, {}, if minTokens < 0 then 1 else minTokens + 1, maxTokens)
  }

  /**
    With at least two required tokens and an unshadowed longest stop string, a run takes back text:
    the string arrives before checking starts, its first character is returned, and the first check
    then cuts the text to nothing.
   */
  lemma RetractingRun(stop: seq<string>, minTokens: int, maxTokens: Option<int>, k: nat, c: char)
    returns (events: seq<StreamEvent>)
    requires NoEmptyStop(Unlimited(stop, minTokens, maxTokens)) && minTokens >= 2
    requires k < |stop| && |stop[k]| == MaxLen(stop) && !Shadowed(stop, k) && Unused(c, stop)
    ensures var st := Run([], events, Unlimited(stop, minTokens, maxTokens));
            st.s.Finished() && st.s.text == "" && ReceivedText(st) == stop[k][..1]
    ensures events != [] && !Run([], events[..|events| - 1], Unlimited(stop, minTokens, maxTokens)).s.Finished()
  {
    var r := Unlimited(stop, minTokens, maxTokens);
    var before := WarmUp(stop[k], minTokens - 1, r);
    var st := Run([], before, r);
    RunSnoc([], before, Read, r);
    var st' := Step(st, Read, r);
    assert st'.s.textOffset == 1 && ReceivedText(st') == stop[k][..1];
    RunSnoc([], before + [Read], NewToken(0, [c]), r);
    events := before + [Read] + [NewToken(0, [c])];
    assert events[..|events| - 1] == before + [Read];
    CutsWholeText(stop, k, c);
  }

  /**
    Hold-back, exactly: over all runs, prompts and limits, returned text is never taken back if and
    only if there are no stop strings, or they are kept in the output, or at most one token is
    required before checking, or every longest stop string ends with an earlier listed shorter one.
    The failing case comes from searching one character further back than the hold-back reserves.
   */
  lemma NeverRetractsIff(stop: seq<string>, includeStop: bool, minTokens: int, c: char)
    requires (forall k :: 0 <= k < |stop| ==> stop[k] != "") && Unused(c, stop)
    ensures NeverRetracts(stop, includeStop, minTokens) <==> HoldBackSafe(stop, includeStop, minTokens)
  {
    if HoldBackSafe(stop, includeStop, minTokens) {
      forall r: Rules, prompt, events
        | r.stop == stop && r.includeStop == includeStop && r.minTokens == minTokens && NoEmptyStop(r)
        ensures ReceivedText(Run(prompt, events, r)) <= Run(prompt, events, r).s.text
      {
        RunInSync(prompt, events, r);
      }
    } else {
      var k :| 0 <= k < |stop| && |stop[k]| == MaxLen(stop) && !Shadowed(stop, k);
      var events := RetractingRun(stop, minTokens, None, k, c);
      var r := Unlimited(stop, minTokens, None);
      assert r.stop == stop && r.includeStop == includeStop && r.minTokens == minTokens && NoEmptyStop(r);
      assert !(ReceivedText(Run([], events, r)) <= Run([], events, r).s.text);
    }
  }

  /** Whatever the limits, the prompt and the run, after a read the client holds the cumulative output. */
  ghost predicate DeltasAddUp(stop: seq<string>, includeStop: bool, minTokens: int) {
    forall r: Rules, prompt, events ::
      r.stop == stop && r.includeStop == includeStop && r.minTokens == minTokens && NoEmptyStop(r) ==>
        ReadsCumulative(Run(prompt, events + [Read], r), r)
  }

  ghost predicate ReadsCumulative(st: Stream, r: Rules)
    requires NoEmptyStop(r)
  {
    st.received == Some(CumulativeOutput(st.s, Buffer(r)))
  }

  /** Text taken back stays with the client: one more read does not repair it. */
  lemma RetractedForGood(st: Stream, r: Rules)
    requires NoEmptyStop(r) && st.s.Finished() && st.s.text == "" && ReceivedText(st) != ""
    ensures !ReadsCumulative(Step(st, Read, r), r)
  {
  }

  /**
    Delta mode equals cumulative mode, exactly: over all runs, prompts and limits the deltas add up to
    the cumulative output after every read if and only if returned text is never taken back.
   */
  lemma DeltasAddUpIff(stop: seq<string>, includeStop: bool, minTokens: int, c: char)
    requires (forall k :: 0 <= k < |stop| ==> stop[k] != "") && Unused(c, stop)
    ensures DeltasAddUp(stop, includeStop, minTokens) <==> HoldBackSafe(stop, includeStop, minTokens)
  {
    if HoldBackSafe(stop, includeStop, minTokens) {
      forall r: Rules, prompt, events
        | r.stop == stop && r.includeStop == includeStop && r.minTokens == minTokens && NoEmptyStop(r)
        ensures ReadsCumulative(Run(prompt, events + [Read], r), r)
      {
        DeltasAddUpToCumulative(prompt, events + [Read], r);
      }
    } else {
      var k :| 0 <= k < |stop| && |stop[k]| == MaxLen(stop) && !Shadowed(stop, k);
      var events := RetractingRun(stop, minTokens, None, k, c);
      var r := Unlimited(stop, minTokens, None);
      assert r.stop == stop && r.includeStop == includeStop && r.minTokens == minTokens && NoEmptyStop(r);
      RunSnoc([], events, Read, r);
      RetractedForGood(Run([], events, r), r);
    }
  }

  // ---------------------------------------------------------------------------------------
  // The returned output does not contain the stop strings
  // ---------------------------------------------------------------------------------------

  /** The output of every finished sequence is free of stop strings. */
  ghost predicate NeverContainsStop(stop: seq<string>, minTokens: int) {
    forall r: Rules, prompt, events ::
      r.stop == stop && !r.includeStop && r.minTokens == minTokens && NoEmptyStop(r) && Run(prompt, events, r).s.Finished() ==>
        StopFree(Run(prompt, events, r).s.text, stop)
  }

  ghost predicate StopFree(text: string, stop: seq<string>) {
    forall k :: 0 <= k < |stop| ==> !Occurs(text, stop[k])
  }

  /** The first stop string is part of every other. */
  ghost predicate FirstIsShortest(stop: seq<string>) {
    forall k :: 0 <= k < |stop| ==> Occurs(stop[k], stop[0])
  }

  lemma OccursInPrefix(text: string, n: nat, sub: string, i: nat)
    requires n <= |text|
    ensures OccursAt(text[..n], sub, i) <==> OccursAt(text, sub, i) && i + |sub| <= n
  {
  }

  lemma OccursTransitive(a: string, b: string, c: string, i: nat, j: nat)
    requires OccursAt(a, b, i) && OccursAt(b, c, j)
    ensures OccursAt(a, c, i + j)
  {
    assert forall q :: 0 <= q < |b| ==> b[q] == a[i..i + |b|][q];
    assert forall q :: 0 <= q < |c| ==> c[q] == b[j..j + |c|][q];
    assert forall q :: 0 <= q < |c| ==> c[q] == b[j + q] == a[i + (j + q)];
  }

  /** Without a stop string in the old text, every occurrence in the new text is in the search range. */
  lemma NewOccurrenceInRange(text: string, chars: string, sub: string, i: nat)
    requires !Occurs(text, sub) && OccursAt(text + chars, sub, i)
    ensures SearchStart(text + chars, |chars|, sub) <= i
  {
    var all := text + chars;
    assert all[..|text|] == text;
    OccursInPrefix(all, |text|, sub, i);
  }

  /** No match means no stop string at all. */
  lemma UncheckedRestIsFree(text: string, chars: string, stop: seq<string>)
    requires StopFree(text, stop) && CheckStop(text + chars, |chars|, stop, false).None?
    ensures StopFree(text + chars, stop)
  {
    if chars == "" {
      assert text + chars == text;
    } else {
      forall k | 0 <= k < |stop|
        ensures !Occurs(text + chars, stop[k])
      {
        NoMatchFacts(text + chars, |chars|, stop, false, k);
        forall i: nat
          ensures !OccursAt(text + chars, stop[k], i)
        {
          if OccursAt(text + chars, stop[k], i) {
            NewOccurrenceInRange(text, chars, stop[k], i);
            assert false;
          }
        }
      }
    }
  }

  /** When every stop string contains the first, the cut is at the first occurrence of the first. */
  lemma CutTextIsFree(text: string, chars: string, stop: seq<string>)
    requires StopFree(text, stop) && FirstIsShortest(stop)
    requires CheckStop(text + chars, |chars|, stop, false).Some?
    ensures var m := CheckStop(text + chars, |chars|, stop, false).value;
            m.cut.Some? && m.cut.value <= |text + chars| && StopFree((text + chars)[..m.cut.value], stop)
  {
    var all := text + chars;
    var k, i := MatchFacts(all, |chars|, stop, false);
    var p: nat :| OccursAt(stop[k], stop[0], p);
    OccursTransitive(all, stop[k], stop[0], i, p);
    NewOccurrenceInRange(text, chars, stop[0], i + p);
    assert k == 0;
    forall j | 0 <= j < |stop|
      ensures !Occurs(all[..i], stop[j])
    {
      forall q: nat
        ensures !OccursAt(all[..i], stop[j], q)
      {
        NoEarlierOccurrence(text, chars, stop, i, j, q);
      }
    }
  }

  lemma NoEarlierOccurrence(text: string, chars: string, stop: seq<string>, i: nat, j: nat, q: nat)
    requires stop != [] && j < |stop| && FirstIsShortest(stop) && StopFree(text, stop)
    requires Find(text + chars, stop[0], SearchStart(text + chars, |chars|, stop[0])) == Some(i)
    ensures !OccursAt((text + chars)[..i], stop[j], q)
  {
    var all := text + chars;
    assert OccursAt(text, "", 0);
    if OccursAt(all[..i], stop[j], q) {
      OccursInPrefix(all, i, stop[j], q);
      var p: nat :| OccursAt(stop[j], stop[0], p);
      OccursTransitive(all, stop[j], stop[0], q, p);
      NewOccurrenceInRange(text, chars, stop[0], q + p);
    }
  }

  lemma TokenStopFree(st: Stream, t: Token, chars: string, r: Rules)
    requires NoEmptyStop(r) && !r.includeStop && r.minTokens <= 1 && FirstIsShortest(r.stop) && StopFree(st.s.text, r.stop)
    ensures StopFree(Step(st, NewToken(t, chars), r).s.text, r.stop)
  {
    if !st.s.Finished() {
      var s := Extended(st.s, t, chars);
      assert s.text[..|s.text| - |chars|] == st.s.text;
      var m := CheckStop(s.text, |chars|, r.stop, false);
      if m.Some? {
        CutTextIsFree(st.s.text, chars, r.stop);
      } else {
        UncheckedRestIsFree(st.s.text, chars, r.stop);
      }
      assert chars == "" ==> s.text == st.s.text;
    }
  }

  lemma {:induction false} RunStopFree(prompt: seq<Token>, events: seq<StreamEvent>, r: Rules)
    requires NoEmptyStop(r) && !r.includeStop && r.minTokens <= 1 && FirstIsShortest(r.stop)
    ensures StopFree(Run(prompt, events, r).s.text, r.stop)
  {
    if events == [] {
      assert forall k, i: nat :: 0 <= k < |r.stop| ==> !OccursAt("", r.stop[k], i);
    } else {
      var before, e := events[..|events| - 1], events[|events| - 1];
      RunStopFree(prompt, before, r);
      if e.NewToken? {
        TokenStopFree(Run(prompt, before, r), e.token, e.chars, r);
      }
    }
  }

  /** A token without characters is not searched, and may reach the limit on tokens. */
  lemma SilentFinish(st: Stream, r: Rules)
    requires NoEmptyStop(r) && !st.s.Finished() && r.ignoreEos && r.stopTokens == {}
    requires r.minTokens <= |st.s.output| + 1 && |st.s.prompt| + |st.s.output| + 1 <= r.maxModelLen
    requires r.maxTokens == Some(|st.s.output| + 1)
    ensures Step(st, NewToken(0, ""), r).s.Finished() && Step(st, NewToken(0, ""), r).s.text == st.s.text
  {
    assert st.s.text + "" == st.s.text;
  }

  lemma FinishAfter(before: seq<StreamEvent>, r: Rules)
    requires NoEmptyStop(r) && r.ignoreEos && r.stopTokens == {}
    requires var s := Run([], before, r).s;
             && !s.Finished() && r.minTokens <= |s.output| + 1 && |s.prompt| + |s.output| + 1 <= r.maxModelLen
             && r.maxTokens == Some(|s.output| + 1)
    ensures var s := Run([], before + [NewToken(0, "")], r).s;
            s.Finished() && s.text == Run([], before, r).s.text
  {
    RunSnoc([], before, NewToken(0, ""), r);
    SilentFinish(Run([], before, r), r);
  }

  /** Text that arrives before checking starts is never searched again. */
  lemma UncheckedStopSurvives(stop: seq<string>, minTokens: int)
    returns (events: seq<StreamEvent>)
    requires stop != [] && NoEmptyStop(Unlimited(stop, minTokens, Some(minTokens))) && minTokens >= 2
    ensures var st := Run([], events, Unlimited(stop, minTokens, Some(minTokens)));
            st.s.Finished() && Occurs(st.s.text, stop[0])
  {
    var r := Unlimited(stop, minTokens, Some(minTokens));
    var before := WarmUp(stop[0], minTokens - 1, r);
    FinishAfter(before, r);
    events := before + [NewToken(0, "")];
    assert OccursAt(stop[0], stop[0], 0);
  }

  /** The first listed stop string decides the cut, even if another one occurs before it. */
  lemma EarlierStopSurvives(stop: seq<string>, minTokens: int, k: nat, c: char)
    returns (events: seq<StreamEvent>)
    requires NoEmptyStop(Unlimited(stop, minTokens, None)) && minTokens <= 1 && Unused(c, stop)
    requires k < |stop| && !Occurs(stop[k], stop[0])
    ensures var st := Run([], events, Unlimited(stop, minTokens, None));
            st.s.Finished() && Occurs(st.s.text, stop[k])
  {
    var r := Unlimited(stop, minTokens, None);
    var text := stop[k] + [c] + stop[0];
    CutsAfterOther(stop, k, c);
    RunSnoc([], [], NewToken(0, text), r);
    events := [] + [NewToken(0, text)];
    assert "" + text == text;
    var n := |stop[k]| + 1;
    assert text[..n] == stop[k] + [c];
    assert OccursAt(text[..n], stop[k], 0);
  }

  /** When another stop string, a separator and the first one arrive together, the cut spares the other. */
  lemma CutsAfterOther(stop: seq<string>, k: nat, c: char)
    requires k < |stop| && stop[0] != "" && Unused(c, stop) && !Occurs(stop[k], stop[0])
    ensures var text := stop[k] + [c] + stop[0];
            CheckStop(text, |text|, stop, false) == Some(Match(stop[0], Some(|stop[k]| + 1)))
  {
    var text, n := stop[k] + [c] + stop[0], |stop[k]| + 1;
    assert OccursAt(text, stop[0], n);
    var i := Find(text, stop[0], SearchStart(text, |text|, stop[0])).value;
    FirstAfterSeparator(stop[k], c, stop[0], i);
  }

  lemma FirstAfterSeparator(a: string, c: char, b: string, i: nat)
    requires b != "" && c !in b && !Occurs(a, b) && OccursAt(a + [c] + b, b, i)
    ensures i > |a|
  {
    var text := a + [c] + b;
    assert text[|a|] == c && text[..|a|] == a;
    OccurrenceAvoids(text, b, i, |a|);
    OccursInPrefix(text, |a|, b, i);
  }

  /**
    The documented promise "the returned output will not contain the stop strings", exactly: it holds
    for every run if and only if at most one token is required before checking and the first stop
    string is part of every other one.
   */
  lemma NeverContainsStopIff(stop: seq<string>, minTokens: int, c: char)
    requires (forall k :: 0 <= k < |stop| ==> stop[k] != "") && Unused(c, stop)
    ensures NeverContainsStop(stop, minTokens) <==> stop == [] || (minTokens <= 1 && FirstIsShortest(stop))
  {
    if stop == [] || (minTokens <= 1 && FirstIsShortest(stop)) {
      forall r: Rules, prompt, events
        | r.stop == stop && !r.includeStop && r.minTokens == minTokens && NoEmptyStop(r) && Run(prompt, events, r).s.Finished()
        ensures StopFree(Run(prompt, events, r).s.text, stop)
      {
        if stop != [] {
          RunStopFree(prompt, events, r);
        }
      }
    } else if minTokens >= 2 {
      var events := UncheckedStopSurvives(stop, minTokens);
      var r := Unlimited(stop, minTokens, Some(minTokens));
      assert r.stop == stop && !r.includeStop && r.minTokens == minTokens && NoEmptyStop(r);
      assert !StopFree(Run([], events, r).s.text, stop);
    } else {
      var k :| 0 <= k < |stop| && !Occurs(stop[k], stop[0]);
      var events := EarlierStopSurvives(stop, minTokens, k, c);
      var r := Unlimited(stop, minTokens, None);
      assert r.stop == stop && !r.includeStop && r.minTokens == minTokens && NoEmptyStop(r);
      assert !StopFree(Run([], events, r).s.text, stop);
    }
  }
}
