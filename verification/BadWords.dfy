/**
  `NoBadWordsLogitsProcessor`: before each token is sampled, the tokens that would complete a bad
  word get the logit minus infinity. Logits are reals extended with minus infinity.
 */
module BadWords {
  import opened Wrappers

  datatype Logit = NegInf | Fin(value: real)

  function Plus(a: Logit, b: Logit): Logit {
    if a.NegInf? || b.NegInf? then NegInf else Fin(a.value + b.value)
  }

  ghost predicate EndsWith(s: seq<int>, w: seq<int>) {
    |w| <= |s| && s[|s| - |w|..] == w
  }

  /** Sampling `t` after `past` would put a bad word at the end of the output. */
  ghost predicate Forbidden(badWords: seq<seq<int>>, past: seq<int>, t: int) {
    exists k :: 0 <= k < |badWords| && EndsWith(past + [t], badWords[k])
  }

  ghost predicate InVocab(badWords: seq<seq<int>>, vocab: nat) {
    forall k, i :: 0 <= k < |badWords| && 0 <= i < |badWords[k]| ==> 0 <= badWords[k][i] < vocab
  }

  ghost predicate NoEmptyWord(badWords: seq<seq<int>>) {
    forall k :: 0 <= k < |badWords| ==> badWords[k] != []
  }

  /** One of the first `n` bad words is the single token `t`. */
  ghost predicate SingleToken(badWords: seq<seq<int>>, n: nat, t: int) {
    exists k :: 0 <= k < n && k < |badWords| && badWords[k] == [t]
  }

  lemma SingleTokenStep(badWords: seq<seq<int>>, n: nat)
    requires n < |badWords|
    ensures forall t :: SingleToken(badWords, n + 1, t) <==> SingleToken(badWords, n, t) || badWords[n] == [t]
  {
  }

  /** One of the first `n` bad words has several tokens and is completed by `t`. */
  ghost predicate CompletesLonger(badWords: seq<seq<int>>, n: nat, past: seq<int>, t: int) {
    exists k :: 0 <= k < n && k < |badWords| && |badWords[k]| > 1 && EndsWith(past + [t], badWords[k])
  }

  lemma ForbiddenSplit(badWords: seq<seq<int>>, past: seq<int>, t: int)
    requires NoEmptyWord(badWords)
    ensures Forbidden(badWords, past, t) <==>
              SingleToken(badWords, |badWords|, t) || CompletesLonger(badWords, |badWords|, past, t)
  {
  }

  /** All ids of the bad words in order. */
  ghost function Flatten(words: seq<seq<int>>): (r: seq<int>)
    ensures forall k, i :: 0 <= k < |words| && 0 <= i < |words[k]| ==> words[k][i] in r
    ensures forall x :: x in r ==> exists k :: 0 <= k < |words| && x in words[k]
  {
    if words == [] then []
    else
      assert words == words[..|words| - 1] + [words[|words| - 1]];
      Flatten(words[..|words| - 1]) + words[|words| - 1]
  }

  /** The ids that are not in the vocabulary, in the order of `s`. */
  ghost function Outside(s: seq<int>, vocab: nat): (r: seq<int>)
    ensures forall x :: x in r <==> x in s && !(0 <= x < vocab)
  {
    if s == [] then []
    else
      var last := s[|s| - 1];
      assert s == s[..|s| - 1] + [last];
      Outside(s[..|s| - 1], vocab) + if 0 <= last < vocab then [] else [last]
  }

  lemma OutsideSnoc(before: seq<int>, word: seq<int>, i: nat, vocab: nat)
    requires i < |word|
    ensures Outside(before + word[..i + 1], vocab)
         == Outside(before + word[..i], vocab) + if 0 <= word[i] < vocab then [] else [word[i]]
  {
    var s := before + word[..i + 1];
    assert s[..|s| - 1] == before + word[..i] && s[|s| - 1] == word[i];
  }

  lemma OutsideEmptyIff(badWords: seq<seq<int>>, vocab: nat)
    ensures Outside(Flatten(badWords), vocab) == [] <==> InVocab(badWords, vocab)
  {
    var all := Flatten(badWords);
    var r := Outside(all, vocab);
    if r == [] {
      assert forall x :: x in all ==> 0 <= x < vocab;
    } else {
      assert r[0] in r;
      assert !InVocab(badWords, vocab);
    }
  }

  datatype Error = OutOfVocabulary | EmptyBadWord

  class NoBadWordsProcessor {
    const badWords: seq<seq<int>>
    var wordBias: Option<seq<Logit>>

    /** The lazily built bias masks exactly the one-token bad words. */
    ghost predicate Valid()
      reads this
    {
      wordBias.Some? ==>
        && InVocab(badWords, |wordBias.value|)
        && forall t :: 0 <= t < |wordBias.value| ==>
                         wordBias.value[t] == if SingleToken(badWords, |badWords|, t) then NegInf else Fin(0.0)
    }

    constructor (badWords: seq<seq<int>>)
      ensures this.badWords == badWords && wordBias == None && Valid()
    {
      this.badWords := badWords;
      wordBias := None;
    }

    /** `_check_token_ids_bounds`: the ids outside the vocabulary, in order of appearance. */
    method OutOfBounds(vocab: nat) returns (invalid: seq<int>)
      ensures invalid == Outside(Flatten(badWords), vocab)
      ensures invalid == [] <==> InVocab(badWords, vocab)
    {
      invalid := [];
      for k := 0 to |badWords|
        invariant invalid == Outside(Flatten(badWords[..k]), vocab)
      {
        assert Flatten(badWords[..k]) + badWords[k][..0] == Flatten(badWords[..k]);
        for i := 0 to |badWords[k]|
          invariant invalid == Outside(Flatten(badWords[..k]) + badWords[k][..i], vocab)
        {
          OutsideSnoc(Flatten(badWords[..k]), badWords[k], i, vocab);
          if badWords[k][i] < 0 || badWords[k][i] >= vocab {
            invalid := invalid + [badWords[k][i]];
          }
        }
        assert badWords[..k + 1][..k] == badWords[..k] && badWords[k][..|badWords[k]|] == badWords[k];
      }
      assert badWords[..|badWords|] == badWords;
      OutsideEmptyIff(badWords, vocab);
    }

    /** `_init_word_bias`; the bias is left unset when some id is outside the vocabulary. */
    method InitWordBias(vocab: nat) returns (ok: bool)
      requires wordBias == None
      modifies this
      ensures Valid() && ok == wordBias.Some? == InVocab(badWords, vocab)
      ensures ok ==> |wordBias.value| == vocab
    {
      var invalid := OutOfBounds(vocab);
      if invalid != [] {
        return false;
      }
      var bias := seq(vocab, _ => Fin(0.0));
      for k := 0 to |badWords|
        invariant |bias| == vocab
        invariant forall t :: 0 <= t < vocab ==> bias[t] == if SingleToken(badWords, k, t) then NegInf else Fin(0.0)
      {
        SingleTokenStep(badWords, k);
        if |badWords[k]| == 1 {
          assert badWords[k] == [badWords[k][0]] && 0 <= badWords[k][0] < vocab;
          bias := bias[badWords[k][0] := NegInf];
        }
      }
      wordBias := Some(bias);
      return true;
    }

    /** The loop of `__call__` over the longer bad words; None stands for an IndexError on an empty one. */
    method LastTokenBias(past: seq<int>, vocab: nat) returns (r: Option<seq<Logit>>)
      requires InVocab(badWords, vocab)
      ensures r.Some? <==> NoEmptyWord(badWords)
      ensures r.Some? ==> |r.value| == vocab
      ensures r.Some? ==> forall t :: 0 <= t < vocab ==>
                            r.value[t] == if CompletesLonger(badWords, |badWords|, past, t) then NegInf else Fin(0.0)
    {
      var bias := seq(vocab, _ => Fin(0.0));
      for k := 0 to |badWords|
        invariant forall j :: 0 <= j < k ==> badWords[j] != []
        invariant |bias| == vocab
        invariant forall t :: 0 <= t < vocab ==>
                    bias[t] == if CompletesLonger(badWords, k, past, t) then NegInf else Fin(0.0)
      {
        var word := badWords[k];
        if |word| == 0 {
          return None;
        }
        if |word| != 1 && |word| <= |past| + 1 {
          var prefixLength := |word| - 1;
          var last := word[|word| - 1];
          var isMatch := past[|past| - prefixLength..] == word[..prefixLength];
          CompletesIff(past, word, last);
          bias := bias[last := Plus(bias[last], if isMatch then NegInf else Fin(0.0))];
        }
        forall t | 0 <= t < vocab {
          CompletesStep(badWords, k, past, t);
        }
      }
      r := Some(bias);
    }

    /**
      `__call__`: the forbidden tokens are masked, every other logit is returned unchanged. The
      call fails exactly for ids outside the vocabulary and for an empty bad word.
     */
    method Call(past: seq<int>, logits: seq<Logit>) returns (r: Result<seq<Logit>, Error>)
      requires Valid() && (wordBias.Some? ==> |wordBias.value| == |logits|)
      modifies this
      ensures Valid() && (wordBias.Some? ==> |wordBias.value| == |logits|)
      ensures r == Failure(OutOfVocabulary) <==> !InVocab(badWords, |logits|)
      ensures r.Success? <==> InVocab(badWords, |logits|) && NoEmptyWord(badWords)
      ensures r.Success? ==> |r.value| == |logits|
      ensures r.Success? ==> forall t :: 0 <= t < |logits| ==>
                               r.value[t] == if Forbidden(badWords, past, t) then NegInf else logits[t]
    {
      if wordBias.None? {
        var ok := InitWordBias(|logits|);
        if !ok {
          return Failure(OutOfVocabulary);
        }
      }
      var last := LastTokenBias(past, |logits|);
      if last.None? {
        return Failure(EmptyBadWord);
      }
      var word, longer := wordBias.value, last.value;
      forall t | 0 <= t < |logits| {
        ForbiddenSplit(badWords, past, t);
      }
      r := Success(seq(|logits|, t requires 0 <= t < |logits| => Plus(Plus(logits[t], word[t]), longer[t])));
    }
  }

  lemma CompletesStep(badWords: seq<seq<int>>, k: nat, past: seq<int>, t: int)
    requires k < |badWords|
    ensures CompletesLonger(badWords, k + 1, past, t) <==>
              CompletesLonger(badWords, k, past, t) || (|badWords[k]| > 1 && EndsWith(past + [t], badWords[k]))
  {
  }

  lemma CompletesIff(past: seq<int>, word: seq<int>, last: int)
    requires 1 < |word| <= |past| + 1 && last == word[|word| - 1]
    ensures EndsWith(past + [last], word) <==> past[|past| - (|word| - 1)..] == word[..|word| - 1]
    ensures forall t :: EndsWith(past + [t], word) ==> t == last
  {
  }

  // ---------------------------------------------------------------------------------------
  // Whole generations
  // ---------------------------------------------------------------------------------------

  /** No token of the output was forbidden when it was sampled. */
  ghost predicate Permitted(badWords: seq<seq<int>>, output: seq<int>) {
    forall n :: 0 <= n < |output| ==> !Forbidden(badWords, output[..n], output[n])
  }

  ghost predicate ContainsAt(output: seq<int>, w: seq<int>, i: nat) {
    i + |w| <= |output| && output[i..i + |w|] == w
  }

  /** `w` occurs in the output as a contiguous block. */
  ghost predicate Contains(output: seq<int>, w: seq<int>) {
    exists i: nat :: ContainsAt(output, w, i)
  }

  /**
    Safety and exactness over whole generations: an output is built from permitted tokens only if
    and only if it contains no bad word anywhere.
   */
  lemma PermittedIffClean(badWords: seq<seq<int>>, output: seq<int>)
    requires NoEmptyWord(badWords)
    ensures Permitted(badWords, output) <==> forall k :: 0 <= k < |badWords| ==> !Contains(output, badWords[k])
  {
    forall n, k | 0 <= n < |output| && 0 <= k < |badWords| && EndsWith(output[..n] + [output[n]], badWords[k])
      ensures Contains(output, badWords[k])
    {
      assert output[..n] + [output[n]] == output[..n + 1];
      assert ContainsAt(output, badWords[k], n + 1 - |badWords[k]|);
    }
    forall k | 0 <= k < |badWords| && Contains(output, badWords[k])
      ensures !Permitted(badWords, output)
    {
      var w := badWords[k];
      var i: nat :| ContainsAt(output, w, i);
      var n := i + |w| - 1;
      assert output[..n] + [output[n]] == output[..n + 1];
      assert output[..n + 1][n + 1 - |w|..] == w;
      assert Forbidden(badWords, output[..n], output[n]);
    }
  }

  /**
    A sampler that only ever picks tokens whose processed logit is not minus infinity never produces
    a bad word, whatever the raw logits were.
   */
  lemma GenerationSafe(badWords: seq<seq<int>>, output: seq<int>, processed: seq<seq<Logit>>, raw: seq<seq<Logit>>)
    requires NoEmptyWord(badWords) && |processed| == |raw| == |output|
    requires forall n :: 0 <= n < |output| ==> |processed[n]| == |raw[n]|
    requires forall n, t :: 0 <= n < |output| && 0 <= t < |raw[n]| ==>
               processed[n][t] == if Forbidden(badWords, output[..n], t) then NegInf else raw[n][t]
    requires forall n :: 0 <= n < |output| ==> 0 <= output[n] < |raw[n]| && processed[n][output[n]] != NegInf
    ensures forall k :: 0 <= k < |badWords| ==> !Contains(output, badWords[k])
  {
    PermittedIffClean(badWords, output);
  }
}
