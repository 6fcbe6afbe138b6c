/** Token-level steps of training: the sentinel tokens, boundary padding,
    the two-pass rare-word substitution and the vocabulary tally it keeps. */
module Tokens {
  import opened Text
  import opened Weights

  /** The sentinels are plain strings: a literal "<start>", "<end>" or
      "<unk>" in the training text is indistinguishable from them. */
  const START: string := "<start>"
  const END: string := "<end>"
  const UNK: string := "<unk>"

  predicate IsBoundary(t: string) {
    t == START || t == END
  }

  lemma SentinelsAreWords()
    ensures IsWord(START) && IsWord(END) && IsWord(UNK)
  {
  }

  /** Two start tokens in front, one end token behind; nothing for no tokens. */
  function Pad(tokens: seq<string>): (p: seq<string>)
    ensures tokens == [] ==> p == []
    ensures tokens != [] ==> |p| == |tokens| + 3
    ensures tokens != [] ==> p[0] == START && p[1] == START && p[|p| - 1] == END
    ensures tokens != [] ==> p[2..|p| - 1] == tokens
  {
    if tokens == [] then [] else [START, START] + tokens + [END]
  }

  /** How often `w` occurs in `ts`. */
  function Occurrences(ts: seq<string>, w: string): nat {
    if ts == [] then 0
    else Occurrences(ts[..|ts| - 1], w) + (if ts[|ts| - 1] == w then 1 else 0)
  }

  /** The first pass: counts of every token except the three sentinels;
      a sentinel's count reads as zero. */
  function RawCount(ts: seq<string>, w: string): nat {
    if w == START || w == END || w == UNK then 0 else Occurrences(ts, w)
  }

  /** The second pass on one token, given its first-pass count: boundary
      tokens pass through, a count at or below the threshold gives <unk>. */
  function Replace(t: string, rawCount: nat, threshold: int): string {
    if IsBoundary(t) then t
    else if rawCount <= threshold then UNK
    else t
  }

  /** The whole second pass. */
  function Substitute(ts: seq<string>, threshold: int): (out: seq<string>)
    ensures |out| == |ts|
  {
    seq(|ts|, i requires 0 <= i < |ts| => Replace(ts[i], RawCount(ts, ts[i]), threshold))
  }

  /** The vocabulary increment of one emitted token. */
  function Bump(vocab: Weights, t: string): Weights {
    if IsBoundary(t) then vocab else vocab[t := Get(vocab, t) + 1]
  }

  /** The vocabulary after emitting `ts` in order. */
  function Tally(vocab: Weights, ts: seq<string>): Weights {
    if ts == [] then vocab else Bump(Tally(vocab, ts[..|ts| - 1]), ts[|ts| - 1])
  }

  lemma TallyAppend(vocab: Weights, ts: seq<string>, t: string)
    ensures Tally(vocab, ts + [t]) == Bump(Tally(vocab, ts), t)
  {
    assert (ts + [t])[..|ts|] == ts;
  }

  /** One step of the second pass: emitting the replacement of `t` bumps
      the vocabulary entry of <unk> or of `t`, or of nothing for a boundary
      token. */
  lemma TallyReplace(vocab: Weights, ts: seq<string>, t: string, rawCount: nat, threshold: int)
    ensures var v := Tally(vocab, ts);
      Tally(vocab, ts + [Replace(t, rawCount, threshold)])
        == if IsBoundary(t) then v
           else if rawCount <= threshold then v[UNK := Get(v, UNK) + 1]
           else v[t := Get(v, t) + 1]
  {
    TallyAppend(vocab, ts, Replace(t, rawCount, threshold));
    assert !IsBoundary(UNK);
  }

  /** How many tokens of `ts` are not boundary tokens. */
  function NonBoundary(ts: seq<string>): nat {
    if ts == [] then 0
    else NonBoundary(ts[..|ts| - 1]) + (if IsBoundary(ts[|ts| - 1]) then 0 else 1)
  }

  /** What the substitution does to each position. */
  lemma SubstituteAt(ts: seq<string>, threshold: int, i: nat)
    requires i < |ts|
    ensures IsBoundary(ts[i]) ==> Substitute(ts, threshold)[i] == ts[i]
    ensures ts[i] == UNK ==> Substitute(ts, threshold)[i] == UNK
    ensures !IsBoundary(ts[i]) && ts[i] != UNK ==>
      (Substitute(ts, threshold)[i] == ts[i] <==> Occurrences(ts, ts[i]) > threshold)
    ensures Substitute(ts, threshold)[i] in {ts[i], UNK}
  {
  }

  /** The substitution grows position by position. */
  lemma SubstitutePrefix(ts: seq<string>, threshold: int, i: nat)
    requires i < |ts|
    ensures Substitute(ts, threshold)[..i + 1]
         == Substitute(ts, threshold)[..i] + [Replace(ts[i], RawCount(ts, ts[i]), threshold)]
  {
    var out := Substitute(ts, threshold);
    assert out[..i + 1] == out[..i] + [out[i]];
  }

  /** Every token of `ts` occurs in it. */
  lemma {:induction false} OccurrencesPositive(ts: seq<string>, i: nat)
    requires i < |ts|
    ensures Occurrences(ts, ts[i]) > 0
  {
    if i < |ts| - 1 {
      OccurrencesPositive(ts[..|ts| - 1], i);
    }
  }

  /** With a threshold below one nothing but a literal <unk> becomes <unk>:
      the substitution leaves the tokens unchanged. */
  lemma SubstituteLowThreshold(ts: seq<string>, threshold: int)
    requires threshold < 1
    ensures Substitute(ts, threshold) == ts
  {
    forall i | 0 <= i < |ts| ensures Substitute(ts, threshold)[i] == ts[i] {
      OccurrencesPositive(ts, i);
    }
  }

  lemma SubstituteKeepsWords(ts: seq<string>, threshold: int)
    requires forall i :: 0 <= i < |ts| ==> IsWord(ts[i])
    ensures forall i :: 0 <= i < |ts| ==> IsWord(Substitute(ts, threshold)[i])
  {
    SentinelsAreWords();
  }

  lemma PadKeepsWords(ts: seq<string>)
    requires forall i :: 0 <= i < |ts| ==> IsWord(ts[i])
    ensures forall i :: 0 <= i < |Pad(ts)| ==> IsWord(Pad(ts)[i])
  {
    SentinelsAreWords();
    var p := Pad(ts);
    forall i | 0 <= i < |p| ensures IsWord(p[i]) {
      if 2 <= i < |p| - 1 {
        assert p[i] == p[2..|p| - 1][i - 2] == ts[i - 2];
      }
    }
  }

  /** Each vocabulary entry grows by the occurrences of its word among the
      emitted non-boundary tokens; boundary entries never change. */
  lemma {:induction false} TallyEntry(vocab: Weights, ts: seq<string>, k: string)
    ensures Get(Tally(vocab, ts), k) == Get(vocab, k) + (if IsBoundary(k) then 0 else Occurrences(ts, k))
  {
    if ts != [] {
      TallyEntry(vocab, ts[..|ts| - 1], k);
    }
  }

  /** The vocabulary's total mass grows by the number of non-boundary tokens. */
  lemma {:induction false} TallyMass(vocab: Weights, ts: seq<string>)
    ensures Mass(Tally(vocab, ts)) == Mass(vocab) + NonBoundary(ts)
  {
    if ts != [] {
      var prev := Tally(vocab, ts[..|ts| - 1]);
      TallyMass(vocab, ts[..|ts| - 1]);
      var t := ts[|ts| - 1];
      if !IsBoundary(t) {
        MassUpdate(prev, t, Get(prev, t) + 1);
      }
    }
  }

  /** The vocabulary holds words other than the boundary tokens, each with a
      positive count. */
  predicate VocabValid(vocab: Weights) {
    forall w :: w in vocab ==> IsWord(w) && !IsBoundary(w) && vocab[w] > 0
  }

  lemma {:induction false} TallyValid(vocab: Weights, ts: seq<string>)
    requires VocabValid(vocab)
    requires forall i :: 0 <= i < |ts| ==> IsWord(ts[i])
    ensures VocabValid(Tally(vocab, ts))
  {
    if ts != [] {
      TallyValid(vocab, ts[..|ts| - 1]);
    }
  }
}
