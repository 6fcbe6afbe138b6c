/** The trigram language model: training counts every window of three
    consecutive tokens of the padded, rare-word-substituted token stream;
    generation walks the counts from a two-token context, sampling each next
    word in proportion to its count. */
module NGramModel {
  import opened Text
  import opened Weights
  import opened Tokens
  import opened CountTable

  datatype Option<T> = None | Some(value: T)

  /** Training input that is empty or only whitespace. */
  predicate Blank(text: string) {
    text == [] || Strip(text) == []
  }

  /** The tokens training counts for `text`, before padding. */
  function TrainingTokens(text: string, threshold: int): seq<string> {
    Substitute(Split(Clean(text)), threshold)
  }

  /** The context generation starts from: the seed pair, or two start tokens. */
  function InitialContext(seed: Option<(string, string)>): (string, string) {
    if seed.None? then (START, START) else seed.value
  }

  /** The words generation outputs for the tokens it sampled: every token
      but <start>, which is dropped (<unk> is kept as a placeholder word). */
  function Emitted(trace: seq<string>): (words: seq<string>)
    ensures |words| <= |trace|
    ensures START !in words
    ensures forall w :: w in words ==> w in trace
    ensures START !in trace ==> words == trace
    ensures forall w :: w != START ==> Occurrences(words, w) == Occurrences(trace, w)
  {
    if trace == [] then []
    else
      var last := trace[|trace| - 1];
      var prefix := Emitted(trace[..|trace| - 1]);
      var tail := if last == START then [] else [last];
      OccurrencesAppend(prefix, tail);
      prefix + tail
  }

  /** Counting in a sequence extended by at most one element. */
  lemma OccurrencesAppend(a: seq<string>, b: seq<string>)
    requires |b| <= 1
    ensures forall w :: Occurrences(a + b, w) == Occurrences(a, w) + Occurrences(b, w)
  {
    if b == [] {
      assert a + b == a;
    } else {
      assert (a + b)[..|a + b| - 1] == a;
      assert b[..0] == [];
    }
  }

  /** The emitted words of consecutive pieces of a trace are the pieces'
      emitted words, in the same order. */
  lemma {:induction false} EmittedAppend(a: seq<string>, b: seq<string>)
    ensures Emitted(a + b) == Emitted(a) + Emitted(b)
    decreases |b|
  {
    if b == [] {
      assert a + b == a;
    } else {
      var b' := b[..|b| - 1];
      assert (a + b)[..|a + b| - 1] == a + b';
      EmittedAppend(a, b');
    }
  }

  /** The context after sampling `trace` from (w1, w2): each step replaces
      (w1, w2) by (w2, next). */
  function LastContext(w1: string, w2: string, trace: seq<string>): (string, string) {
    if trace == [] then (w1, w2)
    else (LastContext(w1, w2, trace[..|trace| - 1]).1, trace[|trace| - 1])
  }

  /** The distribution of the context reached after `trace`. */
  function FinalDistribution(c: Table, w1: string, w2: string, trace: seq<string>): Weights {
    var (a, b) := LastContext(w1, w2, trace);
    NextWordDistribution(c, a, b)
  }

  /** Each sampled token has a positive count in the context it was sampled
      from. */
  ghost predicate IsWalk(c: Table, w1: string, w2: string, trace: seq<string>) {
    trace == [] ||
      (var prefix := trace[..|trace| - 1];
       IsWalk(c, w1, w2, prefix) && Get(FinalDistribution(c, w1, w2, prefix), trace[|trace| - 1]) > 0)
  }

  /** One more sampled token: the context shifts onto it, it is emitted
      unless it is <start>, and the walk extends when its count is positive. */
  lemma WalkStep(c: Table, w1: string, w2: string, trace: seq<string>, next: string)
    requires IsWalk(c, w1, w2, trace)
    requires Get(FinalDistribution(c, w1, w2, trace), next) > 0
    ensures LastContext(w1, w2, trace + [next]) == (LastContext(w1, w2, trace).1, next)
    ensures Emitted(trace + [next]) == Emitted(trace) + (if next == START then [] else [next])
    ensures IsWalk(c, w1, w2, trace + [next])
  {
    assert (trace + [next])[..|trace|] == trace;
  }

  /** Only words are ever sampled from a valid table. */
  lemma SampledIsWord(c: Table, w1: string, w2: string, next: string)
    requires TableValid(c)
    requires Get(NextWordDistribution(c, w1, w2), next) > 0
    ensures IsWord(next)
  {
  }

  /** Every token of a walk over a valid table is a word. */
  lemma {:induction false} WalkIsWords(c: Table, w1: string, w2: string, trace: seq<string>)
    requires TableValid(c) && IsWalk(c, w1, w2, trace)
    ensures forall w :: w in trace ==> IsWord(w)
  {
    if trace != [] {
      var prefix := trace[..|trace| - 1];
      WalkIsWords(c, w1, w2, prefix);
      var (a, b) := LastContext(w1, w2, prefix);
      SampledIsWord(c, a, b, trace[|trace| - 1]);
      WordsExtend(trace);
    }
  }

  lemma WordsExtend(ts: seq<string>)
    requires ts != [] && IsWord(ts[|ts| - 1])
    requires forall w :: w in ts[..|ts| - 1] ==> IsWord(w)
    ensures forall w :: w in ts ==> IsWord(w)
  {
    forall w | w in ts ensures IsWord(w) {
      var i :| 0 <= i < |ts| && ts[i] == w;
      if i < |ts| - 1 {
        assert ts[..|ts| - 1][i] == w;
      }
    }
  }

  /** Training text is split into words, and substitution and padding only
      add sentinels, which are words too. */
  lemma TrainingTokensAreWords(text: string, threshold: int)
    ensures forall i :: 0 <= i < |Pad(TrainingTokens(text, threshold))| ==> IsWord(Pad(TrainingTokens(text, threshold))[i])
  {
    var ws := Split(Clean(text));
    SubstituteKeepsWords(ws, threshold);
    PadKeepsWords(Substitute(ws, threshold));
  }

  /** Training text that is not blank yields at least one token. */
  lemma NonBlankHasTokens(text: string)
    requires !Blank(text)
    ensures Split(Clean(text)) != []
  {
    var c := Clean(text);
    assert c != [] && !IsSpace(c[0]);
  }

  /** Counting a padded stream of n tokens adds n + 1 to the table's total. */
  lemma FitMass(c: Table, tokens: seq<string>)
    requires tokens != []
    ensures TableMass(AddWindows(c, Pad(tokens), NumWindows(Pad(tokens)))) == TableMass(c) + |tokens| + 1
  {
    AddWindowsMass(c, Pad(tokens), NumWindows(Pad(tokens)));
  }

  lemma {:induction false} ContextCountFirst(p: seq<string>, k: nat)
    requires 1 <= k <= NumWindows(p)
    ensures ContextCount(p, k, p[0], p[1]) >= 1
  {
    if k > 1 {
      ContextCountFirst(p, k - 1);
    }
  }

  /** After counting a padded stream the context (<start>, <start>) has a
      non-empty distribution, so generation from it can proceed. */
  lemma FitOpensStartContext(c: Table, tokens: seq<string>)
    requires tokens != []
    ensures NextWordDistribution(AddWindows(c, Pad(tokens), NumWindows(Pad(tokens))), START, START) != map[]
  {
    var p := Pad(tokens);
    ContextCountFirst(p, NumWindows(p));
    AddWindowsContextMass(c, p, NumWindows(p), START, START);
  }

  /** Training on text that is not blank keeps the table and vocabulary
      valid and opens the (<start>, <start>) context. */
  lemma FitKeepsValid(c: Table, vocab: Weights, text: string, threshold: int)
    requires TableValid(c) && VocabValid(vocab) && !Blank(text)
    ensures var tokens := TrainingTokens(text, threshold);
      && tokens != []
      && TableValid(AddWindows(c, Pad(tokens), NumWindows(Pad(tokens))))
      && VocabValid(Tally(vocab, tokens))
      && NextWordDistribution(AddWindows(c, Pad(tokens), NumWindows(Pad(tokens))), START, START) != map[]
  {
    var tokens := TrainingTokens(text, threshold);
    NonBlankHasTokens(text);
    SubstituteKeepsWords(Split(Clean(text)), threshold);
    TallyValid(vocab, tokens);
    TrainingTokensAreWords(text, threshold);
    AddWindowsValid(c, Pad(tokens), NumWindows(Pad(tokens)));
    FitOpensStartContext(c, tokens);
  }

  /** The first pass of the rare-word substitution: how often each token
      other than the three sentinels occurs. */
  method CountWords(tokens: seq<string>) returns (wordCounts: Weights)
    ensures forall w :: Get(wordCounts, w) == RawCount(tokens, w)
  {
    wordCounts := map[];
    var i := 0;
    while i < |tokens|
      invariant 0 <= i <= |tokens|
      invariant forall w :: Get(wordCounts, w) == RawCount(tokens[..i], w)
    {
      var t := tokens[i];
      ghost var prev := wordCounts;
      if t != START && t != END && t != UNK {
        wordCounts := wordCounts[t := Get(wordCounts, t) + 1];
      }
      assert tokens[..i + 1][..i] == tokens[..i];
      forall w ensures Get(wordCounts, w) == RawCount(tokens[..i + 1], w) {
        assert Get(prev, w) == RawCount(tokens[..i], w);
        assert Occurrences(tokens[..i + 1], w) == Occurrences(tokens[..i], w) + (if t == w then 1 else 0);
      }
      i := i + 1;
    }
    assert tokens[..|tokens|] == tokens;
  }

  class TrigramModel {
    /** counts[w1][w2][w3]: how often w3 followed the context (w1, w2). */
    var counts: Table
    /** How often each word was emitted by the rare-word substitution
        (informational; generation does not read it). */
    var vocab: Weights
    /** Words whose first-pass count is at most this become <unk>. */
    const unkThreshold: int
    var trained: bool

    ghost predicate Valid()
      reads this
    {
      TableValid(counts) && VocabValid(vocab) && (!trained ==> counts == map[])
    }

    constructor(unkThreshold: int := 1)
      ensures Valid()
      ensures counts == map[] && vocab == map[] && !trained
      ensures this.unkThreshold == unkThreshold
    {
      counts := map[];
      vocab := map[];
      this.unkThreshold := unkThreshold;
      trained := false;
    }

    /** Two passes over the tokens: the first counts every non-sentinel
        token, the second replaces each token other than <start> and <end>
        whose count is at most the threshold by <unk>, and bumps the
        vocabulary entry of whatever it emits. */
    method HandleUnknownWords(tokens: seq<string>) returns (processed: seq<string>)
      modifies this`vocab
      ensures processed == Substitute(tokens, unkThreshold)
      ensures vocab == Tally(old(vocab), processed)
    {
      var wordCounts := CountWords(tokens);
      processed := [];
      ghost var vocab0 := vocab;
      var i := 0;
      while i < |tokens|
        invariant 0 <= i <= |tokens|
        invariant processed == Substitute(tokens, unkThreshold)[..i]
        invariant vocab == Tally(vocab0, processed)
      {
        var t := tokens[i];
        SubstitutePrefix(tokens, unkThreshold, i);
        TallyReplace(vocab0, processed, t, Get(wordCounts, t), unkThreshold);
        if t == START || t == END {
          processed := processed + [t];
        } else if Get(wordCounts, t) <= unkThreshold {
          processed := processed + [UNK];
          vocab := vocab[UNK := Get(vocab, UNK) + 1];
        } else {
          processed := processed + [t];
          vocab := vocab[t := Get(vocab, t) + 1];
        }
        i := i + 1;
      }
      assert Substitute(tokens, unkThreshold)[..|tokens|] == Substitute(tokens, unkThreshold);
    }

    /** Training. Blank text only marks the model trained. Otherwise the
        text is cleaned, split, substituted and padded, and every window of
        three tokens is counted on top of the existing counts. */
    method Fit(text: string)
      requires Valid()
      modifies this
      ensures Valid() && trained
      ensures Blank(text) ==> counts == old(counts) && vocab == old(vocab)
      ensures !Blank(text) ==>
        var tokens := TrainingTokens(text, unkThreshold);
        && vocab == Tally(old(vocab), tokens)
        && counts == AddWindows(old(counts), Pad(tokens), NumWindows(Pad(tokens)))
      ensures !Blank(text) ==> NextWordDistribution(counts, START, START) != map[]
    {
      if text == [] || Strip(text) == [] {
        trained := true;
        return;
      }
      ghost var counts0, vocab0 := counts, vocab;
      var cleaned := Clean(text);
      var tokens := Split(cleaned);
      tokens := HandleUnknownWords(tokens);
      assert tokens == TrainingTokens(text, unkThreshold);
      FitKeepsValid(counts0, vocab0, text, unkThreshold);
      var padded := Pad(tokens);
      CountTrigrams(padded);
      trained := true;
    }

    /** The counting step of training: every window (padded[i], padded[i+1],
        padded[i+2]) adds one to counts[padded[i]][padded[i+1]][padded[i+2]]. */
    method CountTrigrams(padded: seq<string>)
      modifies this`counts
      ensures counts == AddWindows(old(counts), padded, NumWindows(padded))
    {
      ghost var counts0 := counts;
      var i := 0;
      while i < |padded| - 2
        invariant 0 <= i <= NumWindows(padded)
        invariant counts == AddWindows(counts0, padded, i)
      {
        counts := Inc(counts, padded[i], padded[i + 1], padded[i + 2]);
        i := i + 1;
      }
    }

    /** One sampling step from the context (w1, w2), with `draw` standing
        for the random number. An empty distribution gives <end> without
        drawing. Otherwise the words are listed in some order (the order of
        the count table's keys) and the draw, reduced below the total, picks
        the word whose share of the running total it falls into. */
    method SampleNextWord(w1: string, w2: string, draw: nat)
      returns (next: string, drew: bool, ghost population: seq<string>)
      ensures var d := NextWordDistribution(counts, w1, w2);
        && drew == (d != map[])
        && (!drew ==> next == END)
        && (drew ==>
              && IsEnumeration(population, d)
              && next == Pick(population, d, draw % Mass(d))
              && Get(d, next) > 0)
    {
      var d := NextWordDistribution(counts, w1, w2);
      if d == map[] {
        return END, false, [];
      }
      var words: seq<string> := [];
      var total := 0;
      var rest := d.Keys;
      while rest != {}
        invariant rest <= d.Keys
        invariant Distinct(words)
        invariant forall i :: 0 <= i < |words| ==> words[i] in d && words[i] !in rest
        invariant forall k :: k in d ==> k in rest || k in words
        invariant total == SeqMass(words, d)
        decreases |rest|
      {
        var w :| w in rest;
        SeqMassAppend(words, w, d);
        words := words + [w];
        total := total + d[w];
        rest := rest - {w};
      }
      EnumerationMass(words, d);
      PickPositive(words, d, draw % total);
      next := Pick(words, d, draw % total);
      drew := true;
      population := words;
    }

    /** Generation. `rand(i)` is the i-th random number; `used` says how many
        were drawn. The sampled tokens are returned as the ghost `trace`. */
    method Generate(rand: nat -> nat, maxLength: int := 50, seed: Option<(string, string)> := None)
      returns (text: string, used: nat, ghost trace: seq<string>)
      requires Valid()
      ensures !trained || counts == map[] || maxLength <= 0 ==> text == "" && used == 0 && trace == []
      ensures |trace| <= maxLength || trace == []
      ensures END !in trace
      ensures IsWalk(counts, InitialContext(seed).0, InitialContext(seed).1, trace)
      ensures var last := FinalDistribution(counts, InitialContext(seed).0, InitialContext(seed).1, trace);
        && (|trace| < maxLength ==> last == map[] || Get(last, END) > 0)
        && used == |trace| + (if |trace| < maxLength && last != map[] then 1 else 0)
      ensures text == Join(Emitted(trace))
      ensures Split(text) == Emitted(trace)
      ensures START !in Emitted(trace) && END !in Emitted(trace)
    {
      var (c1, c2) := InitialContext(seed);
      trace := [];
      if !trained {
        return "", 0, trace;
      }
      if counts == map[] {
        return "", 0, trace;
      }
      var w1, w2 := c1, c2;
      var generated: seq<string> := [];
      var length := 0;
      used := 0;
      while length < maxLength
        invariant 0 <= length == |trace|
        invariant length == 0 || length <= maxLength
        invariant (w1, w2) == LastContext(c1, c2, trace)
        invariant generated == Emitted(trace)
        invariant used == |trace|
        invariant END !in trace
        invariant IsWalk(counts, c1, c2, trace)
      {
        var next, drew, population := SampleNextWord(w1, w2, rand(used));
        if drew {
          used := used + 1;
        }
        if next == END {
          break;
        }
        if next != START && next != END && next != UNK {
          generated := generated + [next];
        } else if next == UNK {
          generated := generated + [next];
        }
        WalkStep(counts, c1, c2, trace, next);
        trace := trace + [next];
        w1, w2 := w2, next;
        length := length + 1;
      }
      text := Join(generated);
      WalkIsWords(counts, c1, c2, trace);
      forall i | 0 <= i < |generated| ensures IsWord(generated[i]) {
        assert generated[i] in trace;
      }
      SplitJoin(generated);
    }
  }
}
