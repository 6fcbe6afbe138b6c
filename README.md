# Trigram language model — a Dafny model

This project models `TrigramModel`, the word-level trigram language model of
the ML assignment (`ngram_model.py`). Training cleans the text, which means
lower-casing it, collapsing whitespace runs into single spaces and stripping
the ends. It then splits the text into words and replaces rare words by
`<unk>`. It pads the token stream with two `<start>` tokens in front and one
`<end>` token behind. Finally it counts every window of three consecutive
tokens in a nested table `counts[w1][w2][w3]`. Generation starts from a
two-word context (two `<start>` tokens, or a seed pair). It repeatedly
samples the next word in proportion to its count after the current context,
shifts the context, and stops at `<end>`, at an unseen context, or after
`max_length` steps. The emitted words are joined with single spaces.

The Dafny modules follow the steps of the program:

- `Text` (`text.dfy`): the cleaning step (`Lower`, `Collapse`, `Strip`,
  `Clean`), `str.split()` as `Split`, and `" ".join` as `Join`.
- `Weights` (`weights.dfy`): word-to-count maps with a default of zero, like
  Python's `defaultdict(int)`. It also defines their total (`Mass`) and the
  weighted choice `random.choices` makes (`Pick`).
- `Tokens` (`tokens.dfy`): the sentinels, padding, the two-pass rare-word
  substitution and the vocabulary tally it keeps.
- `CountTable` (`count_table.dfy`): the nested count table, its increment,
  the sliding window that training runs, and the next-word distribution.
- `NGramModel` (`ngram_model.dfy`): the class `TrigramModel`, with the
  fields `counts`, `vocab`, `unkThreshold` and `trained`. Its methods
  `HandleUnknownWords`, `Fit`, `CountTrigrams`, `SampleNextWord` and
  `Generate` model the methods of `ngram_model.py` that change state or
  loop, and each is proved against the functions above. `Fit` has no loop of
  its own: its counting loop (lines 156-162) is `CountTrigrams`. The loop in
  `SampleNextWord` stands for the list comprehension at line 216.

Probabilities are kept as integer counts. Word `w` after context `(a, b)`
has probability `Count(a, b, w) / Mass(Successors(a, b))`, and
`Weights.PickInterval` proves that a uniform draw below the total picks each
word with exactly that share. Randomness enters as a parameter:
`SampleNextWord` takes one draw, and `Generate` takes a function `rand`
where `rand(i)` is the i-th random number it consumes.

The `__init__` docstring says words seen *fewer* times than `unk_threshold`
become `<unk>`, and that the default of 1 replaces only unseen words. The
code (`ngram_model.py`, line 122) replaces words seen *at most*
`unk_threshold` times, so with the default every word seen once becomes
`<unk>`. The model follows the code (`Tokens.Replace`).
`Tokens.SubstituteAt` states the rule as the code applies it.

All paths below are relative to the repository root.

## Model

| member | source | states |
|---|---|---|
| Tokens.SentinelsAreWords | ml-assignment/ml-intern-assessment-main/ml-assignment/src/ngram_model.py:14-16 | the three sentinels `<start>`, `<end>` and `<unk>` are non-empty and hold no whitespace, so they behave like any other word in the table |
| NGramModel.TrigramModel.constructor | ml-assignment/ml-intern-assessment-main/ml-assignment/src/ngram_model.py:18-39 | a new model has an empty count table, an empty vocabulary, the given threshold (default 1), is untrained, and satisfies the model invariant |
| Text.LowerChar | ml-assignment/ml-intern-assessment-main/ml-assignment/src/ngram_model.py:53 | lower-casing maps each capital A-Z to its own small letter a-z and leaves every other character alone, so whitespace stays whitespace and no capital remains |
| Text.Collapse | ml-assignment/ml-intern-assessment-main/ml-assignment/src/ngram_model.py:56 | after replacing every whitespace run by one space, no two whitespace characters are adjacent and the only whitespace is the plain space; the result is empty exactly when the input is, is all whitespace exactly when the input is, starts and ends with whitespace exactly when the input does, is no longer than the input and keeps it lower-case |
| Text.SplitCollapse | ml-assignment/ml-intern-assessment-main/ml-assignment/src/ngram_model.py:56 | replacing whitespace runs by single spaces does not change the tokens of a string: every non-whitespace character survives, in order and in the same token |
| Text.Strip | ml-assignment/ml-intern-assessment-main/ml-assignment/src/ngram_model.py:58 | the stripped string is a slice of the input with only whitespace before and after it; it neither starts nor ends with whitespace, is empty exactly when the input is all whitespace, and keeps the input's single spacing, plain spaces and lower case |
| Text.SplitStrip | ml-assignment/ml-intern-assessment-main/ml-assignment/src/ngram_model.py:58 | stripping does not change the tokens of a string |
| Text.Clean | ml-assignment/ml-intern-assessment-main/ml-assignment/src/ngram_model.py:41-58 | the cleaned text is lower-case and has single plain spaces between non-space characters and none at either end; it is empty exactly when the input is all whitespace |
| Text.CleanIsJoinedTokens | ml-assignment/ml-intern-assessment-main/ml-assignment/src/ngram_model.py:41-58 | the cleaned text is exactly the lower-cased input's tokens, in order, joined by single spaces (`" ".join(text.lower().split())`) |
| Text.CleanKeepsClean | ml-assignment/ml-intern-assessment-main/ml-assignment/src/ngram_model.py:41-58 | cleaning leaves text that is already lower-case and normally spaced unchanged |
| Text.CleanIdempotent | ml-assignment/ml-intern-assessment-main/ml-assignment/src/ngram_model.py:41-58 | cleaning twice gives the same text as cleaning once |
| Text.Split | ml-assignment/ml-intern-assessment-main/ml-assignment/src/ngram_model.py:60-73 | every token is non-empty and free of whitespace, and there are no tokens exactly when the text is all whitespace |
| Text.JoinSplit | ml-assignment/ml-intern-assessment-main/ml-assignment/src/ngram_model.py:60-73 | joining the tokens of a normally spaced text (as cleaning leaves it) with single spaces gives the text back, so tokenising loses nothing |
| Text.SplitJoin | ml-assignment/ml-intern-assessment-main/ml-assignment/src/ngram_model.py:272 | splitting words joined with single spaces gives the same words back, when no word is empty or holds whitespace |
| Tokens.Pad | ml-assignment/ml-intern-assessment-main/ml-assignment/src/ngram_model.py:75-98 | no tokens give no padding; otherwise the result is two `<start>` tokens, the tokens unchanged, then one `<end>`, three longer than the input |
| Tokens.PadKeepsWords | ml-assignment/ml-intern-assessment-main/ml-assignment/src/ngram_model.py:90-96 | padding a stream of words yields only words |
| NGramModel.CountWords | ml-assignment/ml-intern-assessment-main/ml-assignment/src/ngram_model.py:112-115 | the first pass's count of every string is its number of occurrences in the tokens, and zero for the three sentinels |
| Tokens.Substitute | ml-assignment/ml-intern-assessment-main/ml-assignment/src/ngram_model.py:118-127 | the second pass emits exactly one token per input token |
| Tokens.SubstituteAt | ml-assignment/ml-intern-assessment-main/ml-assignment/src/ngram_model.py:112-127 | `<start>` and `<end>` pass through; a literal `<unk>` stays `<unk>`; any other token is kept exactly when it occurs more than `unk_threshold` times and otherwise becomes `<unk>`; every output is the input token or `<unk>` |
| Tokens.SubstituteLowThreshold | ml-assignment/ml-intern-assessment-main/ml-assignment/src/ngram_model.py:122 | with a threshold below 1 the substitution changes no token |
| Tokens.SubstituteKeepsWords | ml-assignment/ml-intern-assessment-main/ml-assignment/src/ngram_model.py:118-127 | substituting a stream of words yields only words |
| Tokens.TallyEntry | ml-assignment/ml-intern-assessment-main/ml-assignment/src/ngram_model.py:118-127 | each vocabulary entry grows by the number of times its word is emitted, and the entries of `<start>` and `<end>` never change |
| Tokens.TallyMass | ml-assignment/ml-intern-assessment-main/ml-assignment/src/ngram_model.py:118-127 | the vocabulary's total grows by the number of emitted tokens other than `<start>` and `<end>` |
| Tokens.TallyValid | ml-assignment/ml-intern-assessment-main/ml-assignment/src/ngram_model.py:118-127 | tallying words keeps every vocabulary key a word other than `<start>` and `<end>`, with a positive count |
| NGramModel.TrigramModel.HandleUnknownWords | ml-assignment/ml-intern-assessment-main/ml-assignment/src/ngram_model.py:100-129 | the two passes return exactly the substituted tokens and leave the vocabulary as the old one with every emitted token tallied |
| CountTable.IncCount | ml-assignment/ml-intern-assessment-main/ml-assignment/src/ngram_model.py:162 | incrementing `counts[w1][w2][w3]` adds one to that trigram's count and leaves every other trigram's count unchanged |
| CountTable.IncMass | ml-assignment/ml-intern-assessment-main/ml-assignment/src/ngram_model.py:162 | one increment adds exactly one to the table's total |
| CountTable.AddWindowsCount | ml-assignment/ml-intern-assessment-main/ml-assignment/src/ngram_model.py:156-162 | after counting windows, every trigram's count has grown by the number of windows equal to it |
| CountTable.AddWindowsContextMass | ml-assignment/ml-intern-assessment-main/ml-assignment/src/ngram_model.py:156-162 | after counting windows, every context's total has grown by the number of windows that start with that context |
| CountTable.AddWindowsMass | ml-assignment/ml-intern-assessment-main/ml-assignment/src/ngram_model.py:156-162 | counting k windows adds exactly k to the table's total |
| CountTable.AddWindowsValid | ml-assignment/ml-intern-assessment-main/ml-assignment/src/ngram_model.py:156-162 | counting windows of words keeps every key a word, every row and context non-empty and every count positive |
| NGramModel.TrigramModel.CountTrigrams | ml-assignment/ml-intern-assessment-main/ml-assignment/src/ngram_model.py:156-162 | the loop leaves the table equal to the old table with every window of the padded tokens counted, and nothing else |
| NGramModel.NonBlankHasTokens | ml-assignment/ml-intern-assessment-main/ml-assignment/src/ngram_model.py:138-146 | text that passes the blank-text guard yields at least one token |
| NGramModel.TrainingTokensAreWords | ml-assignment/ml-intern-assessment-main/ml-assignment/src/ngram_model.py:143-152 | every token that training counts, padding included, is a word |
| NGramModel.FitMass | ml-assignment/ml-intern-assessment-main/ml-assignment/src/ngram_model.py:152-162 | training on n tokens adds n + 1 trigrams to the table's total, one per window of the padded stream |
| NGramModel.FitOpensStartContext | ml-assignment/ml-intern-assessment-main/ml-assignment/src/ngram_model.py:152-162 | after training on at least one token, the context (`<start>`, `<start>`) has a non-empty next-word distribution |
| NGramModel.FitKeepsValid | ml-assignment/ml-intern-assessment-main/ml-assignment/src/ngram_model.py:131-164 | training on non-blank text produces tokens, keeps the table and vocabulary well formed, and opens the (`<start>`, `<start>`) context |
| NGramModel.TrigramModel.Fit | ml-assignment/ml-intern-assessment-main/ml-assignment/src/ngram_model.py:131-164 | blank text only marks the model trained; other text adds its padded trigram windows to the existing counts and its substituted tokens to the vocabulary; the model is trained and well formed afterwards, and the start context has a distribution |
| Weights.MassZero | ml-assignment/ml-intern-assessment-main/ml-assignment/src/ngram_model.py:185-188 | a context's total is zero exactly when every count in it is zero |
| CountTable.NextWordDistribution | ml-assignment/ml-intern-assessment-main/ml-assignment/src/ngram_model.py:166-196 | the distribution is either empty or the context's counts themselves; it is empty exactly when the context is unseen or its counts add up to zero |
| Weights.EnumerationMass | ml-assignment/ml-intern-assessment-main/ml-assignment/src/ngram_model.py:185-194 | adding the counts up in any order that lists every word once gives the context's total, so the probabilities add up to one whatever the dictionary's order |
| Weights.Pick | ml-assignment/ml-intern-assessment-main/ml-assignment/src/ngram_model.py:220 | the weighted choice always returns a member of the population |
| Weights.PickPositive | ml-assignment/ml-intern-assessment-main/ml-assignment/src/ngram_model.py:216-220 | a draw below the total never picks a word with count zero |
| Weights.PickInterval | ml-assignment/ml-intern-assessment-main/ml-assignment/src/ngram_model.py:216-220 | the i-th word is picked exactly by the draws in an interval of length equal to its count, so each word is drawn with probability count / total |
| NGramModel.TrigramModel.SampleNextWord | ml-assignment/ml-intern-assessment-main/ml-assignment/src/ngram_model.py:198-222 | an empty distribution gives `<end>` without a draw; otherwise the words are enumerated once each, the result is the weighted choice for the draw, and its count in the context is positive |
| NGramModel.Emitted | ml-assignment/ml-intern-assessment-main/ml-assignment/src/ngram_model.py:261-265 | every string other than `<start>` occurs among the emitted words exactly as often as among the sampled tokens, and `<start>` never does; there are never more words than tokens, and the words are the tokens themselves when `<start>` was not sampled |
| NGramModel.EmittedAppend | ml-assignment/ml-intern-assessment-main/ml-assignment/src/ngram_model.py:253-265 | the words emitted for two consecutive stretches of sampling are the first stretch's words followed by the second's, so the emitted words keep the order in which the tokens were sampled |
| NGramModel.WalkIsWords | ml-assignment/ml-intern-assessment-main/ml-assignment/src/ngram_model.py:253-269 | every token sampled from a well-formed table is a word |
| NGramModel.TrigramModel.Generate | ml-assignment/ml-intern-assessment-main/ml-assignment/src/ngram_model.py:224-272 | an untrained or empty model, or a non-positive `max_length`, gives "" without a draw; otherwise the sampled tokens form a walk of positive-count steps from the start context, number at most `max_length` and never include `<end>`; the loop stops early only at `<end>` or an unseen context; one draw is used per sampled token plus one for a final `<end>`; the text is the emitted words joined by single spaces, splits back into exactly those words, and contains neither `<start>` nor `<end>` as a word |

## Left out

- `Text.Lower` lower-cases ASCII letters only. Python's `str.lower` also maps other Unicode letters, and some of them to several characters.
- Probabilities are not floats. A distribution is a map of integer counts with their total, and the floating-point rounding of `count / total_count` and of the cumulative weights in `random.choices` is not modelled.
- Dictionary iteration order is not modelled. `SampleNextWord` enumerates the context's words in an arbitrary order, and its contract holds for every order.
- `random.choices` becomes a draw. `SampleNextWord` takes a natural number and uses `draw % total`, where the Python code scales `random()` by the total. `Generate` takes the sequence of draws as `rand`.
- NGramModel.TrigramModel.Generate: the contract states only the support of each step (every sampled token has a positive count in the context it was sampled from) and how many draws were used; it does not say that `rand(i)` selects the i-th sampled token. The selection by one draw is stated for `SampleNextWord` and `Weights.Pick`.
- `NGramModel.TrigramModel.SampleNextWord`: the enumeration it chose is returned as a ghost value, so the contract names the order without the program depending on it.
- `NGramModel.TrigramModel.Generate`: the sampled tokens are returned as a ghost `trace`, so the contract states facts about the tokens that the returned string alone does not show.
- A defaultdict read in the Python code inserts the missing key; the model reads with a default instead, and the results agree. The increment at line 162 creates any missing level of `counts`, and so does `CountTable.Inc`. `_get_next_word_probabilities` tests membership before it reads `counts` (lines 177-179). The only key the second pass of `_handle_unknown_words` adds to the first-pass counts is `<unk>` (line 122), holding 0, which is what the default gives.
- `utils.py` and `generate.py`, which read files, print and drive the model, are not part of this model.
