# Markov text generator, modelled in Dafny

`markov.py` trains a k-th order word Markov model on a text and generates text from it.
This project models its three algorithmic pieces and proves what they promise.

- **`markov_model(text, k)`** returns `None` when `k < 1`. Otherwise it:
  - deletes `( ) " [ ]` and `~` from the text;
  - splits the text on whitespace;
  - scans the tokens left to right with a k-tuple context.

  Each scanned token that opens a sentence goes to the start tuple's list. A sentence opens at the first token, or after a token whose last character is `.`, `?` or `!`.

  A token containing any of those characters resets the context and is skipped. Any other token slides the window, makes the new context a key, and appends the next token to that key's list.
- **`back_up_tuple(t)`** turns the first element that is not `~` into `~`. It leaves the all-`~` tuple as it is.
- **`gen_from_model(model, numwords)`** starts from the all-`~` tuple. For each word it:
  - backs off until the context is a key;
  - picks one successor at random and appends it plus a space;
  - resets to the start tuple after a word ending in punctuation, or slides the window otherwise.

Modules, in dependency order:

- `Wrappers`: `Option` and `Result`.
- `Symbols`: `START_CHAR`, `PUNCTUATION`, and the two punctuation tests. One asks whether a word contains punctuation; the other whether it ends in punctuation.
- `Text`: Python 2 `str.replace(c, '')` and `str.split()`.
- `Tuples`: the start tuple, the window slide, and `back_up_tuple` with its termination measure.
- `Scanning`: the scan of `markov_model`. It describes position by position:
  - the context at each position (`ContextBefore`);
  - what each iteration appends (`StepAdds`);
  - the resulting model (`ModelOf`);
  - and the loop itself (`Scan`), proved to build exactly that model.
- `Builder`: preprocessing, tokenizing, `markov_model` itself, and the properties of the model it builds.
- `Generator`: `gen_from_model`. The walk is a function over a sequence of injected draws.
  - `Chain` is an independent description of which pick sequences are possible.
  - `WalkIsChain` proves that the walk produces exactly the chain of its length.
- `Pipeline`: the builder and the generator used in sequence, as the command-line routine does.
- `Examples`: the `back_up_tuple` docstring example, and the text "A b. A c. " traced through both halves. The text is tokenized (`ABACTokens`), then built into a model (`ABACSourceModel`), then generated from (`ABACFourWords`).

The scan covers positions `0 .. len(tokens) - k - 1` only (markov.py:49). So for `k >= 2` the transitions into the last `k - 1` tokens are never recorded (`Examples.ShortTailModel`). The model follows the loop bound as written.

`random.choice(seq)` in Python 2 is `seq[int(random() * len(seq))]`. It is modelled by `ChoiceIndex`: a draw `u` in [0, 1) selects the index `floor(u * len)`. A call to `gen_from_model` receives one draw per word. The product is exact here, where Python rounds it to a double (see "## Left out").

## Model

| member | source | states |
|---|---|---|
| Symbols.HasPunct | markov.py:57 | a word has punctuation in it exactly when some position holds `.`, `?` or `!` |
| Symbols.EndsInPunct | markov.py:53 | a word ends a sentence exactly when it is non-empty and its last character is `.`, `?` or `!`; the generator applies the same test at markov.py:120 |
| Text.IsSpace | markov.py:43 | a character is whitespace for `split()` exactly when it is one of the six ASCII whitespace characters space, tab, newline, carriage return, vertical tab and form feed |
| Text.Keep | markov.py:35-40 | the result is no longer than the input and its characters are characters of the input outside the dropped set |
| Text.KeepCounts | markov.py:35-40 | removing characters deletes every occurrence of each dropped character and keeps every occurrence of all others |
| Text.KeepTwice | markov.py:35-40 | removing one set of characters and then another equals removing their union |
| Text.KeepNothing | markov.py:35-40 | removing no character leaves the string unchanged |
| Text.Split | markov.py:43 | every piece of `split()` is non-empty and whitespace-free and consists of characters of the input |
| Text.Unwords | markov.py:116 | each word followed by one space, concatenated in order; `Text.SplitUnwords` states that `split()` gives the words back |
| Text.SplitUnwords | markov.py:116 | splitting words written out each followed by one space gives back exactly those words |
| Text.KeepNone | markov.py:35-40 | removing characters that the string does not contain leaves it unchanged |
| Builder.RemoveEach | markov.py:35-40 | applying `replace(c, '')` for each character in turn gives a string no longer than the input whose characters come from the input and are none of the removed ones |
| Builder.Preprocess | markov.py:35-40 | the preprocessed text is no longer than the input and its characters come from the input and are none of `( ) " [ ] ~` |
| Builder.Tokenize | markov.py:35-43 | `split_text` is the whitespace split of the preprocessed text; what its tokens are is stated by `Builder.TokenizeClean` |
| Builder.RemoveEachIsKeep | markov.py:35-40 | applying `replace(c, '')` for each character in turn removes exactly the set of those characters |
| Builder.PreprocessIsKeep | markov.py:35-40 | the six replacements delete exactly `( ) " [ ] ~` and keep every other character in order |
| Builder.TokenizeClean | markov.py:35-43 | every token is non-empty, whitespace-free and free of `( ) " [ ] ~`; no token is the start marker |
| Builder.BuildModel | markov.py:20-72 | the result is `None` exactly when `k < 1`. Otherwise it is the scanned model: the start tuple is a key; its list is the sentence-initial scanned tokens; every key has length `k`; every other list is non-empty |
| Scanning.ScanLength | markov.py:49 | the scan covers `len(tokens) - k` positions when that is positive and none otherwise, so the last `k` tokens are never scanned |
| Scanning.StartsSentence | markov.py:53 | position `i` opens a sentence exactly when `i` is 0 or the previous token ends in `.`, `?` or `!` |
| Scanning.ContextBefore | markov.py:57-62 | the context at every position has length `k` |
| Scanning.ContextElements | markov.py:56-62 | every element of a context is the start marker or a punctuation-free token |
| Scanning.ModelOf | markov.py:44-72 | the model maps each key present after all scanned positions to the words observed after it, in order; `Scanning.Scan` proves the loop builds exactly this map |
| Scanning.Scan | markov.py:44-72 | the loop builds exactly the position-by-position model `ModelOf` |
| Scanning.ScanStep | markov.py:50-70 | one iteration moves the context to the next position's context, adds the formed context as a key unless the token has punctuation, and grows each list by exactly that iteration's words |
| Scanning.StartPhase | markov.py:52-54 | the sentence-start branch appends the current token to the start tuple's list and changes no other list or key |
| Scanning.ContextPhase | markov.py:61-70 | the context branch makes the formed context a key and appends the next token to its list only |
| Scanning.KeysAfterHasStart | markov.py:45-46 | the start tuple is a key throughout the scan |
| Builder.KeysHaveLengthK | markov.py:45-66 | every key has length `k` |
| Builder.KeysAfterExactly | markov.py:45-66 | a tuple is a key exactly when it is the start tuple or the context formed at a scanned position whose token has no punctuation |
| Builder.ContextIsNotStart | markov.py:62 | a context formed from a token is never the start tuple, since its last element is that token |
| Builder.StartListIsSentenceStarts | markov.py:49-54 | the start tuple's list is the tokens at scanned positions that open a sentence, in scan order with repeats |
| Builder.SentenceStartsExactly | markov.py:52-54 | a word is in the start list exactly when it is the token at some sentence-opening scanned position; the list is empty exactly when nothing is scanned |
| Builder.NonStartListsNonEmpty | markov.py:62-70 | every key other than the start tuple has a non-empty successor list |
| Builder.SuccessorsAreTokens | markov.py:54-70 | every word in any successor list is a token of the text |
| Builder.ModelSuccessorsAreTokens | markov.py:44-72 | every successor in the built model is a token of the text |
| Builder.KeyElements | markov.py:56-66 | every element of a key is the start marker or a punctuation-free token; the last element of a non-start key is such a token |
| Builder.ModelOfProperties | markov.py:44-72 | the scanned model has the start tuple as a key, the sentence starts as its list, keys of length `k`, and non-empty other lists |
| Tuples.StartTuple | markov.py:45 | `(START_CHAR,)*k` has length `k` and every element is the marker |
| Tuples.Slide | markov.py:62 | the window keeps its length (one for an empty tuple), drops the oldest element and ends with the new word |
| Tuples.CountMarkersFull | markov.py:82-84 | a tuple is all markers exactly when its marker count equals its length |
| Tuples.FirstReal | markov.py:86-89 | the position found holds a non-marker and every position before it holds the marker |
| Tuples.BackUp | markov.py:74-89 | back-off preserves the tuple's length |
| Tuples.BackUpStart | markov.py:84-85 | the all-marker tuple is returned unchanged |
| Tuples.BackUpReplacesFirstReal | markov.py:84-89 | on any other tuple exactly the first non-marker element becomes the marker and every other position is unchanged |
| Tuples.BackUpAddsMarker | markov.py:86-89 | away from the fixed point each back-off adds exactly one marker |
| Tuples.BackUpIterCount | markov.py:112-113 | after `n` back-offs the marker count has grown by `n`, capped at the length |
| Tuples.BackUpReachesStart | markov.py:112-113 | repeated back-off reaches the all-marker tuple after as many steps as the tuple has real words |
| Generator.ValidModelOrder | markov.py:103 | a valid model has exactly one order, so any key gives it |
| Generator.Order | markov.py:103 | the order read off the model is one for which the model is valid |
| Generator.ChoiceIndex | markov.py:115 | the chosen index is in range and its slice of [0, 1) contains the draw |
| Generator.ScaledDraw | markov.py:115 | a draw in [0, 1) scaled by `n` lies in [0, n) |
| Generator.Resolve | markov.py:112-113 | the back-off loop ends at a key of the same length |
| Generator.ResolveIsFirstKey | markov.py:111-113 | the resolved context is the first key on the back-off chain, reached within as many steps as the tuple has real words |
| Generator.Next | markov.py:118-123 | the context after a pick keeps length `k` |
| Generator.Walk | markov.py:108-125 | the walk fails only on an empty successor list and otherwise makes one pick per word |
| Generator.ChainCons | markov.py:109-123 | a pick sequence starting with the walk's first pick is a chain exactly when its rest is a chain from the next context with the remaining draws |
| Generator.WalkChains | markov.py:109-123 | every pick sequence the walk produces is a chain |
| Generator.ChainIsWalk | markov.py:109-123 | every chain is what the walk produces for its length |
| Generator.WalkIsChain | markov.py:108-123 | the walk succeeds with a pick sequence exactly when that sequence has one pick per word and is a chain |
| Generator.ChainPicksFromModel | markov.py:112-115 | each pick of a chain is a successor listed under its context, which is a key |
| Generator.Generate | markov.py:91-125 | no model gives the no-model error; zero or negative `numwords` gives the empty string; any other failure is an empty successor list |
| Generator.GenerateOutput | markov.py:106-125 | a successful result is the walk's words, each followed by one space; splitting it gives back exactly those `numwords` words |
| Generator.GeneratedWordsFrom | markov.py:115-116 | every generated word is a successor in the model |
| Generator.WalkTotal | markov.py:109-115 | over a model whose lists are all non-empty the walk never fails |
| Pipeline.BuiltModelIsValid | markov.py:146-148 | the built model meets everything the generator needs, its successors are clean tokens, and every key element is the start marker or a clean token without punctuation |
| Pipeline.CleanModel | markov.py:44-72 | the model of clean tokens is valid for the generator and its successors are clean |
| Pipeline.ShortTextModel | markov.py:44-49 | with at most `k` tokens the model is the start tuple with an empty list |
| Pipeline.ShortTextFails | markov.py:49 | with at most `k` tokens asking for a word fails on the empty start list |
| Pipeline.LongTextSucceeds | markov.py:49-54 | with more than `k` tokens generation never fails |
| Pipeline.GenerateFailsIffShortText | markov.py:146-148 | generating at least one word from a built model fails exactly when the text has at most `k` tokens |
| Pipeline.GeneratedWordsAreTokens | markov.py:146-148 | a successful generation consists of exactly `numwords` words, each a token of the training text |
| Examples.BackUpDocstringExample | markov.py:77 | `('~','a','b')` backs up to `('~','~','b')` |
| Examples.SplitExample | markov.py:43 | "A b. A c. " splits into its four words |
| Examples.ABACTokens | markov.py:35-43 | the text "A b. A c. " has none of the stripped characters, so its tokens are `A`, `b.`, `A`, `c.` |
| Examples.ABACModel | markov.py:44-72 | the model of the tokens `A`, `b.`, `A`, `c.` with `k = 1` maps `('~',)` to `["A", "A"]` and `('A',)` to `["b.", "c."]` |
| Examples.ABACSourceModel | markov.py:20-72 | the model built from the text "A b. A c. " with `k = 1` is that same map |
| Examples.ABACNoPunctuatedKey | markov.py:56-59 | the punctuation-bearing tokens `b.` and `c.` never become keys |
| Examples.ABACCycle | markov.py:109-123 | with all draws zero the walk over that model repeats "A", "b." indefinitely |
| Examples.ABACFourWords | markov.py:91-125 | four words from that model with all draws zero are "A b. A b. " |
| Examples.ShortTailModel | markov.py:49-70 | the model of "a b c" with `k = 2` has the keys `('~','~')` and `('~','a')` only, so `('a','b')`, which "c" follows in the text, is not a key |
| Examples.EmptyTextFails | markov.py:99-115 | generating from the model of the empty text fails on the empty start list |

## Left out

- `main` (markov.py:127-157) is not modelled. That covers argument handling, interactive prompts, and reading and writing files. It also covers the output post-processing: the `.` to `.\n` replacement and the trailing-trim loop.
- The `print` side effects at markov.py:31 and markov.py:100, and `pprint`, are not modelled. Only the returned value is.
- The process-wide random source is not modelled. Each call receives a sequence of draws in [0, 1), one per requested word.
- Generator.ChoiceIndex: real arithmetic stands in for floating point. Python rounds the product `random() * len` to a double. That rounding can carry a draw just below an inner index boundary onto the boundary.
  - Example: `random()` can return the double nearest 0.6, which is 5404319552844595/2^53. On a 5-element list Python computes `0.6*5 == 3.0` and picks index 3.
  - `ChoiceIndex` takes the exact product 2.99999999999999988…, so it picks index 2.
  - The product never rounds up to `len` itself for lists shorter than 2^53, so the index Python computes is always in range.
  - Every index remains reachable by some draw, so the proved properties are unaffected.
- Generator.Order: recovers `k` as the unique common key length instead of the length of `keys()[0]`. The two agree on every valid model; Python 2 dict order is not modelled.
- Generator.Generate: requires a model valid for the generator, i.e. the start tuple is a key, all keys have one length and no successor is empty. That is everything `markov_model` builds (`Pipeline.BuiltModelIsValid`). On other dictionaries the source can loop forever, because back-off of a missing start tuple returns the same tuple, or index an empty word.
- Text.Split: the contract says each piece is a non-empty whitespace-free run of input characters. It does not say that the pieces cover every non-whitespace character. The exact decomposition is stated by `Text.SplitUnwords` on text in the generator's output shape.
- Text.IsSpace: treats the six ASCII whitespace characters as whitespace, as Python 2 byte strings do. Unicode whitespace is not modelled.
- Scanning.ContextElements: states that context elements are tokens of the text, rather than the more precise "tokens among the positions scanned so far".
- Builder.KeyElements: keys other than the start tuple can contain the start marker when `k >= 2`. For example, "a b c" with `k = 2` has the key `('~', 'a')` (`Examples.ShortTailModel`). So the property proved is that each element is the marker or a punctuation-free token, not that non-start keys are marker-free.
- The guard `i+1 < len(split_text)` (markov.py:69) is always true inside the scanned range, but it is modelled as written.
