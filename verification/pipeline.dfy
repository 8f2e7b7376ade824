/** What the builder guarantees the generator: the two halves of markov.py used in sequence
    (build, then generate), as the command-line routine at markov.py:146-148 does. */
module Pipeline {
  import opened Wrappers
  import opened Symbols
  import opened Text
  import opened Tuples
  import opened Scanning
  import opened Builder
  import opened Generator

  /** The model of a text meets everything the generator needs, all its successors are
      whitespace-free words free of the reserved characters, and every element of every key
      is the start marker or such a word without punctuation. */
  lemma BuiltModelIsValid(text: string, k: nat)
    requires k >= 1
    ensures ValidModel(ModelOf(Tokenize(text), k), k)
    ensures forall t, w :: t in ModelOf(Tokenize(text), k) && w in ModelOf(Tokenize(text), k)[t] ==> IsToken(w)
    ensures forall t, x :: t in ModelOf(Tokenize(text), k) && x in t ==>
      x == StartMarker || (IsToken(x) && !HasPunct(x))
  {
    TokenizeClean(text);
    CleanModel(Tokenize(text), k);
    var tokens := Tokenize(text);
    forall t | t in ModelOf(tokens, k)
      ensures forall x :: x in t ==> x == StartMarker || (IsToken(x) && !HasPunct(x))
    {
      KeyElements(tokens, k, ScanLength(tokens, k), t);
    }
  }

  /** The model of clean tokens is valid and its successors are clean. */
  lemma CleanModel(tokens: seq<string>, k: nat)
    requires k >= 1
    requires StartMarker !in tokens
    requires forall u :: u in tokens ==> IsToken(u)
    ensures ValidModel(ModelOf(tokens, k), k)
    ensures forall t, w :: t in ModelOf(tokens, k) && w in ModelOf(tokens, k)[t] ==> IsToken(w)
  {
    ModelOfProperties(tokens, k);
    ModelSuccessorsAreTokens(tokens, k);
    CleanMap(ModelOf(tokens, k), k, tokens);
  }

  /** A model whose keys are `k` long, with the start tuple among them, and whose successors
      come from clean tokens is valid, and its successors are clean. */
  lemma CleanMap(m: Model, k: nat, tokens: seq<string>)
    requires k >= 1 && StartTuple(k) in m
    requires forall t :: t in m ==> |t| == k
    requires forall t, w :: t in m && w in m[t] ==> w in tokens
    requires forall u :: u in tokens ==> IsToken(u)
    ensures ValidModel(m, k)
    ensures forall t, w :: t in m && w in m[t] ==> IsToken(w)
  {
    forall t, w | t in m && w in m[t]
      ensures IsWord(w) && |w| > 0
    {
      assert IsToken(w);
    }
  }

  /** On a model built from text with at most `k` tokens the start tuple is the only key and
      its list is empty. */
  lemma ShortTextModel(tokens: seq<string>, k: nat)
    requires k >= 1 && |tokens| <= k
    ensures ModelOf(tokens, k) == map[StartTuple(k) := []]
  {
    assert ScanLength(tokens, k) == 0;
  }

  /** Generating at least one word from the model of a text fails exactly when the text has
      no more than `k` tokens; the error is then the empty start list. */
  lemma GenerateFailsIffShortText(text: string, k: nat, numwords: int, draws: seq<real>)
    requires k >= 1 && 1 <= numwords <= |draws| && UnitDraws(draws)
    ensures ValidModel(ModelOf(Tokenize(text), k), k)
    ensures Generate(Some(ModelOf(Tokenize(text), k)), numwords, draws).Failure?
      <==> |Tokenize(text)| <= k
  {
    BuiltModelIsValid(text, k);
    if |Tokenize(text)| <= k {
      ShortTextFails(Tokenize(text), k, numwords, draws);
    } else {
      TokenizeClean(text);
      LongTextSucceeds(Tokenize(text), k, numwords, draws);
    }
  }

  /** With no position to scan the start list is empty, so the first step fails. */
  lemma ShortTextFails(tokens: seq<string>, k: nat, numwords: int, draws: seq<real>)
    requires k >= 1 && 1 <= numwords <= |draws| && UnitDraws(draws)
    requires |tokens| <= k
    ensures ValidModel(ModelOf(tokens, k), k)
    ensures Generate(Some(ModelOf(tokens, k)), numwords, draws) == Failure(EmptySuccessors)
  {
    var m := ModelOf(tokens, k);
    ShortTextModel(tokens, k);
    assert ValidModel(m, k);
    ValidModelOrder(m, k, Order(m));
    assert Resolve(m, StartTuple(k)) == StartTuple(k);
    assert Walk(m, k, StartTuple(k), draws, numwords) == Failure(EmptySuccessors);
  }

  /** With a position to scan the start list holds the first token and every other list is
      non-empty, so the walk never gets stuck. */
  lemma LongTextSucceeds(tokens: seq<string>, k: nat, numwords: int, draws: seq<real>)
    requires k >= 1 && 1 <= numwords <= |draws| && UnitDraws(draws)
    requires |tokens| > k && StartMarker !in tokens
    requires ValidModel(ModelOf(tokens, k), k)
    ensures Generate(Some(ModelOf(tokens, k)), numwords, draws).Success?
  {
    var m := ModelOf(tokens, k);
    var n := ScanLength(tokens, k);
    ValidModelOrder(m, k, Order(m));
    ModelOfProperties(tokens, k);
    SentenceStartsExactly(tokens, n, tokens[0]);
    assert forall t :: t in m ==> |m[t]| > 0;
    WalkTotal(m, k, StartTuple(k), draws, numwords);
  }

  /** A successful generation from the model of a text consists of exactly `numwords`
      words, each a token of the text. */
  lemma GeneratedWordsAreTokens(text: string, k: nat, numwords: nat, draws: seq<real>)
    requires k >= 1 && numwords <= |draws| && UnitDraws(draws)
    ensures ValidModel(ModelOf(Tokenize(text), k), k)
    ensures var r := Generate(Some(ModelOf(Tokenize(text), k)), numwords, draws);
      r.Success? ==>
        && |Split(r.value)| == numwords
        && forall i :: 0 <= i < numwords ==> Split(r.value)[i] in Tokenize(text)
  {
    BuiltModelIsValid(text, k);
    ModelSuccessorsAreTokens(Tokenize(text), k);
    var m := ModelOf(Tokenize(text), k);
    forall t, w | t in m && w in m[t]
      ensures IsWord(w)
    {
      assert IsToken(w);
    }
    GeneratedWordsFrom(ModelOf(Tokenize(text), k), k, numwords, draws, Tokenize(text));
  }
}
