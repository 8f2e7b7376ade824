/** `markov_model` (markov.py:20-72): strip reserved characters, split into tokens and scan
    them left to right with a k-length context, recording every observed successor. */
module Builder {
  import opened Wrappers
  import opened Symbols
  import opened Text
  import opened Tuples
  import opened Scanning

  /** The characters `text.replace(c, '')` is applied with, in the source's order. */
  const StripOrder: seq<char> := ['(', ')', '"', '[', ']', StartChar]

  /** Apply `s.replace(c, '')` for each character of `cs` in turn. */
  function RemoveEach(s: string, cs: seq<char>): (r: string)
    ensures |r| <= |s|
    ensures forall c :: c in r ==> c in s && c !in cs
    decreases |cs|
  {
    if |cs| == 0 then s else RemoveEach(Keep(s, {cs[0]}), cs[1..])
  }

  /** The preprocessing step (lines 35-40). */
  function Preprocess(text: string): (r: string)
    ensures |r| <= |text|
    ensures forall c :: c in r ==> c in text && c !in Stripped
  {
    RemoveEach(text, StripOrder)
  }

  /** Removing characters one at a time removes exactly the set of them. */
  lemma {:induction false} RemoveEachIsKeep(s: string, cs: seq<char>)
    ensures RemoveEach(s, cs) == Keep(s, set c | c in cs)
    decreases |cs|
  {
    if |cs| == 0 {
      assert (set c | c in cs) == {};
      KeepNothing(s);
    } else {
      RemoveEachIsKeep(Keep(s, {cs[0]}), cs[1..]);
      KeepTwice(s, {cs[0]}, set c | c in cs[1..]);
      assert (set c | c in cs) == {cs[0]} + (set c | c in cs[1..]);
    }
  }

  /** Preprocessing removes exactly the reserved characters and keeps the rest in order. */
  lemma PreprocessIsKeep(text: string)
    ensures Preprocess(text) == Keep(text, Stripped)
  {
    RemoveEachIsKeep(text, StripOrder);
    assert (set c | c in StripOrder) == Stripped;
  }

  /** A token of the preprocessed text: a whitespace-free non-empty run without any
      reserved character. */
  predicate IsToken(w: string) {
    IsWord(w) && forall c :: c in w ==> c !in Stripped
  }

  /** `split_text`: the token list the scan walks over. */
  function Tokenize(text: string): seq<string> {
    Split(Preprocess(text))
  }

  /** Every token is non-empty, whitespace-free and free of the reserved characters; in
      particular no token is the start marker. */
  lemma TokenizeClean(text: string)
    ensures forall w :: w in Tokenize(text) ==> IsToken(w)
    ensures StartMarker !in Tokenize(text)
  {
    assert StartChar in StartMarker && StartChar in Stripped;
  }

  /** `markov_model(text, k)`: `None` exactly when `k < 1`; otherwise the model of the
      tokenized text, whose start tuple is a key, whose keys all have length `k`, whose start
      list holds the sentence-initial tokens of the scanned range and whose other lists are
      non-empty. */
  method BuildModel(text: string, k: int) returns (r: Option<Model>)
    ensures r.None? <==> k < 1
    ensures r.Some? ==> r.value == ModelOf(Tokenize(text), k)
    ensures r.Some? ==> StartTuple(k) in r.value
    ensures r.Some? ==> r.value[StartTuple(k)] == SentenceStarts(Tokenize(text), ScanLength(Tokenize(text), k))
    ensures r.Some? ==> forall t :: t in r.value ==> |t| == k
    ensures r.Some? ==> forall t :: t in r.value && t != StartTuple(k) ==> |r.value[t]| > 0
  {
    if k < 1 {
      return None;
    }
    var m := Scan(Tokenize(text), k);
    TokenizeClean(text);
    ModelOfProperties(Tokenize(text), k);
    r := Some(m);
  }

  /** One more iteration appends that iteration's words. */
  lemma ObservedStep(tokens: seq<string>, k: nat, i: nat, t: Tuple)
    requires k >= 1 && i < |tokens|
    ensures Observed(tokens, k, t, i + 1)
      == Observed(tokens, k, t, i) + StartAdds(tokens, k, i, t) + ContextAdds(tokens, k, i, t)
    ensures |Observed(tokens, k, t, i)| <= |Observed(tokens, k, t, i + 1)|
  {
    var before, s, c := Observed(tokens, k, t, i), StartAdds(tokens, k, i, t), ContextAdds(tokens, k, i, t);
    assert Observed(tokens, k, t, i + 1) == before + (s + c);
    assert before + (s + c) == before + s + c;
  }

  /** Every key of the model has length `k`. */
  lemma {:induction false} KeysHaveLengthK(tokens: seq<string>, k: nat, n: nat)
    requires k >= 1 && n <= |tokens|
    ensures forall t :: t in KeysAfter(tokens, k, n) ==> |t| == k
  {
    if n > 0 {
      KeysHaveLengthK(tokens, k, n - 1);
    }
  }

  /** A tuple is a key exactly when it is the start tuple or the context formed at some
      scanned position whose token has no punctuation. */
  lemma {:induction false} KeysAfterExactly(tokens: seq<string>, k: nat, n: nat, t: Tuple)
    requires k >= 1 && n <= |tokens|
    ensures t in KeysAfter(tokens, k, n) <==>
      t == StartTuple(k) || exists i :: 0 <= i < n && FormedAt(tokens, k, i, t)
  {
    if n > 0 {
      KeysAfterExactly(tokens, k, n - 1, t);
      KeysAfterStep(tokens, k, n, t);
      if exists i :: 0 <= i < n && FormedAt(tokens, k, i, t) {
        var i :| 0 <= i < n && FormedAt(tokens, k, i, t);
        if i < n - 1 {
          assert exists j :: 0 <= j < n - 1 && FormedAt(tokens, k, j, t);
        }
      }
      if FormedAt(tokens, k, n - 1, t) {
        assert exists i :: 0 <= i < n && FormedAt(tokens, k, i, t);
      }
    }
  }

  /** Iteration `n - 1` adds its context as a key exactly when its token has no punctuation. */
  lemma KeysAfterStep(tokens: seq<string>, k: nat, n: nat, t: Tuple)
    requires k >= 1 && 0 < n <= |tokens|
    ensures t in KeysAfter(tokens, k, n) <==> t in KeysAfter(tokens, k, n - 1) || FormedAt(tokens, k, n - 1, t)
  {
  }

  /** A context built from a token is never the start tuple, because its last element is that
      token and no token is the marker. */
  lemma ContextIsNotStart(tokens: seq<string>, k: nat, i: nat)
    requires k >= 1 && i < |tokens|
    requires StartMarker !in tokens
    requires !HasPunct(tokens[i])
    ensures ContextBefore(tokens, k, i + 1) != StartTuple(k)
  {
    var t := ContextBefore(tokens, k, i + 1);
    assert t[k - 1] == tokens[i];
  }

  /** The start tuple's list is exactly the sentence-initial tokens of the scanned range, in
      scan order with repeats. */
  lemma {:induction false} StartListIsSentenceStarts(tokens: seq<string>, k: nat, n: nat)
    requires k >= 1 && n <= |tokens|
    requires StartMarker !in tokens
    ensures Observed(tokens, k, StartTuple(k), n) == SentenceStarts(tokens, n)
  {
    if n > 0 {
      StartListIsSentenceStarts(tokens, k, n - 1);
      StartStep(tokens, k, n);
      assert SentenceStarts(tokens, n) == SentenceStarts(tokens, n - 1) + StartWord(tokens, n - 1);
    }
  }

  /** One iteration appends to the start tuple's list the token at a sentence start, and
      nothing otherwise. */
  lemma StartStep(tokens: seq<string>, k: nat, n: nat)
    requires k >= 1 && 0 < n <= |tokens|
    requires StartMarker !in tokens
    ensures Observed(tokens, k, StartTuple(k), n)
      == Observed(tokens, k, StartTuple(k), n - 1) + StartWord(tokens, n - 1)
  {
    var i := n - 1;
    ObservedStep(tokens, k, i, StartTuple(k));
    if !HasPunct(tokens[i]) {
      ContextIsNotStart(tokens, k, i);
    }
    assert ContextAdds(tokens, k, i, StartTuple(k)) == [];
  }

  /** A word is in the start list exactly when it is the token at some sentence-initial
      position of the range; the list is empty exactly when the range is. */
  lemma {:induction false} SentenceStartsExactly(tokens: seq<string>, n: nat, w: string)
    requires n <= |tokens|
    ensures w in SentenceStarts(tokens, n) <==>
      exists i :: 0 <= i < n && StartsSentence(tokens, i) && tokens[i] == w
    ensures |SentenceStarts(tokens, n)| > 0 <==> n > 0
  {
    if n > 0 {
      SentenceStartsExactly(tokens, n - 1, w);
      if n == 1 {
        assert StartsSentence(tokens, 0);
      }
    }
  }

  /** Every key other than the start tuple has a non-empty list: when its context is formed
      at position `i`, token `i + 1` exists and is appended. */
  lemma {:induction false} NonStartListsNonEmpty(tokens: seq<string>, k: nat, n: nat, t: Tuple)
    requires k >= 1 && n <= ScanLength(tokens, k)
    requires t in KeysAfter(tokens, k, n) && t != StartTuple(k)
    ensures |Observed(tokens, k, t, n)| > 0
  {
    ObservedStep(tokens, k, n - 1, t);
    if t in KeysAfter(tokens, k, n - 1) {
      NonStartListsNonEmpty(tokens, k, n - 1, t);
    } else {
      assert !HasPunct(tokens[n - 1]) && t == ContextBefore(tokens, k, n);
      assert ContextAdds(tokens, k, n - 1, t) == [tokens[n]];
    }
  }

  /** Every successor word is one of the tokens. */
  lemma {:induction false} SuccessorsAreTokens(tokens: seq<string>, k: nat, t: Tuple, n: nat, w: string)
    requires k >= 1 && n <= |tokens|
    requires w in Observed(tokens, k, t, n)
    ensures w in tokens
  {
    if w in Observed(tokens, k, t, n - 1) {
      SuccessorsAreTokens(tokens, k, t, n - 1, w);
    } else {
      StepAddsAreTokens(tokens, k, n - 1, t, w);
    }
  }

  /** The words one iteration appends are tokens. */
  lemma StepAddsAreTokens(tokens: seq<string>, k: nat, i: nat, t: Tuple, w: string)
    requires k >= 1 && i < |tokens|
    requires w in StepAdds(tokens, k, i, t)
    ensures w in tokens
  {
    if w in StartAdds(tokens, k, i, t) {
      assert w == tokens[i];
    } else {
      assert w == tokens[i + 1];
    }
  }

  /** Every successor in the model is one of the tokens. */
  lemma ModelSuccessorsAreTokens(tokens: seq<string>, k: nat)
    requires k >= 1
    ensures forall t, w :: t in ModelOf(tokens, k) && w in ModelOf(tokens, k)[t] ==> w in tokens
  {
    var m := ModelOf(tokens, k);
    forall t, w | t in m && w in m[t]
      ensures w in tokens
    {
      SuccessorsAreTokens(tokens, k, t, ScanLength(tokens, k), w);
    }
  }

  /** Every element of every key is the start marker or a punctuation-free token; the last
      element of a key other than the start tuple is such a token. */
  lemma {:induction false} KeyElements(tokens: seq<string>, k: nat, n: nat, t: Tuple)
    requires k >= 1 && n <= |tokens|
    requires StartMarker !in tokens
    requires t in KeysAfter(tokens, k, n)
    ensures |t| == k
    ensures forall x :: x in t ==> x == StartMarker || (x in tokens && !HasPunct(x))
    ensures t != StartTuple(k) ==> t[k - 1] in tokens && !HasPunct(t[k - 1])
  {
    KeysAfterExactly(tokens, k, n, t);
    KeysHaveLengthK(tokens, k, n);
    if t != StartTuple(k) {
      var i :| 0 <= i < n && FormedAt(tokens, k, i, t);
      assert t[k - 1] == tokens[i];
    }
    forall x | x in t
      ensures x == StartMarker || (x in tokens && !HasPunct(x))
    {
      if t != StartTuple(k) {
        var i :| 0 <= i < n && FormedAt(tokens, k, i, t);
        ContextElements(tokens, k, i + 1);
      }
    }
  }

  /** The properties `BuildModel` promises, for the model of a token list without the
      marker among its tokens. */
  lemma ModelOfProperties(tokens: seq<string>, k: nat)
    requires k >= 1
    requires StartMarker !in tokens
    ensures StartTuple(k) in ModelOf(tokens, k)
    ensures ModelOf(tokens, k)[StartTuple(k)] == SentenceStarts(tokens, ScanLength(tokens, k))
    ensures forall t :: t in ModelOf(tokens, k) ==> |t| == k
    ensures forall t :: t in ModelOf(tokens, k) && t != StartTuple(k) ==> |ModelOf(tokens, k)[t]| > 0
  {
    var n := ScanLength(tokens, k);
    var m := ModelOf(tokens, k);
    KeysAfterHasStart(tokens, k, n);
    StartListIsSentenceStarts(tokens, k, n);
    KeysHaveLengthK(tokens, k, n);
    forall t | t in m && t != StartTuple(k)
      ensures |m[t]| > 0
    {
      NonStartListsNonEmpty(tokens, k, n, t);
    }
  }
}
