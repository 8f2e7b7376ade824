/** The scan of `markov_model` (markov.py:44-72), described position by position: the
    context at each position, the words each iteration appends, and the model after the
    scanned range; the loop itself is shown to build exactly that model. */
module Scanning {
  import opened Symbols
  import opened Tuples

  /** `range(len(split_text) - k)`: the number of positions scanned. The last `k` tokens are
      never scanned. */
  function ScanLength(tokens: seq<string>, k: nat): (n: nat)
    ensures n + k >= |tokens| && n <= |tokens|
    ensures k > 0 && n > 0 ==> n + k == |tokens|
  {
    if |tokens| > k then |tokens| - k else 0
  }

  /** Line 53: position `i` begins a sentence (it is the first token, or the token before it
      ends in punctuation). */
  predicate StartsSentence(tokens: seq<string>, i: nat)
    requires i < |tokens|
  {
    i == 0 || EndsInPunct(tokens[i - 1])
  }

  /** `current_tuple` at the top of iteration `i`: reset to the start tuple after a token that
      contains punctuation (line 58), otherwise slid over the previous token (line 62). */
  function ContextBefore(tokens: seq<string>, k: nat, i: nat): (t: Tuple)
    requires k >= 1 && i <= |tokens|
    ensures |t| == k
    decreases i
  {
    if i == 0 then StartTuple(k)
    else
      var prev := ContextBefore(tokens, k, i - 1);
      if HasPunct(tokens[i - 1]) then StartTuple(k)
      else Slide(prev, tokens[i - 1])
  }

  /** The elements of a context are markers or punctuation-free tokens. */
  lemma {:induction false} ContextElements(tokens: seq<string>, k: nat, i: nat)
    requires k >= 1 && i <= |tokens|
    ensures forall x :: x in ContextBefore(tokens, k, i) ==> x == StartMarker || (x in tokens && !HasPunct(x))
  {
    if i > 0 && !HasPunct(tokens[i - 1]) {
      ContextElements(tokens, k, i - 1);
      var prev := ContextBefore(tokens, k, i - 1);
      var t := Slide(prev, tokens[i - 1]);
      forall x | x in t
        ensures x == StartMarker || (x in tokens && !HasPunct(x))
      {
        var j :| 0 <= j < |t| && t[j] == x;
        if j < |t| - 1 {
          assert x == prev[j + 1];
        }
      }
    }
  }

  /** What iteration `i` appends to the start tuple's list (line 54). */
  function StartAdds(tokens: seq<string>, k: nat, i: nat, t: Tuple): seq<string>
    requires k >= 1 && i < |tokens|
  {
    if t == StartTuple(k) && StartsSentence(tokens, i) then [tokens[i]] else []
  }

  /** What iteration `i` appends to the list of the context it forms (line 70). */
  function ContextAdds(tokens: seq<string>, k: nat, i: nat, t: Tuple): seq<string>
    requires k >= 1 && i < |tokens|
  {
    if !HasPunct(tokens[i]) && t == ContextBefore(tokens, k, i + 1) && i + 1 < |tokens|
    then [tokens[i + 1]] else []
  }

  /** The words iteration `i` appends to the list of key `t`, in the source's order. */
  function StepAdds(tokens: seq<string>, k: nat, i: nat, t: Tuple): seq<string>
    requires k >= 1 && i < |tokens|
  {
    StartAdds(tokens, k, i, t) + ContextAdds(tokens, k, i, t)
  }

  /** The successor list of `t` after the first `n` iterations. */
  function Observed(tokens: seq<string>, k: nat, t: Tuple, n: nat): seq<string>
    requires k >= 1 && n <= |tokens|
  {
    if n == 0 then [] else Observed(tokens, k, t, n - 1) + StepAdds(tokens, k, n - 1, t)
  }

  /** The keys present after the first `n` iterations: the start tuple (line 46) and every
      context built from a punctuation-free token (lines 65-66). */
  function KeysAfter(tokens: seq<string>, k: nat, n: nat): set<Tuple>
    requires k >= 1 && n <= |tokens|
  {
    if n == 0 then {StartTuple(k)}
    else
      KeysAfter(tokens, k, n - 1)
      + (if HasPunct(tokens[n - 1]) then {} else {ContextBefore(tokens, k, n)})
  }

  /** Iteration `i` makes `t` a key: its token has no punctuation and `t` is the context it
      forms. */
  predicate FormedAt(tokens: seq<string>, k: nat, i: nat, t: Tuple)
    requires k >= 1 && i < |tokens|
  {
    !HasPunct(tokens[i]) && ContextBefore(tokens, k, i + 1) == t
  }

  /** The model the scan produces from `tokens`, stated position by position. */
  function ModelOf(tokens: seq<string>, k: nat): Model
    requires k >= 1
  {
    var n := ScanLength(tokens, k);
    map t | t in KeysAfter(tokens, k, n) :: Observed(tokens, k, t, n)
  }

  /** The tokens among the first `n` positions that begin a sentence, in order with repeats. */
  function SentenceStarts(tokens: seq<string>, n: nat): seq<string>
    requires n <= |tokens|
  {
    if n == 0 then [] else SentenceStarts(tokens, n - 1) + StartWord(tokens, n - 1)
  }

  /** The token at position `i` when it begins a sentence. */
  function StartWord(tokens: seq<string>, i: nat): seq<string>
    requires i < |tokens|
  {
    if StartsSentence(tokens, i) then [tokens[i]] else []
  }

  /** The scan of lines 44-72 over the token list. */
  method Scan(tokens: seq<string>, k: nat) returns (m: Model)
    requires k >= 1
    ensures m == ModelOf(tokens, k)
  {
    m := map[StartTuple(k) := []];
    var current := StartTuple(k);
    var n := ScanLength(tokens, k);
    assert current == ContextBefore(tokens, k, 0);
    assert m.Keys == KeysAfter(tokens, k, 0);
    assert forall t :: Observed(tokens, k, t, 0) == ListOf(m, t);
    for i := 0 to n
      invariant ScannedUpTo(tokens, k, i, m, current)
    {
      ghost var m0 := m;
      KeysAfterHasStart(tokens, k, i);
      m, current := ScanStep(tokens, k, i, m, current);
      ObservedSteps(tokens, k, i, m0, m);
    }
  }

  /** The state after `i` iterations: the context and the model built so far agree with the
      position-by-position description. */
  ghost predicate ScannedUpTo(tokens: seq<string>, k: nat, i: nat, m: Model, current: Tuple)
    requires k >= 1 && i <= |tokens|
  {
    && current == ContextBefore(tokens, k, i)
    && m.Keys == KeysAfter(tokens, k, i)
    && forall t :: Observed(tokens, k, t, i) == ListOf(m, t)
  }

  /** One iteration of the scan (lines 50-70): the context advances as `ContextBefore`
      says, the context it forms becomes a key, and every list grows by exactly the words
      `StepAdds` names for it. */
  method ScanStep(tokens: seq<string>, k: nat, i: nat, m0: Model, current0: Tuple)
    returns (m: Model, current: Tuple)
    requires k >= 1 && i < |tokens|
    requires current0 == ContextBefore(tokens, k, i)
    requires StartTuple(k) in m0
    ensures current == ContextBefore(tokens, k, i + 1)
    ensures m.Keys == m0.Keys + (if HasPunct(tokens[i]) then {} else {current})
    ensures forall t :: ListOf(m, t) == ListOf(m0, t) + StepAdds(tokens, k, i, t)
  {
    var start := StartTuple(k);
    m := m0;
    var word := tokens[i];
    if StartsSentence(tokens, i) {
      m := m[start := m[start] + [word]];
    }
    StartPhase(tokens, k, i, m0, m);
    ghost var m1 := m;
    if HasPunct(word) {
      current := start;
    } else {
      current := Slide(current0, word);
      if current !in m {
        m := m[current := []];
      }
      ghost var m2 := m;
      if i + 1 < |tokens| {
        m := m[current := m[current] + [tokens[i + 1]]];
      }
      ContextPhase(tokens, k, i, m1, m2, m, current);
    }
    assert forall t :: ListOf(m, t) == ListOf(m1, t) + ContextAdds(tokens, k, i, t);
  }

  /** Line 54 appends the current token to the start tuple's list and to no other. */
  lemma StartPhase(tokens: seq<string>, k: nat, i: nat, m0: Model, m1: Model)
    requires k >= 1 && i < |tokens|
    requires StartTuple(k) in m0
    requires m1 == if StartsSentence(tokens, i)
      then m0[StartTuple(k) := m0[StartTuple(k)] + [tokens[i]]] else m0
    ensures m1.Keys == m0.Keys
    ensures forall t :: ListOf(m1, t) == ListOf(m0, t) + StartAdds(tokens, k, i, t)
  {
  }

  /** Lines 62-70 add the formed context as a key and append the next token to its list
      and to no other. */
  lemma ContextPhase(tokens: seq<string>, k: nat, i: nat, m1: Model, m2: Model, m: Model, current: Tuple)
    requires k >= 1 && i < |tokens|
    requires !HasPunct(tokens[i]) && current == ContextBefore(tokens, k, i + 1)
    requires m2 == if current in m1 then m1 else m1[current := []]
    requires m == if i + 1 < |tokens| then m2[current := m2[current] + [tokens[i + 1]]] else m2
    ensures m.Keys == m1.Keys + {current}
    ensures forall t :: ListOf(m, t) == ListOf(m1, t) + ContextAdds(tokens, k, i, t)
  {
  }

  /** Composing one step with the description of the first `i` iterations gives the
      description of the first `i + 1`. */
  lemma ObservedSteps(tokens: seq<string>, k: nat, i: nat, m0: Model, m: Model)
    requires k >= 1 && i < |tokens|
    requires forall t :: Observed(tokens, k, t, i) == ListOf(m0, t)
    requires forall t :: ListOf(m, t) == ListOf(m0, t) + StepAdds(tokens, k, i, t)
    ensures forall t :: Observed(tokens, k, t, i + 1) == ListOf(m, t)
  {
  }

  lemma {:induction false} KeysAfterHasStart(tokens: seq<string>, k: nat, n: nat)
    requires k >= 1 && n <= |tokens|
    ensures StartTuple(k) in KeysAfter(tokens, k, n)
  {
    if n > 0 {
      KeysAfterHasStart(tokens, k, n - 1);
    }
  }

  /** The list of `t` in `m`, empty when `t` is not a key. */
  function ListOf(m: Model, t: Tuple): seq<string> {
    if t in m then m[t] else []
  }
}
