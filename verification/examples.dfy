/** Concrete scenarios: the back-off example of the `back_up_tuple` docstring and small
    training texts worked through the builder and the generator. */
module Examples {
  import opened Wrappers
  import opened Symbols
  import opened Text
  import opened Tuples
  import opened Scanning
  import opened Builder
  import opened Generator
  import Pipeline

  /** The docstring example of markov.py:77: `('~','a','b')` backs up to `('~','~','b')`. */
  lemma BackUpDocstringExample()
    ensures BackUp(["~", "a", "b"]) == ["~", "~", "b"]
  {
    var t := ["~", "a", "b"];
    assert t != StartTuple(3) by { assert t[1] != StartTuple(3)[1]; }
    assert t[1..] != StartTuple(2) by { assert t[1..][0] != StartTuple(2)[0]; }
  }

  /** The training text of the examples below, and its tokens. */
  const ABACSource: string := "A b. A c. "
  const ABAC: seq<string> := ["A", "b.", "A", "c."]

  /* The lemmas about `ABAC` take the token list as a parameter `ts` with `requires ts == ABAC`
     rather than naming the constant in their contracts: the solver then unfolds the scan
     functions on `ts` only as far as each proof asks, instead of evaluating them on the
     literal eagerly. */

  /** `split()` on that text. */
  lemma SplitExample(ts: seq<string>)
    requires ts == ABAC
    ensures Split(ABACSource) == ts
  {
    assert ABACSource == Unwords(ts);
    assert forall i :: 0 <= i < |ts| ==> IsWord(ts[i]);
    SplitUnwords(ts);
  }

  /** The text has none of the stripped characters, so its tokens are its four words. */
  lemma ABACTokens(text: string)
    requires text == ABACSource
    ensures Tokenize(text) == ABAC
  {
    ABACUnstripped(text);
    PreprocessIsKeep(text);
    KeepNone(text, Stripped);
    SplitExample(ABAC);
  }

  lemma ABACUnstripped(text: string)
    requires text == ABACSource
    ensures forall i :: 0 <= i < |text| ==> text[i] !in Stripped
  {
  }

  lemma ABACContexts(ts: seq<string>)
    requires ts == ABAC
    ensures ContextBefore(ts, 1, 1) == ["A"]
    ensures ContextBefore(ts, 1, 2) == ["~"]
    ensures ContextBefore(ts, 1, 3) == ["A"]
    ensures !HasPunct(ts[0]) && HasPunct(ts[1]) && !HasPunct(ts[2])
    ensures !EndsInPunct(ts[0]) && EndsInPunct(ts[1])
  {
    assert ts[1][1] == '.';
    assert ContextBefore(ts, 1, 0) == StartTuple(1);
    assert StartTuple(1) == ["~"];
  }

  lemma ABACKeys(ts: seq<string>)
    requires ts == ABAC
    ensures KeysAfter(ts, 1, 3) == {["~"], ["A"]}
  {
    ABACContexts(ts);
    assert StartTuple(1) == ["~"];
    assert KeysAfter(ts, 1, 1) == {["~"], ["A"]};
    assert KeysAfter(ts, 1, 2) == {["~"], ["A"]};
  }

  lemma ABACSentenceStarts(ts: seq<string>)
    requires ts == ABAC
    ensures SentenceStarts(ts, 3) == ["A", "A"]
  {
    assert "b."[1] == '.';
    assert EndsInPunct(ts[1]) && !EndsInPunct(ts[0]);
    assert SentenceStarts(ts, 1) == ["A"];
    assert SentenceStarts(ts, 2) == ["A"];
  }

  lemma ABACStartList(ts: seq<string>)
    requires ts == ABAC
    ensures Observed(ts, 1, ["~"], 3) == ["A", "A"]
  {
    assert StartTuple(1) == ["~"];
    assert StartMarker !in ts;
    StartListIsSentenceStarts(ts, 1, 3);
    ABACSentenceStarts(ts);
  }

  lemma ABACWordList(ts: seq<string>)
    requires ts == ABAC
    ensures Observed(ts, 1, ["A"], 3) == ["b.", "c."]
  {
    ABACContexts(ts);
    assert StartTuple(1) == ["~"];
    assert StartAdds(ts, 1, 0, ["A"]) == [];
    assert ContextAdds(ts, 1, 0, ["A"]) == ["b."];
    assert Observed(ts, 1, ["A"], 1) == ["b."];
    assert StepAdds(ts, 1, 1, ["A"]) == [];
    assert Observed(ts, 1, ["A"], 2) == ["b."];
    assert StartAdds(ts, 1, 2, ["A"]) == [];
    assert ContextAdds(ts, 1, 2, ["A"]) == ["c."];
  }

  /** The model of the tokens "A", "b.", "A", "c." with k = 1: both sentences start with
      "A", which is followed once by "b." and once by "c.". */
  lemma ABACModel(ts: seq<string>)
    requires ts == ABAC
    ensures ModelOf(ts, 1) == map[["~"] := ["A", "A"], ["A"] := ["b.", "c."]]
  {
    ABACKeys(ts);
    ABACStartList(ts);
    ABACWordList(ts);
    assert ScanLength(ts, 1) == 3;
  }

  /** The model `markov_model` builds from the text "A b. A c. " with k = 1. */
  lemma ABACSourceModel(text: string)
    requires text == ABACSource
    ensures ModelOf(Tokenize(text), 1) == map[["~"] := ["A", "A"], ["A"] := ["b.", "c."]]
  {
    ABACTokens(text);
    ABACModel(ABAC);
  }

  /** The punctuation-bearing "b." and "c." never become context keys. */
  lemma ABACNoPunctuatedKey(ts: seq<string>)
    requires ts == ABAC
    ensures ["b."] !in ModelOf(ts, 1) && ["c."] !in ModelOf(ts, 1)
  {
    ABACModel(ts);
  }

  /** What the walk needs of the model of "A b. A c." with k = 1. */
  ghost predicate ABACLike(m: Model)
  {
    && ValidModel(m, 1)
    && ["~"] in m && m[["~"]] == ["A", "A"]
    && ["A"] in m && m[["A"]] == ["b.", "c."]
  }

  lemma ABACMapLike(m: Model)
    requires m == map[["~"] := ["A", "A"], ["A"] := ["b.", "c."]]
    ensures ABACLike(m)
  {
    assert StartTuple(1) == ["~"];
    forall t, w | t in m && w in m[t]
      ensures |w| > 0
    {
      assert t == ["~"] || t == ["A"];
    }
  }

  /** Where the walk over such a model goes after each of its two words. */
  lemma ABACMoves(m: Model)
    requires ABACLike(m)
    ensures Resolve(m, ["~"]) == ["~"] && Resolve(m, ["A"]) == ["A"]
    ensures Next(1, ["~"], "A") == ["A"] && Next(1, ["A"], "b.") == ["~"]
    ensures ChoiceIndex(0.0, 2) == 0
  {
    assert StartTuple(1) == ["~"];
    assert "b."[1] == '.';
    assert !EndsInPunct("A") && EndsInPunct("b.");
  }

  /** Two steps from the start tuple with zero draws: "A" and then "b.", which ends a
      sentence and returns the walk to the start tuple. */
  lemma ABACTwoSteps(m: Model, d: seq<real>, n: nat)
    requires ABACLike(m)
    requires 2 <= n <= |d| && UnitDraws(d) && d[0] == 0.0 && d[1] == 0.0
    requires Walk(m, 1, ["~"], d[2..], n - 2).Success?
    ensures Walk(m, 1, ["~"], d, n)
      == Success([Pick(["~"], "A"), Pick(["A"], "b.")] + Walk(m, 1, ["~"], d[2..], n - 2).value)
  {
    ABACMoves(m);
    assert d[1..][1..] == d[2..] && d[1..][0] == 0.0;
    var rest := Walk(m, 1, ["~"], d[2..], n - 2).value;
    WalkStep(m, 1, ["A"], d[1..], n - 1, ["A"], "b.");
    WalkStep(m, 1, ["~"], d, n, ["~"], "A");
    assert [Pick(["~"], "A")] + ([Pick(["A"], "b.")] + rest) == [Pick(["~"], "A"), Pick(["A"], "b.")] + rest;
  }

  /** The picks alternate between "A" from the start tuple and "b." after "A". */
  ghost predicate Alternates(ps: seq<Pick>)
  {
    forall i :: 0 <= i < |ps| ==> ps[i] == if i % 2 == 0 then Pick(["~"], "A") else Pick(["A"], "b.")
  }

  lemma AlternatesCons(rest: seq<Pick>)
    requires Alternates(rest)
    ensures Alternates([Pick(["~"], "A"), Pick(["A"], "b.")] + rest)
  {
    var all := [Pick(["~"], "A"), Pick(["A"], "b.")] + rest;
    forall i | 2 <= i < |all|
      ensures all[i] == if i % 2 == 0 then Pick(["~"], "A") else Pick(["A"], "b.")
    {
      assert all[i] == rest[i - 2];
      assert (i - 2) % 2 == i % 2;
    }
  }

  /** With every draw zero, the walk over that model from the start tuple repeats
      "A", "b." for as long as it is asked to. */
  lemma {:induction false} ABACCycle(m: Model, d: seq<real>, j: nat)
    requires ABACLike(m)
    requires 2 * j <= |d| && forall i :: 0 <= i < |d| ==> d[i] == 0.0
    ensures ValidModel(m, 1) && UnitDraws(d)
    ensures Walk(m, 1, ["~"], d, 2 * j).Success?
    ensures Alternates(Walk(m, 1, ["~"], d, 2 * j).value)
  {
    ABACMoves(m);
    if j > 0 {
      ABACCycle(m, d[2..], j - 1);
      assert 2 * (j - 1) == 2 * j - 2;
      var tail := Walk(m, 1, ["~"], d[2..], 2 * j - 2);
      assert tail.Success? && Alternates(tail.value);
      ABACTwoSteps(m, d, 2 * j);
      AlternatesCons(tail.value);
      assert Walk(m, 1, ["~"], d, 2 * j) == Success([Pick(["~"], "A"), Pick(["A"], "b.")] + tail.value);
    }
  }

  /** Spelling out the four generated words. */
  lemma ABACText(ps: seq<Pick>)
    requires ps == [Pick(["~"], "A"), Pick(["A"], "b."), Pick(["~"], "A"), Pick(["A"], "b.")]
    ensures Unwords(Words(ps)) == "A b. A b. "
  {
    var ws := Words(ps);
    assert ws == ["A", "b.", "A", "b."];
    assert Unwords(ws[3..]) == "b. ";
    assert Unwords(ws[2..]) == "A b. ";
    assert Unwords(ws[1..]) == "b. A b. ";
  }

  /** Four picks from such a model with zero draws. */
  lemma ABACFourPicks(m: Model, d: seq<real>)
    requires ABACLike(m) && d == [0.0, 0.0, 0.0, 0.0]
    ensures ValidModel(m, 1) && UnitDraws(d)
    ensures Walk(m, 1, ["~"], d, 4)
      == Success([Pick(["~"], "A"), Pick(["A"], "b."), Pick(["~"], "A"), Pick(["A"], "b.")])
  {
    ABACCycle(m, d, 2);
    AlternatesFour(Walk(m, 1, ["~"], d, 4).value);
  }

  lemma AlternatesFour(ps: seq<Pick>)
    requires Alternates(ps) && |ps| == 4
    ensures ps == [Pick(["~"], "A"), Pick(["A"], "b."), Pick(["~"], "A"), Pick(["A"], "b.")]
  {
    assert ps[0] == Pick(["~"], "A") && ps[1] == Pick(["A"], "b.");
    assert ps[2] == Pick(["~"], "A") && ps[3] == Pick(["A"], "b.");
  }

  /** With every draw selecting the first successor, four words from the model of
      "A b. A c." (`ABACModel`, `ABACMapLike`) are "A b. A b. ": after "b." the context
      returns to the start tuple. */
  lemma ABACFourWords(m: Model, d: seq<real>)
    requires ABACLike(m) && d == [0.0, 0.0, 0.0, 0.0]
    ensures ValidModel(m, 1) && UnitDraws(d)
    ensures Generate(Some(m), 4, d) == Success("A b. A b. ")
  {
    ABACFourPicks(m, d);
    ValidModelOrder(m, 1, Order(m));
    assert StartTuple(1) == ["~"];
    ABACText([Pick(["~"], "A"), Pick(["A"], "b."), Pick(["~"], "A"), Pick(["A"], "b.")]);
  }

  /** The model of "a b c" with k = 2: only the first position is scanned, so the key
      `('~', 'a')` holds the marker and "c", which follows `('a', 'b')` in the text, is
      recorded nowhere. */
  lemma ShortTailModel(ts: seq<string>)
    requires ts == ["a", "b", "c"]
    ensures ModelOf(ts, 2) == map[["~", "~"] := ["a"], ["~", "a"] := ["b"]]
    ensures ["a", "b"] !in ModelOf(ts, 2)
  {
    var start := StartTuple(2);
    assert start == ["~", "~"];
    assert ScanLength(ts, 2) == 1;
    assert ContextBefore(ts, 2, 1) == ["~", "a"];
    assert KeysAfter(ts, 2, 1) == {start, ["~", "a"]};
    assert Observed(ts, 2, start, 1) == ["a"];
    assert Observed(ts, 2, ["~", "a"], 1) == ["b"];
  }

  /** Generating from the model of an empty text fails on the empty start list. */
  lemma EmptyTextFails()
    ensures ValidModel(ModelOf(Tokenize(""), 1), 1)
    ensures Generate(Some(ModelOf(Tokenize(""), 1)), 1, [0.0]) == Failure(EmptySuccessors)
  {
    PreprocessIsKeep("");
    assert Tokenize("") == [];
    Pipeline.GenerateFailsIffShortText("", 1, 1, [0.0]);
  }
}
