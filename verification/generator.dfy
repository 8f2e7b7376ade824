/** `gen_from_model` (markov.py:91-125): walk a model from the start tuple, backing off
    unseen contexts, sampling one successor per step. The process-wide random source is
    replaced by a sequence of injected draws in [0, 1), one per word. */
module Generator {
  import opened Wrappers
  import opened Symbols
  import opened Text
  import opened Tuples

  /** The ways a generation call fails: no model (lines 99-101), or a resolved context
      whose successor list is empty, on which `random.choice` raises. */
  datatype GenError = NilModel | EmptySuccessors

  /** One generation step: the context the word was drawn from, and the word. */
  datatype Pick = Pick(context: Tuple, word: string)

  /** What the generator needs of its model, all of which `markov_model` provides: order at
      least one, the start tuple present (so back-off always ends at a key), every key of
      length `k` (so any key tells the order), every successor non-empty (so its last
      character exists). */
  predicate ValidModel(m: Model, k: nat) {
    && k >= 1
    && StartTuple(k) in m
    && (forall t :: t in m ==> |t| == k)
    && (forall t, w :: t in m && w in m[t] ==> |w| > 0)
  }

  /** A model determines its order. */
  lemma ValidModelOrder(m: Model, k1: nat, k2: nat)
    requires ValidModel(m, k1) && ValidModel(m, k2)
    ensures k1 == k2
  {
    assert |StartTuple(k1)| == k2;
  }

  /** Draws as `random.random()` returns them. */
  predicate UnitDraws(draws: seq<real>) {
    forall i :: 0 <= i < |draws| ==> 0.0 <= draws[i] < 1.0
  }

  /** `random.choice` in Python 2: index `int(u * len(seq))` for a draw `u` in [0, 1). The
      index is in range and is the one whose slice of [0, 1) contains `u`. */
  function ChoiceIndex(u: real, n: nat): (i: nat)
    requires 0.0 <= u < 1.0 && n > 0
    ensures i < n
    ensures i as real <= u * n as real < i as real + 1.0
  {
    ScaledDraw(u, n);
    (u * n as real).Floor
  }

  /** A draw in [0, 1) scaled by `n` lies in [0, n). */
  lemma {:induction false} ScaledDraw(u: real, n: nat)
    requires 0.0 <= u < 1.0
    ensures 0.0 <= u * n as real
    ensures n > 0 ==> u * n as real < n as real
  {
    if n > 0 {
      ScaledDraw(u, n - 1);
      assert u * n as real == u * (n - 1) as real + u;
    }
  }

  /** The back-off loop (lines 112-113): back off until the context is a key. Ends at a key
      of the same length; the start tuple being a key bounds the number of steps. */
  function Resolve(m: Model, t: Tuple): (r: Tuple)
    requires StartTuple(|t|) in m
    ensures r in m && |r| == |t|
    decreases |t| - CountMarkers(t)
  {
    if t in m then t
    else
      BackUpAddsMarker(t);
      Resolve(m, BackUp(t))
  }

  /** After `j` back-off steps `t` is a key, and after no fewer. */
  ghost predicate FirstKeyAt(m: Model, t: Tuple, j: nat) {
    BackUpIter(t, j) in m && forall i :: 0 <= i < j ==> BackUpIter(t, i) !in m
  }

  /** The resolved context is the first key on the back-off chain of `t`, reached within as
      many steps as `t` has real words. */
  lemma {:induction false} ResolveIsFirstKey(m: Model, t: Tuple)
    requires StartTuple(|t|) in m
    ensures exists j: nat :: FirstKeyAt(m, t, j) && j <= |t| - CountMarkers(t) && Resolve(m, t) == BackUpIter(t, j)
    decreases |t| - CountMarkers(t)
  {
    if t in m {
      assert Resolve(m, t) == BackUpIter(t, 0);
      assert FirstKeyAt(m, t, 0);
    } else {
      BackUpAddsMarker(t);
      var u := BackUp(t);
      ResolveIsFirstKey(m, u);
      var j: nat :| FirstKeyAt(m, u, j) && j <= |u| - CountMarkers(u) && Resolve(m, u) == BackUpIter(u, j);
      assert Resolve(m, t) == BackUpIter(t, j + 1);
      forall i | 0 <= i < j + 1
        ensures BackUpIter(t, i) !in m
      {
        if i > 0 {
          assert BackUpIter(t, i) == BackUpIter(u, i - 1);
        }
      }
      assert FirstKeyAt(m, t, j + 1);
    }
  }

  /** Lines 120-123: after a word ending in punctuation the context is the start tuple;
      otherwise the window slides over the word. */
  function Next(k: nat, ctx: Tuple, w: string): (r: Tuple)
    ensures |ctx| == k && k > 0 ==> |r| == k
  {
    if EndsInPunct(w) then StartTuple(k) else Slide(ctx, w)
  }

  /** The first `n` iterations of the loop of lines 109-123 from context `cur`: each step
      resolves the context, draws one of its successors and moves on. It fails only on an
      empty successor list and otherwise makes one pick per iteration; `WalkIsChain` says
      which picks. */
  function Walk(m: Model, k: nat, cur: Tuple, draws: seq<real>, n: nat): (r: Result<seq<Pick>, GenError>)
    requires ValidModel(m, k) && |cur| == k
    requires n <= |draws| && UnitDraws(draws)
    ensures r.Failure? ==> r.error == EmptySuccessors
    ensures r.Success? ==> |r.value| == n
    decreases n
  {
    if n == 0 then Success([])
    else
      var ctx := Resolve(m, cur);
      var succ := m[ctx];
      if |succ| == 0 then Failure(EmptySuccessors)
      else
        var w := succ[ChoiceIndex(draws[0], |succ|)];
        match Walk(m, k, Next(k, ctx, w), draws[1..], n - 1)
        case Failure(e) => Failure(e)
        case Success(rest) => Success([Pick(ctx, w)] + rest)
  }

  /** The picks a walk from `cur` can make with these draws: each context is a key with a
      non-empty list, and the word is the element of that list the draw selects; the first
      context is `cur` resolved, and each later one is the resolution of `Next` after the
      previous pick. */
  ghost predicate Chain(m: Model, k: nat, cur: Tuple, draws: seq<real>, ps: seq<Pick>)
    requires ValidModel(m, k) && |cur| == k && UnitDraws(draws)
  {
    && |ps| <= |draws|
    && (forall i :: 0 <= i < |ps| ==>
          && ps[i].context in m
          && |m[ps[i].context]| > 0
          && ps[i].word == m[ps[i].context][ChoiceIndex(draws[i], |m[ps[i].context]|)])
    && (|ps| > 0 ==> ps[0].context == Resolve(m, cur))
    && (forall i :: 0 < i < |ps| ==>
          ps[i].context == Resolve(m, Next(k, ps[i - 1].context, ps[i - 1].word)))
  }

  /** A chain whose first pick is the one the walk makes at `cur` continues as a chain from
      the next context, and conversely. */
  lemma ChainCons(m: Model, k: nat, cur: Tuple, draws: seq<real>, ps: seq<Pick>)
    requires ValidModel(m, k) && |cur| == k && UnitDraws(draws)
    requires 0 < |ps| <= |draws|
    requires ps[0].context == Resolve(m, cur) && |m[ps[0].context]| > 0
    requires ps[0].word == m[ps[0].context][ChoiceIndex(draws[0], |m[ps[0].context]|)]
    ensures Chain(m, k, cur, draws, ps)
      <==> Chain(m, k, Next(k, ps[0].context, ps[0].word), draws[1..], ps[1..])
  {
    if Chain(m, k, Next(k, ps[0].context, ps[0].word), draws[1..], ps[1..]) {
      ChainExtend(m, k, cur, draws, ps);
    }
    if Chain(m, k, cur, draws, ps) {
      ChainDropFirst(m, k, cur, draws, ps);
    }
  }

  lemma ChainExtend(m: Model, k: nat, cur: Tuple, draws: seq<real>, ps: seq<Pick>)
    requires ValidModel(m, k) && |cur| == k && UnitDraws(draws)
    requires 0 < |ps| <= |draws|
    requires ps[0].context == Resolve(m, cur) && |m[ps[0].context]| > 0
    requires ps[0].word == m[ps[0].context][ChoiceIndex(draws[0], |m[ps[0].context]|)]
    requires Chain(m, k, Next(k, ps[0].context, ps[0].word), draws[1..], ps[1..])
    ensures Chain(m, k, cur, draws, ps)
  {
    var qs := ps[1..];
    forall i | 0 < i < |ps|
      ensures ps[i].context == Resolve(m, Next(k, ps[i - 1].context, ps[i - 1].word))
    {
      assert ps[i] == qs[i - 1];
      if i > 1 {
        assert ps[i - 1] == qs[i - 2];
      }
    }
    forall i | 0 < i < |ps|
      ensures ps[i].context in m && |m[ps[i].context]| > 0
      ensures ps[i].word == m[ps[i].context][ChoiceIndex(draws[i], |m[ps[i].context]|)]
    {
      assert ps[i] == qs[i - 1] && draws[i] == draws[1..][i - 1];
    }
  }

  lemma ChainDropFirst(m: Model, k: nat, cur: Tuple, draws: seq<real>, ps: seq<Pick>)
    requires ValidModel(m, k) && |cur| == k && UnitDraws(draws)
    requires 0 < |ps| && Chain(m, k, cur, draws, ps)
    ensures Chain(m, k, Next(k, ps[0].context, ps[0].word), draws[1..], ps[1..])
  {
    var qs := ps[1..];
    forall i | 0 <= i < |qs|
      ensures qs[i].context in m && |m[qs[i].context]| > 0
      ensures qs[i].word == m[qs[i].context][ChoiceIndex(draws[1..][i], |m[qs[i].context]|)]
    {
      assert qs[i] == ps[i + 1] && draws[1..][i] == draws[i + 1];
    }
    forall i | 0 < i < |qs|
      ensures qs[i].context == Resolve(m, Next(k, qs[i - 1].context, qs[i - 1].word))
    {
      assert qs[i] == ps[i + 1] && qs[i - 1] == ps[i];
    }
  }

  /** Dropping the first draw keeps the rest in [0, 1). */
  lemma UnitDrawsTail(draws: seq<real>)
    requires UnitDraws(draws) && |draws| > 0
    ensures UnitDraws(draws[1..])
  {
    forall i | 0 <= i < |draws| - 1
      ensures 0.0 <= draws[1..][i] < 1.0
    {
      assert draws[1..][i] == draws[i + 1];
    }
  }

  /** Every pick sequence the walk produces is a chain. */
  lemma {:induction false} WalkChains(m: Model, k: nat, cur: Tuple, draws: seq<real>, n: nat)
    requires ValidModel(m, k) && |cur| == k
    requires n <= |draws| && UnitDraws(draws)
    ensures Walk(m, k, cur, draws, n).Success? ==> Chain(m, k, cur, draws, Walk(m, k, cur, draws, n).value)
    decreases n
  {
    var r := Walk(m, k, cur, draws, n);
    if n > 0 && r.Success? {
      var ctx := Resolve(m, cur);
      var w := m[ctx][ChoiceIndex(draws[0], |m[ctx]|)];
      var nxt := Next(k, ctx, w);
      UnitDrawsTail(draws);
      WalkChains(m, k, nxt, draws[1..], n - 1);
      var rest := Walk(m, k, nxt, draws[1..], n - 1).value;
      assert r.value == [Pick(ctx, w)] + rest;
      assert r.value[1..] == rest;
      ChainCons(m, k, cur, draws, r.value);
    }
  }

  /** One iteration of the walk: the pick at the resolved context, then the walk from the
      next context with the remaining draws. */
  lemma WalkStep(m: Model, k: nat, cur: Tuple, draws: seq<real>, n: nat, ctx: Tuple, w: string)
    requires ValidModel(m, k) && |cur| == k
    requires 0 < n <= |draws| && UnitDraws(draws)
    requires Resolve(m, cur) == ctx && |m[ctx]| > 0
    requires w == m[ctx][ChoiceIndex(draws[0], |m[ctx]|)]
    requires Walk(m, k, Next(k, ctx, w), draws[1..], n - 1).Success?
    ensures Walk(m, k, cur, draws, n)
      == Success([Pick(ctx, w)] + Walk(m, k, Next(k, ctx, w), draws[1..], n - 1).value)
  {
  }

  /** Every chain of length `n` is what the walk produces. */
  lemma {:induction false} ChainIsWalk(m: Model, k: nat, cur: Tuple, draws: seq<real>, ps: seq<Pick>)
    requires ValidModel(m, k) && |cur| == k && UnitDraws(draws)
    requires Chain(m, k, cur, draws, ps)
    ensures Walk(m, k, cur, draws, |ps|) == Success(ps)
    decreases |ps|
  {
    if |ps| > 0 {
      ChainTail(m, k, cur, draws, ps);
      var p := ps[0];
      ChainIsWalk(m, k, Next(k, p.context, p.word), draws[1..], ps[1..]);
      WalkStep(m, k, cur, draws, |ps|, p.context, p.word);
      assert ps == [p] + ps[1..];
    }
  }

  /** A non-empty chain starts with the pick the walk makes at `cur` and goes on as a chain
      from the next context with the remaining draws. */
  lemma ChainTail(m: Model, k: nat, cur: Tuple, draws: seq<real>, ps: seq<Pick>)
    requires ValidModel(m, k) && |cur| == k && UnitDraws(draws)
    requires Chain(m, k, cur, draws, ps) && |ps| > 0
    ensures |ps| <= |draws|
    ensures ps[0].context == Resolve(m, cur) && |m[ps[0].context]| > 0
    ensures ps[0].word == m[ps[0].context][ChoiceIndex(draws[0], |m[ps[0].context]|)]
    ensures UnitDraws(draws[1..])
    ensures Chain(m, k, Next(k, ps[0].context, ps[0].word), draws[1..], ps[1..])
  {
    UnitDrawsTail(draws);
    ChainCons(m, k, cur, draws, ps);
  }

  /** The walk is the unique chain of its length: it succeeds with `ps` exactly when `ps`
      has one pick per iteration and every pick follows from the previous one. */
  lemma WalkIsChain(m: Model, k: nat, cur: Tuple, draws: seq<real>, n: nat, ps: seq<Pick>)
    requires ValidModel(m, k) && |cur| == k
    requires n <= |draws| && UnitDraws(draws)
    ensures Walk(m, k, cur, draws, n) == Success(ps) <==> |ps| == n && Chain(m, k, cur, draws, ps)
  {
    WalkChains(m, k, cur, draws, n);
    if |ps| == n && Chain(m, k, cur, draws, ps) {
      ChainIsWalk(m, k, cur, draws, ps);
    }
  }

  /** The words of a walk, in order. */
  function Words(ps: seq<Pick>): (ws: seq<string>)
    ensures |ws| == |ps|
    ensures forall i :: 0 <= i < |ps| ==> ws[i] == ps[i].word
  {
    seq(|ps|, i requires 0 <= i < |ps| => ps[i].word)
  }

  /** Line 103: the order of the model, the common length of its keys. */
  function Order(m: Model): (k: nat)
    requires exists k :: ValidModel(m, k)
    ensures ValidModel(m, k)
  {
    var k :| ValidModel(m, k);
    k
  }

  /** `gen_from_model(mmodel, numwords)`: fails with `NilModel` on no model and otherwise
      only with `EmptySuccessors`; asking for no words gives the empty string. */
  function Generate(model: Option<Model>, numwords: int, draws: seq<real>): (r: Result<string, GenError>)
    requires model.Some? ==> exists k :: ValidModel(model.value, k)
    requires numwords <= |draws| && UnitDraws(draws)
    ensures model.None? ==> r == Failure(NilModel)
    ensures model.Some? && numwords <= 0 ==> r == Success("")
    ensures model.Some? && r.Failure? ==> r.error == EmptySuccessors
  {
    match model
    case None => Failure(NilModel)
    case Some(m) =>
      var k := Order(m);
      var n := if numwords > 0 then numwords else 0;
      match Walk(m, k, StartTuple(k), draws, n)
      case Failure(e) => Failure(e)
      case Success(picks) => Success(Unwords(Words(picks)))
  }

  /** A successful generation is the words of the walk from the start tuple, each followed
      by one space; when every successor is a whitespace-free word, splitting the output
      gives back exactly those `numwords` words. */
  lemma GenerateOutput(m: Model, k: nat, numwords: nat, draws: seq<real>)
    requires ValidModel(m, k)
    requires numwords <= |draws| && UnitDraws(draws)
    requires forall t, w :: t in m && w in m[t] ==> IsWord(w)
    ensures var r := Generate(Some(m), numwords, draws);
      r.Success? ==>
        exists picks :: Walk(m, k, StartTuple(k), draws, numwords) == Success(picks)
          && r.value == Unwords(Words(picks))
          && Split(r.value) == Words(picks)
          && |Split(r.value)| == numwords
  {
    ValidModelOrder(m, k, Order(m));
    var w := Walk(m, k, StartTuple(k), draws, numwords);
    if w.Success? {
      WalkIsChain(m, k, StartTuple(k), draws, numwords, w.value);
      var ws := Words(w.value);
      forall i | 0 <= i < |ws|
        ensures IsWord(ws[i])
      {
        assert ws[i] in m[w.value[i].context];
      }
      SplitUnwords(ws);
    }
  }

  /** Every word generated is a successor in the model, so it lies in any pool that holds
      all the model's successors. */
  lemma GeneratedWordsFrom(m: Model, k: nat, numwords: nat, draws: seq<real>, pool: seq<string>)
    requires ValidModel(m, k)
    requires numwords <= |draws| && UnitDraws(draws)
    requires forall t, w :: t in m && w in m[t] ==> IsWord(w)
    requires forall t, w :: t in m && w in m[t] ==> w in pool
    ensures var r := Generate(Some(m), numwords, draws);
      r.Success? ==>
        && |Split(r.value)| == numwords
        && forall i :: 0 <= i < numwords ==> Split(r.value)[i] in pool
  {
    GenerateOutput(m, k, numwords, draws);
    var r := Generate(Some(m), numwords, draws);
    if r.Success? {
      var picks: seq<Pick> :| Walk(m, k, StartTuple(k), draws, numwords) == Success(picks)
        && Split(r.value) == Words(picks)
        && |Split(r.value)| == numwords;
      WalkIsChain(m, k, StartTuple(k), draws, numwords, picks);
      forall i | 0 <= i < numwords
        ensures Split(r.value)[i] in pool
      {
        ChainPicksFromModel(m, k, StartTuple(k), draws, picks, i);
      }
    }
  }

  /** Each pick of a chain takes a successor listed under its context. */
  lemma ChainPicksFromModel(m: Model, k: nat, cur: Tuple, draws: seq<real>, ps: seq<Pick>, i: nat)
    requires ValidModel(m, k) && |cur| == k && UnitDraws(draws)
    requires Chain(m, k, cur, draws, ps) && i < |ps|
    ensures ps[i].context in m && ps[i].word in m[ps[i].context]
  {
    var succ := m[ps[i].context];
    assert ps[i].word == succ[ChoiceIndex(draws[i], |succ|)];
  }

  /** A walk over a model whose every list is non-empty never fails. */
  lemma {:induction false} WalkTotal(m: Model, k: nat, cur: Tuple, draws: seq<real>, n: nat)
    requires ValidModel(m, k) && |cur| == k
    requires n <= |draws| && UnitDraws(draws)
    requires forall t :: t in m ==> |m[t]| > 0
    ensures Walk(m, k, cur, draws, n).Success?
    decreases n
  {
    if n > 0 {
      var ctx := Resolve(m, cur);
      var succ := m[ctx];
      var w := succ[ChoiceIndex(draws[0], |succ|)];
      WalkTotal(m, k, Next(k, ctx, w), draws[1..], n - 1);
    }
  }
}
