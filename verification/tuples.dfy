/** Context tuples and the back-off step `back_up_tuple` (markov.py:74-89). */
module Tuples {
  import opened Symbols

  /** A context tuple: `k` tokens, each a word or the start marker. */
  type Tuple = seq<string>

  /** A Markov model: each context tuple maps to its successor words, duplicates kept. */
  type Model = map<Tuple, seq<string>>

  /** `(START_CHAR,)*k`. */
  function StartTuple(k: nat): (t: Tuple)
    ensures |t| == k
    ensures forall i :: 0 <= i < k ==> t[i] == StartMarker
  {
    seq(k, _ => StartMarker)
  }

  lemma StartTupleCons(k: nat)
    ensures StartTuple(k + 1) == [StartMarker] + StartTuple(k)
    ensures StartTuple(k + 1)[1..] == StartTuple(k)
  {
    assert StartTuple(k + 1)[1..] == StartTuple(k);
  }

  /** `t[1:] + (w,)`: drop the oldest element and append `w` (Python's slice of an empty
      tuple is empty). */
  function Slide(t: Tuple, w: string): (r: Tuple)
    ensures |r| == if |t| > 0 then |t| else 1
    ensures |r| > 0 && r[|r| - 1] == w
    ensures forall i :: 0 <= i < |r| - 1 ==> r[i] == t[i + 1]
  {
    (if |t| > 0 then t[1..] else []) + [w]
  }

  /** The number of start markers in a tuple. */
  function CountMarkers(t: Tuple): (n: nat)
    ensures n <= |t|
  {
    if |t| == 0 then 0 else (if t[0] == StartMarker then 1 else 0) + CountMarkers(t[1..])
  }

  /** A tuple consists of markers only exactly when its marker count is its length. */
  lemma {:induction false} CountMarkersFull(t: Tuple)
    ensures CountMarkers(t) == |t| <==> t == StartTuple(|t|)
  {
    if |t| > 0 {
      CountMarkersFull(t[1..]);
      StartTupleCons(|t| - 1);
      if t == StartTuple(|t|) {
        assert t[1..] == StartTuple(|t| - 1);
      }
      if CountMarkers(t) == |t| {
        assert t[0] == StartMarker;
        assert t == [t[0]] + t[1..];
      }
    }
  }

  /** Position of the first element that is not the start marker. */
  function FirstReal(t: Tuple): (j: nat)
    requires t != StartTuple(|t|)
    ensures j < |t| && t[j] != StartMarker
    ensures forall i :: 0 <= i < j ==> t[i] == StartMarker
    decreases |t|
  {
    assert |t| > 0;
    if t[0] != StartMarker then 0
    else
      StartTupleCons(|t| - 1);
      assert t == [t[0]] + t[1..];
      1 + FirstReal(t[1..])
  }

  /** `back_up_tuple`: the all-marker tuple is returned unchanged; otherwise the first
      element that is not the marker becomes the marker. Length is preserved. */
  function BackUp(t: Tuple): (r: Tuple)
    ensures |r| == |t|
    decreases |t|
  {
    if t == StartTuple(|t|) then t
    else if t[0] == StartMarker then [StartMarker] + BackUp(t[1..])
    else [StartMarker] + t[1..]
  }

  /** The start tuple is the fixed point of back-off. */
  lemma BackUpStart(k: nat)
    ensures BackUp(StartTuple(k)) == StartTuple(k)
  {
  }

  /** On any other tuple, back-off replaces exactly the first non-marker element with the
      marker and leaves every other position as it was. */
  lemma {:induction false} BackUpReplacesFirstReal(t: Tuple)
    requires t != StartTuple(|t|)
    ensures BackUp(t) == t[FirstReal(t) := StartMarker]
    decreases |t|
  {
    if t[0] == StartMarker {
      StartTupleCons(|t| - 1);
      assert t == [t[0]] + t[1..];
      assert t[1..] != StartTuple(|t| - 1);
      BackUpReplacesFirstReal(t[1..]);
      assert FirstReal(t) == 1 + FirstReal(t[1..]);
    }
  }

  /** Away from the fixed point, back-off adds exactly one marker. */
  lemma {:induction false} BackUpAddsMarker(t: Tuple)
    requires t != StartTuple(|t|)
    ensures CountMarkers(BackUp(t)) == CountMarkers(t) + 1
    decreases |t|
  {
    var r := BackUp(t);
    StartTupleCons(|t| - 1);
    if t[0] == StartMarker {
      assert t == [t[0]] + t[1..];
      assert t[1..] != StartTuple(|t| - 1);
      BackUpAddsMarker(t[1..]);
      assert r[1..] == BackUp(t[1..]);
    } else {
      assert r[1..] == t[1..];
    }
  }

  /** `n` successive applications of back-off. */
  function BackUpIter(t: Tuple, n: nat): (r: Tuple)
    decreases n
  {
    if n == 0 then t else BackUpIter(BackUp(t), n - 1)
  }

  /** Each application adds one marker until every position holds one. */
  lemma {:induction false} BackUpIterCount(t: Tuple, n: nat)
    ensures |BackUpIter(t, n)| == |t|
    ensures CountMarkers(BackUpIter(t, n)) ==
      if CountMarkers(t) + n <= |t| then CountMarkers(t) + n else |t|
    decreases n
  {
    if n > 0 {
      CountMarkersFull(t);
      if t == StartTuple(|t|) {
        BackUpIterCount(t, n - 1);
      } else {
        BackUpAddsMarker(t);
        BackUpIterCount(BackUp(t), n - 1);
      }
    }
  }

  /** Back-off reaches the start tuple after as many steps as the tuple has real words, so
      within `|t|` steps, and stays there. */
  lemma BackUpReachesStart(t: Tuple, n: nat)
    requires n >= |t| - CountMarkers(t)
    ensures BackUpIter(t, n) == StartTuple(|t|)
  {
    BackUpIterCount(t, n);
    CountMarkersFull(BackUpIter(t, n));
  }
}
