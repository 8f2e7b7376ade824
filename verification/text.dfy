/** The two Python 2 string operations the builder relies on: `str.replace(c, '')` for a
    single character and `str.split()` with no argument. */
module Text {

  /** Python 2 `str.isspace` on one character of a byte string. */
  predicate IsSpace(c: char) {
    c == ' ' || c == '\t' || c == '\n' || c == '\r' || c == '\U{000B}' || c == '\U{000C}'
  }

  /** A maximal run produced by `split()`: non-empty and free of whitespace. */
  predicate IsWord(w: string) {
    |w| > 0 && forall i :: 0 <= i < |w| ==> !IsSpace(w[i])
  }

  /** The characters of `s` that are not in `drop`, in their original order;
      `s.replace(c, '')` is `Keep(s, {c})`. */
  function Keep(s: string, drop: set<char>): (r: string)
    ensures |r| <= |s|
    ensures forall c :: c in r ==> c in s && c !in drop
  {
    if |s| == 0 then ""
    else
      assert s == [s[0]] + s[1..];
      if s[0] in drop then Keep(s[1..], drop) else [s[0]] + Keep(s[1..], drop)
  }

  /** `Keep` removes every occurrence of the dropped characters and keeps every occurrence
      of the others. */
  lemma {:induction false} KeepCounts(s: string, drop: set<char>, c: char)
    ensures c !in drop ==> multiset(Keep(s, drop))[c] == multiset(s)[c]
    ensures c in drop ==> multiset(Keep(s, drop))[c] == 0
    decreases |s|
  {
    if |s| > 0 {
      KeepCounts(s[1..], drop, c);
      assert s == [s[0]] + s[1..];
      if s[0] !in drop {
        assert Keep(s, drop) == [s[0]] + Keep(s[1..], drop);
      }
    }
  }

  lemma {:induction false} KeepNothing(s: string)
    ensures Keep(s, {}) == s
  {
    if |s| > 0 {
      KeepNothing(s[1..]);
    }
  }

  /** Removing characters the string does not contain leaves it unchanged. */
  lemma {:induction false} KeepNone(s: string, drop: set<char>)
    requires forall i :: 0 <= i < |s| ==> s[i] !in drop
    ensures Keep(s, drop) == s
  {
    if |s| > 0 {
      assert s == [s[0]] + s[1..];
      KeepNone(s[1..], drop);
    }
  }

  /** Removing one set of characters and then another removes their union. */
  lemma {:induction false} KeepTwice(s: string, a: set<char>, b: set<char>)
    ensures Keep(Keep(s, a), b) == Keep(s, a + b)
    decreases |s|
  {
    if |s| > 0 {
      KeepTwice(s[1..], a, b);
      if s[0] !in a {
        assert Keep(s, a) == [s[0]] + Keep(s[1..], a);
        assert Keep(s, a)[1..] == Keep(s[1..], a);
      }
    }
  }

  /** Number of leading whitespace characters. */
  function LeadingSpaces(s: string): (n: nat)
    ensures n <= |s|
    ensures forall i :: 0 <= i < n ==> IsSpace(s[i])
    ensures n < |s| ==> !IsSpace(s[n])
  {
    if |s| == 0 || !IsSpace(s[0]) then 0 else 1 + LeadingSpaces(s[1..])
  }

  /** Number of leading non-whitespace characters. */
  function LeadingWord(s: string): (n: nat)
    ensures n <= |s|
    ensures forall i :: 0 <= i < n ==> !IsSpace(s[i])
    ensures n < |s| ==> IsSpace(s[n])
  {
    if |s| == 0 || IsSpace(s[0]) then 0 else 1 + LeadingWord(s[1..])
  }

  /** The characters on either side of a cut are characters of the whole. */
  lemma SliceChars(s: string, n: nat)
    requires n <= |s|
    ensures forall c :: c in s[..n] ==> c in s
    ensures forall c :: c in s[n..] ==> c in s
  {
    assert s == s[..n] + s[n..];
  }

  /** Python 2 `s.split()`: the maximal whitespace-free runs of `s`, in order; runs of
      whitespace separate them and leading or trailing whitespace yields no empty piece. */
  function Split(s: string): (r: seq<string>)
    ensures forall i :: 0 <= i < |r| ==> IsWord(r[i])
    ensures forall i, c :: 0 <= i < |r| && c in r[i] ==> c in s
    decreases |s|
  {
    var t := s[LeadingSpaces(s)..];
    if |t| == 0 then []
    else
      var n := LeadingWord(t);
      SliceChars(s, LeadingSpaces(s));
      SliceChars(t, n);
      [t[..n]] + Split(t[n..])
  }

  /** Each word followed by one space, the shape in which the generator accumulates its output. */
  function Unwords(ws: seq<string>): string {
    if |ws| == 0 then "" else ws[0] + " " + Unwords(ws[1..])
  }

  lemma SplitLeadingSpace(s: string)
    ensures Split(" " + s) == Split(s)
  {
    var s' := " " + s;
    assert LeadingSpaces(s') == 1 + LeadingSpaces(s);
    assert s'[LeadingSpaces(s')..] == s[LeadingSpaces(s)..];
  }

  lemma LeadingWordOf(w: string, rest: string)
    requires IsWord(w)
    ensures LeadingWord(w + " " + rest) == |w|
    decreases |w|
  {
    var s := w + " " + rest;
    if |w| > 1 {
      assert s[1..] == w[1..] + " " + rest;
      LeadingWordOf(w[1..], rest);
    } else {
      assert s[1..] == " " + rest;
    }
  }

  /** Splitting words that were written out space-separated gives those words back. */
  lemma {:induction false} SplitUnwords(ws: seq<string>)
    requires forall i :: 0 <= i < |ws| ==> IsWord(ws[i])
    ensures Split(Unwords(ws)) == ws
  {
    if |ws| > 0 {
      var w := ws[0];
      var rest := Unwords(ws[1..]);
      var s := Unwords(ws);
      assert s == w + " " + rest;
      assert LeadingSpaces(s) == 0;
      LeadingWordOf(w, rest);
      assert s[..|w|] == w;
      assert s[|w|..] == " " + rest;
      SplitLeadingSpace(rest);
      SplitUnwords(ws[1..]);
    }
  }
}
