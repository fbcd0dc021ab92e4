/**
 * Rendering of a header dictionary as log text: one line "<name>: <value>\n"
 * per entry, appended in iteration order to an initially empty string.
 *
 * A dictionary's iteration order is unspecified, so a header collection is
 * modelled as the sequence of its entries in the order they are visited;
 * IsIterationOrder ties such a sequence to the dictionary it enumerates.
 */
module HeadersExtensions {

  /** One header entry: (name, value). */
  type Entry = (string, string)

  /** A header collection, as its entries in iteration order. */
  type Headers = seq<Entry>

  /** No two entries share a name, as in a dictionary. */
  predicate DistinctNames(h: Headers) {
    forall i, j :: 0 <= i < j < |h| ==> h[i].0 != h[j].0
  }

  /** h visits every entry of the dictionary m exactly once. */
  predicate IsIterationOrder(h: Headers, m: map<string, string>) {
    && DistinctNames(h)
    && (forall i :: 0 <= i < |h| ==> h[i].0 in m && m[h[i].0] == h[i].1)
    && (forall name :: name in m ==> (name, m[name]) in h)
  }

  /** The piece rendered for one entry: name, ": ", value, newline. */
  function Piece(e: Entry): (p: string)
    ensures |p| == |e.0| + |e.1| + 3
    ensures p[..|e.0|] == e.0 && p[|e.0|..|e.0| + 2] == ": "
    ensures p[|e.0| + 2..|p| - 1] == e.1 && p[|p| - 1] == '\n'
  {
    e.0 + ": " + e.1 + "\n"
  }

  /** One step of the fold: the partial result with the entry's piece appended. */
  function Step(partial: string, e: Entry): (r: string)
    ensures |r| == |partial| + |Piece(e)|
    ensures r[..|partial|] == partial && r[|partial|..] == Piece(e)
  {
    partial + Piece(e)
  }

  /** Left fold of Step over the entries, front to back, from `initial`. */
  function Reduce(initial: string, h: Headers): string
    decreases |h|
  {
    if h == [] then initial else Reduce(Step(initial, h[0]), h[1..])
  }

  /** The formatted header text: the fold seeded with the empty string. */
  function Formatted(h: Headers): string {
    Reduce("", h)
  }

  // ----- Reference definitions -----

  /** In-order concatenation of the entries' pieces. */
  function Concat(h: Headers): string
    decreases |h|
  {
    if h == [] then "" else Piece(h[0]) + Concat(h[1..])
  }

  /** Sum over the entries of |name| + |value| + 3. */
  function TotalLength(h: Headers): nat
    decreases |h|
  {
    if h == [] then 0 else |h[0].0| + |h[0].1| + 3 + TotalLength(h[1..])
  }

  /** p occurs in s starting at offset o. */
  predicate OccursAt(p: string, s: string, o: int) {
    0 <= o && o + |p| <= |s| && s[o..o + |p|] == p
  }

  // ----- Lemmas -----

  /** The fold from any seed is the seed followed by the in-order concatenation. */
  lemma {:induction false} ReduceIsConcat(initial: string, h: Headers)
    ensures Reduce(initial, h) == initial + Concat(h)
    decreases |h|
  {
    if h != [] {
      ReduceIsConcat(Step(initial, h[0]), h[1..]);
      assert Step(initial, h[0]) + Concat(h[1..]) == initial + (Piece(h[0]) + Concat(h[1..]));
    }
  }

  /** The formatted text is the in-order concatenation of the pieces. */
  lemma FormattedIsConcat(h: Headers)
    ensures Formatted(h) == Concat(h)
  {
    ReduceIsConcat("", h);
  }

  /** An empty collection formats to the empty string. */
  lemma FormattedEmpty()
    ensures Formatted([]) == ""
  {
  }

  lemma {:induction false} ConcatAppend(a: Headers, b: Headers)
    ensures Concat(a + b) == Concat(a) + Concat(b)
    decreases |a|
  {
    if a == [] {
      assert a + b == b;
    } else {
      assert (a + b)[1..] == a[1..] + b;
      ConcatAppend(a[1..], b);
    }
  }

  lemma ConcatAppendOne(s: Headers, e: Entry)
    ensures Concat(s + [e]) == Concat(s) + Piece(e)
  {
    ConcatAppend(s, [e]);
    assert Concat([e]) == Piece(e) + Concat([]);
  }

  /** Each fold step appends exactly the new entry's piece. */
  lemma FormattedAppend(s: Headers, name: string, value: string)
    ensures Formatted(s + [(name, value)]) == Formatted(s) + (name + ": " + value + "\n")
  {
    ConcatAppendOne(s, (name, value));
    ReduceIsConcat("", s + [(name, value)]);
    ReduceIsConcat("", s);
  }

  lemma {:induction false} ConcatLength(h: Headers)
    ensures |Concat(h)| == TotalLength(h)
    decreases |h|
  {
    if h != [] {
      ConcatLength(h[1..]);
    }
  }

  /** The output length is the sum of |name| + |value| + 3 over the entries. */
  lemma FormattedLength(h: Headers)
    ensures |Formatted(h)| == TotalLength(h)
  {
    FormattedIsConcat(h);
    ConcatLength(h);
  }

  lemma {:induction false} TotalLengthAppend(a: Headers, b: Headers)
    ensures TotalLength(a + b) == TotalLength(a) + TotalLength(b)
    decreases |a|
  {
    if a == [] {
      assert a + b == b;
    } else {
      assert (a + b)[1..] == a[1..] + b;
      TotalLengthAppend(a[1..], b);
    }
  }

  lemma {:induction false} TotalLengthPermutation(h1: Headers, h2: Headers)
    requires multiset(h1) == multiset(h2)
    ensures TotalLength(h1) == TotalLength(h2)
    decreases |h1|
  {
    if h1 != [] {
      var e := h1[0];
      assert e in multiset(h2);
      var i :| 0 <= i < |h2| && h2[i] == e;
      var rest := h2[..i] + h2[i + 1..];
      assert h2 == h2[..i] + [e] + h2[i + 1..];
      assert h1 == [e] + h1[1..];
      assert multiset(h2) == multiset(h2[..i]) + multiset([e]) + multiset(h2[i + 1..]);
      assert multiset(rest) == multiset(h2[..i]) + multiset(h2[i + 1..]);
      assert multiset(h1) == multiset([e]) + multiset(h1[1..]);
      assert multiset(rest) == multiset(h2) - multiset{e};
      assert multiset(h1[1..]) == multiset(h1) - multiset{e};
      TotalLengthPermutation(h1[1..], rest);
      TotalLengthAppend(h2[..i] + [e], h2[i + 1..]);
      TotalLengthAppend(h2[..i], [e]);
      TotalLengthAppend(h2[..i], h2[i + 1..]);
    }
  }

  /** Reordering the entries never changes the output length. */
  lemma FormattedLengthPermutation(h1: Headers, h2: Headers)
    requires multiset(h1) == multiset(h2)
    ensures |Formatted(h1)| == |Formatted(h2)|
  {
    FormattedLength(h1);
    FormattedLength(h2);
    TotalLengthPermutation(h1, h2);
  }

  lemma {:induction false} DistinctCount(h: Headers, e: Entry)
    requires DistinctNames(h)
    ensures multiset(h)[e] == if e in h then 1 else 0
    decreases |h|
  {
    if h != [] {
      assert h == [h[0]] + h[1..];
      assert DistinctNames(h[1..]) by {
        forall i, j | 0 <= i < j < |h[1..]| ensures h[1..][i].0 != h[1..][j].0 {
          assert h[1..][i] == h[i + 1] && h[1..][j] == h[j + 1];
        }
      }
      DistinctCount(h[1..], e);
      if e == h[0] {
        assert e !in h[1..] by {
          forall j | 0 <= j < |h[1..]| ensures h[1..][j] != e {
            assert h[1..][j] == h[j + 1];
          }
        }
      }
    }
  }

  /** Two iteration orders of one dictionary hold the same entries. */
  lemma IterationOrdersArePermutations(h1: Headers, h2: Headers, m: map<string, string>)
    requires IsIterationOrder(h1, m) && IsIterationOrder(h2, m)
    ensures multiset(h1) == multiset(h2)
  {
    forall e: Entry ensures multiset(h1)[e] == multiset(h2)[e] {
      DistinctCount(h1, e);
      DistinctCount(h2, e);
      if e in h1 {
        var i :| 0 <= i < |h1| && h1[i] == e;
        assert (e.0, m[e.0]) in h2;
      }
      if e in h2 {
        var i :| 0 <= i < |h2| && h2[i] == e;
        assert (e.0, m[e.0]) in h1;
      }
    }
  }

  /** The output length of a dictionary does not depend on its iteration order. */
  lemma FormattedLengthIndependentOfOrder(h1: Headers, h2: Headers, m: map<string, string>)
    requires IsIterationOrder(h1, m) && IsIterationOrder(h2, m)
    ensures |Formatted(h1)| == |Formatted(h2)|
  {
    IterationOrdersArePermutations(h1, h2, m);
    FormattedLengthPermutation(h1, h2);
  }

  /** A non-empty collection formats to text ending in a newline. */
  lemma FormattedEndsWithNewline(h: Headers)
    requires h != []
    ensures |Formatted(h)| > 0 && Formatted(h)[|Formatted(h)| - 1] == '\n'
  {
    var last := h[|h| - 1];
    assert h == h[..|h| - 1] + [(last.0, last.1)];
    FormattedAppend(h[..|h| - 1], last.0, last.1);
  }

  /** Entry j's piece occurs contiguously, right after the text of the entries before it. */
  lemma PieceOccurs(h: Headers, j: nat)
    requires j < |h|
    ensures OccursAt(Piece(h[j]), Formatted(h), |Formatted(h[..j])|)
  {
    var pre, rest := h[..j], h[j + 1..];
    assert h == pre + ([h[j]] + rest);
    ConcatAppend(pre, [h[j]] + rest);
    ConcatAppend([h[j]], rest);
    assert Concat([h[j]]) == Piece(h[j]);
    FormattedIsConcat(h);
    FormattedIsConcat(pre);
    assert Formatted(h) == Concat(pre) + Piece(h[j]) + Concat(rest);
  }

  /** Every entry of the dictionary has its piece somewhere in the output. */
  lemma EveryEntryOccurs(h: Headers, m: map<string, string>, name: string)
    requires IsIterationOrder(h, m) && name in m
    ensures exists o :: OccursAt(Piece((name, m[name])), Formatted(h), o)
  {
    assert (name, m[name]) in h;
    var j :| 0 <= j < |h| && h[j] == (name, m[name]);
    PieceOccurs(h, j);
  }

  // ----- The output determines the entries -----

  /** A name without ':' or a newline and a value without a newline, as in
      real HTTP headers. */
  predicate WellFormed(e: Entry) {
    ':' !in e.0 && '\n' !in e.0 && '\n' !in e.1
  }

  /** Two prefixes of s that each end just before a c, and hold no c, are equal. */
  lemma FirstOccurrenceUnique(c: char, a: string, b: string, s: string)
    requires c !in a && c !in b
    requires |a| < |s| && s[..|a|] == a && s[|a|] == c
    requires |b| < |s| && s[..|b|] == b && s[|b|] == c
    ensures a == b
  {
  }

  /** Where the name, the ':', the value and the newline sit in a piece followed by any text. */
  lemma PieceLayout(e: Entry, r: string)
    ensures var u, o := Piece(e) + r, |e.0| + 2;
      && |e.0| < |u| && u[..|e.0|] == e.0 && u[|e.0|] == ':'
      && o <= |u| && |e.1| < |u[o..]| && u[o..][..|e.1|] == e.1 && u[o..][|e.1|] == '\n'
      && u[|Piece(e)|..] == r
  {
    var u, p, o := Piece(e) + r, Piece(e), |e.0| + 2;
    assert u[..|p|] == p;
    assert u[o..][..|e.1|] == p[o..|p| - 1];
  }

  lemma PiecePrefixUnique(e1: Entry, r1: string, e2: Entry, r2: string)
    requires WellFormed(e1) && WellFormed(e2)
    requires Piece(e1) + r1 == Piece(e2) + r2
    ensures e1 == e2 && r1 == r2
  {
    var s := Piece(e1) + r1;
    PieceLayout(e1, r1);
    PieceLayout(e2, r2);
    // The first ':' of s ends the name.
    FirstOccurrenceUnique(':', e1.0, e2.0, s);
    // After the name and ": ", the first newline ends the value.
    FirstOccurrenceUnique('\n', e1.1, e2.1, s[|e1.0| + 2..]);
  }

  lemma {:induction false} ConcatInjective(h1: Headers, h2: Headers)
    requires forall i :: 0 <= i < |h1| ==> WellFormed(h1[i])
    requires forall i :: 0 <= i < |h2| ==> WellFormed(h2[i])
    requires Concat(h1) == Concat(h2)
    ensures h1 == h2
    decreases |h1|
  {
    ConcatLength(h1);
    ConcatLength(h2);
    if h1 != [] && h2 != [] {
      PiecePrefixUnique(h1[0], Concat(h1[1..]), h2[0], Concat(h2[1..]));
      ConcatInjective(h1[1..], h2[1..]);
      assert h1 == [h1[0]] + h1[1..];
      assert h2 == [h2[0]] + h2[1..];
    }
  }

  /** With well-formed entries, the formatted text determines the entries and
      their order: the first ':' ends the name and the first newline after it
      ends the value. */
  lemma FormattedInjective(h1: Headers, h2: Headers)
    requires forall i :: 0 <= i < |h1| ==> WellFormed(h1[i])
    requires forall i :: 0 <= i < |h2| ==> WellFormed(h2[i])
    requires Formatted(h1) == Formatted(h2)
    ensures h1 == h2
  {
    FormattedIsConcat(h1);
    FormattedIsConcat(h2);
    ConcatInjective(h1, h2);
  }
}
