/**
 * Python's ordering of `(float, int)` tuples and its `sorted` builtin, as
 * used by `heapq` entries `(priority, index)` and by the median split's
 * `sorted(zip(positions, indices))`.
 */
module Tuples {

  type Keyed = (real, nat)

  /** Tuple `<`: compare the first components, then the second. */
  predicate LexLess(a: Keyed, b: Keyed)
  {
    a.0 < b.0 || (a.0 == b.0 && a.1 < b.1)
  }

  /** Tuple `<=`. */
  predicate LexLe(a: Keyed, b: Keyed)
  {
    a.0 < b.0 || (a.0 == b.0 && a.1 <= b.1)
  }

  predicate SortedLex(s: seq<Keyed>)
  {
    forall i, j :: 0 <= i < j < |s| ==> LexLe(s[i], s[j])
  }

  /** Inserts `x` into a sorted sequence. */
  function Insert(x: Keyed, s: seq<Keyed>): (r: seq<Keyed>)
    requires SortedLex(s)
    ensures SortedLex(r)
    ensures multiset(r) == multiset(s) + multiset{x}
  {
    if s == [] then [x]
    else if LexLe(x, s[0]) then [x] + s
    else
      var rest := Insert(x, s[1..]);
      assert s == [s[0]] + s[1..];
      InsertAbove(x, s, rest);
      [s[0]] + rest
  }

  /** Every element of `rest`, the insertion of `x` into `s[1..]`, is at least `s[0]`. */
  lemma InsertAbove(x: Keyed, s: seq<Keyed>, rest: seq<Keyed>)
    requires SortedLex(s) && s != [] && !LexLe(x, s[0])
    requires multiset(rest) == multiset(s[1..]) + multiset{x}
    ensures forall j :: 0 <= j < |rest| ==> LexLe(s[0], rest[j])
  {
    forall j | 0 <= j < |rest| ensures LexLe(s[0], rest[j]) {
      var y := rest[j];
      assert y in multiset(rest);
      if y != x {
        assert y in multiset(s[1..]);
        var k :| 0 <= k < |s[1..]| && s[1..][k] == y;
        assert s[k + 1] == y;
      }
    }
  }

  /** `sorted(s)`: an ascending permutation of `s`. */
  function Sorted(s: seq<Keyed>): (r: seq<Keyed>)
    ensures SortedLex(r)
    ensures multiset(r) == multiset(s)
  {
    if s == [] then []
    else
      assert s == [s[0]] + s[1..];
      Insert(s[0], Sorted(s[1..]))
  }

  /** `zip(a, b)` for equally long lists. */
  function Zip(a: seq<real>, b: seq<nat>): (r: seq<Keyed>)
    requires |a| == |b|
  {
    seq(|a|, k requires 0 <= k < |a| => (a[k], b[k]))
  }

  /** `[x for _, x in s]`. */
  function Seconds(s: seq<Keyed>): (r: seq<nat>)
  {
    seq(|s|, k requires 0 <= k < |s| => s[k].1)
  }

  lemma SecondsConcat(a: seq<Keyed>, b: seq<Keyed>)
    ensures Seconds(a + b) == Seconds(a) + Seconds(b)
  {
  }

  lemma {:induction false} InsertSeconds(x: Keyed, s: seq<Keyed>)
    requires SortedLex(s)
    ensures multiset(Seconds(Insert(x, s))) == multiset(Seconds(s)) + multiset{x.1}
  {
    if s == [] {
      assert Seconds([x]) == [x.1];
    } else if LexLe(x, s[0]) {
      assert Insert(x, s) == [x] + s;
      SecondsConcat([x], s);
      assert Seconds([x]) == [x.1];
    } else {
      var rest := Insert(x, s[1..]);
      InsertSeconds(x, s[1..]);
      assert Insert(x, s) == [s[0]] + rest;
      SecondsConcat([s[0]], rest);
      assert Seconds([s[0]]) == [s[0].1];
      SecondsCons(s);
      calc {
        multiset(Seconds(Insert(x, s)));
        multiset([s[0].1] + Seconds(rest));
        multiset{s[0].1} + multiset(Seconds(s[1..])) + multiset{x.1};
        multiset(Seconds(s)) + multiset{x.1};
      }
    }
  }

  /** Sorting permutes the second components too. */
  lemma {:induction false} SortedSeconds(s: seq<Keyed>)
    ensures multiset(Seconds(Sorted(s))) == multiset(Seconds(s))
  {
    if s != [] {
      var rest := Sorted(s[1..]);
      SortedSeconds(s[1..]);
      InsertSeconds(s[0], rest);
      SecondsCons(s);
      calc {
        multiset(Seconds(Sorted(s)));
        multiset(Seconds(Insert(s[0], rest)));
        multiset(Seconds(rest)) + multiset{s[0].1};
        multiset(Seconds(s[1..])) + multiset{s[0].1};
        multiset([s[0].1] + Seconds(s[1..]));
        multiset(Seconds(s));
      }
    }
  }

  lemma SecondsCons(s: seq<Keyed>)
    requires s != []
    ensures Seconds(s) == [s[0].1] + Seconds(s[1..])
  {
    assert s == [s[0]] + s[1..];
    SecondsConcat([s[0]], s[1..]);
  }
}
