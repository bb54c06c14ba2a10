/** The ordering Rust uses for `String` (`Ord for str`: lexicographic over the
    UTF-8 bytes, which is the same as lexicographic over code points) and the
    library sort that `Vec::sort` and `Vec::sort_by` perform, given here as an
    insertion sort on a key. */
module Sorting {

  /** Lexicographic order on strings by code point; a proper prefix comes first. */
  predicate LexLe(a: string, b: string)
    decreases |a|
  {
    |a| == 0 || (|b| > 0 && (a[0] < b[0] || (a[0] == b[0] && LexLe(a[1..], b[1..]))))
  }

  lemma {:induction false} LexLeTotal(a: string, b: string)
    ensures LexLe(a, b) || LexLe(b, a)
    decreases |a|
  {
    if |a| > 0 && |b| > 0 && a[0] == b[0] {
      LexLeTotal(a[1..], b[1..]);
    }
  }

  lemma {:induction false} LexLeTransitive(a: string, b: string, c: string)
    requires LexLe(a, b) && LexLe(b, c)
    ensures LexLe(a, c)
    decreases |a|
  {
    if |a| > 0 && a[0] == b[0] && b[0] == c[0] {
      LexLeTransitive(a[1..], b[1..], c[1..]);
    }
  }

  lemma {:induction false} LexLeAntisymmetric(a: string, b: string)
    requires LexLe(a, b) && LexLe(b, a)
    ensures a == b
    decreases |a|
  {
    if |a| > 0 {
      LexLeAntisymmetric(a[1..], b[1..]);
      assert a == [a[0]] + a[1..];
      assert b == [b[0]] + b[1..];
    }
  }

  /** Every element's key is no greater than the key of every later element. */
  ghost predicate SortedBy<T>(s: seq<T>, key: T -> string) {
    forall i, j :: 0 <= i < j < |s| ==> LexLe(key(s[i]), key(s[j]))
  }

  /** Places `x` before the first element whose key is not below its own. */
  function Insert<T>(x: T, s: seq<T>, key: T -> string): seq<T>
    decreases |s|
  {
    if |s| == 0 then [x]
    else if LexLe(key(x), key(s[0])) then [x] + s
    else [s[0]] + Insert(x, s[1..], key)
  }

  /** The sorted arrangement of `s` by `key`; elements with equal keys keep their
      input order. */
  function SortBy<T>(s: seq<T>, key: T -> string): seq<T>
    decreases |s|
  {
    if |s| == 0 then [] else Insert(s[0], SortBy(s[1..], key), key)
  }

  lemma {:induction false} InsertPermutes<T>(x: T, s: seq<T>, key: T -> string)
    ensures multiset(Insert(x, s, key)) == multiset(s) + multiset{x}
    decreases |s|
  {
    if |s| > 0 && !LexLe(key(x), key(s[0])) {
      InsertPermutes(x, s[1..], key);
      assert s == [s[0]] + s[1..];
    }
  }

  /** Every key in `s` is at least `lo`. */
  ghost predicate Above<T>(lo: string, s: seq<T>, key: T -> string) {
    forall i :: 0 <= i < |s| ==> LexLe(lo, key(s[i]))
  }

  lemma {:induction false} InsertAbove<T>(lo: string, x: T, s: seq<T>, key: T -> string)
    requires LexLe(lo, key(x)) && Above(lo, s, key)
    ensures Above(lo, Insert(x, s, key), key)
    decreases |s|
  {
    if |s| > 0 && !LexLe(key(x), key(s[0])) {
      InsertAbove(lo, x, s[1..], key);
    }
  }

  /** A sequence is sorted when its head is below the rest and the rest is sorted. */
  lemma SortedCons<T>(y: T, s: seq<T>, key: T -> string)
    requires Above(key(y), s, key) && SortedBy(s, key)
    ensures SortedBy([y] + s, key)
  {
    var r := [y] + s;
    forall i, j | 0 <= i < j < |r| ensures LexLe(key(r[i]), key(r[j])) {
      if i == 0 {
        assert r[j] == s[j - 1];
      } else {
        assert r[i] == s[i - 1] && r[j] == s[j - 1];
      }
    }
  }

  lemma {:induction false} InsertSorted<T>(x: T, s: seq<T>, key: T -> string)
    requires SortedBy(s, key)
    ensures SortedBy(Insert(x, s, key), key)
    decreases |s|
  {
    if |s| == 0 {
    } else if LexLe(key(x), key(s[0])) {
      forall i | 0 <= i < |s| ensures LexLe(key(x), key(s[i])) {
        if i > 0 {
          LexLeTransitive(key(x), key(s[0]), key(s[i]));
        }
      }
      SortedCons(x, s, key);
    } else {
      InsertSorted(x, s[1..], key);
      LexLeTotal(key(x), key(s[0]));
      InsertAbove(key(s[0]), x, s[1..], key);
      SortedCons(s[0], Insert(x, s[1..], key), key);
    }
  }

  /** SortBy returns a permutation of its input. */
  lemma {:induction false} SortByPermutes<T>(s: seq<T>, key: T -> string)
    ensures multiset(SortBy(s, key)) == multiset(s)
    decreases |s|
  {
    if |s| > 0 {
      SortByPermutes(s[1..], key);
      InsertPermutes(s[0], SortBy(s[1..], key), key);
      assert s == [s[0]] + s[1..];
    }
  }

  /** SortBy returns its input ordered by key. */
  lemma {:induction false} SortBySorted<T>(s: seq<T>, key: T -> string)
    ensures SortedBy(SortBy(s, key), key)
    decreases |s|
  {
    if |s| > 0 {
      SortBySorted(s[1..], key);
      InsertSorted(s[0], SortBy(s[1..], key), key);
    }
  }
}
