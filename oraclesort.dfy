/** The orders the oracle sorts by (oracle/oracle.cpp), and a sort that meets them. Each
    comparator of the source is a lexicographic order on a triple of integers computed from the
    element, so one sort serves them all. The library sort of the source is not stable; the
    model's insertion sort is one admissible outcome: any result of the library sort is a
    permutation ordered the same way, and differs at most among elements of equal key. */
module OracleSort {

  datatype Key = Key(a: int, b: int, c: int)

  /** Lexicographic order on keys. */
  predicate KeyLe(x: Key, y: Key) {
    x.a < y.a || (x.a == y.a && (x.b < y.b || (x.b == y.b && x.c <= y.c)))
  }

  lemma KeyLeTotal(x: Key, y: Key)
    ensures KeyLe(x, y) || KeyLe(y, x)
  {
  }

  lemma KeyLeTrans(x: Key, y: Key, z: Key)
    requires KeyLe(x, y) && KeyLe(y, z)
    ensures KeyLe(x, z)
  {
  }

  ghost predicate SortedBy<T(!new)>(s: seq<T>, key: T -> Key) {
    forall i, j :: 0 <= i < j < |s| ==> KeyLe(key(s[i]), key(s[j]))
  }

  /** `x` placed into the sorted `s` before the first element it does not follow. */
  function Insert<T(!new)>(x: T, s: seq<T>, key: T -> Key): (r: seq<T>)
    ensures multiset(r) == multiset(s) + multiset{x}
    ensures SortedBy(s, key) ==> SortedBy(r, key)
    decreases |s|
  {
    if s == [] then [x]
    else if KeyLe(key(x), key(s[0])) then
      assert SortedBy(s, key) ==> SortedBy([x] + s, key) by {
        if SortedBy(s, key) { PrependSorted(x, s, key); }
      }
      [x] + s
    else
      var rest := Insert(x, s[1..], key);
      assert s == [s[0]] + s[1..];
      assert SortedBy(s, key) ==> SortedBy([s[0]] + rest, key) by {
        if SortedBy(s, key) {
          KeyLeTotal(key(x), key(s[0]));
          ConsSorted(s[0], s[1..], x, rest, key);
        }
      }
      [s[0]] + rest
  }

  /** An element that does not follow the head of a sorted sequence can go in front of it. */
  lemma PrependSorted<T(!new)>(x: T, s: seq<T>, key: T -> Key)
    requires s != [] && SortedBy(s, key) && KeyLe(key(x), key(s[0]))
    ensures SortedBy([x] + s, key)
  {
    forall j | 0 < j < |s| + 1
      ensures KeyLe(key(x), key(([x] + s)[j]))
    {
      if j > 1 { KeyLeTrans(key(x), key(s[0]), key(s[j - 1])); }
    }
  }

  /** A head that follows none of `t` and not `x` stays in front once `x` is inserted into `t`. */
  lemma ConsSorted<T(!new)>(y: T, t: seq<T>, x: T, rest: seq<T>, key: T -> Key)
    requires SortedBy([y] + t, key) && SortedBy(rest, key) && KeyLe(key(y), key(x))
    requires multiset(rest) == multiset(t) + multiset{x}
    ensures SortedBy([y] + rest, key)
  {
    forall j | 0 <= j < |rest|
      ensures KeyLe(key(y), key(rest[j]))
    {
      assert rest[j] in multiset(t) + multiset{x};
      if rest[j] != x {
        assert rest[j] in t;
        var k :| 0 <= k < |t| && t[k] == rest[j];
        assert ([y] + t)[0] == y && ([y] + t)[k + 1] == rest[j];
      }
    }
    forall i, j | 0 <= i < j < |rest| + 1
      ensures KeyLe(key(([y] + rest)[i]), key(([y] + rest)[j]))
    {
      if i > 0 { assert ([y] + rest)[i] == rest[i - 1] && ([y] + rest)[j] == rest[j - 1]; }
    }
  }

  /** The elements of `s` in key order: a permutation of `s`, sorted. */
  function Sort<T(!new)>(s: seq<T>, key: T -> Key): (r: seq<T>)
    ensures multiset(r) == multiset(s) && |r| == |s|
    ensures SortedBy(r, key)
    decreases |s|
  {
    if s == [] then []
    else
      assert s == [s[0]] + s[1..];
      Insert(s[0], Sort(s[1..], key), key)
  }

  /** `LearnUip`'s order on the learned literals: decision level descending, ties by literal id. */
  function LearntKey(level: nat -> int): nat -> Key {
    (l: nat) => Key(-level(l), l, 0)
  }

  /** `ResizeClauseDb`'s order on clause metadata: glue -1 first, then `used` descending, then
      `total_used` descending; among glue -1 entries no order. */
  function InfoKey(glue: int, used: int, totalUsed: int): Key {
    if glue == -1 then Key(0, 0, 0) else Key(1, -used, -totalUsed)
  }

  /** Literal ids ascending, as `GetLearnedClauses` outputs each clause. */
  function LitKey(l: nat): Key {
    Key(l, 0, 0)
  }

  /** The comparator `ResizeClauseDb` passes to the sort, on (glue, used, total_used). */
  predicate InfoLess(ga: int, ua: int, ta: int, gb: int, ub: int, tb: int) {
    if ga == -1 || gb == -1 then ga < gb
    else if ua != ub then ua > ub
    else ta > tb
  }

  /** On glues that are -1 or non-negative, the key order is exactly the comparator's order:
      `a` sorts strictly before `b` iff the key of `b` does not come up to the key of `a`. */
  lemma InfoKeyMatches(ga: int, ua: int, ta: int, gb: int, ub: int, tb: int)
    requires ga >= -1 && gb >= -1
    ensures InfoLess(ga, ua, ta, gb, ub, tb) <==> !KeyLe(InfoKey(gb, ub, tb), InfoKey(ga, ua, ta))
  {
  }

  /** The comparator `LearnUip` passes to the sort, on (level, literal). */
  predicate LearntLess(d1: int, l1: nat, d2: int, l2: nat) {
    if d1 == d2 then l1 < l2 else d1 > d2
  }

  lemma LearntKeyMatches(level: nat -> int, l1: nat, l2: nat)
    ensures LearntLess(level(l1), l1, level(l2), l2) <==> !KeyLe(LearntKey(level)(l2), LearntKey(level)(l1))
  {
  }
}
