/**
 * Sorting by a key. A derived ordering compares variants and fields in order,
 * which is the lexicographic order of the sequence of their numbers; keys are
 * such sequences.
 */
module Ordering {
  import opened Prelude

  predicate LexLeq(a: seq<int>, b: seq<int>) {
    a == [] || (b != [] && (a[0] < b[0] || (a[0] == b[0] && LexLeq(a[1..], b[1..]))))
  }

  lemma {:induction false} LexTotal(a: seq<int>, b: seq<int>)
    ensures LexLeq(a, b) || LexLeq(b, a)
  {
    if a != [] && b != [] {
      LexTotal(a[1..], b[1..]);
    }
  }

  lemma {:induction false} LexAntisymmetric(a: seq<int>, b: seq<int>)
    requires LexLeq(a, b) && LexLeq(b, a)
    ensures a == b
  {
    if a != [] {
      LexAntisymmetric(a[1..], b[1..]);
      assert a == [a[0]] + a[1..] && b == [b[0]] + b[1..];
    }
  }

  lemma {:induction false} LexTransitive(a: seq<int>, b: seq<int>, c: seq<int>)
    requires LexLeq(a, b) && LexLeq(b, c)
    ensures LexLeq(a, c)
  {
    if a != [] && a[0] == b[0] && b[0] == c[0] {
      LexTransitive(a[1..], b[1..], c[1..]);
    }
  }

  ghost predicate SortedBy<T>(s: seq<T>, key: T -> seq<int>) {
    forall i, j | 0 <= i < j < |s| :: LexLeq(key(s[i]), key(s[j]))
  }

  function Insert<T>(x: T, s: seq<T>, key: T -> seq<int>): seq<T> {
    if s == [] then [x]
    else if LexLeq(key(x), key(s[0])) then [x] + s
    else [s[0]] + Insert(x, s[1..], key)
  }

  function Sort<T>(s: seq<T>, key: T -> seq<int>): seq<T> {
    if s == [] then [] else Insert(s[0], Sort(s[1..], key), key)
  }

  lemma {:induction false} InsertPermutes<T>(x: T, s: seq<T>, key: T -> seq<int>)
    ensures multiset(Insert(x, s, key)) == multiset{x} + multiset(s)
  {
    if s != [] && !LexLeq(key(x), key(s[0])) {
      InsertPermutes(x, s[1..], key);
      assert s == [s[0]] + s[1..];
    }
  }

  lemma {:induction false} SortPermutes<T>(s: seq<T>, key: T -> seq<int>)
    ensures multiset(Sort(s, key)) == multiset(s)
  {
    if s != [] {
      SortPermutes(s[1..], key);
      InsertPermutes(s[0], Sort(s[1..], key), key);
      assert s == [s[0]] + s[1..];
    }
  }

  lemma {:induction false} InsertSorted<T>(x: T, s: seq<T>, key: T -> seq<int>)
    requires SortedBy(s, key)
    ensures SortedBy(Insert(x, s, key), key)
  {
    if s != [] {
      if LexLeq(key(x), key(s[0])) {
        forall j | 0 <= j < |s| ensures LexLeq(key(x), key(s[j])) {
          if j > 0 {
            LexTransitive(key(x), key(s[0]), key(s[j]));
          }
        }
      } else {
        InsertSorted(x, s[1..], key);
        InsertPermutes(x, s[1..], key);
        var rest := Insert(x, s[1..], key);
        LexTotal(key(x), key(s[0]));
        forall j | 0 <= j < |rest| ensures LexLeq(key(s[0]), key(rest[j])) {
          assert rest[j] in multiset(rest);
          assert rest[j] == x || rest[j] in s[1..];
        }
      }
    }
  }

  lemma {:induction false} SortSorts<T>(s: seq<T>, key: T -> seq<int>)
    ensures SortedBy(Sort(s, key), key)
  {
    if s != [] {
      SortSorts(s[1..], key);
      InsertSorted(s[0], Sort(s[1..], key), key);
    }
  }

  function HasKey<T>(key: T -> seq<int>, k: seq<int>): T -> bool { (x: T) => key(x) == k }

  lemma {:induction false} InsertIsStable<T>(x: T, s: seq<T>, key: T -> seq<int>, k: seq<int>)
    ensures Filter(Insert(x, s, key), HasKey(key, k)) ==
            (if key(x) == k then [x] else []) + Filter(s, HasKey(key, k))
  {
    if s != [] && !LexLeq(key(x), key(s[0])) {
      LexTotal(key(x), key(x));
      InsertIsStable(x, s[1..], key, k);
    }
  }

  /** Elements of equal key keep their order. */
  lemma {:induction false} SortIsStable<T>(s: seq<T>, key: T -> seq<int>, k: seq<int>)
    ensures Filter(Sort(s, key), HasKey(key, k)) == Filter(s, HasKey(key, k))
  {
    if s != [] {
      SortIsStable(s[1..], key, k);
      InsertIsStable(s[0], Sort(s[1..], key), key, k);
    }
  }

  ghost predicate InjectiveOn<T>(s: seq<T>, key: T -> seq<int>) {
    forall x, y | x in s && y in s && key(x) == key(y) :: x == y
  }

  lemma SortKeepsLength<T>(s: seq<T>, key: T -> seq<int>)
    ensures |Sort(s, key)| == |s|
  {
    SortPermutes(s, key);
    assert |multiset(s)| == |s| && |multiset(Sort(s, key))| == |Sort(s, key)|;
  }

  lemma FirstIsLeast<T>(a: seq<T>, key: T -> seq<int>, x: T)
    requires SortedBy(a, key) && x in a
    ensures LexLeq(key(a[0]), key(x))
  {
    var i :| 0 <= i < |a| && a[i] == x;
    LexTotal(key(x), key(x));
  }

  lemma SameRest<T>(a: seq<T>, b: seq<T>)
    requires multiset(a) == multiset(b) && a != [] && b != [] && a[0] == b[0]
    ensures multiset(a[1..]) == multiset(b[1..])
  {
    assert a == [a[0]] + a[1..] && b == [b[0]] + b[1..];
    assert multiset(a[1..]) == multiset(a) - multiset{a[0]};
    assert multiset(b[1..]) == multiset(b) - multiset{b[0]};
  }

  lemma SameFirst<T>(a: seq<T>, b: seq<T>, key: T -> seq<int>)
    requires multiset(a) == multiset(b) && a != [] && b != []
    requires SortedBy(a, key) && SortedBy(b, key) && InjectiveOn(a, key)
    ensures a[0] == b[0]
  {
    assert a[0] in multiset(b) && b[0] in multiset(a);
    FirstIsLeast(a, key, b[0]);
    FirstIsLeast(b, key, a[0]);
    LexAntisymmetric(key(a[0]), key(b[0]));
  }

  /** Two sorted arrangements of the same elements are equal. */
  lemma {:induction false} SortedUnique<T>(a: seq<T>, b: seq<T>, key: T -> seq<int>)
    requires multiset(a) == multiset(b)
    requires SortedBy(a, key) && SortedBy(b, key) && InjectiveOn(a, key)
    ensures a == b
    decreases |a|
  {
    assert |multiset(a)| == |a| && |multiset(b)| == |b|;
    if a != [] {
      SameFirst(a, b, key);
      SameRest(a, b);
      SortedUnique(a[1..], b[1..], key);
      assert a == [a[0]] + a[1..] && b == [b[0]] + b[1..];
    }
  }

  /** Sorting forgets the order of its input. */
  lemma SortIsCanonical<T>(a: seq<T>, b: seq<T>, key: T -> seq<int>)
    requires multiset(a) == multiset(b) && InjectiveOn(a, key)
    ensures Sort(a, key) == Sort(b, key)
  {
    SortPermutes(a, key);
    SortPermutes(b, key);
    SortSorts(a, key);
    SortSorts(b, key);
    forall x | x in Sort(a, key) ensures x in a {
      assert x in multiset(Sort(a, key));
    }
    SortedUnique(Sort(a, key), Sort(b, key), key);
  }

  /** The characters of a name. A key continues with a zero, which sorts before
      every character, so a name that is a prefix of another one comes first. */
  function NameKey(s: string): seq<int> {
    if s == "" then [] else [s[0] as int + 1] + NameKey(s[1..])
  }

  lemma {:induction false} NameKeyInjective(a: string, b: string, x: seq<int>, y: seq<int>)
    requires NameKey(a) + [0] + x == NameKey(b) + [0] + y
    ensures a == b && x == y
  {
    var ka, kb := NameKey(a) + [0] + x, NameKey(b) + [0] + y;
    if a == "" || b == "" {
      assert ka[0] == kb[0];
      assert a == "" && b == "";
      assert ka[1..] == x && kb[1..] == y;
    } else {
      assert ka[0] == a[0] as int + 1 && kb[0] == b[0] as int + 1;
      assert ka[1..] == NameKey(a[1..]) + [0] + x;
      assert kb[1..] == NameKey(b[1..]) + [0] + y;
      NameKeyInjective(a[1..], b[1..], x, y);
      assert a == [a[0]] + a[1..] && b == [b[0]] + b[1..];
    }
  }

  /** Strings in the order of their characters, a prefix first. */
  predicate StringLess(a: string, b: string) {
    b != "" && (a == "" || a[0] < b[0] || (a[0] == b[0] && StringLess(a[1..], b[1..])))
  }

  lemma LexCons(x: int, s: seq<int>, y: int, t: seq<int>)
    ensures LexLeq([x] + s, [y] + t) <==> x < y || (x == y && LexLeq(s, t))
  {
    assert ([x] + s)[1..] == s && ([y] + t)[1..] == t;
  }

  /** The first number of a name and the rest. */
  lemma NameHead(a: string, x: seq<int>)
    ensures NameKey(a) + [0] + x ==
            if a == "" then [0] + x else [a[0] as int + 1] + (NameKey(a[1..]) + [0] + x)
  {
  }

  /** Keys that begin with names compare the names first. */
  lemma {:induction false} NameOrder(a: string, b: string, x: seq<int>, y: seq<int>)
    ensures LexLeq(NameKey(a) + [0] + x, NameKey(b) + [0] + y) <==> StringLess(a, b) || (a == b && LexLeq(x, y))
  {
    NameHead(a, x);
    NameHead(b, y);
    if a == "" || b == "" {
      LexCons(if a == "" then 0 else a[0] as int + 1, if a == "" then x else NameKey(a[1..]) + [0] + x,
              if b == "" then 0 else b[0] as int + 1, if b == "" then y else NameKey(b[1..]) + [0] + y);
    } else {
      LexCons(a[0] as int + 1, NameKey(a[1..]) + [0] + x, b[0] as int + 1, NameKey(b[1..]) + [0] + y);
      NameOrder(a[1..], b[1..], x, y);
      assert a == [a[0]] + a[1..] && b == [b[0]] + b[1..];
    }
  }

  lemma {:induction false} StringLessIsStrict(a: string)
    ensures !StringLess(a, a)
  {
    if a != "" {
      StringLessIsStrict(a[1..]);
    }
  }
}
