/**
  Python's `list.sort(key=...)` on string keys: keys compare with `str`'s
  `<` (lexicographic by code point) and the sort is stable. The sort is an
  insertion sort; `StableSortUnique` shows that being sorted and keeping
  the file order inside every group of equal keys pins the result down,
  so any stable sort, Python's included, gives the same list.
 */
module StableSort {

  /** Python's `a < b` on `str`. */
  predicate Less(a: string, b: string) {
    if |a| == 0 then |b| > 0
    else if |b| == 0 then false
    else if a[0] != b[0] then a[0] < b[0]
    else Less(a[1..], b[1..])
  }

  lemma {:induction false} LessIrreflexive(a: string)
    ensures !Less(a, a)
  {
    if |a| > 0 {
      LessIrreflexive(a[1..]);
    }
  }

  lemma {:induction false} LessTransitive(a: string, b: string, c: string)
    requires Less(a, b) && Less(b, c)
    ensures Less(a, c)
  {
    if |a| > 0 && a[0] == b[0] && b[0] == c[0] {
      LessTransitive(a[1..], b[1..], c[1..]);
    }
  }

  lemma {:induction false} LessTrichotomy(a: string, b: string)
    ensures a == b || Less(a, b) || Less(b, a)
  {
    if |a| > 0 && |b| > 0 && a[0] == b[0] {
      LessTrichotomy(a[1..], b[1..]);
      if a[1..] == b[1..] {
        assert a == [a[0]] + a[1..] && b == [b[0]] + b[1..];
      }
    }
  }

  /** "not greater" is transitive: the order `sort` relies on is total. */
  lemma NotLessTransitive(a: string, b: string, c: string)
    requires !Less(b, a) && !Less(c, b)
    ensures !Less(c, a)
  {
    LessTrichotomy(a, b);
    if Less(c, a) && Less(a, b) {
      LessTransitive(c, a, b);
    }
  }

  /** No element has a key strictly smaller than an earlier element's. */
  predicate SortedBy<T>(s: seq<T>, key: T -> string) {
    forall i, j :: 0 <= i < j < |s| ==> !Less(key(s[j]), key(s[i]))
  }

  /** The elements of `s` whose key is `k`, in their order in `s`. */
  function KeyClass<T>(s: seq<T>, key: T -> string, k: string): seq<T> {
    if |s| == 0 then []
    else (if key(s[0]) == k then [s[0]] else []) + KeyClass(s[1..], key, k)
  }

  /** `r` is `s` stably sorted by `key`: sorted, and every group of
      elements sharing a key keeps its order from `s`. */
  ghost predicate IsStableSortOf<T>(r: seq<T>, s: seq<T>, key: T -> string) {
    && SortedBy(r, key)
    && forall k :: KeyClass(r, key, k) == KeyClass(s, key, k)
  }

  /** Put `x` in front of the first element whose key is not smaller. */
  function Insert<T>(x: T, s: seq<T>, key: T -> string): seq<T> {
    if |s| == 0 || !Less(key(s[0]), key(x)) then [x] + s
    else [s[0]] + Insert(x, s[1..], key)
  }

  lemma {:induction false} InsertMultiset<T>(x: T, s: seq<T>, key: T -> string)
    ensures multiset(Insert(x, s, key)) == multiset(s) + multiset{x}
    ensures |Insert(x, s, key)| == |s| + 1
  {
    if |s| > 0 && Less(key(s[0]), key(x)) {
      InsertMultiset(x, s[1..], key);
      assert s == [s[0]] + s[1..];
    }
  }

  /** Every element `x` is inserted in front of has a key no smaller than `x`'s,
      so the insertion keeps a sorted sequence sorted. */
  lemma {:induction false} InsertSorted<T>(x: T, s: seq<T>, key: T -> string)
    requires SortedBy(s, key)
    ensures SortedBy(Insert(x, s, key), key)
  {
    var r := Insert(x, s, key);
    if |s| == 0 {
    } else if !Less(key(s[0]), key(x)) {
      forall j | 0 < j < |r|
        ensures !Less(key(r[j]), key(x))
      {
        if j > 1 {
          NotLessTransitive(key(x), key(s[0]), key(s[j - 1]));
        }
      }
    } else {
      InsertSorted(x, s[1..], key);
      InsertMultiset(x, s[1..], key);
      var t := Insert(x, s[1..], key);
      assert r == [s[0]] + t;
      forall j | 0 <= j < |t|
        ensures !Less(key(t[j]), key(s[0]))
      {
        assert t[j] in multiset(s[1..]) + multiset{x};
        if t[j] == x {
          LessIrreflexive(key(x));
          if Less(key(x), key(s[0])) {
            LessTransitive(key(x), key(s[0]), key(x));
          }
        } else {
          assert t[j] in s[1..];
          var m :| 0 <= m < |s[1..]| && s[1..][m] == t[j];
          assert s[m + 1] == t[j];
        }
      }
    }
  }

  /** Inserting at the front of a group: elements passed over have a
      strictly smaller key, so none of them is in `x`'s group. */
  lemma {:induction false} InsertKeyClass<T>(x: T, s: seq<T>, key: T -> string, k: string)
    ensures KeyClass(Insert(x, s, key), key, k) == KeyClass([x] + s, key, k)
  {
    if |s| > 0 && Less(key(s[0]), key(x)) {
      var t := Insert(x, s[1..], key);
      InsertKeyClass(x, s[1..], key, k);
      assert ([s[0]] + t)[1..] == t;
      assert ([x] + s)[1..] == s;
      assert ([x] + s[1..])[1..] == s[1..];
      LessIrreflexive(key(x));
      assert key(s[0]) != key(x);
    } else {
      assert ([x] + s)[1..] == s;
    }
  }

  /** Insertion sort: `s[1..]` is sorted first, then `s[0]` is inserted
      in front of its equals, which keeps the sort stable. */
  function SortByKey<T(==)>(s: seq<T>, key: T -> string): (r: seq<T>)
    ensures |r| == |s|
    ensures multiset(r) == multiset(s)
    ensures IsStableSortOf(r, s, key)
  {
    if |s| == 0 then []
    else
      var t := SortByKey(s[1..], key);
      InsertMultiset(s[0], t, key);
      InsertSorted(s[0], t, key);
      assert s == [s[0]] + s[1..];
      assert forall k :: KeyClass(Insert(s[0], t, key), key, k) == KeyClass(s, key, k) by {
        forall k
          ensures KeyClass(Insert(s[0], t, key), key, k) == KeyClass(s, key, k)
        {
          InsertKeyClass(s[0], t, key, k);
          assert ([s[0]] + t)[1..] == t;
        }
      }
      Insert(s[0], t, key)
  }

  lemma {:induction false} KeyClassNonEmpty<T>(s: seq<T>, key: T -> string, k: string)
    requires KeyClass(s, key, k) != []
    ensures exists j :: 0 <= j < |s| && key(s[j]) == k
  {
    if key(s[0]) != k {
      KeyClassNonEmpty(s[1..], key, k);
      var j :| 0 <= j < |s[1..]| && key(s[1..][j]) == k;
      assert key(s[j + 1]) == k;
    }
  }

  /** A stable sort has exactly one possible result: two sorted sequences
      with the same groups of equal keys, each in the same order, are equal. */
  lemma {:induction false} StableSortUnique<T>(a: seq<T>, b: seq<T>, key: T -> string)
    requires SortedBy(a, key) && SortedBy(b, key)
    requires forall k :: KeyClass(a, key, k) == KeyClass(b, key, k)
    ensures a == b
  {
    // the first element of each is in a group the other must also have
    if |a| > 0 {
      assert KeyClass(a, key, key(a[0])) != [];
    }
    if |b| > 0 {
      assert KeyClass(b, key, key(b[0])) != [];
    }
    if |a| > 0 && |b| > 0 {
      var ka, kb := key(a[0]), key(b[0]);
      LessIrreflexive(ka);
      LessIrreflexive(kb);
      // a's first key occurs in b, so it is no smaller than b's first key, and vice versa
      assert KeyClass(a, key, ka) != [];
      KeyClassNonEmpty(b, key, ka);
      var jb :| 0 <= jb < |b| && key(b[jb]) == ka;
      assert !Less(ka, kb) by {
        if jb > 0 {
          assert !Less(key(b[jb]), key(b[0]));
        }
      }
      assert KeyClass(b, key, kb) != [];
      KeyClassNonEmpty(a, key, kb);
      var ja :| 0 <= ja < |a| && key(a[ja]) == kb;
      assert !Less(kb, ka) by {
        if ja > 0 {
          assert !Less(key(a[ja]), key(a[0]));
        }
      }
      LessTrichotomy(ka, kb);
      assert ka == kb;
      assert KeyClass(a, key, ka)[0] == a[0];
      assert KeyClass(b, key, ka)[0] == b[0];
      assert a[0] == b[0];
      forall k
        ensures KeyClass(a[1..], key, k) == KeyClass(b[1..], key, k)
      {
        var head: seq<T> := if key(a[0]) == k then [a[0]] else [];
        assert KeyClass(a, key, k) == head + KeyClass(a[1..], key, k);
        assert KeyClass(b, key, k) == head + KeyClass(b[1..], key, k);
        assert KeyClass(a[1..], key, k) == KeyClass(a, key, k)[|head|..];
      }
      assert SortedBy(a[1..], key) && SortedBy(b[1..], key) by {
        forall i, j | 0 <= i < j < |a| - 1
          ensures !Less(key(a[1..][j]), key(a[1..][i]))
        {
          assert a[1..][j] == a[j + 1] && a[1..][i] == a[i + 1];
        }
        forall i, j | 0 <= i < j < |b| - 1
          ensures !Less(key(b[1..][j]), key(b[1..][i]))
        {
          assert b[1..][j] == b[j + 1] && b[1..][i] == b[i + 1];
        }
      }
      StableSortUnique(a[1..], b[1..], key);
      assert a == [a[0]] + a[1..] && b == [b[0]] + b[1..];
    }
  }

  /** Sequences with the same multiset hold the same elements. */
  lemma SameElements<T>(a: seq<T>, b: seq<T>)
    requires multiset(a) == multiset(b)
    ensures forall x :: x in a <==> x in b
  {
    forall x
      ensures x in a <==> x in b
    {
      assert x in a <==> x in multiset(a);
      assert x in b <==> x in multiset(b);
    }
  }
}
