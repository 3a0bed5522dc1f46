/** Vectors of records used as keyed tables: retain, replace, sort, and the map such a vector stands for. */
module Tables {

  /** `Vec::retain` of the records whose key differs from `k`. */
  function Retain<T, K(==)>(s: seq<T>, key: T -> K, k: K): seq<T> {
    if s == [] then []
    else
      var init, last := s[..|s| - 1], s[|s| - 1];
      Retain(init, key, k) + if key(last) == k then [] else [last]
  }

  /** The map from keys to values a table stands for; later records win. */
  function Index<T, K(==), V>(s: seq<T>, key: T -> K, val: T -> V): map<K, V> {
    if s == [] then map[]
    else
      var init, last := s[..|s| - 1], s[|s| - 1];
      Index(init, key, val)[key(last) := val(last)]
  }

  /** No two records share a key. */
  ghost predicate Distinct<T, K>(s: seq<T>, key: T -> K) {
    forall i, j :: 0 <= i < j < |s| ==> key(s[i]) != key(s[j])
  }

  lemma {:induction false} RetainMembers<T, K>(s: seq<T>, key: T -> K, k: K, x: T)
    ensures x in Retain(s, key, k) <==> x in s && key(x) != k
  {
    if s != [] {
      var init, last := s[..|s| - 1], s[|s| - 1];
      RetainMembers(init, key, k, x);
      assert s == init + [last];
    }
  }

  lemma {:induction false} RetainDistinct<T, K>(s: seq<T>, key: T -> K, k: K)
    requires Distinct(s, key)
    ensures Distinct(Retain(s, key, k), key)
  {
    if s == [] { return; }
    var init, last := s[..|s| - 1], s[|s| - 1];
    RetainDistinct(init, key, k);
    var r := Retain(init, key, k);
    forall i | 0 <= i < |r| ensures key(r[i]) != key(last) {
      RetainMembers(init, key, k, r[i]);
      var j :| 0 <= j < |init| && init[j] == r[i];
      assert s[j] == init[j];
    }
  }

  /** Replacing the record with the key of `x` keeps keys distinct. */
  lemma ReplaceDistinct<T, K>(s: seq<T>, key: T -> K, x: T)
    requires Distinct(s, key)
    ensures Distinct(Retain(s, key, key(x)) + [x], key)
  {
    var r := Retain(s, key, key(x));
    RetainDistinct(s, key, key(x));
    forall i | 0 <= i < |r| ensures key(r[i]) != key(x) {
      RetainMembers(s, key, key(x), r[i]);
    }
  }

  lemma {:induction false} RetainIndex<T, K, V>(s: seq<T>, key: T -> K, val: T -> V, k: K)
    ensures Index(Retain(s, key, k), key, val) == Index(s, key, val) - {k}
  {
    if s == [] { return; }
    var init, last := s[..|s| - 1], s[|s| - 1];
    RetainIndex(init, key, val, k);
    var r := Retain(init, key, k);
    if key(last) == k {
      assert Retain(s, key, k) == r;
    } else {
      PushIndex(r, key, val, last);
    }
  }

  lemma PushIndex<T, K, V>(s: seq<T>, key: T -> K, val: T -> V, x: T)
    ensures Index(s + [x], key, val) == Index(s, key, val)[key(x) := val(x)]
  {
    assert (s + [x])[..|s|] == s;
  }

  /** Retain-then-push is a map update. */
  lemma ReplaceIndex<T, K, V>(s: seq<T>, key: T -> K, val: T -> V, x: T)
    ensures Index(Retain(s, key, key(x)) + [x], key, val) == Index(s, key, val)[key(x) := val(x)]
  {
    RetainIndex(s, key, val, key(x));
    PushIndex(Retain(s, key, key(x)), key, val, x);
  }

  lemma {:induction false} IndexMembers<T, K, V>(s: seq<T>, key: T -> K, val: T -> V, i: nat)
    requires i < |s|
    ensures key(s[i]) in Index(s, key, val)
    ensures Distinct(s, key) ==> Index(s, key, val)[key(s[i])] == val(s[i])
  {
    var init, last := s[..|s| - 1], s[|s| - 1];
    if i < |init| {
      IndexMembers(init, key, val, i);
      assert init[i] == s[i];
      if Distinct(s, key) { assert key(s[i]) != key(s[|s| - 1]); }
    }
  }

  lemma {:induction false} IndexKeys<T, K, V>(s: seq<T>, key: T -> K, val: T -> V, k: K) returns (i: nat)
    requires k in Index(s, key, val)
    ensures i < |s| && key(s[i]) == k
  {
    var init, last := s[..|s| - 1], s[|s| - 1];
    if key(last) == k { return |s| - 1; }
    i := IndexKeys(init, key, val, k);
    assert init[i] == s[i];
  }

  /** Two tables with distinct keys and the same members stand for the same map. */
  lemma SameMembersIndex<T(!new), K(!new), V>(s: seq<T>, t: seq<T>, key: T -> K, val: T -> V)
    requires Distinct(s, key) && Distinct(t, key)
    requires forall x :: x in s <==> x in t
    ensures Index(s, key, val) == Index(t, key, val)
  {
    SubIndex(s, t, key, val);
    SubIndex(t, s, key, val);
  }

  lemma SubIndex<T(!new), K(!new), V>(s: seq<T>, t: seq<T>, key: T -> K, val: T -> V)
    requires Distinct(s, key) && Distinct(t, key)
    requires forall x :: x in s ==> x in t
    ensures forall k :: k in Index(s, key, val) ==>
              k in Index(t, key, val) && Index(t, key, val)[k] == Index(s, key, val)[k]
  {
    forall k | k in Index(s, key, val)
      ensures k in Index(t, key, val) && Index(t, key, val)[k] == Index(s, key, val)[k]
    {
      var i := IndexKeys(s, key, val, k);
      assert s[i] in t;
      var j :| 0 <= j < |t| && t[j] == s[i];
      IndexMembers(s, key, val, i);
      IndexMembers(t, key, val, j);
    }
  }

  // ---------------------------------------------------------------------------------------
  // Sorting by the lexicographic order of flattened fields.

  /** Lexicographic comparison, as derived for records field by field. */
  predicate LexLe(a: seq<int>, b: seq<int>) {
    a == [] || (b != [] && (a[0] < b[0] || (a[0] == b[0] && LexLe(a[1..], b[1..]))))
  }

  lemma {:induction false} LexTotal(a: seq<int>, b: seq<int>)
    ensures LexLe(a, b) || LexLe(b, a)
  {
    if a != [] && b != [] { LexTotal(a[1..], b[1..]); }
  }

  lemma {:induction false} LexAntisymmetric(a: seq<int>, b: seq<int>)
    requires LexLe(a, b) && LexLe(b, a)
    ensures a == b
  {
    if a != [] && b != [] {
      LexAntisymmetric(a[1..], b[1..]);
      assert a == [a[0]] + a[1..] && b == [b[0]] + b[1..];
    }
  }

  lemma {:induction false} LexTransitive(a: seq<int>, b: seq<int>, c: seq<int>)
    requires LexLe(a, b) && LexLe(b, c)
    ensures LexLe(a, c)
  {
    if a != [] && b != [] && c != [] && a[0] == b[0] == c[0] { LexTransitive(a[1..], b[1..], c[1..]); }
  }

  ghost predicate Ordered<T>(s: seq<T>, flat: T -> seq<int>) {
    forall i, j :: 0 <= i < j < |s| ==> LexLe(flat(s[i]), flat(s[j]))
  }

  function Insert<T>(x: T, s: seq<T>, flat: T -> seq<int>): seq<T> {
    if s == [] || LexLe(flat(x), flat(s[0])) then [x] + s else [s[0]] + Insert(x, s[1..], flat)
  }

  /** `Vec::sort`. */
  function Sort<T>(s: seq<T>, flat: T -> seq<int>): seq<T> {
    if s == [] then [] else Insert(s[0], Sort(s[1..], flat), flat)
  }

  lemma {:induction false} InsertMembers<T(!new)>(x: T, s: seq<T>, flat: T -> seq<int>)
    ensures |Insert(x, s, flat)| == |s| + 1
    ensures forall y :: y in Insert(x, s, flat) <==> y == x || y in s
  {
    if !(s == [] || LexLe(flat(x), flat(s[0]))) {
      InsertMembers(x, s[1..], flat);
      assert s == [s[0]] + s[1..];
    }
  }

  lemma {:induction false} SortMembers<T(!new)>(s: seq<T>, flat: T -> seq<int>)
    ensures |Sort(s, flat)| == |s|
    ensures forall y :: y in Sort(s, flat) <==> y in s
  {
    if s != [] {
      SortMembers(s[1..], flat);
      InsertMembers(s[0], Sort(s[1..], flat), flat);
      assert s == [s[0]] + s[1..];
    }
  }

  lemma {:induction false} InsertDistinct<T(!new), K>(x: T, s: seq<T>, flat: T -> seq<int>, key: T -> K)
    requires Distinct(s, key) && forall y :: y in s ==> key(y) != key(x)
    ensures Distinct(Insert(x, s, flat), key)
  {
    if !(s == [] || LexLe(flat(x), flat(s[0]))) {
      InsertDistinct(x, s[1..], flat, key);
      InsertMembers(x, s[1..], flat);
      var t := Insert(x, s[1..], flat);
      forall j | 0 <= j < |t| ensures key(t[j]) != key(s[0]) {
        assert t[j] in t;
        if t[j] != x {
          assert t[j] in s[1..];
          var m :| 0 <= m < |s[1..]| && s[1..][m] == t[j];
          assert key(s[0]) != key(s[m + 1]);
        }
      }
    }
  }

  lemma {:induction false} SortDistinct<T(!new), K>(s: seq<T>, flat: T -> seq<int>, key: T -> K)
    requires Distinct(s, key)
    ensures Distinct(Sort(s, flat), key)
  {
    if s != [] {
      SortDistinct(s[1..], flat, key);
      SortMembers(s[1..], flat);
      forall y | y in Sort(s[1..], flat) ensures key(y) != key(s[0]) {
        assert y in s[1..];
        var m :| 0 <= m < |s[1..]| && s[1..][m] == y;
        assert key(s[0]) != key(s[m + 1]);
      }
      InsertDistinct(s[0], Sort(s[1..], flat), flat, key);
    }
  }

  lemma {:induction false} InsertOrdered<T(!new)>(x: T, s: seq<T>, flat: T -> seq<int>)
    requires Ordered(s, flat)
    ensures Ordered(Insert(x, s, flat), flat)
  {
    if s == [] { return; }
    if LexLe(flat(x), flat(s[0])) {
      forall j | 0 <= j < |s| ensures LexLe(flat(x), flat(s[j])) {
        if j > 0 { LexTransitive(flat(x), flat(s[0]), flat(s[j])); }
      }
    } else {
      InsertOrdered(x, s[1..], flat);
      InsertMembers(x, s[1..], flat);
      LexTotal(flat(x), flat(s[0]));
      var t := Insert(x, s[1..], flat);
      forall j | 0 <= j < |t| ensures LexLe(flat(s[0]), flat(t[j])) {
        assert t[j] in t;
        if t[j] != x {
          assert t[j] in s[1..];
          var m :| 0 <= m < |s[1..]| && s[1..][m] == t[j];
          assert s[m + 1] == t[j];
        }
      }
    }
  }

  lemma {:induction false} SortOrdered<T(!new)>(s: seq<T>, flat: T -> seq<int>)
    ensures Ordered(Sort(s, flat), flat)
  {
    if s != [] {
      SortOrdered(s[1..], flat);
      InsertOrdered(s[0], Sort(s[1..], flat), flat);
    }
  }

  /** Sorting changes neither the distinctness of keys nor the map a table stands for. */
  lemma SortIndex<T(!new), K(!new), V>(s: seq<T>, flat: T -> seq<int>, key: T -> K, val: T -> V)
    requires Distinct(s, key)
    ensures Distinct(Sort(s, flat), key) && Ordered(Sort(s, flat), flat)
    ensures Index(Sort(s, flat), key, val) == Index(s, key, val)
  {
    SortDistinct(s, flat, key);
    SortOrdered(s, flat);
    SortMembers(s, flat);
    SameMembersIndex(Sort(s, flat), s, key, val);
  }

  /** A sorted table with distinct keys is determined by the map it stands for. */
  lemma {:induction false} SortedUnique<T(!new), K(!new), V(!new)>(
      s: seq<T>, t: seq<T>, flat: T -> seq<int>, key: T -> K, val: T -> V)
    requires Distinct(s, key) && Distinct(t, key) && Ordered(s, flat) && Ordered(t, flat)
    requires Index(s, key, val) == Index(t, key, val)
    requires forall x, y :: flat(x) == flat(y) ==> x == y
    requires forall x, y :: val(x) == val(y) ==> x == y
    ensures s == t
  {
    if s == [] {
      if t != [] { IndexMembers(t, key, val, 0); }
    } else if t == [] {
      IndexMembers(s, key, val, 0);
    } else {
      HeadBelow(s, t, flat, key, val);
      HeadBelow(t, s, flat, key, val);
      LexAntisymmetric(flat(s[0]), flat(t[0]));
      TailIndex(s, key, val);
      TailIndex(t, key, val);
      SortedUnique(s[1..], t[1..], flat, key, val);
      assert s == [s[0]] + s[1..] && t == [t[0]] + t[1..];
    }
  }

  lemma HeadBelow<T(!new), K(!new), V(!new)>(s: seq<T>, t: seq<T>, flat: T -> seq<int>, key: T -> K, val: T -> V)
    requires s != [] && t != [] && Distinct(s, key) && Distinct(t, key) && Ordered(s, flat)
    requires Index(s, key, val) == Index(t, key, val)
    requires forall x, y :: val(x) == val(y) ==> x == y
    ensures LexLe(flat(s[0]), flat(t[0]))
  {
    IndexMembers(t, key, val, 0);
    var i := IndexKeys(s, key, val, key(t[0]));
    IndexMembers(s, key, val, i);
    assert s[i] == t[0];
    if i == 0 { LexTotal(flat(s[0]), flat(s[0])); }
  }

  lemma {:induction false} TailIndex<T, K, V>(s: seq<T>, key: T -> K, val: T -> V)
    requires s != [] && Distinct(s, key)
    ensures Index(s[1..], key, val) == Index(s, key, val) - {key(s[0])}
    decreases |s|
  {
    if |s| == 1 { return; }
    var init, last := s[..|s| - 1], s[|s| - 1];
    TailIndex(init, key, val);
    assert init[1..] == s[1..][..|s| - 2] && init[0] == s[0];
    assert key(s[0]) != key(last);
  }
}
