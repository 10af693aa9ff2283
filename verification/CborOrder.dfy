/** The order of map keys, and sorting by it. */
module CborOrder {
  import opened MachineInts

  /** How maps are written. */
  datatype Order = AsIterated | LengthFirst | Bytewise

  /** Lexicographic comparison of byte strings: a <= b. */
  predicate BytesLeq(a: seq<byte>, b: seq<byte>) {
    a == [] || (b != [] && (a[0] < b[0] || (a[0] == b[0] && BytesLeq(a[1..], b[1..]))))
  }

  predicate KeyLeq(a: seq<byte>, b: seq<byte>, order: Order) {
    if order == LengthFirst && |a| != |b| then |a| < |b| else BytesLeq(a, b)
  }

  lemma {:induction false} BytesOrder(a: seq<byte>, b: seq<byte>)
    ensures BytesLeq(a, b) || BytesLeq(b, a)
    ensures BytesLeq(a, b) && BytesLeq(b, a) ==> a == b
  {
    if a != [] && b != [] && a[0] == b[0] {
      BytesOrder(a[1..], b[1..]);
      assert a == [a[0]] + a[1..] && b == [b[0]] + b[1..];
    }
  }

  lemma {:induction false} BytesTransitive(a: seq<byte>, b: seq<byte>, c: seq<byte>)
    requires BytesLeq(a, b) && BytesLeq(b, c)
    ensures BytesLeq(a, c)
  {
    if a != [] && a[0] == b[0] == c[0] { BytesTransitive(a[1..], b[1..], c[1..]); }
  }

  lemma KeyOrder(a: seq<byte>, b: seq<byte>, order: Order)
    ensures KeyLeq(a, b, order) || KeyLeq(b, a, order)
    ensures KeyLeq(a, b, order) && KeyLeq(b, a, order) ==> a == b
  {
    BytesOrder(a, b);
  }

  lemma KeyTransitive(a: seq<byte>, b: seq<byte>, c: seq<byte>, order: Order)
    requires KeyLeq(a, b, order) && KeyLeq(b, c, order)
    ensures KeyLeq(a, c, order)
  {
    if BytesLeq(a, b) && BytesLeq(b, c) { BytesTransitive(a, b, c); }
  }

  /** Things in ascending order of their keys. */
  ghost predicate Ascending<T(!new)>(s: seq<T>, key: T -> seq<byte>, order: Order) {
    forall i, j :: 0 <= i < j < |s| ==> KeyLeq(key(s[i]), key(s[j]), order)
  }

  ghost predicate DistinctKeys<T(!new)>(s: seq<T>, key: T -> seq<byte>) {
    forall i, j :: 0 <= i < j < |s| ==> key(s[i]) != key(s[j])
  }

  lemma SameFirst<T(!new)>(a: seq<T>, b: seq<T>, key: T -> seq<byte>, order: Order)
    requires multiset(a) == multiset(b) && Ascending(a, key, order) && Ascending(b, key, order) && DistinctKeys(b, key)
    requires a != [] && b != []
    ensures a[0] == b[0]
  {
    hide KeyLeq;
    assert a[0] in multiset(b) && b[0] in multiset(a);
    var j :| 0 <= j < |b| && b[j] == a[0];
    var i :| 0 <= i < |a| && a[i] == b[0];
    KeyOrder(key(a[0]), key(b[0]), order);
  }

  lemma TailsOf<T(!new)>(a: seq<T>, b: seq<T>, key: T -> seq<byte>, order: Order)
    requires Ascending(a, key, order) && Ascending(b, key, order) && DistinctKeys(b, key) && a != [] && b != []
    ensures Ascending(a[1..], key, order) && Ascending(b[1..], key, order) && DistinctKeys(b[1..], key)
  {
    hide KeyLeq;
  }

  /** There is only one way to put things with distinct keys in order. */
  lemma {:induction false} OneOrder<T(!new)>(a: seq<T>, b: seq<T>, key: T -> seq<byte>, order: Order)
    requires multiset(a) == multiset(b) && Ascending(a, key, order) && Ascending(b, key, order) && DistinctKeys(b, key)
    ensures a == b
    decreases |a|
  {
    hide KeyLeq, Ascending, DistinctKeys;
    assert |a| == |multiset(a)| == |multiset(b)| == |b|;
    if a != [] {
      SameFirst(a, b, key, order);
      TailsOf(a, b, key, order);
      assert a == [a[0]] + a[1..] && b == [b[0]] + b[1..];
      assert multiset(a[1..]) == multiset(a) - multiset{a[0]};
      assert multiset(b[1..]) == multiset(b) - multiset{b[0]};
      OneOrder(a[1..], b[1..], key, order);
    }
  }

  /** Distinctness of keys does not depend on the order. */
  lemma {:induction false} DistinctPermuted<T(!new)>(a: seq<T>, b: seq<T>, key: T -> seq<byte>)
    requires multiset(a) == multiset(b) && DistinctKeys(a, key)
    ensures DistinctKeys(b, key)
  {
    forall i, j | 0 <= i < j < |b| ensures key(b[i]) != key(b[j]) {
      if key(b[i]) == key(b[j]) {
        assert b[i] in multiset(b) && b[j] in multiset(b);
        assert b[i] in multiset(a) && b[j] in multiset(a);
        var k :| 0 <= k < |a| && a[k] == b[i];
        var l :| 0 <= l < |a| && a[l] == b[j];
        assert k == l && b[i] == b[j];
        TwiceIn(b, i, j);
        OnceIn(a, k, key);
      }
    }
  }

  lemma TwiceIn<T>(s: seq<T>, i: nat, j: nat)
    requires i < j < |s| && s[i] == s[j]
    ensures multiset(s)[s[i]] >= 2
  {
    assert s == s[..i] + [s[i]] + s[i + 1..j] + [s[j]] + s[j + 1..];
  }

  lemma OnceIn<T(!new)>(s: seq<T>, i: nat, key: T -> seq<byte>)
    requires i < |s| && DistinctKeys(s, key)
    ensures multiset(s)[s[i]] == 1
  {
    assert s == s[..i] + [s[i]] + s[i + 1..];
    assert s[i] !in s[..i] && s[i] !in s[i + 1..];
  }

  /** The things of `s` in ascending order. */
  function Sorted<T>(s: seq<T>, key: T -> seq<byte>, order: Order): (r: seq<T>)
    ensures |r| == |s|
  {
    if s == [] then [] else Inserted(s[0], Sorted(s[1..], key, order), key, order)
  }

  function Inserted<T>(p: T, s: seq<T>, key: T -> seq<byte>, order: Order): (r: seq<T>)
    ensures |r| == |s| + 1
  {
    if s == [] || KeyLeq(key(p), key(s[0]), order) then [p] + s else [s[0]] + Inserted(p, s[1..], key, order)
  }

  lemma {:induction false} InsertedElements<T>(p: T, s: seq<T>, key: T -> seq<byte>, order: Order)
    ensures multiset(Inserted(p, s, key, order)) == multiset{p} + multiset(s)
  {
    hide KeyLeq;
    if s != [] {
      assert s == [s[0]] + s[1..];
      if !KeyLeq(key(p), key(s[0]), order) { InsertedElements(p, s[1..], key, order); }
    }
  }

  /** A least thing in front of ascending ones. */
  lemma AscendingCons<T(!new)>(x: T, s: seq<T>, key: T -> seq<byte>, order: Order)
    requires Ascending(s, key, order) && forall y :: y in multiset(s) ==> KeyLeq(key(x), key(y), order)
    ensures Ascending([x] + s, key, order)
  {
    hide KeyLeq;
    var r := [x] + s;
    forall i, j | 0 <= i < j < |r| ensures KeyLeq(key(r[i]), key(r[j]), order) {
      assert r[j] == s[j - 1] && s[j - 1] in multiset(s);
      if i > 0 { assert r[i] == s[i - 1]; }
    }
  }

  lemma {:induction false} InsertedAscends<T(!new)>(p: T, s: seq<T>, key: T -> seq<byte>, order: Order)
    requires Ascending(s, key, order)
    ensures Ascending(Inserted(p, s, key, order), key, order)
  {
    hide KeyLeq;
    if s == [] {
      AscendingCons(p, s, key, order);
    } else {
      KeyOrder(key(p), key(s[0]), order);
      if KeyLeq(key(p), key(s[0]), order) {
        forall y | y in multiset(s) ensures KeyLeq(key(p), key(y), order) {
          var j :| 0 <= j < |s| && s[j] == y;
          if j > 0 { KeyTransitive(key(p), key(s[0]), key(y), order); }
        }
        AscendingCons(p, s, key, order);
      } else {
        InsertedAscends(p, s[1..], key, order);
        InsertedElements(p, s[1..], key, order);
        forall y | y in multiset(s[1..]) ensures KeyLeq(key(s[0]), key(y), order) {
          var j :| 0 <= j < |s[1..]| && s[1..][j] == y;
          assert s[j + 1] == y;
        }
        AscendingCons(s[0], Inserted(p, s[1..], key, order), key, order);
      }
    }
  }

  lemma {:induction false} SortedIsSorted<T(!new)>(s: seq<T>, key: T -> seq<byte>, order: Order)
    ensures Ascending(Sorted(s, key, order), key, order) && multiset(Sorted(s, key, order)) == multiset(s)
  {
    hide KeyLeq, Inserted;
    if s != [] {
      SortedIsSorted(s[1..], key, order);
      InsertedAscends(s[0], Sorted(s[1..], key, order), key, order);
      InsertedElements(s[0], Sorted(s[1..], key, order), key, order);
      assert s == [s[0]] + s[1..];
    }
  }
}
