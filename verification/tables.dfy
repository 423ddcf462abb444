/**
 The integer-keyed tables of the index (catalog, vocabulary, postings) and the operations on
 them: numbering a list, looking a value's key up, and removing duplicates from a list.

 Every table of the core is built by numbering a list with `enumerate`, or by walking such a
 table, so its insertion order is ascending key order; "the first key in insertion order" is
 therefore the least key.
 */
module Tables {
  import opened Results

  /** No element occurs twice. */
  predicate Distinct<T(==)>(xs: seq<T>) {
    forall i, j :: 0 <= i < j < |xs| ==> xs[i] != xs[j]
  }

  /** No value is held by two keys. */
  predicate Injective<V(==)>(m: map<int, V>) {
    forall j, k :: j in m && k in m && j != k ==> m[j] != m[k]
  }

  /** The keys are exactly 0..|m|-1. */
  ghost predicate Contiguous<V>(m: map<int, V>) {
    forall k :: k in m <==> 0 <= k < |m|
  }

  /** The table that numbers a list from 0: position `i` maps to `xs[i]`. */
  function Enumerate<T>(xs: seq<T>): (m: map<int, T>)
    ensures forall k :: k in m <==> 0 <= k < |xs|
    ensures forall i :: 0 <= i < |xs| ==> m[i] == xs[i]
    ensures Contiguous(m)
  {
    var m := map i | 0 <= i < |xs| :: xs[i];
    assert m.Keys == Range(|xs|);
    m
  }

  /** The set {0, ..., n-1}. */
  function Range(n: nat): (r: set<int>)
    ensures forall k :: k in r <==> 0 <= k < n
    ensures |r| == n
  {
    if n == 0 then {} else Range(n - 1) + {n - 1}
  }

  lemma NonEmptyHasElement(s: set<int>)
    requires s != {}
    ensures exists x :: x in s
  {
    if forall x :: x !in s {
      assert false;
    }
  }

  /** Every non-empty finite set of integers has a least element. */
  lemma {:induction false} LeastExists(s: set<int>)
    requires s != {}
    ensures exists r :: r in s && forall k :: k in s ==> r <= k
    decreases |s|
  {
    NonEmptyHasElement(s);
    var x :| x in s;
    if s != {x} {
      LeastExists(s - {x});
      var r :| r in s - {x} && forall k :: k in s - {x} ==> r <= k;
      var least := if x < r then x else r;
      forall k | k in s ensures least <= k {
        if k != x {
          assert k in s - {x};
        }
      }
      assert least in s;
    }
  }

  /** The least element of a non-empty set of integers. */
  function Least(s: set<int>): (r: int)
    requires s != {}
    ensures r in s
    ensures forall k :: k in s ==> r <= k
  {
    LeastExists(s);
    var r :| r in s && forall k :: k in s ==> r <= k;
    r
  }

  /**
   `extract_dictionary_key`: the first key whose value equals `v`; fails (the IndexError of
   `[][0]`) exactly when no key holds `v`.
   */
  function ExtractDictionaryKey<V(==)>(m: map<int, V>, v: V): (r: Result<int>)
    ensures r.Ok? <==> v in m.Values
    ensures r.Ok? ==> r.value in m && m[r.value] == v
    ensures r.Ok? ==> forall k :: k in m && m[k] == v ==> r.value <= k
    ensures r.Err? ==> r.error == ValueNotFound
  {
    var keys := set k | k in m && m[k] == v;
    if keys == {} then
      assert v !in m.Values by {
        forall k | k in m ensures m[k] != v {
          assert m[k] == v ==> k in keys;
        }
      }
      Err(ValueNotFound)
    else
      var k := Least(keys);
      assert m[k] in m.Values;
      assert forall j :: j in m && m[j] == v ==> j in keys;
      Ok(k)
  }

  /** In an injective table the reverse lookup of a key's value is that key. */
  lemma LookupInverts<V>(m: map<int, V>, k: int)
    requires Injective(m)
    requires k in m
    ensures ExtractDictionaryKey(m, m[k]) == Ok(k)
  {
    var r := ExtractDictionaryKey(m, m[k]);
    assert m[k] in m.Values;
  }

  /** The position of the first occurrence of `x` in `xs`. */
  function FirstIndex<T(==)>(xs: seq<T>, x: T): (i: nat)
    requires x in xs
    ensures i < |xs| && xs[i] == x
    ensures x !in xs[..i]
  {
    if xs[0] == x then 0
    else
      var i := 1 + FirstIndex(xs[1..], x);
      assert xs[..i] == [xs[0]] + xs[1..][..i - 1];
      i
  }

  /** Reverse lookup in a numbered list finds the first position holding the value. */
  lemma LookupInEnumerate<T>(xs: seq<T>, x: T)
    ensures ExtractDictionaryKey(Enumerate(xs), x).Ok? <==> x in xs
    ensures x in xs ==> ExtractDictionaryKey(Enumerate(xs), x) == Ok(FirstIndex(xs, x))
  {
    var m := Enumerate(xs);
    if x in xs {
      var i := FirstIndex(xs, x);
      assert m[i] == x;
      var r := ExtractDictionaryKey(m, x).value;
      assert r <= i;
      assert xs[r] == x;
      assert r == i;
    } else {
      assert x !in m.Values;
    }
  }

  /** Numbering a duplicate-free list gives an injective table. */
  lemma EnumerateDistinct<T>(xs: seq<T>)
    requires Distinct(xs)
    ensures Injective(Enumerate(xs))
  {
  }

  /** The values of a numbered list are the list's elements. */
  lemma EnumerateValues<T>(xs: seq<T>)
    ensures forall x :: x in Enumerate(xs).Values <==> x in xs
  {
    var m := Enumerate(xs);
    forall x ensures x in m.Values <==> x in xs {
      if x in xs {
        var i :| 0 <= i < |xs| && xs[i] == x;
        assert m[i] == x;
      }
    }
  }

  /** The first occurrence of an element of the prefix is in the prefix. */
  lemma FirstIndexInPrefix<T>(xs: seq<T>, y: T, x: T)
    requires x in xs
    ensures FirstIndex(xs + [y], x) == FirstIndex(xs, x)
  {
    var i := FirstIndex(xs, x);
    var j := FirstIndex(xs + [y], x);
    assert (xs + [y])[i] == x;
  }

  /**
   Duplicates removed through a dictionary's keys: the first occurrence of every element, in
   the order of those first occurrences.
   */
  function Dedup<T(==,!new)>(xs: seq<T>): (r: seq<T>)
    ensures Distinct(r)
    ensures forall x :: x in r <==> x in xs
    ensures forall i, j :: 0 <= i < j < |r| ==> FirstIndex(xs, r[i]) < FirstIndex(xs, r[j])
    decreases |xs|
  {
    if xs == [] then []
    else
      var init := xs[..|xs| - 1];
      var x := xs[|xs| - 1];
      var d := Dedup(init);
      assert xs == init + [x];
      forall y | y in init ensures FirstIndex(xs, y) == FirstIndex(init, y) {
        FirstIndexInPrefix(init, x, y);
      }
      if x in d then d
      else
        assert FirstIndex(xs, x) == |init| by {
          assert x !in init;
          assert xs[|init|] == x;
        }
        d + [x]
  }

  /** Appending a new element to a deduplicated list deduplicates the longer list. */
  lemma DedupSnoc<T(!new)>(xs: seq<T>, x: T)
    ensures Dedup(xs + [x]) == AppendAbsent(Dedup(xs), x)
  {
    assert (xs + [x])[..|xs|] == xs;
  }

  /** Adds `x` at the end of `xs` unless `xs` already holds it. */
  function AppendAbsent<T(==)>(xs: seq<T>, x: T): (r: seq<T>)
    ensures x in r
    ensures x in xs <==> r == xs
    ensures x !in xs ==> r == xs + [x]
    ensures xs <= r && |r| <= |xs| + 1
    ensures Distinct(xs) ==> Distinct(r)
  {
    if x in xs then xs else xs + [x]
  }

  /** Appending the same element twice appends it once. */
  lemma AppendAbsentIdempotent<T>(xs: seq<T>, x: T)
    ensures AppendAbsent(AppendAbsent(xs, x), x) == AppendAbsent(xs, x)
  {
  }

  /** A list of lists, concatenated. */
  function Flatten<T(!new)>(xss: seq<seq<T>>): (r: seq<T>)
    ensures forall x :: x in r <==> exists i :: 0 <= i < |xss| && x in xss[i]
  {
    if xss == [] then []
    else
      var r := xss[0] + Flatten(xss[1..]);
      assert forall x, i :: 0 <= i < |xss| - 1 && x in xss[1..][i] ==> x in xss[i + 1];
      assert forall x, i :: 1 <= i < |xss| && x in xss[i] ==> x in xss[1..][i - 1];
      r
  }

  /** Flattening a single list gives that list back. */
  lemma FlattenOne<T(!new)>(xs: seq<T>)
    ensures Flatten([xs]) == xs
  {
    assert [xs][1..] == [];
  }

  /** Flattening keeps the lists in order: flattening two runs of lists concatenates the results. */
  lemma {:induction false} FlattenAppend<T(!new)>(xss: seq<seq<T>>, yss: seq<seq<T>>)
    ensures Flatten(xss + yss) == Flatten(xss) + Flatten(yss)
    decreases |xss|
  {
    if xss == [] {
      assert xss + yss == yss;
    } else {
      assert (xss + yss)[1..] == xss[1..] + yss;
      FlattenAppend(xss[1..], yss);
    }
  }
}
