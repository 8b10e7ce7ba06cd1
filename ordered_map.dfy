// Python dicts keep insertion order, and the tracker's lookups walk them in
// that order. A dict is modelled as the sequence of its keys in insertion
// order together with the map from key to value.

module OrderedMaps {
  import opened Wrappers

  ghost predicate NoDup<T>(s: seq<T>) {
    forall i, j :: 0 <= i < j < |s| ==> s[i] != s[j]
  }

  datatype OrderedMap<V> = OrderedMap(keys: seq<string>, items: map<string, V>)

  ghost predicate WellFormed<V>(m: OrderedMap<V>) {
    && NoDup(m.keys)
    && forall k :: k in m.items <==> k in m.keys
  }

  /** A Python dict with string keys: every key once, in insertion order. */
  type Dict<V> = m: OrderedMap<V> | WellFormed(m) witness OrderedMap([], map[])

  /** {} */
  function Empty<V>(): Dict<V> {
    OrderedMap([], map[])
  }

  /** d[k] = v: a new key goes to the end, an existing key keeps its place. */
  function Put<V>(d: Dict<V>, k: string, v: V): (r: Dict<V>)
    ensures r.items == d.items[k := v]
    ensures r.keys == if k in d.items then d.keys else d.keys + [k]
  {
    if k in d.items then OrderedMap(d.keys, d.items[k := v])
    else OrderedMap(d.keys + [k], d.items[k := v])
  }

  /** d.get(k, default) */
  function GetOr<V>(d: Dict<V>, k: string, default: V): V {
    if k in d.items then d.items[k] else default
  }

  /** The position of the first element of ks that satisfies p. */
  function FirstWhere<T>(ks: seq<T>, p: T -> bool): Option<nat> {
    if ks == [] then None
    else match FirstWhere(ks[..|ks| - 1], p)
      case Some(i) => Some(i)
      case None => if p(ks[|ks| - 1]) then Some(|ks| - 1) else None
  }

  /** FirstWhere finds the first position whose element satisfies p, and
      finds nothing exactly when no element does. */
  lemma {:induction false} FirstWhereFirst<T>(ks: seq<T>, p: T -> bool)
    ensures var r := FirstWhere(ks, p);
      && (r.Some? ==> r.value < |ks| && p(ks[r.value]))
      && (r.Some? ==> forall j :: 0 <= j < r.value ==> !p(ks[j]))
      && (r.None? <==> forall j :: 0 <= j < |ks| ==> !p(ks[j]))
  {
    if ks != [] {
      FirstWhereFirst(ks[..|ks| - 1], p);
    }
  }

  /** A position whose element satisfies p, with none before it that does,
      is the one FirstWhere finds. */
  lemma FirstWhereAt<T>(ks: seq<T>, p: T -> bool, i: nat)
    requires i < |ks| && p(ks[i])
    requires forall j :: 0 <= j < i ==> !p(ks[j])
    ensures FirstWhere(ks, p) == Some(i)
  {
    FirstWhereFirst(ks, p);
  }

  /** A position FirstWhere finds is a position of ks. */
  lemma {:induction false} FirstWhereBound<T>(ks: seq<T>, p: T -> bool)
    ensures FirstWhere(ks, p).Some? ==> FirstWhere(ks, p).value < |ks|
  {
    if ks != [] {
      FirstWhereBound(ks[..|ks| - 1], p);
    }
  }

  /** Searching a sequence grown by one element looks at the new element
      only when nothing before it matched. */
  lemma FirstWhereSnoc<T>(ks: seq<T>, x: T, p: T -> bool)
    ensures FirstWhere(ks + [x], p) ==
      if FirstWhere(ks, p).Some? then FirstWhere(ks, p)
      else if p(x) then Some(|ks|) else None
  {
    assert (ks + [x])[..|ks|] == ks;
  }

  /** The elements of s that satisfy p, in their order in s. */
  function Filter(s: seq<string>, p: string -> bool): (r: seq<string>)
    ensures |r| <= |s|
  {
    if s == [] then []
    else Filter(s[..|s| - 1], p) + (if p(s[|s| - 1]) then [s[|s| - 1]] else [])
  }

  /** Filtering a sequence grown by one element. */
  lemma FilterSnoc(s: seq<string>, x: string, p: string -> bool)
    ensures Filter(s + [x], p) == Filter(s, p) + (if p(x) then [x] else [])
  {
    assert (s + [x])[..|s|] == s;
  }

  /** Filters by predicates that agree on the elements are equal. */
  lemma {:induction false} FilterSame(s: seq<string>, p: string -> bool, q: string -> bool)
    requires forall i :: 0 <= i < |s| ==> p(s[i]) == q(s[i])
    ensures Filter(s, p) == Filter(s, q)
  {
    if s != [] {
      var init := s[..|s| - 1];
      assert forall i :: 0 <= i < |init| ==> init[i] == s[i];
      FilterSame(init, p, q);
    }
  }

  /** The filter is empty exactly when no element satisfies p. */
  lemma {:induction false} FilterEmpty(s: seq<string>, p: string -> bool)
    ensures Filter(s, p) == [] <==> forall i :: 0 <= i < |s| ==> !p(s[i])
  {
    if s != [] {
      var init := s[..|s| - 1];
      FilterEmpty(init, p);
      assert forall i :: 0 <= i < |init| ==> init[i] == s[i];
    }
  }

  /** The filter keeps exactly the elements that satisfy p. */
  lemma {:induction false} FilterMembers(s: seq<string>, p: string -> bool)
    ensures forall x :: x in Filter(s, p) <==> x in s && p(x)
  {
    if s != [] {
      var init := s[..|s| - 1];
      FilterMembers(init, p);
      assert s == init + [s[|s| - 1]];
    }
  }

  /** The position of the first occurrence of x in s. */
  function IndexOf<T(==)>(s: seq<T>, x: T): (i: nat)
    requires x in s
    ensures i < |s| && s[i] == x && x !in s[..i]
  {
    if s[0] == x then 0 else 1 + IndexOf(s[1..], x)
  }

  /** The first occurrence of x does not move when s grows at the end. */
  lemma {:induction false} IndexOfPrefix<T>(s: seq<T>, t: seq<T>, x: T)
    requires x in s
    ensures x in s + t && IndexOf(s + t, x) == IndexOf(s, x)
  {
    assert (s + t)[0] == s[0];
    if s[0] != x {
      assert (s + t)[1..] == s[1..] + t;
      IndexOfPrefix(s[1..], t, x);
    }
  }

  /** In a sequence without repeats, the first occurrence of s[i] is i. */
  lemma IndexOfNoDup<T>(s: seq<T>, i: nat)
    requires NoDup(s) && i < |s|
    ensures IndexOf(s, s[i]) == i
  {
    var j := IndexOf(s, s[i]);
    assert s[j] == s[i];
  }

  /** An element missing from s is found in s + t where t has it. */
  lemma {:induction false} IndexOfSuffix<T>(s: seq<T>, t: seq<T>, x: T)
    requires x !in s && x in t
    ensures x in s + t && IndexOf(s + t, x) == |s| + IndexOf(t, x)
  {
    if s != [] {
      assert (s + t)[0] == s[0];
      assert (s + t)[1..] == s[1..] + t;
      IndexOfSuffix(s[1..], t, x);
    } else {
      assert s + t == t;
    }
  }

  /** A filter of a duplicate-free sequence is duplicate-free. */
  lemma {:induction false} FilterNoDup(s: seq<string>, p: string -> bool)
    requires NoDup(s)
    ensures NoDup(Filter(s, p))
  {
    if s != [] {
      var init, last := s[..|s| - 1], s[|s| - 1];
      assert init + [last] == s;
      FilterNoDup(init, p);
      FilterMembers(init, p);
      assert last !in init;
    }
  }

  /** Elements of init keep their first position when last is appended. */
  lemma IndexOfSnoc(init: seq<string>, last: string, x: string)
    requires x in init
    ensures IndexOf(init + [last], x) == IndexOf(init, x) < |init|
  {
    IndexOfPrefix(init, [last], x);
  }

  /** A filter keeps the relative order of what it keeps. */
  lemma {:induction false} FilterKeepsOrder(s: seq<string>, p: string -> bool)
    requires NoDup(s)
    ensures forall x :: x in Filter(s, p) ==> x in s
    ensures forall i, j :: 0 <= i < j < |Filter(s, p)| ==>
      IndexOf(s, Filter(s, p)[i]) < IndexOf(s, Filter(s, p)[j])
  {
    FilterMembers(s, p);
    if s != [] {
      var init, last := s[..|s| - 1], s[|s| - 1];
      assert init + [last] == s;
      FilterKeepsOrder(init, p);
      FilterMembers(init, p);
      var f := Filter(init, p);
      var r := Filter(s, p);
      forall i | 0 <= i < |f| ensures IndexOf(s, f[i]) == IndexOf(init, f[i]) < |init| {
        assert f[i] in f;
        IndexOfSnoc(init, last, f[i]);
      }
      if p(last) {
        assert r == f + [last];
        assert last !in init;
        assert IndexOf(s, last) == |init|;
        SnocKeepsOrder(s, f, last);
      } else {
        assert r == f;
      }
    }
  }

  /** Appending an element found after every element of f keeps f + [x]
      in the order of s. */
  lemma SnocKeepsOrder(s: seq<string>, f: seq<string>, x: string)
    requires x in s && forall y :: y in f ==> y in s
    requires forall i, j :: 0 <= i < j < |f| ==> IndexOf(s, f[i]) < IndexOf(s, f[j])
    requires forall i :: 0 <= i < |f| ==> IndexOf(s, f[i]) < IndexOf(s, x)
    ensures forall i, j :: 0 <= i < j < |f + [x]| ==>
      IndexOf(s, (f + [x])[i]) < IndexOf(s, (f + [x])[j])
  {
    var r := f + [x];
    forall i, j | 0 <= i < j < |r| ensures IndexOf(s, r[i]) < IndexOf(s, r[j]) {
      assert r[i] == f[i];
      if j < |f| {
        assert r[j] == f[j];
      }
    }
  }

  /** A filter of a duplicate-free sequence keeps exactly the elements that
      satisfy p, repeats none of them and keeps their relative order. */
  lemma FilterOrdered(s: seq<string>, p: string -> bool)
    requires NoDup(s)
    ensures forall x :: x in Filter(s, p) <==> x in s && p(x)
    ensures NoDup(Filter(s, p))
    ensures forall i, j :: 0 <= i < j < |Filter(s, p)| ==>
      IndexOf(s, Filter(s, p)[i]) < IndexOf(s, Filter(s, p)[j])
  {
    FilterMembers(s, p);
    FilterNoDup(s, p);
    FilterKeepsOrder(s, p);
  }

  /** list(dict.fromkeys(s)): the elements of s without repeats, each where it
      first occurs. */
  function Dedup(s: seq<string>): (r: seq<string>)
    ensures forall x :: x in r <==> x in s
  {
    if s == [] then []
    else
      var d := Dedup(s[..|s| - 1]);
      if s[|s| - 1] in d then d else d + [s[|s| - 1]]
  }

  /** Deduplicating a sequence grown by one element: the element is added
      at the end unless it was seen before. */
  lemma DedupSnoc(s: seq<string>, x: string)
    ensures Dedup(s + [x]) == if x in Dedup(s) then Dedup(s) else Dedup(s) + [x]
  {
    assert (s + [x])[..|s|] == s;
  }

  /** The deduplicated sequence holds every element once and starts with the
      first element. */
  lemma {:induction false} DedupNoDup(s: seq<string>)
    ensures NoDup(Dedup(s))
    ensures |Dedup(s)| <= |s|
    ensures |s| > 0 ==> Dedup(s)[0] == s[0]
  {
    if s != [] {
      var init := s[..|s| - 1];
      DedupNoDup(init);
      if |init| > 0 {
        assert init[0] == s[0];
      }
    }
  }

  /** The deduplicated sequence keeps the elements in the order of their
      first occurrence. */
  lemma {:induction false} DedupFirstSeen(s: seq<string>)
    ensures forall i, j :: 0 <= i < j < |Dedup(s)| ==>
      IndexOf(s, Dedup(s)[i]) < IndexOf(s, Dedup(s)[j])
  {
    if s != [] {
      var init, last := s[..|s| - 1], s[|s| - 1];
      assert init + [last] == s;
      DedupFirstSeen(init);
      var d := Dedup(init);
      var r := Dedup(s);
      forall i | 0 <= i < |d| ensures IndexOf(s, d[i]) == IndexOf(init, d[i]) < |init| {
        assert d[i] in d;
        IndexOfSnoc(init, last, d[i]);
      }
      if last !in d {
        assert r == d + [last];
        assert last !in init;
        assert IndexOf(s, last) == |init|;
        SnocKeepsOrder(s, d, last);
      }
    }
  }
}
