/** The sequence helpers of Sources/Fx/Extensions/Sequences.swift: an optional
    used as a one-shot iterator, `flatten`, `nonempty`, both `groupBy`s and the
    safe subscript. `compact` is `Functions.Compact`, which
    `SafeIndexRecovers` uses; the `Monoid` instances are in
    the `Monoids` module.

    A Swift dictionary is a `map`; its iteration order is unspecified, so only
    the contents of a grouping are modelled.
 */
module Sequences {
  import opened Optionals
  import opened Traces
  import opened Monoids
  import Functions

  // ---- Optional as an iterator ----

  /** `next()`: yields the current value and leaves `nil` behind. */
  function Next<A>(o: Option<A>): (r: (Option<A>, Option<A>))
    ensures r.0 == o && r.1 == None
  {
    (o, None)
  }

  /** Drains an optional iterator: the values `next()` yields before the first nil. */
  function Drain<A>(o: Option<A>): (r: seq<A>)
  {
    var (first, rest) := Next(o);
    match first
    case None => []
    case Some(x) => [x] + (match Next(rest).0 case None => [] case Some(y) => [y])
  }

  /** `Optional.array`: `[]` for nil and `[x]` for `.some(x)`. */
  function OptionArray<A>(o: Option<A>): (r: seq<A>)
    ensures |r| <= 1
    ensures r == [] <==> o.None?
    ensures o.Some? ==> r == [o.value]
  {
    Drain(o)
  }

  /** The iterator yields its payload exactly once: the second `next()` is nil. */
  lemma IteratorYieldsOnce<A>(o: Option<A>)
    ensures Next(Next(o).1).0 == None
    ensures Next(o).0.Some? <==> OptionArray(o) != []
    ensures OptionArray(o) == (match o case None => [] case Some(x) => [x])
  {
  }

  // ---- flatten ----

  /** `flatMap(f)` on sequences: the concatenation of `f` of each element. */
  function FlatMapSeq<A, B>(f: A -> seq<B>, xs: seq<A>): seq<B>
  {
    if xs == [] then [] else f(xs[0]) + FlatMapSeq(f, xs[1..])
  }

  /** `flatten`: `flatMap(id)`. */
  function Flatten<A>(xss: seq<seq<A>>): seq<A>
  {
    FlatMapSeq(xs => xs, xss)
  }

  /** `flatten` is the in-order concatenation of the inner sequences, that is the
      `∑` of the array monoid; its length is the sum of their lengths. */
  lemma {:induction false} FlattenConcatenates<A(!new)>(xss: seq<seq<A>>)
    ensures Flatten(xss) == Concat(xss)
    ensures Flatten(xss) == Sum(ArrayMonoid<A>(), xss)
    ensures |Flatten(xss)| == Lengths(xss)
  {
    FlattenAgrees(xss);
    SumArrays(xss);
  }

  lemma {:induction false} FlattenAgrees<A>(xss: seq<seq<A>>)
    ensures Flatten(xss) == Concat(xss)
    ensures |Flatten(xss)| == Lengths(xss)
  {
    if xss != [] {
      FlattenAgrees(xss[1..]);
      ConcatCons(xss);
    }
  }

  lemma {:induction false} ConcatCons<A>(xss: seq<seq<A>>)
    requires xss != []
    ensures Concat(xss) == xss[0] + Concat(xss[1..])
    ensures Lengths(xss) == |xss[0]| + Lengths(xss[1..])
  {
    if |xss| > 1 {
      ConcatCons(DropLast(xss));
      assert DropLast(xss)[1..] == DropLast(xss[1..]);
      assert DropLast(xss)[0] == xss[0];
    } else {
      assert xss[1..] == [];
      assert DropLast(xss) == [];
    }
  }

  /** The sum of the inner lengths. */
  function Lengths<A>(xss: seq<seq<A>>): nat
  {
    if xss == [] then 0 else Lengths(DropLast(xss)) + |Last(xss)|
  }

  // ---- nonempty and the safe subscript ----

  /** `nonempty`: nil for an empty collection, the collection itself otherwise. */
  function Nonempty<A>(xs: seq<A>): (r: Option<seq<A>>)
    ensures r.None? <==> |xs| == 0
    ensures r.Some? ==> r.value == xs
  {
    if |xs| == 0 then None else Some(xs)
  }

  /** `subscript(safe:)`: nil out of range, the element otherwise. */
  function SafeIndex<A>(xs: seq<A>, i: int): (r: Option<A>)
    ensures r.None? <==> i < 0 || i >= |xs|
    ensures r.Some? ==> r.value == xs[i]
  {
    if 0 <= i && i < |xs| then Some(xs[i]) else None
  }

  /** Reading a sequence through the safe subscript at every index gives it back. */
  lemma SafeIndexRecovers<A>(xs: seq<A>)
    ensures Functions.Compact(seq(|xs|, i => SafeIndex(xs, i))) == xs
  {
    var os := seq(|xs|, i => SafeIndex(xs, i));
    CompactSomes(xs, os);
  }

  lemma {:induction false} CompactSomes<A>(xs: seq<A>, os: seq<Option<A>>)
    requires |os| == |xs| && forall i :: 0 <= i < |xs| ==> os[i] == Some(xs[i])
    ensures Functions.Compact(os) == xs
  {
    if xs != [] {
      CompactSomes(DropLast(xs), DropLast(os));
      assert xs == DropLast(xs) + [Last(xs)];
    }
  }

  // ---- groupBy ----

  /** Groups `xs` by the parallel keys `ks`: the element at `i` joins the group `ks[i]`. */
  function GroupWith<K(==), E>(xs: seq<E>, ks: seq<K>): map<K, seq<E>>
    requires |ks| == |xs|
  {
    if xs == [] then map[]
    else
      var g := GroupWith(DropLast(xs), DropLast(ks));
      var k := Last(ks);
      g[k := (if k in g then g[k] else []) + [Last(xs)]]
  }

  /** The elements of `xs` whose key is `k`, in order. */
  function Select<K(==), E>(xs: seq<E>, ks: seq<K>, k: K): seq<E>
    requires |ks| == |xs|
  {
    if xs == [] then []
    else Select(DropLast(xs), DropLast(ks), k) + (if Last(ks) == k then [Last(xs)] else [])
  }

  /** The total number of elements held in the groups. */
  ghost function TotalSize<K, E>(g: map<K, seq<E>>): nat
    decreases |g.Keys|
  {
    if g == map[] then 0
    else
      var k :| k in g;
      |g[k]| + TotalSize(g - {k})
  }

  lemma {:induction false} TotalSizeRemove<K, E>(g: map<K, seq<E>>, k: K)
    requires k in g
    ensures TotalSize(g) == |g[k]| + TotalSize(g - {k})
    decreases |g.Keys|
  {
    var k' :| k' in g && TotalSize(g) == |g[k']| + TotalSize(g - {k'});
    if k' != k {
      assert |(g - {k'}).Keys| < |g.Keys| by {
        assert g.Keys == (g - {k'}).Keys + {k'};
      }
      assert |(g - {k}).Keys| < |g.Keys| by {
        assert g.Keys == (g - {k}).Keys + {k};
      }
      TotalSizeRemove(g - {k'}, k);
      TotalSizeRemove(g - {k}, k');
      assert (g - {k'}) - {k} == (g - {k}) - {k'};
    }
  }

  lemma TotalSizeUpdate<K, E>(g: map<K, seq<E>>, k: K, v: seq<E>)
    ensures TotalSize(g[k := v]) == |v| + TotalSize(g) - (if k in g then |g[k]| else 0)
  {
    TotalSizeRemove(g[k := v], k);
    if k in g {
      TotalSizeRemove(g, k);
      assert g[k := v] - {k} == g - {k};
    } else {
      assert g[k := v] - {k} == g;
    }
  }

  /** A key has a group iff some element has that key; the group holds exactly the
      elements with that key, in their original order, and is never empty; and the
      group sizes add up to the number of elements. */
  lemma {:induction false} GroupWithPartitions<K, E>(xs: seq<E>, ks: seq<K>)
    requires |ks| == |xs|
    ensures forall k :: k in GroupWith(xs, ks) <==> k in ks
    ensures forall k :: k in GroupWith(xs, ks) ==> GroupWith(xs, ks)[k] == Select(xs, ks, k) != []
    ensures forall k :: k !in ks ==> Select(xs, ks, k) == []
    ensures TotalSize(GroupWith(xs, ks)) == |xs|
  {
    if xs != [] {
      var init, kinit := DropLast(xs), DropLast(ks);
      GroupWithPartitions(init, kinit);
      var g := GroupWith(init, kinit);
      var k := Last(ks);
      assert ks == kinit + [k];
      TotalSizeUpdate(g, k, (if k in g then g[k] else []) + [Last(xs)]);
    }
  }

  /** Adding an element with key `k` appends it to the group `k` and leaves every other group alone. */
  lemma GroupWithSnoc<K, E>(xs: seq<E>, ks: seq<K>, x: E, k: K)
    requires |ks| == |xs|
    ensures var g := GroupWith(xs, ks);
            GroupWith(xs + [x], ks + [k]) == g[k := (if k in g then g[k] else []) + [x]]
  {
    assert DropLast(xs + [x]) == xs && DropLast(ks + [k]) == ks;
  }

  /** A group is the subsequence of `xs` with the group's key. */
  lemma {:induction false} SelectIsSubsequence<K, E>(xs: seq<E>, ks: seq<K>, k: K)
    requires |ks| == |xs|
    ensures IsSubsequence(Select(xs, ks, k), xs)
  {
    if xs != [] {
      var init := Select(DropLast(xs), DropLast(ks), k);
      SelectIsSubsequence(DropLast(xs), DropLast(ks), k);
      assert xs == DropLast(xs) + [Last(xs)];
      if Last(ks) == k {
        SubsequenceSnoc(init, DropLast(xs), Last(xs));
      } else {
        assert Select(xs, ks, k) == init;
        SubsequenceExtend(init, DropLast(xs), Last(xs));
      }
    }
  }

  /** A group has one element per occurrence of its key. */
  lemma {:induction false} SelectCounts<K, E>(xs: seq<E>, ks: seq<K>, k: K)
    requires |ks| == |xs|
    ensures |Select(xs, ks, k)| == Count(k, ks)
  {
    if xs != [] {
      SelectCounts(DropLast(xs), DropLast(ks), k);
      assert ks == DropLast(ks) + [Last(ks)];
      assert multiset(ks) == multiset(DropLast(ks)) + multiset{Last(ks)};
    }
  }

  /** `groupBy(_ f: (Int) -> A)`: groups the elements by `f` of their index. */
  method GroupByIndex<K(==), E>(xs: seq<E>, f: int -> K) returns (dictionary: map<K, seq<E>>)
    ensures dictionary == GroupWith(xs, seq(|xs|, i => f(i)))
  {
    var ks := seq(|xs|, i => f(i));
    dictionary := map[];
    var index := 0;
    while index < |xs|
      invariant 0 <= index <= |xs|
      invariant dictionary == GroupWith(xs[..index], ks[..index])
    {
      var key := f(index);
      ghost var before := dictionary;
      if key in dictionary {
        var subarray := dictionary[key];
        subarray := subarray + [xs[index]];
        dictionary := dictionary[key := subarray];
      } else {
        dictionary := dictionary[key := [xs[index]]];
        assert [] + [xs[index]] == [xs[index]];
      }
      assert key == ks[index];
      assert dictionary == before[key := (if key in before then before[key] else []) + [xs[index]]];
      GroupWithSnoc(xs[..index], ks[..index], xs[index], ks[index]);
      assert xs[..index + 1] == xs[..index] + [xs[index]];
      assert ks[..index + 1] == ks[..index] + [ks[index]];
      index := index + 1;
    }
    assert xs[..index] == xs && ks[..index] == ks;
  }

  /** `groupBy(_ f: (Element) -> A)`: groups the elements by `f` of the element. */
  method GroupByElement<K(==), E>(xs: seq<E>, f: E -> K) returns (dictionary: map<K, seq<E>>)
    ensures dictionary == GroupWith(xs, seq(|xs|, i requires 0 <= i < |xs| => f(xs[i])))
  {
    var ks := seq(|xs|, i requires 0 <= i < |xs| => f(xs[i]));
    dictionary := map[];
    var index := 0;
    while index < |xs|
      invariant 0 <= index <= |xs|
      invariant dictionary == GroupWith(xs[..index], ks[..index])
    {
      var element := xs[index];
      var key := f(element);
      ghost var before := dictionary;
      if key in dictionary {
        var subarray := dictionary[key];
        subarray := subarray + [element];
        dictionary := dictionary[key := subarray];
      } else {
        dictionary := dictionary[key := [element]];
        assert [] + [xs[index]] == [xs[index]];
      }
      assert key == ks[index];
      assert dictionary == before[key := (if key in before then before[key] else []) + [xs[index]]];
      GroupWithSnoc(xs[..index], ks[..index], xs[index], ks[index]);
      assert xs[..index + 1] == xs[..index] + [xs[index]];
      assert ks[..index + 1] == ks[..index] + [ks[index]];
      index := index + 1;
    }
    assert xs[..index] == xs && ks[..index] == ks;
  }

  /** Grouping by element: `e` lands in the group `f(e)`, each group holds exactly the
      elements mapped to its key, in order, and the sizes add up to the count. */
  lemma GroupByElementPartitions<K, E>(xs: seq<E>, f: E -> K)
    ensures var ks := seq(|xs|, i requires 0 <= i < |xs| => f(xs[i]));
            var g := GroupWith(xs, ks);
            && (forall i :: 0 <= i < |xs| ==> f(xs[i]) in g)
            && (forall k :: k in g ==> g[k] == Select(xs, ks, k) && IsSubsequence(g[k], xs))
            && TotalSize(g) == |xs|
  {
    var ks := seq(|xs|, i requires 0 <= i < |xs| => f(xs[i]));
    var g := GroupWith(xs, ks);
    GroupWithPartitions(xs, ks);
    forall k | k in g ensures g[k] == Select(xs, ks, k) && IsSubsequence(g[k], xs) {
      SelectIsSubsequence(xs, ks, k);
    }
    forall i | 0 <= i < |xs| ensures f(xs[i]) in g {
      assert ks[i] == f(xs[i]);
      assert ks[i] in ks;
    }
  }

  /** Grouping by index: the element at `i` lands in the group `f(i)`, each group holds
      exactly the elements whose index maps to its key, in order, one per such index,
      and the sizes add up to the count. */
  lemma GroupByIndexPartitions<K, E>(xs: seq<E>, f: int -> K)
    ensures var ks := seq(|xs|, i => f(i));
            var g := GroupWith(xs, ks);
            && (forall i :: 0 <= i < |xs| ==> f(i) in g && xs[i] in g[f(i)])
            && (forall k :: k in g ==> g[k] == Select(xs, ks, k) && |g[k]| == Count(k, ks))
            && TotalSize(g) == |xs|
  {
    var ks := seq(|xs|, i => f(i));
    var g := GroupWith(xs, ks);
    GroupWithPartitions(xs, ks);
    forall k | k in g ensures g[k] == Select(xs, ks, k) && |g[k]| == Count(k, ks) {
      SelectCounts(xs, ks, k);
    }
    forall i | 0 <= i < |xs| ensures f(i) in g && xs[i] in g[f(i)] {
      assert ks[i] == f(i);
      assert ks[i] in ks;
      SelectContains(xs, ks, i);
    }
  }

  /** The element at `i` is in the selection for its own key. */
  lemma {:induction false} SelectContains<K, E>(xs: seq<E>, ks: seq<K>, i: nat)
    requires |ks| == |xs| && i < |xs|
    ensures xs[i] in Select(xs, ks, ks[i])
  {
    if i < |xs| - 1 {
      SelectContains(DropLast(xs), DropLast(ks), i);
    }
  }
}
