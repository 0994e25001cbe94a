/** `Bag`: an insertion-ordered collection whose entries are removed with the
    `RemovalToken` that `insert` returned (Source/Bag.swift).

    `RemovalToken` is a class whose `identifier` field is shared between the
    caller and the bag entry, and `reindex` writes through it. Tokens are
    therefore references: a `TokenRef` indexes a heap `Tokens` holding the
    `identifier` field of every token allocated so far, and every operation
    that writes a token takes and returns that heap. Allocating a token
    appends to the heap.

    `UInt` is Swift's 64-bit unsigned integer; `addWithOverflow` is written out.
 */
module Bags {
  import opened Optionals
  import opened Traces

  const UINT_MAX: int := 0xFFFF_FFFF_FFFF_FFFF
  /** Swift's `Int.max`, the largest possible `Array` count. */
  const INT_MAX: int := 0x7FFF_FFFF_FFFF_FFFF

  type UInt = x: int | 0 <= x <= UINT_MAX

  type TokenRef = nat
  /** The `identifier` field of every allocated `RemovalToken`, indexed by reference. */
  type Tokens = seq<Option<UInt>>

  datatype Element<T> = Element(value: T, identifier: UInt, token: TokenRef)
  datatype Bag<T> = Bag(elements: seq<Element<T>>, currentIdentifier: UInt)

  /** The result of `insert`: the new bag, the token heap, and the returned token. */
  datatype Inserted<T> = Inserted(bag: Bag<T>, tokens: Tokens, token: TokenRef)

  /** `Bag()`. */
  function Empty<T>(): Bag<T>
  {
    Bag([], 0)
  }

  /** The values in storage order: what iteration yields. */
  function Values<T>(b: Bag<T>): (vs: seq<T>)
    ensures |vs| == |b.elements|
    ensures forall i :: 0 <= i < |vs| ==> vs[i] == b.elements[i].value
  {
    seq(|b.elements|, i requires 0 <= i < |b.elements| => b.elements[i].value)
  }

  /** Every entry's token is an allocated object, and the array fits Swift's `Int` count. */
  predicate WellFormed<T>(b: Bag<T>, ts: Tokens)
  {
    && |b.elements| <= INT_MAX
    && forall i :: 0 <= i < |b.elements| ==> b.elements[i].token < |ts|
  }

  /** The bag invariant: identifiers strictly increase in position order and lie
      below the counter, and each entry's token carries the entry's identifier. */
  predicate Valid<T>(b: Bag<T>, ts: Tokens)
  {
    && WellFormed(b, ts)
    && (forall i, j :: 0 <= i < j < |b.elements| ==> b.elements[i].identifier < b.elements[j].identifier)
    && (forall i :: 0 <= i < |b.elements| ==> b.elements[i].identifier < b.currentIdentifier)
    && (forall i :: 0 <= i < |b.elements| ==> ts[b.elements[i].token] == Some(b.elements[i].identifier))
  }

  predicate DistinctTokens<T>(elems: seq<Element<T>>)
  {
    forall i, j :: 0 <= i < j < |elems| ==> elems[i].token != elems[j].token
  }

  /** Distinct identifiers carried by the tokens force distinct tokens. */
  lemma ValidDistinctTokens<T>(b: Bag<T>, ts: Tokens)
    requires Valid(b, ts)
    ensures DistinctTokens(b.elements)
  {
    forall i, j | 0 <= i < j < |b.elements|
      ensures b.elements[i].token != b.elements[j].token
    {
      assert b.elements[i].identifier < b.elements[j].identifier;
    }
  }

  lemma EmptyValid<T>(ts: Tokens)
    ensures Valid(Empty<T>(), ts)
  {
  }

  // ---- reindex ----

  /** The loop of `reindex` from index `i` on, with `cur` the counter so far. */
  function ReindexLoop<T>(elems: seq<Element<T>>, ts: Tokens, i: nat, cur: UInt): (r: (Bag<T>, Tokens))
    requires i <= |elems| <= INT_MAX
    requires forall k :: 0 <= k < |elems| ==> elems[k].token < |ts|
    ensures |r.0.elements| == |elems| && |r.1| == |ts|
    ensures forall k :: 0 <= k < |elems| ==>
      r.0.elements[k].value == elems[k].value && r.0.elements[k].token == elems[k].token
    ensures forall k :: 0 <= k < i ==> r.0.elements[k] == elems[k]
    ensures forall k :: i <= k < |elems| ==> r.0.elements[k].identifier == k
    ensures r.0.currentIdentifier == (if i < |elems| then |elems| - 1 else cur)
    ensures DistinctTokens(elems) ==> forall k :: i <= k < |elems| ==> r.1[elems[k].token] == Some(k)
    ensures forall t :: 0 <= t < |ts| && (forall k :: i <= k < |elems| ==> elems[k].token != t) ==> r.1[t] == ts[t]
    decreases |elems| - i
  {
    if i == |elems| then (Bag(elems, cur), ts)
    else
      var e := elems[i];
      ReindexLoop(elems[i := e.(identifier := i)], ts[e.token := Some(i)], i + 1, i)
  }

  /** `reindex()`: element `i` and its token get identifier `i`; the counter is left at the last index. */
  function Reindex<T>(b: Bag<T>, ts: Tokens): (r: (Bag<T>, Tokens))
    requires WellFormed(b, ts)
    ensures Values(r.0) == Values(b)
    ensures WellFormed(r.0, r.1) && |r.1| == |ts|
    ensures forall k :: 0 <= k < |b.elements| ==>
      r.0.elements[k].identifier == k && r.0.elements[k].token == b.elements[k].token
    ensures r.0.currentIdentifier == (if |b.elements| > 0 then |b.elements| - 1 else b.currentIdentifier)
    ensures DistinctTokens(b.elements) ==> forall k :: 0 <= k < |b.elements| ==> r.1[b.elements[k].token] == Some(k)
  {
    ReindexLoop(b.elements, ts, 0, b.currentIdentifier)
  }

  // ---- insert ----

  /** `insert(_:)` exactly as written: on counter overflow it reindexes (leaving the
      counter at the last index, which it then reuses) and stores the wrapped counter. */
  function InsertAsWritten<T>(b: Bag<T>, ts: Tokens, v: T): (r: Inserted<T>)
    requires WellFormed(b, ts) && |b.elements| < INT_MAX
    ensures Values(r.bag) == Values(b) + [v]
    ensures WellFormed(r.bag, r.tokens)
    ensures r.token == |ts| && |r.tokens| == |ts| + 1
    ensures b.currentIdentifier < UINT_MAX ==>
      && r.bag.elements == b.elements + [Element(v, b.currentIdentifier, r.token)]
      && r.bag.currentIdentifier == b.currentIdentifier + 1
      && r.tokens == ts + [Some(b.currentIdentifier)]
  {
    var overflow := b.currentIdentifier == UINT_MAX;
    var next: UInt := if overflow then 0 else b.currentIdentifier + 1;
    var (b1, ts1) := if overflow then Reindex(b, ts) else (b, ts);
    var token := |ts1|;
    Inserted(Bag(b1.elements + [Element(v, b1.currentIdentifier, token)], next), ts1 + [Some(b1.currentIdentifier)], token)
  }

  /** The overflow path of `InsertAsWritten` gives two entries the same identifier,
      after which removing the older entry's token removes the newer entry instead. */
  lemma InsertAsWrittenReusesIdentifier(x: int, y: int)
    requires x != y
    ensures var b := Bag([Element(x, 5, 0)], UINT_MAX);
            var ts: Tokens := [Some(5)];
            var r := InsertAsWritten(b, ts, y);
            && Valid(b, ts)
            && !Valid(r.bag, r.tokens)
            && Values(Remove(r.bag, r.tokens, 0).0) == [x]
  {
    var b := Bag([Element(x, 5, 0)], UINT_MAX);
    var ts: Tokens := [Some(5)];
    var r := InsertAsWritten(b, ts, y);
    assert r.bag.elements[0].identifier == 0;
    assert r.bag.elements == [Element(x, 0, 0), Element(y, 0, 1)];
    assert r.tokens == [Some(0), Some(0)];
    assert LastIndexOf(r.bag.elements, 0) == Some(1);
    assert Remove(r.bag, r.tokens, 0).0.elements == [Element(x, 0, 0)];
  }

  /** `insert(_:)` with the overflow path corrected: after reindexing, the next free
      identifier is the element count. Without overflow it is `InsertAsWritten`. */
  function Insert<T>(b: Bag<T>, ts: Tokens, v: T): (r: Inserted<T>)
    requires WellFormed(b, ts) && |b.elements| < INT_MAX
    ensures Values(r.bag) == Values(b) + [v]
    ensures WellFormed(r.bag, r.tokens)
    ensures r.token == |ts| && |r.tokens| == |ts| + 1
    ensures |r.bag.elements| > 0 && Last(r.bag.elements).token == r.token
    ensures r.tokens[r.token] == Some(Last(r.bag.elements).identifier)
    ensures b.currentIdentifier < UINT_MAX ==> r == InsertAsWritten(b, ts, v)
    ensures Valid(b, ts) ==> Valid(r.bag, r.tokens)
  {
    var overflow := b.currentIdentifier == UINT_MAX;
    var (b1, ts1) := if overflow then Reindex(b, ts) else (b, ts);
    var id: UInt := if overflow then |b.elements| else b.currentIdentifier;
    var token := |ts1|;
    var r := Inserted(Bag(b1.elements + [Element(v, id, token)], id + 1), ts1 + [Some(id)], token);
    assert Valid(b, ts) ==> Valid(r.bag, r.tokens) by {
      if Valid(b, ts) {
        ValidDistinctTokens(b, ts);
        InsertKeepsValid(b, ts, b1, ts1, v, id, overflow);
      }
    }
    r
  }

  /** The heart of `Insert`'s invariant: the new identifier exceeds every live one. */
  lemma InsertKeepsValid<T>(b: Bag<T>, ts: Tokens, b1: Bag<T>, ts1: Tokens, v: T, id: UInt, overflow: bool)
    requires Valid(b, ts) && |b.elements| < INT_MAX && DistinctTokens(b.elements)
    requires overflow == (b.currentIdentifier == UINT_MAX)
    requires (b1, ts1) == (if overflow then Reindex(b, ts) else (b, ts))
    requires id == (if overflow then |b.elements| else b.currentIdentifier)
    requires id < UINT_MAX
    ensures Valid(Bag(b1.elements + [Element(v, id, |ts1|)], id + 1), ts1 + [Some(id)])
  {
    var n := |b.elements|;
    assert |b1.elements| == n && |ts1| == |ts|;
    assert forall k :: 0 <= k < n ==> b1.elements[k].identifier < id;
    assert forall k :: 0 <= k < n ==> ts1[b1.elements[k].token] == Some(b1.elements[k].identifier);
  }

  // ---- removeValueForToken ----

  /** The backward scan of `removeValueForToken`: the last position carrying `id`. */
  function LastIndexOf<T>(elems: seq<Element<T>>, id: UInt): (r: Option<nat>)
    ensures r.Some? ==> r.value < |elems| && elems[r.value].identifier == id
    ensures r.Some? ==> forall k :: r.value < k < |elems| ==> elems[k].identifier != id
    ensures r.None? ==> forall k :: 0 <= k < |elems| ==> elems[k].identifier != id
  {
    if elems == [] then None
    else if Last(elems).identifier == id then Some(|elems| - 1)
    else LastIndexOf(DropLast(elems), id)
  }

  /** `removeValueForToken(_:)`: removes the last entry carrying the token's identifier
      and clears the token; a cleared or unmatched token changes nothing. */
  function Remove<T>(b: Bag<T>, ts: Tokens, t: TokenRef): (r: (Bag<T>, Tokens))
    requires t < |ts|
    ensures |r.1| == |ts| && r.0.currentIdentifier == b.currentIdentifier
    ensures r.1[t].None? || r == (b, ts)
    ensures ts[t].None? ==> r == (b, ts)
    ensures ts[t].Some? && (forall k :: 0 <= k < |b.elements| ==> b.elements[k].identifier != ts[t].value) ==> r == (b, ts)
    ensures forall i :: 0 <= i < |b.elements| && ts[t] == Some(b.elements[i].identifier)
                        && (forall k :: i < k < |b.elements| ==> b.elements[k].identifier != b.elements[i].identifier) ==>
      r == (Bag(b.elements[..i] + b.elements[i + 1..], b.currentIdentifier), ts[t := None])
  {
    match ts[t]
    case None => (b, ts)
    case Some(id) =>
      match LastIndexOf(b.elements, id)
      case None => (b, ts)
      case Some(i) => (Bag(b.elements[..i] + b.elements[i + 1..], b.currentIdentifier), ts[t := None])
  }

  /** In a valid bag a live token removes exactly its own entry; the others keep their order. */
  lemma RemoveLiveToken<T>(b: Bag<T>, ts: Tokens, i: nat)
    requires Valid(b, ts) && i < |b.elements|
    ensures var r := Remove(b, ts, b.elements[i].token);
            && r.0.elements == b.elements[..i] + b.elements[i + 1..]
            && r.1 == ts[b.elements[i].token := None]
            && Values(r.0) == Values(b)[..i] + Values(b)[i + 1..]
  {
    var es := b.elements;
    var t := es[i].token;
    assert ts[t] == Some(es[i].identifier);
    assert forall k :: i < k < |es| ==> es[k].identifier != es[i].identifier;
    var r := Remove(b, ts, t);
    assert r == (Bag(es[..i] + es[i + 1..], b.currentIdentifier), ts[t := None]);
    ValuesRemoveAt(b, i);
  }

  lemma ValuesRemoveAt<T>(b: Bag<T>, i: nat)
    requires i < |b.elements|
    ensures Values(Bag(b.elements[..i] + b.elements[i + 1..], b.currentIdentifier)) == Values(b)[..i] + Values(b)[i + 1..]
  {
    var es := b.elements;
    var vs := Values(Bag(es[..i] + es[i + 1..], b.currentIdentifier));
    var ws := Values(b)[..i] + Values(b)[i + 1..];
    assert |vs| == |ws|;
    forall k | 0 <= k < |vs|
      ensures vs[k] == ws[k]
    {
      if k < i {
        assert vs[k] == es[k].value;
      } else {
        assert vs[k] == es[k + 1].value;
      }
    }
  }

  /** "If the value has already been removed, nothing happens": removing twice is removing once. */
  lemma RemoveIdempotent<T>(b: Bag<T>, ts: Tokens, t: TokenRef)
    requires t < |ts|
    ensures var r := Remove(b, ts, t); Remove(r.0, r.1, t) == r
  {
  }

  /** Removal keeps the bag invariant. */
  lemma RemoveKeepsValid<T>(b: Bag<T>, ts: Tokens, t: TokenRef)
    requires Valid(b, ts) && t < |ts|
    ensures var r := Remove(b, ts, t); Valid(r.0, r.1)
  {
    var r := Remove(b, ts, t);
    if r != (b, ts) {
      var id := ts[t].value;
      var i := LastIndexOf(b.elements, id).value;
      var es := b.elements;
      var rs := r.0.elements;
      assert rs == es[..i] + es[i + 1..];
      assert r.1 == ts[t := None];
      forall k | 0 <= k < |rs|
        ensures rs[k] == es[if k < i then k else k + 1]
      {
      }
      forall k | 0 <= k < |rs|
        ensures rs[k].token < |r.1| && rs[k].identifier < r.0.currentIdentifier
        ensures r.1[rs[k].token] == Some(rs[k].identifier)
      {
        var j := if k < i then k else k + 1;
        assert es[j].identifier != id;
        assert rs[k].token != t;
      }
      forall k, l | 0 <= k < l < |rs|
        ensures rs[k].identifier < rs[l].identifier
      {
        var jk := if k < i then k else k + 1;
        var jl := if l < i then l else l + 1;
        assert jk < jl;
      }
    }
  }

  /** Bag round trip: removing with the token `insert` returned gives back the earlier values. */
  lemma InsertRemoveRoundTrip<T>(b: Bag<T>, ts: Tokens, v: T)
    requires Valid(b, ts) && |b.elements| < INT_MAX
    ensures var ins := Insert(b, ts, v);
            var r := Remove(ins.bag, ins.tokens, ins.token);
            Values(r.0) == Values(b) && Valid(r.0, r.1)
  {
    var ins := Insert(b, ts, v);
    var n := |ins.bag.elements| - 1;
    assert ins.bag.elements[n].token == ins.token;
    RemoveLiveToken(ins.bag, ins.tokens, n);
    RemoveKeepsValid(ins.bag, ins.tokens, ins.token);
    assert Values(ins.bag)[..n] == Values(b);
  }

  // ---- Collection conformance ----

  function StartIndex<T>(b: Bag<T>): nat
  {
    0
  }

  function EndIndex<T>(b: Bag<T>): nat
  {
    |b.elements|
  }

  function IndexAfter<T>(b: Bag<T>, i: nat): nat
  {
    i + 1
  }

  /** `subscript(index:)`: the value stored at position `index`. */
  function At<T>(b: Bag<T>, i: nat): (v: T)
    requires i < |b.elements|
    ensures v == Values(b)[i]
  {
    b.elements[i].value
  }

  /** Walking from `startIndex` by `index(after:)` up to `endIndex` visits every value once, in storage order. */
  lemma {:induction false} IterationVisitsValues<T>(b: Bag<T>, i: nat)
    requires StartIndex(b) <= i <= EndIndex(b)
    ensures Walk(b, i) == Values(b)[i..]
    decreases EndIndex(b) - i
  {
    if i < EndIndex(b) {
      IterationVisitsValues(b, IndexAfter(b, i));
    }
  }

  /** Iteration from index `i`: `subscript` at each index until `endIndex`. */
  function Walk<T>(b: Bag<T>, i: nat): seq<T>
    requires i <= EndIndex(b)
    decreases EndIndex(b) - i
  {
    if i == EndIndex(b) then [] else [At(b, i)] + Walk(b, IndexAfter(b, i))
  }
}
