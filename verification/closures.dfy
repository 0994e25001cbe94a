/** `IO` and `Readonly` (Source/Structs/Closures.swift): a getter/setter pair over
    a captured variable. The captured variables live in a store, a sequence of
    cells, and an `IO` names the cell its closures capture; `readonly` keeps the
    getter, so it reads the same cell.
 */
module Closures {

  datatype IO = IO(cell: nat)
  datatype Readonly = Readonly(cell: nat)

  /** `init(copy:)`: captures a fresh variable holding a copy of the value. */
  function Copy<A>(store: seq<A>, value: A): (r: (IO, seq<A>))
    ensures r.0.cell == |store| && r.1 == store + [value]
  {
    (IO(|store|), store + [value])
  }

  /** `init(wrappedValue:)`: `IO(copy: wrappedValue)`. */
  function InitWrappedValue<A>(store: seq<A>, wrappedValue: A): (r: (IO, seq<A>))
    ensures r == Copy(store, wrappedValue)
  {
    Copy(store, wrappedValue)
  }

  /** The `value` getter (and `wrappedValue`): calls `get`. */
  function Get<A>(io: IO, store: seq<A>): A
    requires io.cell < |store|
  {
    store[io.cell]
  }

  /** The `value` setter (and `wrappedValue`'s): calls `set`, which writes the captured variable. */
  function SetValue<A>(io: IO, store: seq<A>, v: A): (r: seq<A>)
    requires io.cell < |store|
    ensures |r| == |store|
    ensures r[io.cell] == v
    ensures forall j :: 0 <= j < |store| && j != io.cell ==> r[j] == store[j]
  {
    store[io.cell := v]
  }

  /** `readonly`: a `Readonly` over the same getter. */
  function ReadonlyOf(io: IO): Readonly
  {
    Readonly(io.cell)
  }

  /** `Readonly.value`. */
  function ReadonlyValue<A>(r: Readonly, store: seq<A>): A
    requires r.cell < |store|
  {
    store[r.cell]
  }

  /** A fresh copy reads the copied value; a read after a write returns what was
      written; a write through one `IO` leaves every other captured variable alone,
      so two copies of the same value are independent; and the `readonly` view sees
      every write made through its `IO`. */
  lemma IOBehavesAsVariable<A>(store: seq<A>, value: A, io: IO, other: IO, v: A)
    requires io.cell < |store| && other.cell < |store|
    ensures var (created, s1) := Copy(store, value);
            && Get(created, s1) == value
            && Get(io, s1) == Get(io, store)
    ensures Get(io, SetValue(io, store, v)) == v
    ensures other.cell != io.cell ==> Get(other, SetValue(io, store, v)) == Get(other, store)
    ensures ReadonlyValue(ReadonlyOf(io), SetValue(io, store, v)) == v
    ensures ReadonlyValue(ReadonlyOf(io), store) == Get(io, store)
  {
  }

  /** Two copies of one value start equal and are independent afterwards. */
  lemma CopiesAreIndependent<A>(store: seq<A>, value: A, v: A)
    ensures var (a, s1) := Copy(store, value);
            var (b, s2) := Copy(s1, value);
            && a != b
            && Get(a, s2) == Get(b, s2) == value
            && Get(b, SetValue(a, s2, v)) == value
            && Get(a, SetValue(a, s2, v)) == v
  {
  }
}
