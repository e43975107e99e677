/**
 The node arena behind the class `Arturo<T>` of arturo.h. Seats are handles into the arena
 (`Seats`: the value, left and right neighbour of every handle, with `next` the next fresh
 handle), standing for the heap nodes `Nodo` of arturo.h:164-173; a cursor holds a handle or
 nothing, as the source's pointers hold a node or NULL. `ring` lists the seat handles rightward
 from Arturo's seat and `spk` is the position of `hablando` on it.
 */
module Arena {
  import opened RoundTable
  import opened Links

  datatype Option<X> = None | Some(value: X)

  /** The node arena: `val[h]`, `izq[h]` and `der[h]` are the fields of the node with handle `h`. */
  datatype Seats<T> = Seats(val: map<nat, T>, izq: map<nat, nat>, der: map<nat, nat>, next: nat)

  /** The seats are linked both ways into one cycle, and every handle was handed out already. */
  ghost predicate RingOf(ring: seq<nat>, izq: map<nat, nat>, der: map<nat, nat>, next: nat) {
    Linked(ring, izq, der) && Below(ring, next)
  }

  /** Every handle of the ring was handed out before `next`. */
  ghost predicate Below(ring: seq<nat>, next: nat) {
    forall i :: 0 <= i < |ring| ==> ring[i] < next
  }

  /** The cursors point at Arturo's seat and at the speaker's, or at nothing on an empty table. */
  ghost predicate CursorsOf(ring: seq<nat>, spk: nat, arturo: Option<nat>, hablando: Option<nat>, size: int) {
    && size == |ring|
    && (ring == [] ==> arturo == None && hablando == None)
    && (ring != [] ==> spk < |ring| && arturo == Some(ring[0]) && hablando == Some(ring[spk]))
  }

  /** The table read off the seats of `ring`. */
  ghost function TableOf<T>(s: Seats<T>, ring: seq<nat>, spk: nat, interrupted: bool): Table<T>
    requires Seated(s.val, ring)
  {
    Table(Values(s.val, ring), spk, interrupted)
  }

  /**
   The representation invariant of a round table: the ring's seats carry the knights, are
   linked both ways into one cycle, and the cursors point into it.
   */
  ghost predicate Inv<T>(s: Seats<T>, ring: seq<nat>, spk: nat, arturo: Option<nat>,
                         hablando: Option<nat>, interrupted: bool, size: int) {
    && Seated(s.val, ring)
    && RoundTable.Valid(TableOf(s, ring, spk, interrupted))
    && RingOf(ring, s.izq, s.der, s.next)
    && CursorsOf(ring, spk, arturo, hablando, size)
  }

  /** Seats `os` linked along `oring`, holding the knights `ks` in that order. */
  ghost predicate Holds<T>(os: Seats<T>, oring: seq<nat>, ks: seq<T>) {
    Seated(os.val, oring) && Values(os.val, oring) == ks && Linked(oring, os.izq, os.der)
  }
}
