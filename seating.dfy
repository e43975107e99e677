/** What each link update of the class `Arturo<T>` of arturo.h does to the arena. */
module Seating {
  import opened RoundTable
  import opened Links
  import opened Arena

  /** A fresh handle, above every handle of the ring, is not on it. */
  lemma FreshHandle(ring: seq<nat>, izq: map<nat, nat>, der: map<nat, nat>, next: nat)
    requires RingOf(ring, izq, der, next)
    ensures next !in ring
  {
  }

  /** The seat `sentarArturo` (arturo.h:236) creates, linked both ways to itself, is a ring of one. */
  lemma SeatArturoLinks<T>(s: Seats<T>, ring: seq<nat>, spk: nat, arturo: Option<nat>,
                           hablando: Option<nat>, interrupted: bool, size: int, a: T)
    requires Inv(s, ring, spk, arturo, hablando, interrupted, size) && size == 0
    ensures
      var h := s.next;
      var s1 := Seats(s.val[h := a], s.izq[h := h], s.der[h := h], h + 1);
      && Inv(s1, [h], 0, Some(h), Some(h), interrupted, size + 1)
      && TableOf(s1, [h], 0, interrupted) == RoundTable.SeatArturo(TableOf(s, ring, spk, interrupted), a)
  {
    var h := s.next;
    assert Values(s.val[h := a], [h])[0] == a;
    DistinctPairs(Values(s.val[h := a], [h]));
  }

  /**
   The seats after `incorporarCaballero` (arturo.h:246-252) puts `c` on the fresh handle `next`
   right of Arturo: the four link updates splice it into the ring, the table read off the
   seats is the one `RoundTable.AddKnight` describes, and the cursors keep their seats.
   */
  lemma AddKnightLinks<T>(s: Seats<T>, ring: seq<nat>, spk: nat, arturo: Option<nat>,
                          hablando: Option<nat>, interrupted: bool, size: int, c: T)
    requires Inv(s, ring, spk, arturo, hablando, interrupted, size) && size > 0
    requires c !in Values(s.val, ring)
    ensures arturo.Some? && arturo.value in s.der
    ensures
      var k := s.next;
      var a := arturo.value;
      var b := s.der[a];
      var s1 := Seats(s.val[k := c], s.izq[k := k][k := a][b := k], s.der[k := k][a := k][k := b], k + 1);
      var u := InsertAfter(ring, 0, k);
      var sp := if spk == 0 then 0 else spk + 1;
      && Inv(s1, u, sp, arturo, hablando, interrupted, size + 1)
      && TableOf(s1, u, sp, interrupted) == RoundTable.AddKnight(TableOf(s, ring, spk, interrupted), c)
  {
    var val: map<nat, T>, izq: map<nat, nat>, der: map<nat, nat>, next: nat := s.val, s.izq, s.der, s.next;
    var k := next;
    var a := ring[0];
    LinksAt(ring, izq, der, 0);
    FreshHandle(ring, izq, der, next);
    DistinctHandles(val, ring);
    SpliceIn(ring, izq, der, 0, k);
    var b := der[a];
    assert a != k;
    assert izq[k := k][k := a][b := k] == izq[k := a][b := k];
    assert der[k := k][a := k][k := b] == der[a := k][k := b];
    var u := InsertAfter(ring, 0, k);
    forall x | 0 <= x < |u| ensures u[x] < next + 1 && u[x] in val[k := c] {
      if x > 1 {
        assert u[x] == ring[x - 1];
      }
    }
    var vs := Values(val, ring);
    var ws := Values(val[k := c], u);
    var want := [vs[0], c] + vs[1..];
    assert |ws| == |want|;
    forall x | 0 <= x < |ws| ensures ws[x] == want[x] {
      if x > 1 {
        assert u[x] == ring[x - 1] && ring[x - 1] != k;
      }
    }
    assert ws == want;
    if spk > 0 {
      assert u[spk + 1] == ring[spk];
    }
    var sp := if spk == 0 then 0 else spk + 1;
    var s1 := Seats(val[k := c], izq[k := k][k := a][b := k], der[k := k][a := k][k := b], k + 1);
    assert Seated(s1.val, u);
    assert TableOf(s1, u, sp, interrupted) == RoundTable.AddKnight(TableOf(s, ring, spk, interrupted), c);
    assert RoundTable.Valid(TableOf(s1, u, sp, interrupted));
    assert RingOf(u, s1.izq, s1.der, s1.next);
    assert CursorsOf(u, sp, arturo, hablando, size + 1);
  }
  /** Dropping the seat at position `i` drops the value at position `i`. */
  lemma ValuesRemove<T>(val: map<nat, T>, ring: seq<nat>, i: nat)
    requires Seated(val, ring) && i < |ring|
    ensures var u := Without(ring, i);
      && (forall x :: 0 <= x < i ==> u[x] == ring[x])
      && (forall x :: i <= x < |u| ==> u[x] == ring[x + 1])
      && Seated(val, u)
      && Values(val, u) == Without(Values(val, ring), i)
  {
    var u := Without(ring, i);
    assert forall x :: 0 <= x < i ==> u[x] == ring[x];
    assert forall x :: i <= x < |u| ==> u[x] == ring[x + 1];
    var vs := Values(val, ring);
    var ws := Values(val, u);
    var want := Without(vs, i);
    assert |ws| == |want|;
    forall x | 0 <= x < |ws| ensures ws[x] == want[x] {
      if x >= i {
        assert u[x] == ring[x + 1];
      }
    }
  }

  /**
   The two link updates of `expulsarCaballero` (arturo.h:269-270) unlink the seat at position
   `i` of a ring: its neighbours are linked to each other and the ring loses that seat.
   */
  lemma RemoveSeatLinks(ring: seq<nat>, izq: map<nat, nat>, der: map<nat, nat>, next: nat, i: nat)
    requires RingOf(ring, izq, der, next) && Distinct(ring) && i < |ring|
    ensures ring[i] in izq && ring[i] in der && der[ring[i]] in izq
    ensures
      var d := ring[i];
      var izq1 := izq[der[d] := izq[d]];
      && d in izq1
      && RingOf(Without(ring, i), izq1, der[izq1[d] := der[d]], next)
  {
    LinksAt(ring, izq, der, i);
    var u := Without(ring, i);
    if |ring| >= 2 {
      LinkedInverse(ring, izq, der, ring[i]);
      SpliceOut(ring, izq, der, i);
      forall x | 0 <= x < |u| ensures u[x] < next {
        if x >= i {
          assert u[x] == ring[x + 1];
        }
      }
    } else {
      assert u == [];
    }
  }

  /**
   Where the floor goes when `expulsarCaballero` (arturo.h:263-265) removes the seat at
   position `i` (not Arturo's): position `sp` of the shortened ring is the seat the source moves
   `hablando` to.
   */
  lemma ExpelSpeaker(ring: seq<nat>, izq: map<nat, nat>, der: map<nat, nat>, spk: nat,
                     arturo: Option<nat>, hablando: Option<nat>, interrupted: bool, i: nat)
    requires Linked(ring, izq, der) && Distinct(ring) && 0 < i < |ring| && spk < |ring|
    requires arturo == Some(ring[0]) && hablando == Some(ring[spk])
    ensures ring[i] in der
    ensures
      var d := ring[i];
      var k := if i != spk then spk else if interrupted then 0 else Succ(i, |ring|);
      var sp := if k < i then k else k - 1;
      var speaker := if Some(d) == hablando then (if interrupted then arturo else Some(der[d])) else hablando;
      && sp < |ring| - 1
      && speaker == Some(Without(ring, i)[sp])
  {
    var n := |ring|;
    LinksAt(ring, izq, der, spk);
    DistinctPairs(ring);
    assert (ring[i] == ring[spk]) == (i == spk);
    var k := if i != spk then spk else if interrupted then 0 else Succ(i, n);
    var sp := if k < i then k else k - 1;
    var u := Without(ring, i);
    assert u[sp] == ring[k];
  }

  /**
   The seats after `expulsarCaballero` (arturo.h:262-278) removes the only knight: the ring is
   empty, and so is the table read off it once the cursors and the interruption flag are cleared.
   */
  lemma ExpelLastLinks<T>(s: Seats<T>, ring: seq<nat>, spk: nat, arturo: Option<nat>,
                          hablando: Option<nat>, interrupted: bool, size: int, c: T)
    requires Inv(s, ring, spk, arturo, hablando, interrupted, size) && c in Values(s.val, ring)
    requires size == 1
    ensures
      var d := ring[IndexOf(Values(s.val, ring), c)];
      && hablando == Some(d) && d in s.izq && d in s.der && s.der[d] in s.izq
      && d in s.izq[s.der[d] := s.izq[d]]
    ensures
      var t := TableOf(s, ring, spk, interrupted);
      var i := IndexOf(t.knights, c);
      var d := ring[i];
      var izq1 := s.izq[s.der[d] := s.izq[d]];
      var s1 := Seats(s.val, izq1, s.der[izq1[d] := s.der[d]], s.next);
      var u := Without(ring, i);
      var r := RoundTable.ExpelKnight(t, c);
      Inv(s1, u, r.speaking, None, None, false, size - 1) && TableOf(s1, u, r.speaking, false) == r
  {
    LinksAt(ring, s.izq, s.der, 0);
    var i := IndexOf(Values(s.val, ring), c);
    assert Without(ring, i) == [];
  }

  /**
   The table read off the seats once `c`, not Arturo, has left a table of two or more is the one
   `RoundTable.ExpelKnight` describes, and its speaker index is the old one moved past the gap.
   */
  lemma ExpelTable<T>(s: Seats<T>, ring: seq<nat>, spk: nat, interrupted: bool, c: T)
    requires Seated(s.val, ring) && RoundTable.Valid(TableOf(s, ring, spk, interrupted))
    requires c in Values(s.val, ring) && |ring| > 1 && IndexOf(Values(s.val, ring), c) != 0
    ensures
      var t := TableOf(s, ring, spk, interrupted);
      var i := IndexOf(t.knights, c);
      var r := RoundTable.ExpelKnight(t, c);
      var k := if i != spk then spk else if interrupted then 0 else Succ(i, |ring|);
      && Seated(s.val, Without(ring, i))
      && TableOf(s, Without(ring, i), r.speaking, interrupted) == r
      && r.speaking == if k < i then k else k - 1
  {
    var vs := Values(s.val, ring);
    var i := IndexOf(vs, c);
    ValuesRemove(s.val, ring, i);
    RemoveAt(vs, i);
  }

  /**
   The seats after `expulsarCaballero` (arturo.h:262-278) removes `c`, not Arturo, from a table
   of two or more: the two link updates unlink its seat, the table read off the seats is the one
   `RoundTable.ExpelKnight` describes, and the floor is at the seat the source moves `hablando` to.
   */
  lemma ExpelKnightLinks<T>(s: Seats<T>, ring: seq<nat>, spk: nat, arturo: Option<nat>,
                            hablando: Option<nat>, interrupted: bool, size: int, c: T)
    requires Inv(s, ring, spk, arturo, hablando, interrupted, size) && c in Values(s.val, ring)
    requires size > 1 && Some(ring[IndexOf(Values(s.val, ring), c)]) != arturo
    ensures
      var d := ring[IndexOf(Values(s.val, ring), c)];
      && hablando.Some? && d in s.izq && d in s.der && s.der[d] in s.izq
      && d in s.izq[s.der[d] := s.izq[d]]
    ensures
      var t := TableOf(s, ring, spk, interrupted);
      var i := IndexOf(t.knights, c);
      var d := ring[i];
      var speaker := if Some(d) == hablando then (if interrupted then arturo else Some(s.der[d])) else hablando;
      var izq1 := s.izq[s.der[d] := s.izq[d]];
      var s1 := Seats(s.val, izq1, s.der[izq1[d] := s.der[d]], s.next);
      var u := Without(ring, i);
      var r := RoundTable.ExpelKnight(t, c);
      && Inv(s1, u, r.speaking, arturo, speaker, interrupted, size - 1)
      && TableOf(s1, u, r.speaking, interrupted) == r
  {
    var vs := Values(s.val, ring);
    var i := IndexOf(vs, c);
    assert i != 0;
    DistinctHandles(s.val, ring);
    RemoveSeatLinks(ring, s.izq, s.der, s.next, i);
    ExpelTable(s, ring, spk, interrupted, c);
    ExpelSpeaker(ring, s.izq, s.der, spk, arturo, hablando, interrupted, i);
    var d := ring[i];
    var izq1 := s.izq[s.der[d] := s.izq[d]];
    var s1 := Seats(s.val, izq1, s.der[izq1[d] := s.der[d]], s.next);
    var r := RoundTable.ExpelKnight(TableOf(s, ring, spk, interrupted), c);
    var speaker := if Some(d) == hablando then (if interrupted then arturo else Some(s.der[d])) else hablando;
    var u := Without(ring, i);
    InvFrom(s1, u, arturo, speaker, size - 1, r);
  }

  /**
   The seats and cursors after `expulsarCaballero` (arturo.h:262-278) removes `c` when it is
   not Arturo with others still seated: the table read off them is the one
   `RoundTable.ExpelKnight` describes, and the invariant holds again.
   */
  lemma ExpelLinks<T>(s: Seats<T>, ring: seq<nat>, spk: nat, arturo: Option<nat>,
                      hablando: Option<nat>, interrupted: bool, size: int, c: T)
    requires Inv(s, ring, spk, arturo, hablando, interrupted, size) && c in Values(s.val, ring)
    requires !(size > 1 && Some(ring[IndexOf(Values(s.val, ring), c)]) == arturo)
    ensures
      var d := ring[IndexOf(Values(s.val, ring), c)];
      && hablando.Some? && d in s.izq && d in s.der && s.der[d] in s.izq
      && d in s.izq[s.der[d] := s.izq[d]]
    ensures
      var t := TableOf(s, ring, spk, interrupted);
      var i := IndexOf(t.knights, c);
      var d := ring[i];
      var speaker := if Some(d) == hablando then (if interrupted then arturo else Some(s.der[d])) else hablando;
      var izq1 := s.izq[s.der[d] := s.izq[d]];
      var s1 := Seats(s.val, izq1, s.der[izq1[d] := s.der[d]], s.next);
      var u := Without(ring, i);
      var r := RoundTable.ExpelKnight(t, c);
      var emptied := size - 1 == 0;
      && Inv(s1, u, r.speaking, if emptied then None else arturo, if emptied then None else speaker,
             interrupted && !emptied, size - 1)
      && TableOf(s1, u, r.speaking, interrupted && !emptied) == r
  {
    if size == 1 {
      ExpelLastLinks(s, ring, spk, arturo, hablando, interrupted, size, c);
    } else {
      ExpelKnightLinks(s, ring, spk, arturo, hablando, interrupted, size, c);
    }
  }

  /** Reading the seats from Arturo's new place reads the values in the same rotated order. */
  lemma ReseatValues<T>(val: map<nat, T>, ring: seq<nat>, i: nat)
    requires Seated(val, ring) && 0 < i < |ring|
    ensures
      var u := [ring[0]] + Rotate(ring[1..], i);
      var vs := Values(val, ring);
      Seated(val, u) && Values(val, u) == [vs[0]] + Rotate(vs[1..], i)
  {
    var n := |ring|;
    var u := [ring[0]] + Rotate(ring[1..], i);
    var vs := Values(val, ring);
    ReseatedMembers(ring, i);
    var ws := Values(val, u);
    var want := [vs[0]] + Rotate(vs[1..], i);
    forall x | 0 < x < n ensures ws[x] == want[x] {
      if x - 1 < n - 1 - i {
        assert u[x] == ring[i + x] && want[x] == vs[i + x];
      } else {
        assert u[x] == ring[x - (n - 1 - i)] && want[x] == vs[x - (n - 1 - i)];
      }
    }
    assert ws == want;
  }

  /** A seat of `u` that is on a ring of distinct values and carries the value at `y` is the seat at `y`. */
  lemma SameSeat<T>(val: map<nat, T>, ring: seq<nat>, u: seq<nat>, x: nat, y: nat)
    requires Seated(val, ring) && Distinct(Values(val, ring)) && y < |ring|
    requires Seated(val, u) && x < |u| && u[x] in ring && Values(val, u)[x] == Values(val, ring)[y]
    ensures u[x] == ring[y]
  {
    IndexOfValues(val, ring, u[x]);
    IndexOfDistinct(Values(val, ring), y);
  }

  /**
   The table `RoundTable.ChangePlace` describes is the one read off the rotated ring, and the
   speaker keeps the seat he had.
   */
  lemma ChangePlaceTable<T>(val: map<nat, T>, ring: seq<nat>, spk: nat, interrupted: bool, c: T)
    requires Seated(val, ring) && RoundTable.Valid(Table(Values(val, ring), spk, interrupted))
    requires 3 <= |ring| && c in Values(val, ring)[1..]
    ensures 0 < IndexOf(Values(val, ring), c) < |ring|
    ensures
      var t := Table(Values(val, ring), spk, interrupted);
      var u := [ring[0]] + Rotate(ring[1..], IndexOf(t.knights, c));
      var r := RoundTable.ChangePlace(t, c);
      && RoundTable.Valid(r)
      && Seated(val, u) && Values(val, u) == r.knights
      && r.speaking < |u| && u[r.speaking] == ring[spk]
  {
    var vs := Values(val, ring);
    var t := Table(vs, spk, interrupted);
    var i := IndexOf(vs, c);
    assert 0 < i && IndexOf(vs[1..], c) == i - 1 by {
      var j :| 0 <= j < |vs| - 1 && vs[1..][j] == c;
      assert vs[j + 1] == c;
      DistinctPairs(vs);
      assert i != 0;
      DistinctTail(vs);
      assert vs[1..][i - 1] == c;
      IndexOfDistinct(vs[1..], i - 1);
    }
    var r := RoundTable.ChangePlace(t, c);
    var u := [ring[0]] + Rotate(ring[1..], i);
    assert Seated(val, u) && r.knights == Values(val, u) by {
      ReseatValues(val, ring, i);
    }
    ChangePlaceSpec(t, c);
    ReseatedMembers(ring, i);
    SameSeat(val, ring, u, r.speaking, spk);
  }

  /** The invariant, assembled from its parts for a table `r` read off seats `s` in the order `u`. */
  lemma InvFrom<T>(s: Seats<T>, u: seq<nat>, arturo: Option<nat>, hablando: Option<nat>,
                   size: int, r: Table<T>)
    requires Seated(s.val, u) && Values(s.val, u) == r.knights && RoundTable.Valid(r)
    requires Linked(u, s.izq, s.der) && Below(u, s.next)
    requires size == |u| && u != [] && r.speaking < |u|
    requires arturo == Some(u[0]) && hablando == Some(u[r.speaking])
    ensures Inv(s, u, r.speaking, arturo, hablando, r.interrupted, size)
    ensures TableOf(s, u, r.speaking, r.interrupted) == r
  {
  }

  /** Reseating keeps every handle below the next fresh one. */
  lemma ReseatedBelow(ring: seq<nat>, i: nat, next: nat)
    requires 0 < i < |ring| && Below(ring, next)
    ensures Below([ring[0]] + Rotate(ring[1..], i), next)
  {
    var n := |ring|;
    var u := [ring[0]] + Rotate(ring[1..], i);
    forall x | 0 < x < n ensures u[x] < next {
      if x - 1 < n - 1 - i {
        assert u[x] == ring[i + x];
      } else {
        assert u[x] == ring[x - (n - 1 - i)];
      }
    }
  }

  /**
   The seats after the corrected `cambioDeLugar` (arturo.h:282-291) moves Arturo right of `c`:
   the table read off them is the one `RoundTable.ChangePlace` describes, Arturo's seat and the
   speaker's seat are the same seats as before, and the invariant holds again.
   */
  lemma ChangePlaceSeats<T>(s: Seats<T>, ring: seq<nat>, spk: nat, arturo: Option<nat>,
                            hablando: Option<nat>, interrupted: bool, size: int, c: T)
    requires Inv(s, ring, spk, arturo, hablando, interrupted, size)
    requires size >= 3 && c in Values(s.val, ring)[1..]
    ensures
      var i := IndexOf(Values(s.val, ring), c);
      && 0 < i < |ring|
      && ring[0] in s.izq && ring[0] in s.der && ring[i] in s.der
      && s.der[ring[0]] in s.izq && s.izq[ring[0]] in s.der
    ensures
      var t := TableOf(s, ring, spk, interrupted);
      var i := IndexOf(t.knights, c);
      var links := ChangePlaceLinks(s.izq, s.der, ring[0], ring[i]);
      var s1 := Seats(s.val, links.0, links.1, s.next);
      var u := [ring[0]] + Rotate(ring[1..], i);
      var r := RoundTable.ChangePlace(t, c);
      && Inv(s1, u, r.speaking, arturo, hablando, interrupted, size)
      && TableOf(s1, u, r.speaking, interrupted) == r
  {
    var t := TableOf(s, ring, spk, interrupted);
    var i := IndexOf(t.knights, c);
    ChangePlaceTable(s.val, ring, spk, interrupted, c);
    DistinctHandles(s.val, ring);
    ChangePlaceRing(ring, s.izq, s.der, i);
    ReseatedBelow(ring, i, s.next);
    var links := ChangePlaceLinks(s.izq, s.der, ring[0], ring[i]);
    InvFrom(Seats(s.val, links.0, links.1, s.next), [ring[0]] + Rotate(ring[1..], i), arturo, hablando,
            size, RoundTable.ChangePlace(t, c));
  }

  /**
   `ChangePlaceSeats` for the seat handles the method holds: Arturo's seat and the seat `k` of
   `c`. The new ring order and speaker position are returned rather than spelt out.
   */
  function MovedSeats<T>(s: Seats<T>, a: nat, k: nat): Seats<T>
    requires a in s.izq && a in s.der && k in s.der && s.der[a] in s.izq && s.izq[a] in s.der
  {
    var links := ChangePlaceLinks(s.izq, s.der, a, k);
    Seats(s.val, links.0, links.1, s.next)
  }

  lemma ReseatArturo<T>(s: Seats<T>, ring: seq<nat>, spk: nat, arturo: Option<nat>,
                        hablando: Option<nat>, interrupted: bool, size: int, c: T, k: nat)
    returns (u: seq<nat>, sp: nat)
    requires Inv(s, ring, spk, arturo, hablando, interrupted, size)
    requires size >= 3 && c in Values(s.val, ring)[1..] && k == ring[IndexOf(Values(s.val, ring), c)]
    ensures arturo.Some? && arturo.value in s.izq && arturo.value in s.der && k in s.der
    ensures s.der[arturo.value] in s.izq && s.izq[arturo.value] in s.der
    ensures Inv(MovedSeats(s, arturo.value, k), u, sp, arturo, hablando, interrupted, size)
    ensures TableOf(MovedSeats(s, arturo.value, k), u, sp, interrupted) == RoundTable.ChangePlace(TableOf(s, ring, spk, interrupted), c)
  {
    ChangePlaceSeats(s, ring, spk, arturo, hablando, interrupted, size, c);
    var i := IndexOf(Values(s.val, ring), c);
    u := [ring[0]] + Rotate(ring[1..], i);
    sp := RoundTable.ChangePlace(TableOf(s, ring, spk, interrupted), c).speaking;
  }

  /**
   The walk of the copy constructor (arturo.h:223) over seats `os` linked along `oring`: turn
   `i` reads the knight `i + 1` seats left of Arturo, and moves one seat further left.
   */
  lemma CopyWalk<T>(os: Seats<T>, oring: seq<nat>, ks: seq<T>, i: nat, h: nat)
    requires Holds(os, oring, ks) && i < |oring| && h == oring[|oring| - 1 - i]
    ensures h in os.val && os.val[h] == ks[|ks| - (i + 1)] && h in os.izq
    ensures i + 1 < |oring| ==> os.izq[h] == oring[|oring| - 1 - (i + 1)]
  {
    LinksAt(oring, os.izq, os.der, |oring| - 1 - i);
  }

  /**
   One turn of `mostrarArturo` (arturo.h:396-406) at seat `k` of the ring: the entry it writes
   for the handle there is the entry of seat `k`, and `der` leads on to the next seat.
   */
  lemma ShowSeat<T>(s: Seats<T>, ring: seq<nat>, spk: nat, arturo: Option<nat>,
                    hablando: Option<nat>, interrupted: bool, size: int, k: nat)
    requires Inv(s, ring, spk, arturo, hablando, interrupted, size) && k < |ring|
    ensures var h := ring[k];
      && h in s.val && h in s.der && s.der[h] == ring[Succ(k, |ring|)]
      && (if Some(h) == arturo then ArturoEntry(s.val[h])
          else if interrupted && Some(h) == hablando then Starred(s.val[h])
          else Plain(s.val[h])) == EntryAt(TableOf(s, ring, spk, interrupted), k)
  {
    DistinctHandles(s.val, ring);
    LinksAt(ring, s.izq, s.der, k);
    if k != 0 { DistinctAt(ring, k, 0); }
    if k != spk { DistinctAt(ring, k, spk); }
  }
}
