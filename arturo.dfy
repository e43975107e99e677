/**
 The class `Arturo<T>` of arturo.h: a round table kept as a circular doubly linked ring of
 seats in the arena of the module Arena. Every method is proved against the function of the
 same name in RoundTable, through `Abstract()`.
 */
module ArturoTable {
  import opened RoundTable
  import opened Links
  import opened Arena
  import opened Seating

  class Arturo<T(==)> {
    var seats: Seats<T>
    var arturo: Option<nat>
    var hablando: Option<nat>
    var interrupted: bool
    var size: int
    ghost var ring: seq<nat>
    ghost var spk: nat

    /** The knights in rightward order from Arturo. */
    ghost function Knights(): seq<T>
      reads this
      requires Seated(seats.val, ring)
    {
      Values(seats.val, ring)
    }

    /** The table this object represents. */
    ghost function Abstract(): Table<T>
      reads this
      requires Seated(seats.val, ring)
    {
      TableOf(seats, ring, spk, interrupted)
    }

    ghost predicate Valid()
      reads this
    {
      Inv(seats, ring, spk, arturo, hablando, interrupted, size)
    }

    /** `Arturo()` (arturo.h:189-195): a table with nobody seated. */
    constructor ()
      ensures Valid() && Abstract() == Empty()
      ensures arturo == None && hablando == None && size == 0 && !interrupted
    {
      seats := Seats(map[], map[], map[], 0);
      arturo := None;
      hablando := None;
      interrupted := false;
      size := 0;
      ring := [];
      spk := 0;
    }

    /**
     The copy constructor (arturo.h:209-230): Arturo is seated first, then the original is walked
     leftward from Arturo's seat, each knight seated right of Arturo, so that the copy ends with
     the original's order; the knight holding the original's floor takes the copy's floor.
     */
    constructor Copy(other: Arturo<T>)
      requires other.Valid()
      ensures Valid() && Abstract() == other.Abstract()
    {
      seats := Seats(map[], map[], map[], 0);
      arturo := None;
      hablando := None;
      interrupted := false;
      size := 0;
      ring := [];
      spk := 0;
      new;
      CopyFrom(other);
    }

    /** The body of the copy constructor (arturo.h:215-229) once the new table is set up empty. */
    method CopyFrom(other: Arturo<T>)
      requires Valid() && Abstract() == Empty() && other.Valid() && other != this
      modifies this
      ensures Valid() && Abstract() == other.Abstract()
    {
      if other.size == 0 {
        return;
      }
      var os := other.seats;
      LinksAt(other.ring, os.izq, os.der, 0);
      SeatArturo(os.val[other.arturo.value]);
      CopyLoopComplete(other.Abstract());
      CopyKnights(os, other.ring, other.Abstract(), other.size, os.izq[other.arturo.value], os.val[other.hablando.value]);
      interrupted := other.interrupted;
    }

    /**
     The loop of the copy constructor (arturo.h:223-229) over the original's seats `os`, linked
     along `oring`: from the seat left of Arturo's, leftward, `size` times.
     */
    method CopyKnights(os: Seats<T>, ghost oring: seq<nat>, ghost t: Table<T>, n: int, start: nat,
                       speaker: T)
      requires RoundTable.Valid(t) && n == |oring| && Holds(os, oring, t.knights)
      requires oring != [] && start == oring[n - 1]
      requires speaker == t.knights[t.speaking]
      requires Valid() && Abstract() == CopyLoop(t, 0)
      modifies this
      ensures Valid() && Abstract() == CopyLoop(t, n)
    {
      var you := start;
      var i := 0;
      while i < n
        invariant 0 <= i <= n
        invariant Valid() && Abstract() == CopyLoop(t, i)
        invariant i < n ==> you == oring[|oring| - 1 - i]
      {
        CopyWalk(os, oring, t.knights, i, you);
        i, you := CopyTurn(os, oring, t, i, you, speaker);
      }
    }

    /** `esVacia` (arturo.h:364-367). */
    function IsEmpty(): (r: bool)
      reads this
      requires Valid()
      ensures r <==> Knights() == []
    {
      size == 0
    }

    /** `tamanio` (arturo.h:370-373). */
    function Size(): (r: int)
      reads this
      requires Valid()
      ensures r == |Knights()|
    {
      size
    }

    /** `arturoPresente` as its comment describes it (arturo.h:101-104). */
    function ArturoPresent(): (r: bool)
      reads this
      requires Valid()
      ensures r <==> Knights() != []
    {
      arturo != None
    }

    /** `arturoPresente` as arturo.h:358-361 writes it: true exactly when Arturo is absent. */
    function ArturoPresentAsWritten(): (r: bool)
      reads this
      requires Valid()
      ensures r <==> Knights() == []
      ensures r == !ArturoPresent()
    {
      arturo == None
    }

    /** `caballeroActual` (arturo.h:331-335). */
    function CurrentKnight(): (c: T)
      reads this
      requires Valid() && size > 0
      ensures c == RoundTable.CurrentKnight(Abstract())
    {
      if interrupted then seats.val[arturo.value] else seats.val[hablando.value]
    }

    /**
     `get_node` (arturo.h:376-388): walk right from Arturo for at most `size` seats looking for
     `c`; nothing if it is not seated.
     */
    method FindSeat(c: T) returns (p: Option<nat>)
      requires Valid()
      ensures c !in Knights() ==> p == None
      ensures c in Knights() ==> p == Some(ring[IndexOf(Knights(), c)])
    {
      ghost var ks := Knights();
      var i := 0;
      var iter := arturo;
      while i < size && seats.val[iter.value] != c
        invariant 0 <= i <= size
        invariant i < size ==> iter == Some(ring[i])
        invariant forall j :: 0 <= j < i ==> ks[j] != c
      {
        LinksAt(ring, seats.izq, seats.der, i);
        i := i + 1;
        iter := Some(seats.der[iter.value]);
      }
      if i == size {
        p := None;
      } else {
        assert ks[i] == c;
        p := iter;
      }
    }

    /** `sentarArturo` (arturo.h:234-239): Arturo sits alone, his seat linked to itself. */
    method SeatArturo(a: T)
      requires Valid() && size == 0
      modifies this
      ensures Valid() && Abstract() == RoundTable.SeatArturo(old(Abstract()), a)
      ensures arturo.Some? && hablando == arturo && size == 1
      ensures seats.der[arturo.value] == arturo.value && seats.izq[arturo.value] == arturo.value
    {
      var h := seats.next;
      SeatArturoLinks(seats, ring, spk, arturo, hablando, interrupted, size, a);
      seats := Seats(seats.val[h := a], seats.izq[h := h], seats.der[h := h], h + 1);
      arturo := Some(h);
      hablando := arturo;
      size := size + 1;
      ring := [h];
      spk := 0;
    }

    /**
     `incorporarCaballero` (arturo.h:243-254): a knight not yet seated gets a new seat right of
     Arturo; a knight already seated changes nothing.
     */
    method AddKnight(c: T)
      requires Valid() && size > 0
      modifies this
      ensures Valid() && Abstract() == RoundTable.AddKnight(old(Abstract()), c)
      ensures arturo == old(arturo) && hablando == old(hablando)
    {
      var found := FindSeat(c);
      if found == None {
        SeatRightOfArturo(c);
      }
    }

    /**
     The seating step of `incorporarCaballero` (arturo.h:245-252): a new seat for `c` is spliced
     in right of Arturo with four link updates.
     */
    method SeatRightOfArturo(c: T)
      requires Valid() && size > 0 && c !in Knights()
      modifies this
      ensures Valid() && Abstract() == RoundTable.AddKnight(old(Abstract()), c)
      ensures arturo == old(arturo) && hablando == old(hablando)
    {
      AddKnightLinks(seats, ring, spk, arturo, hablando, interrupted, size, c);
      var k := seats.next;
      var a := arturo.value;
      var oldDer := seats.der[a];
      seats := Seats(seats.val[k := c], seats.izq[k := k][k := a][oldDer := k],
                     seats.der[k := k][a := k][k := oldDer], k + 1);
      size := size + 1;
      ring := InsertAfter(ring, 0, k);
      spk := if spk == 0 then 0 else spk + 1;
    }

    /**
     One turn of the copy loop (arturo.h:223-229) at the original's seat `you`, `i + 1` seats
     left of its Arturo: its knight is copied, and the walk moves one seat further left.
     */
    method CopyTurn(os: Seats<T>, ghost oring: seq<nat>, ghost t: Table<T>, i: int, you: nat,
                    speaker: T) returns (next: int, left: nat)
      requires RoundTable.Valid(t) && |oring| == |t.knights| && 0 <= i < |oring|
      requires you in os.val && os.val[you] == t.knights[|t.knights| - (i + 1)] && you in os.izq
      requires i + 1 < |oring| ==> os.izq[you] == oring[|oring| - 1 - (i + 1)]
      requires speaker == t.knights[t.speaking]
      requires Valid() && Abstract() == CopyLoop(t, i)
      modifies this
      ensures next == i + 1 && (next < |oring| ==> left == oring[|oring| - 1 - next])
      ensures Valid() && Abstract() == CopyLoop(t, next)
    {
      next, left := i + 1, os.izq[you];
      CopyKnight(os.val[you], speaker, t, i);
    }

    /**
     The copy of one knight (arturo.h:224-228): `v` is seated right of Arturo unless already
     seated, and takes the floor if it is `speaker`.
     */
    method CopyKnight(v: T, speaker: T, ghost t: Table<T>, ghost i: nat)
      requires RoundTable.Valid(t) && i < |t.knights| && v == t.knights[|t.knights| - (i + 1)]
      requires speaker == t.knights[t.speaking]
      requires Valid() && Abstract() == CopyLoop(t, i)
      modifies this
      ensures Valid() && Abstract() == CopyLoop(t, i + 1)
    {
      AddKnight(v);
      if v == speaker {
        HandFloorTo(v);
      }
    }

    /** `hablando = get_node(c)` in the copy constructor (arturo.h:226-228): `c` takes the floor. */
    method HandFloorTo(c: T)
      requires Valid() && c in Knights()
      modifies this
      ensures Valid() && Abstract() == Table(old(Knights()), IndexOf(old(Knights()), c), interrupted)
      ensures arturo == old(arturo) && interrupted == old(interrupted)
    {
      hablando := FindSeat(c);
      spk := IndexOf(Knights(), c);
    }

    /**
     `expulsarCaballero` (arturo.h:257-279): Arturo stays while others remain; otherwise the
     seat is spliced out, a removed speaker hands the floor on, and an emptied table is reset,
     its interruption flag included.
     */
    method ExpelKnight(c: T)
      requires Valid() && c in Knights()
      modifies this
      ensures Valid() && Abstract() == RoundTable.ExpelKnight(old(Abstract()), c)
    {
      var toDelete := FindSeat(c);
      if size > 1 && arturo == toDelete {
        DistinctHandles(seats.val, ring);
        return;
      }
      Unseat(c, toDelete.value);
    }

    method Unseat(c: T, d: nat)
      requires Valid() && c in Knights() && d == ring[IndexOf(Knights(), c)]
      requires !(size > 1 && arturo == Some(d))
      modifies this
      ensures Valid() && Abstract() == RoundTable.ExpelKnight(old(Abstract()), c)
    {
      ghost var t := Abstract();
      ghost var i := IndexOf(t.knights, c);
      ExpelLinks(seats, ring, spk, arturo, hablando, interrupted, size, c);
      var speaker := if Some(d) == hablando then (if interrupted then arturo else Some(seats.der[d])) else hablando;
      var izq1 := seats.izq[seats.der[d] := seats.izq[d]];
      seats := Seats(seats.val, izq1, seats.der[izq1[d] := seats.der[d]], seats.next);
      size := size - 1;
      var emptied := size == 0;
      hablando := if emptied then None else speaker;
      arturo := if emptied then None else arturo;
      interrupted := interrupted && !emptied;
      ring := Without(ring, i);
      spk := RoundTable.ExpelKnight(t, c).speaking;
    }

    /**
     `cambioDeLugar` (arturo.h:282-291): Arturo leaves his seat and sits right of `c`; the
     speaker and the interruption flag stay as they are.
     */
    method ChangePlace(c: T)
      requires Valid() && size >= 3 && c in Knights()[1..]
      modifies this
      ensures Valid() && Abstract() == RoundTable.ChangePlace(old(Abstract()), c)
      ensures arturo == old(arturo) && hablando == old(hablando)
    {
      var knight := FindSeat(c);
      MoveArturo(c, knight.value);
    }

    /**
     The relinking step of `cambioDeLugar` (arturo.h:284-290) for the seat `k` of `c`, with the
     left link of Arturo's new right neighbour set as well (see `Links.ChangePlaceLinks`).
     */
    method MoveArturo(c: T, k: nat)
      requires Valid() && size >= 3 && c in Knights()[1..] && k == ring[IndexOf(Knights(), c)]
      modifies this
      ensures Valid() && Abstract() == RoundTable.ChangePlace(old(Abstract()), c)
      ensures arturo == old(arturo) && hablando == old(hablando)
    {
      ghost var u, sp := ReseatArturo(seats, ring, spk, arturo, hablando, interrupted, size, c, k);
      seats, ring, spk := MovedSeats(seats, arturo.value, k), u, sp;
    }

    /** `proximoCaballero` (arturo.h:338-342). */
    method NextKnight()
      requires Valid() && size > 0
      modifies this
      ensures Valid() && Abstract() == RoundTable.NextKnight(old(Abstract()))
    {
      LinksAt(ring, seats.izq, seats.der, spk);
      hablando := Some(seats.der[hablando.value]);
      interrupted := false;
      spk := Succ(spk, size);
    }

    /** `caballeroAnterior` (arturo.h:345-349). */
    method PreviousKnight()
      requires Valid() && size > 0
      modifies this
      ensures Valid() && Abstract() == RoundTable.PreviousKnight(old(Abstract()))
    {
      LinksAt(ring, seats.izq, seats.der, spk);
      hablando := Some(seats.izq[hablando.value]);
      interrupted := false;
      spk := Pred(spk, size);
    }

    /** `hablaArturo` (arturo.h:352-355). */
    method ArturoSpeaks()
      requires Valid() && size > 0
      modifies this
      ensures Valid() && Abstract() == RoundTable.ArturoSpeaks(old(Abstract()))
    {
      interrupted := true;
    }

    /**
     `operator==` as arturo.h:130-135 describes it: the same knights in the same seats from
     Arturo, the same speaker and the same interruption. The walk compares values seat by seat
     rightward on both tables; the speaker is compared by value.
     */
    method Equals(other: Arturo<T>) returns (r: bool)
      requires Valid() && other.Valid()
      ensures r <==> Abstract() == other.Abstract()
    {
      if size != other.size || interrupted != other.interrupted {
        return false;
      }
      if size == 0 {
        return true;
      }
      ghost var ks, oks := Knights(), other.Knights();
      if seats.val[hablando.value] != other.seats.val[other.hablando.value] {
        assert ks[spk] != oks[other.spk];
        return false;
      }
      var me := arturo.value;
      var you := other.arturo.value;
      var i := 0;
      while i < size
        invariant 0 <= i <= size
        invariant i < size ==> me == ring[i] && you == other.ring[i]
        invariant ks[..i] == oks[..i]
      {
        if seats.val[me] != other.seats.val[you] {
          assert ks[i] != oks[i];
          return false;
        }
        LinksAt(ring, seats.izq, seats.der, i);
        LinksAt(other.ring, other.seats.izq, other.seats.der, i);
        assert ks[..i + 1] == oks[..i + 1] by {
          assert ks[..i + 1] == ks[..i] + [ks[i]] && oks[..i + 1] == oks[..i] + [oks[i]];
        }
        me := seats.der[me];
        you := other.seats.der[you];
        i := i + 1;
      }
      assert ks == ks[..size] && oks == oks[..size];
      if spk != other.spk {
        DistinctAt(ks, spk, other.spk);
      }
      return true;
    }

    /** `operator!=` (arturo.h:293-297). */
    method NotEquals(other: Arturo<T>) returns (r: bool)
      requires Valid() && other.Valid()
      ensures r <==> Abstract() != other.Abstract()
    {
      var same := Equals(other);
      r := !same;
    }

    /**
     `operator==` as arturo.h:299-324 writes it: `arturo` and `hablando` are compared as node
     pointers, which only seats of the same object can share, and the walk goes rightward on this
     table and leftward on the other. So two separately built tables are equal only when both are
     empty, and a table of three or more knights is not equal to itself.
     */
    method EqualsAsWritten(other: Arturo<T>) returns (r: bool)
      requires Valid() && other.Valid()
      ensures this != other ==> (r <==> Knights() == [] && other.Knights() == [])
      ensures this == other ==> (r <==> |Knights()| <= 2)
    {
      if size != other.size {
        return false;
      }
      if interrupted != other.interrupted {
        return false;
      }
      if !(if arturo == None || other.arturo == None then arturo == other.arturo
           else this == other && arturo == other.arturo) {
        return false;
      }
      if !(if hablando == None || other.hablando == None then hablando == other.hablando
           else this == other && hablando == other.hablando) {
        return false;
      }
      ghost var ks := Knights();
      var me := arturo;
      var you := other.arturo;
      var i := 0;
      while i < size
        invariant 0 <= i <= size && (size > 0 ==> this == other)
        invariant i < size ==> me == Some(ring[i]) && you == Some(ring[if i == 0 then 0 else size - i])
        invariant forall j :: 0 < j < i ==> ks[j] == ks[size - j]
        invariant size >= 3 ==> i <= 1
      {
        if i == 1 && size >= 3 {
          DistinctAt(ks, 1, size - 1);
        }
        if seats.val[me.value] != other.seats.val[you.value] {
          assert i > 0 && ks[i] != ks[size - i];
          return false;
        }
        LinksAt(ring, seats.izq, seats.der, i);
        LinksAt(ring, seats.izq, seats.der, if i == 0 then 0 else size - i);
        me := Some(seats.der[me.value]);
        you := Some(other.seats.izq[you.value]);
        i := i + 1;
      }
      return true;
    }

    /** `operator!=` as arturo.h:293-297 writes it: the negation of the pointer compare. */
    method NotEqualsAsWritten(other: Arturo<T>) returns (r: bool)
      requires Valid() && other.Valid()
      ensures this != other ==> (r <==> Knights() != [] || other.Knights() != [])
      ensures this == other ==> (r <==> |Knights()| > 2)
    {
      var same := EqualsAsWritten(other);
      r := !same;
    }

    /**
     `mostrarArturo` (arturo.h:391-411) as a sequence of entries: from the seat holding the
     floor, `size` seats rightward; Arturo's seat is tagged, and so is the interrupted speaker.
     */
    method Show() returns (es: seq<Entry<T>>)
      requires Valid()
      ensures es == Render(Abstract())
    {
      es := [];
      var iter := if interrupted then arturo else hablando;
      ghost var t := Abstract();
      ghost var start := if interrupted then 0 else spk;
      var i := 0;
      while i < size
        invariant 0 <= i <= size
        invariant i < size ==> iter == Some(ring[Offset(start, i, size)])
        invariant es == Render(t)[..i]
      {
        ghost var k := Offset(start, i, size);
        ShowSeat(seats, ring, spk, arturo, hablando, interrupted, size, k);
        var e;
        if iter == arturo {
          e := ArturoEntry(seats.val[iter.value]);
        } else if interrupted && iter == hablando {
          e := Starred(seats.val[iter.value]);
        } else {
          e := Plain(seats.val[iter.value]);
        }
        assert Render(t)[i] == e;
        assert Render(t)[..i + 1] == es + [e];
        es := es + [e];
        if i + 1 < size {
          OffsetStep(start, i, size);
        }
        iter := Some(seats.der[iter.value]);
        i := i + 1;
      }
    }

    /**
     The destructor's loop (arturo.h:198-206): while knights remain, the floor is moved off
     Arturo when others are seated, and the knight holding it is expelled. It ends, with the
     table empty.
     */
    method Clear()
      requires Valid()
      modifies this
      ensures Valid() && Abstract() == Empty()
    {
      while size != 0
        invariant Valid()
        decreases size, if interrupted then 1 else 0
      {
        ghost var t := Abstract();
        var current := CurrentKnight();
        if size > 1 && current == seats.val[arturo.value] {
          NextKnight();
        }
        current := CurrentKnight();
        ExpelKnight(current);
        assert Abstract() == DrainStep(t);
      }
    }
  }
}
