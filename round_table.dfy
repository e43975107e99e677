/**
 The observable state of one round table (the class `Arturo<T>` of arturo.h) and every
 operation on it as a function of that state. The class in arturo.dfy is proved against
 these functions; the lemmas here state what the operations promise.

 A table is the list of knights in rightward order starting at Arturo's seat, the index of
 the seat that `hablando` points at, and the interruption flag.
 */
module RoundTable {

  /** The seat to the right of seat `i` in a ring of `n` seats. */
  function Succ(i: nat, n: nat): (j: nat)
    requires i < n
    ensures j < n
  {
    if i + 1 == n then 0 else i + 1
  }

  /** The seat to the left of seat `i` in a ring of `n` seats. */
  function Pred(i: nat, n: nat): (j: nat)
    requires i < n
    ensures j < n && Succ(j, n) == i
  {
    if i == 0 then n - 1 else i - 1
  }

  /** No value occurs twice in `s`. */
  predicate Distinct<X(==)>(s: seq<X>) {
    Unique(s, |s|)
  }

  /** The first `n` values of `s` are pairwise different. */
  predicate Unique<X(==)>(s: seq<X>, n: nat)
    requires n <= |s|
  {
    n == 0 || (Unique(s, n - 1) && forall j :: 0 <= j < n - 1 ==> s[j] != s[n - 1])
  }

  lemma UniquePairs<X>(s: seq<X>, n: nat)
    requires n <= |s|
    ensures Unique(s, n) <==> forall i, j :: 0 <= i < j < n ==> s[i] != s[j]
  {
    if n > 0 { UniquePairs(s, n - 1); }
  }

  lemma DistinctPairs<X>(s: seq<X>)
    ensures Distinct(s) <==> forall i, j :: 0 <= i < j < |s| ==> s[i] != s[j]
  {
    UniquePairs(s, |s|);
  }

  /** Two different positions of a sequence without repetitions hold different values. */
  lemma DistinctAt<X>(s: seq<X>, i: nat, j: nat)
    requires Distinct(s) && i < |s| && j < |s| && i != j
    ensures s[i] != s[j]
  {
    DistinctPairs(s);
  }

  /** `s` read cyclically, starting at position `k`. */
  function Rotate<X>(s: seq<X>, k: nat): (r: seq<X>)
    requires k <= |s|
    ensures |r| == |s|
    ensures forall i :: 0 <= i < |s| - k ==> r[i] == s[k + i]
    ensures forall i :: |s| - k <= i < |s| ==> r[i] == s[i - (|s| - k)]
  {
    s[k..] + s[..k]
  }

  lemma RotateKeeps<X>(s: seq<X>, k: nat)
    requires k <= |s|
    ensures multiset(Rotate(s, k)) == multiset(s)
    ensures Distinct(s) ==> Distinct(Rotate(s, k))
  {
    assert s == s[..k] + s[k..];
    var r := Rotate(s, k);
    if Distinct(s) {
      DistinctPairs(s);
      DistinctPairs(r);
      forall i, j | 0 <= i < j < |r| ensures r[i] != r[j] {
        var si := if i < |s| - k then k + i else i - (|s| - k);
        var sj := if j < |s| - k then k + j else j - (|s| - k);
        assert si != sj;
      }
    }
  }

  /** The first position of `x` in `s`. */
  function IndexOf<X(==)>(s: seq<X>, x: X): (i: nat)
    requires x in s
    ensures i < |s| && s[i] == x
    ensures forall j :: 0 <= j < i ==> s[j] != x
  {
    if s[0] == x then 0 else 1 + IndexOf(s[1..], x)
  }

  lemma IndexOfDistinct<X>(s: seq<X>, i: nat)
    requires Distinct(s) && i < |s|
    ensures IndexOf(s, s[i]) == i
  {
    DistinctPairs(s);
  }

  /** One entry of the rendering of a table (arturo.h:391-411), without its text. */
  datatype Entry<T> = ArturoEntry(value: T) | Starred(value: T) | Plain(value: T)

  datatype Table<T> = Table(knights: seq<T>, speaking: nat, interrupted: bool)

  /**
   The invariant of a table: knights are unique; an empty table has no speaker and is not
   interrupted; otherwise `speaking` is a seat of the ring. Arturo is `knights[0]`.
   */
  predicate Valid<T(==)>(t: Table<T>) {
    && Distinct(t.knights)
    && (|t.knights| == 0 ==> t.speaking == 0 && !t.interrupted)
    && (|t.knights| > 0 ==> t.speaking < |t.knights|)
  }

  /** A newly constructed table (arturo.h:189-195). */
  function Empty<T(==)>(): (t: Table<T>)
    ensures Valid(t) && t.knights == [] && !t.interrupted
  {
    Table([], 0, false)
  }

  /** `caballeroActual`: Arturo while he interrupts, otherwise the knight at `hablando`. */
  function CurrentKnight<T(==)>(t: Table<T>): (c: T)
    requires Valid(t) && |t.knights| > 0
    ensures c in t.knights
    ensures t.interrupted ==> c == t.knights[0]
    ensures !t.interrupted ==> c == t.knights[t.speaking]
  {
    if t.interrupted then t.knights[0] else t.knights[t.speaking]
  }

  /** `sentarArturo`: the first knight, Arturo, sits alone and holds the floor. */
  function SeatArturo<T(==)>(t: Table<T>, a: T): (r: Table<T>)
    requires Valid(t) && t.knights == []
    ensures Valid(r) && r.knights == [a] && CurrentKnight(r) == a
  {
    Table([a], 0, t.interrupted)
  }

  /**
   `incorporarCaballero`: a knight not yet seated sits immediately right of Arturo; a knight
   already seated changes nothing. Who holds the floor does not change.
   */
  function AddKnight<T(==)>(t: Table<T>, c: T): (r: Table<T>)
    requires Valid(t) && |t.knights| > 0
    ensures Valid(r)
  {
    if c in t.knights then t
    else
      DistinctPairs(t.knights);
      DistinctPairs([t.knights[0], c] + t.knights[1..]);
      Table([t.knights[0], c] + t.knights[1..], if t.speaking == 0 then 0 else t.speaking + 1, t.interrupted)
  }

  /**
   What `incorporarCaballero` promises: the knight is seated afterwards, immediately right of
   Arturo if it was not seated before, with the others in their old order; a knight already
   seated changes nothing; the floor stays with the same knight.
   */
  lemma AddKnightSpec<T>(t: Table<T>, c: T)
    requires Valid(t) && |t.knights| > 0
    ensures var r := AddKnight(t, c);
      && c in r.knights
      && (c in t.knights ==> r == t)
      && (c !in t.knights ==>
            && |r.knights| == |t.knights| + 1
            && r.knights[0] == t.knights[0]
            && r.knights[1] == c
            && r.knights[2..] == t.knights[1..])
      && r.interrupted == t.interrupted
      && r.knights[r.speaking] == t.knights[t.speaking]
      && CurrentKnight(r) == CurrentKnight(t)
  {
    if c !in t.knights {
      var r := AddKnight(t, c);
      assert r.knights[2..] == t.knights[1..];
      if t.speaking > 0 {
        assert r.knights[t.speaking + 1] == t.knights[t.speaking];
      }
    }
  }

  /**
   `expulsarCaballero` as the source writes it: Arturo is kept while others remain; a removed
   speaker hands the floor to Arturo when interrupted, else to its right neighbour; when the
   table empties the cursors are cleared but the interruption flag is left as it was.
   */
  function ExpelKnightAsWritten<T(==)>(t: Table<T>, c: T): (r: Table<T>)
    requires Valid(t) && c in t.knights
    ensures r.interrupted == t.interrupted
    ensures !Removes(t, c) ==> r == t
    ensures Removes(t, c) ==> |r.knights| == |t.knights| - 1 && c !in r.knights
    ensures r.knights != [] ==> r.speaking < |r.knights|
  {
    var n := |t.knights|;
    var i := IndexOf(t.knights, c);
    if n > 1 && i == 0 then t
    else if n == 1 then Table([], 0, t.interrupted)
    else
      RemoveAt(t.knights, i);
      var k := if i != t.speaking then t.speaking
               else if t.interrupted then 0
               else Succ(i, n);
      Table(Without(t.knights, i), if k < i then k else k - 1, t.interrupted)
  }

  /** `s` without its element at position `i`. */
  function Without<X>(s: seq<X>, i: nat): (u: seq<X>)
    requires i < |s|
    ensures |u| == |s| - 1
    ensures forall x :: 0 <= x < i ==> u[x] == s[x]
    ensures forall x :: i <= x < |u| ==> u[x] == s[x + 1]
  {
    seq(|s| - 1, x requires 0 <= x < |s| - 1 => if x < i then s[x] else s[x + 1])
  }

  /** Removing position `i` keeps the others in order, and keeps them distinct. */
  lemma RemoveAt<X>(s: seq<X>, i: nat)
    requires Distinct(s) && i < |s|
    ensures var u := Without(s, i);
      && |u| == |s| - 1
      && (forall x :: 0 <= x < i ==> u[x] == s[x])
      && (forall x :: i <= x < |u| ==> u[x] == s[x + 1])
      && Distinct(u)
      && s[i] !in u
  {
    DistinctPairs(s);
    var u := Without(s, i);
    assert forall x :: 0 <= x < i ==> u[x] == s[x];
    assert forall x :: i <= x < |u| ==> u[x] == s[x + 1];
    forall x, y | 0 <= x < y < |u| ensures u[x] != u[y] {
      var sx := if x < i then x else x + 1;
      var sy := if y < i then y else y + 1;
      assert u[x] == s[sx] && u[y] == s[sy] && sx < sy;
    }
    forall x | 0 <= x < |u| ensures u[x] != s[i] {
      var sx := if x < i then x else x + 1;
      assert u[x] == s[sx] && sx != i;
    }
    DistinctPairs(Without(s, i));
  }

  /** Whether `expulsarCaballero(c)` removes a seat: Arturo stays while others remain. */
  predicate Removes<T(==)>(t: Table<T>, c: T) {
    !(|t.knights| > 1 && c == t.knights[0])
  }

  /** `expulsarCaballero` with the interruption cleared when the table empties. */
  function ExpelKnight<T(==)>(t: Table<T>, c: T): (r: Table<T>)
    requires Valid(t) && c in t.knights
    ensures Valid(r)
  {
    var r := ExpelKnightAsWritten(t, c);
    if r.knights == [] then
      Table([], 0, false)
    else
      RemoveAt(t.knights, IndexOf(t.knights, c));
      r
  }

  /**
   What `expulsarCaballero` promises about the seats: Arturo is not removed while others
   remain; otherwise exactly `c` leaves and the others keep their order; an emptied table is a
   new one.
   */
  lemma ExpelKnightSpec<T>(t: Table<T>, c: T)
    requires Valid(t) && c in t.knights
    ensures var r := ExpelKnight(t, c);
      && (!Removes(t, c) ==> r == t)
      && (Removes(t, c) ==> c !in r.knights && |r.knights| == |t.knights| - 1)
      && (Removes(t, c) ==>
            r.knights == t.knights[..IndexOf(t.knights, c)] + t.knights[IndexOf(t.knights, c) + 1..])
      && (r.knights == [] ==> r == Empty())
      && (r.knights != [] ==> r.interrupted == t.interrupted && r.knights[0] == t.knights[0])
  {
    var i := IndexOf(t.knights, c);
    RemoveAt(t.knights, i);
  }

  /**
   What `expulsarCaballero` promises about the floor: it stays with its holder, or, when the
   holder leaves, passes to Arturo if he was interrupting and else to the right neighbour.
   */
  lemma ExpelKnightFloor<T>(t: Table<T>, c: T)
    requires Valid(t) && c in t.knights
    ensures var r := ExpelKnight(t, c);
      && (r.knights != [] && c != t.knights[t.speaking] ==>
            r.knights[r.speaking] == t.knights[t.speaking])
      && (Removes(t, c) && r.knights != [] && c == t.knights[t.speaking] ==>
            r.knights[r.speaking] ==
              if t.interrupted then t.knights[0] else t.knights[Succ(t.speaking, |t.knights|)])
  {
    var i := IndexOf(t.knights, c);
    RemoveAt(t.knights, i);
    IndexOfDistinct(t.knights, t.speaking);
  }

  /** `proximoCaballero`: the floor moves right of the seat `hablando` holds; no interruption. */
  function NextKnight<T(==)>(t: Table<T>): (r: Table<T>)
    requires Valid(t) && |t.knights| > 0
    ensures Valid(r) && r.knights == t.knights && !r.interrupted
    ensures CurrentKnight(r) == t.knights[Succ(t.speaking, |t.knights|)]
  {
    Table(t.knights, Succ(t.speaking, |t.knights|), false)
  }

  /** `caballeroAnterior`: the floor moves left of the seat `hablando` holds; no interruption. */
  function PreviousKnight<T(==)>(t: Table<T>): (r: Table<T>)
    requires Valid(t) && |t.knights| > 0
    ensures Valid(r) && r.knights == t.knights && !r.interrupted
    ensures CurrentKnight(r) == t.knights[Pred(t.speaking, |t.knights|)]
  {
    Table(t.knights, Pred(t.speaking, |t.knights|), false)
  }

  /** `hablaArturo` as written (arturo.h:352-355): it raises the flag whether or not anyone is seated. */
  function ArturoSpeaksAsWritten<T(==)>(t: Table<T>): (r: Table<T>)
    ensures r.knights == t.knights && r.interrupted
    ensures Valid(t) && t.knights != [] ==> Valid(r) && CurrentKnight(r) == t.knights[0]
    ensures t.knights == [] ==> !Valid(r)
  {
    Table(t.knights, t.speaking, true)
  }

  /** `hablaArturo` at a table where Arturo is seated: he takes the floor; `hablando` stays. */
  function ArturoSpeaks<T(==)>(t: Table<T>): (r: Table<T>)
    requires Valid(t) && |t.knights| > 0
    ensures Valid(r) && r.knights == t.knights && r.speaking == t.speaking && r.interrupted
    ensures CurrentKnight(r) == t.knights[0]
  {
    ArturoSpeaksAsWritten(t)
  }

  /**
   At an empty table `hablaArturo` as written leaves an interrupted table with nobody seated,
   the state `Valid` refuses; at any other table it is `ArturoSpeaks`.
   */
  lemma ArturoSpeaksAsWrittenSpec<T>(t: Table<T>)
    requires Valid(t)
    ensures |t.knights| > 0 ==> ArturoSpeaksAsWritten(t) == ArturoSpeaks(t)
    ensures |t.knights| == 0 <==> !Valid(ArturoSpeaksAsWritten(t))
    ensures |t.knights| == 0 ==> ArturoSpeaksAsWritten(t) == Table([], 0, true)
  {
  }

  lemma ConsDistinct<X>(x: X, s: seq<X>)
    requires Distinct(s) && x !in s
    ensures Distinct([x] + s)
  {
    DistinctPairs(s);
    var u := [x] + s;
    forall i, j | 0 <= i < j < |u| ensures u[i] != u[j] {
      assert u[j] == s[j - 1];
      if i > 0 { assert u[i] == s[i - 1]; }
    }
    DistinctPairs([x] + s);
  }

  lemma DistinctTail<X>(s: seq<X>)
    requires Distinct(s) && |s| > 0
    ensures Distinct(s[1..]) && s[0] !in s[1..]
  {
    DistinctPairs(s);
    DistinctPairs(s[1..]);
  }

  /** Arturo's new row of knights once he sits right of `s[1..][j]`. */
  lemma ChangePlaceKnights<X>(s: seq<X>, j: nat)
    requires Distinct(s) && 3 <= |s| && j + 1 < |s|
    ensures var ks := [s[0]] + Rotate(s[1..], j + 1);
      && |ks| == |s|
      && (forall x :: x in s ==> x in ks)
      && Distinct(ks)
      && ks[|ks| - 1] == s[1..][j]
      && ks[1..] == Rotate(s[1..], j + 1)
      && (s[1..][j] == s[|s| - 1] ==> ks == s)
  {
    var rest := s[1..];
    var rot := Rotate(rest, j + 1);
    var ks := [s[0]] + rot;
    DistinctTail(s);
    RotateKeeps(rest, j + 1);
    assert s[0] !in rot by {
      assert s[0] !in multiset(rest);
    }
    ConsDistinct(s[0], rot);
    assert ks[1..] == rot;
    assert ks[|ks| - 1] == rest[j] by {
      assert ks[|ks| - 1] == rot[|rest| - 1];
    }
    forall x | x in s ensures x in ks {
      if x != s[0] {
        assert x in rest by {
          assert s == [s[0]] + rest;
        }
        assert x in multiset(rot);
      }
    }
    if s[1..][j] == s[|s| - 1] {
      assert rot == rest by {
        assert j + 1 == |rest|;
        assert rot == rest[j + 1..] + rest[..j + 1] == [] + rest;
      }
      assert s == [s[0]] + rest;
    }
  }

  /**
   `cambioDeLugar`: Arturo leaves his seat and sits immediately right of `c`. The other knights
   keep their cyclic order, and the seat `hablando` points at and the flag are unchanged.
   */
  function ChangePlace<T(==)>(t: Table<T>, c: T): (r: Table<T>)
    requires Valid(t) && |t.knights| >= 3 && c in t.knights[1..]
    ensures Valid(r)
  {
    var rest := t.knights[1..];
    var j := IndexOf(rest, c);
    var ks := [t.knights[0]] + Rotate(rest, j + 1);
    ChangePlaceKnights(t.knights, j);
    Table(ks, IndexOf(ks, t.knights[t.speaking]), t.interrupted)
  }

  /**
   What `cambioDeLugar` promises: Arturo now sits immediately right of `c`, i.e. `c` is last
   in the rightward order from Arturo; the other knights keep their cyclic order; the floor
   stays with the same knight; moving next to the knight already left of Arturo changes
   nothing.
   */
  lemma ChangePlaceSpec<T>(t: Table<T>, c: T)
    requires Valid(t) && |t.knights| >= 3 && c in t.knights[1..]
    ensures var r := ChangePlace(t, c);
      && |r.knights| == |t.knights| && r.interrupted == t.interrupted
      && r.knights[0] == t.knights[0]
      && r.knights[|r.knights| - 1] == c
      && (exists k :: 0 <= k <= |t.knights| - 1 && r.knights[1..] == Rotate(t.knights[1..], k))
      && r.knights[r.speaking] == t.knights[t.speaking]
      && (c == t.knights[|t.knights| - 1] ==> r == t)
  {
    var rest := t.knights[1..];
    var j := IndexOf(rest, c);
    ChangePlaceKnights(t.knights, j);
    var r := ChangePlace(t, c);
    assert r.knights[1..] == Rotate(rest, j + 1);
    if c == t.knights[|t.knights| - 1] {
      IndexOfDistinct(t.knights, t.speaking);
    }
  }

  /** The seat where the rendering starts: the one holding the floor. */
  function FloorSeat<T(==)>(t: Table<T>): (k: nat)
    requires Valid(t) && |t.knights| > 0
    ensures k < |t.knights| && t.knights[k] == CurrentKnight(t)
  {
    if t.interrupted then 0 else t.speaking
  }

  /** The seat `i` steps right of seat `start` in a ring of `n` seats. */
  function Offset(start: nat, i: nat, n: nat): (k: nat)
    requires start < n && i < n
    ensures k < n
  {
    if start + i < n then start + i else start + i - n
  }

  lemma OffsetStep(start: nat, i: nat, n: nat)
    requires start < n && i + 1 < n
    ensures Offset(start, i + 1, n) == Succ(Offset(start, i, n), n)
  {
  }

  /** The entry for seat `k`: Arturo is tagged, and so is the interrupted speaker. */
  function EntryAt<T>(t: Table<T>, k: nat): Entry<T>
    requires k < |t.knights|
  {
    if k == 0 then ArturoEntry(t.knights[0])
    else if t.interrupted && k == t.speaking then Starred(t.knights[k])
    else Plain(t.knights[k])
  }

  /**
   `mostrarArturo` as a sequence of entries: from the floor holder, `|knights|` seats
   rightward.
   */
  function Render<T(==)>(t: Table<T>): (r: seq<Entry<T>>)
    requires Valid(t)
    ensures |r| == |t.knights|
    ensures |r| > 0 ==> r[0].value == CurrentKnight(t)
  {
    var n := |t.knights|;
    if n == 0 then []
    else seq(n, i requires 0 <= i < n => EntryAt(t, Offset(FloorSeat(t), i, n)))
  }

  /**
   The rendering lists every knight once, in rightward order from the floor holder; exactly
   Arturo's entry is tagged as Arturo's, and a star marks the interrupted speaker.
   */
  lemma RenderShape<T>(t: Table<T>)
    requires Valid(t)
    ensures |t.knights| > 0 ==>
      var r := Render(t);
      var start := FloorSeat(t);
      && (forall i :: 0 <= i < |r| ==> r[i].value == Rotate(t.knights, start)[i])
      && (forall i :: 0 <= i < |r| ==> (r[i].ArturoEntry? <==> r[i].value == t.knights[0]))
      && (forall i :: 0 <= i < |r| ==>
            (r[i].Starred? <==> t.interrupted && t.speaking != 0 && r[i].value == t.knights[t.speaking]))
  {
    DistinctPairs(t.knights);
    if |t.knights| > 0 {
      var r := Render(t);
      var n := |t.knights|;
      var start := FloorSeat(t);
      forall i | 0 <= i < n
        ensures r[i].value == Rotate(t.knights, start)[i]
        ensures r[i].ArturoEntry? <==> r[i].value == t.knights[0]
        ensures r[i].Starred? <==> t.interrupted && t.speaking != 0 && r[i].value == t.knights[t.speaking]
      {
        var k := Offset(start, i, n);
        assert r[i] == EntryAt(t, k);
        assert r[i].value == t.knights[k];
      }
    }
  }

  /** Without an interruption, one step right and one step left give back the same table. */
  lemma NextThenPrevious<T>(t: Table<T>)
    requires Valid(t) && |t.knights| > 0 && !t.interrupted
    ensures PreviousKnight(NextKnight(t)) == t
    ensures NextKnight(PreviousKnight(t)) == t
    ensures CurrentKnight(PreviousKnight(NextKnight(t))) == CurrentKnight(t)
  {
  }

  /**
   An interruption gives Arturo the floor without moving `hablando`: the next or previous turn
   is the one the interrupted knight would have had.
   */
  lemma InterruptionKeepsTurn<T>(t: Table<T>)
    requires Valid(t) && |t.knights| > 0
    ensures CurrentKnight(ArturoSpeaks(t)) == t.knights[0]
    ensures NextKnight(ArturoSpeaks(t)) == NextKnight(t)
    ensures PreviousKnight(ArturoSpeaks(t)) == PreviousKnight(t)
    ensures CurrentKnight(NextKnight(ArturoSpeaks(t))) == t.knights[Succ(t.speaking, |t.knights|)]
  {
  }

  /** Adding a knight that is already seated leaves the table equal to itself before. */
  lemma AddKnightIdempotent<T>(t: Table<T>, c: T)
    requires Valid(t) && |t.knights| > 0
    ensures AddKnight(AddKnight(t, c), c) == AddKnight(t, c)
  {
  }

  /** Moving Arturo next to his left neighbour again changes nothing (arturo.h:113). */
  lemma ChangePlaceIdempotent<T>(t: Table<T>, c: T)
    requires Valid(t) && |t.knights| >= 3 && c in t.knights[1..]
    ensures var r := ChangePlace(t, c); c in r.knights[1..] && ChangePlace(r, c) == r
  {
    ChangePlaceSpec(t, c);
    var r := ChangePlace(t, c);
    assert r.knights[1..][|r.knights| - 2] == c;
    ChangePlaceSpec(r, c);
  }

  /** One turn of the destructor's loop (arturo.h:200-205). */
  function DrainStep<T(==)>(t: Table<T>): (r: Table<T>)
    requires Valid(t) && |t.knights| > 0
    ensures Valid(r)
    ensures |r.knights| < |t.knights| || (|r.knights| == |t.knights| && t.interrupted && !r.interrupted)
  {
    DistinctPairs(t.knights);
    var t1 := if |t.knights| > 1 && CurrentKnight(t) == t.knights[0] then NextKnight(t) else t;
    assert t1.knights == t.knights;
    var c := CurrentKnight(t1);
    // Arturo can still hold the floor after `proximoCaballero` only if he had interrupted the
    // knight on his left, in the last seat: that turn expels nobody and only clears the flag.
    assert |t.knights| > 1 && c == t.knights[0] ==> t1 != t by {
      if |t.knights| > 1 && c == t.knights[0] {
        assert !t.interrupted ==> t.speaking != 0;
      }
    }
    ExpelKnight(t1, c)
  }

  /**
   A turn of the destructor's loop expels nobody exactly when Arturo had interrupted the knight
   on his left, in the last seat of a table of two or more: `proximoCaballero` hands the floor
   back to Arturo, whose expulsion is refused, and the turn only clears the flag.
   */
  lemma DrainStepExpelsNobody<T>(t: Table<T>)
    requires Valid(t) && |t.knights| > 0
    ensures DrainStep(t).knights == t.knights
      <==> t.interrupted && |t.knights| > 1 && t.speaking == |t.knights| - 1
    ensures t.interrupted && |t.knights| > 1 && t.speaking == |t.knights| - 1
      ==> DrainStep(t) == Table(t.knights, 0, false)
  {
    var n := |t.knights|;
    DistinctPairs(t.knights);
    if n > 1 && CurrentKnight(t) == t.knights[0] {
      var t1 := NextKnight(t);
      assert t1.speaking == Succ(t.speaking, n);
      if t.speaking == n - 1 {
        assert IndexOf(t1.knights, CurrentKnight(t1)) == 0;
      } else {
        assert t.speaking != 0 ==> t.interrupted;
        assert CurrentKnight(t1) != t.knights[0];
      }
    }
  }

  /**
   The destructor's last turn at an interrupted table of one: as written the expulsion leaves the
   flag set, while the corrected turn ends with a new table.
   */
  lemma DrainLastTurnAsWritten<T>(a: T)
    ensures ExpelKnightAsWritten(Table([a], 0, true), a) == Table([], 0, true)
    ensures DrainStep(Table([a], 0, true)) == Empty()
  {
    assert IndexOf([a], a) == 0;
  }

  /** The destructor's loop always ends, and it ends with an empty table. */
  function Drain<T(==)>(t: Table<T>): (r: Table<T>)
    requires Valid(t)
    ensures r == Empty()
    decreases |t.knights|, if t.interrupted then 1 else 0
  {
    if t.knights == [] then assert t == Empty(); t else Drain(DrainStep(t))
  }

  /**
   The table the copy constructor (arturo.h:209-230) has built once it has walked `m` seats
   leftward from Arturo's seat in `t`: Arturo, then those `m` knights in their order, with the
   floor on the copied speaker if it is among them and on Arturo otherwise.
   */
  function Copied<T(==)>(t: Table<T>, m: nat): (r: Table<T>)
    requires Valid(t) && m < |t.knights|
  {
    var n := |t.knights|;
    var sp := if 0 < t.speaking && n - m <= t.speaking then t.speaking - (n - m) + 1 else 0;
    Table([t.knights[0]] + t.knights[n - m..], sp, false)
  }

  /**
   One turn of the copy loop (arturo.h:223-229): `v` is seated right of Arturo unless already
   seated, and takes the floor if it is the knight `speaker` holding the floor of the original.
   */
  function CopyStep<T(==)>(r: Table<T>, v: T, speaker: T): (r': Table<T>)
    requires Valid(r) && |r.knights| > 0
    ensures Valid(r') && v in r'.knights
  {
    AddKnightSpec(r, v);
    var r1 := AddKnight(r, v);
    if v == speaker then Table(r1.knights, IndexOf(r1.knights, v), r1.interrupted) else r1
  }

  /** Each turn of the copy loop extends the copied part by the next seat to the left. */
  lemma CopyStepNext<T>(t: Table<T>, m: nat)
    requires Valid(t) && 0 < m < |t.knights|
    ensures Valid(Copied(t, m - 1))
    ensures CopyStep(Copied(t, m - 1), t.knights[|t.knights| - m], t.knights[t.speaking]) == Copied(t, m)
  {
    var n := |t.knights|;
    var ks := t.knights;
    var c := Copied(t, m - 1);
    var v := ks[n - m];
    DistinctPairs(ks);
    assert Distinct(c.knights) && v !in c.knights by {
      DistinctPairs(c.knights);
    }
    var r1 := AddKnight(c, v);
    assert r1.knights == Copied(t, m).knights by {
      assert [ks[0], v] + ks[n - (m - 1)..] == [ks[0]] + ks[n - m..];
    }
    if v == ks[t.speaking] {
      assert t.speaking == n - m;
      assert r1.knights[1] == v;
      DistinctPairs(r1.knights);
      IndexOfDistinct(r1.knights, 1);
    }
  }

  /**
   The copy starts from Arturo alone, and its last turn meets Arturo's own seat and changes
   nothing: the knights and the floor are those of the original, not interrupted.
   */
  lemma CopyEnds<T>(t: Table<T>)
    requires Valid(t) && |t.knights| > 0
    ensures Copied(t, 0) == SeatArturo(Empty(), t.knights[0])
    ensures var n := |t.knights|;
      && Valid(Copied(t, n - 1))
      && CopyStep(Copied(t, n - 1), t.knights[0], t.knights[t.speaking]) == Copied(t, n - 1)
      && Copied(t, n - 1) == Table(t.knights, t.speaking, false)
  {
    var n := |t.knights|;
    assert [t.knights[0]] + t.knights[1..] == t.knights;
    var c := Copied(t, n - 1);
    if t.knights[0] == t.knights[t.speaking] {
      DistinctPairs(t.knights);
      IndexOfDistinct(t.knights, 0);
    }
  }

  /**
   The copy constructor (arturo.h:215-229) after `m` turns of its loop: Arturo is seated first,
   then turn `j` copies the knight `j + 1` seats left of Arturo in `t`.
   */
  function CopyLoop<T(==)>(t: Table<T>, m: nat): (r: Table<T>)
    requires Valid(t) && 0 < |t.knights| && m <= |t.knights|
    ensures Valid(r) && r.knights != []
  {
    if m == 0 then SeatArturo(Empty(), t.knights[0])
    else CopyStep(CopyLoop(t, m - 1), t.knights[|t.knights| - m], t.knights[t.speaking])
  }

  /** After `m` turns the copy holds Arturo and the `m` knights left of him, or all of them. */
  lemma {:induction false} CopyLoopCopied<T>(t: Table<T>, m: nat)
    requires Valid(t) && 0 < |t.knights| && m <= |t.knights|
    ensures CopyLoop(t, m) == Copied(t, if m < |t.knights| then m else |t.knights| - 1)
  {
    var n := |t.knights|;
    if m == 0 {
      CopyEnds(t);
    } else {
      CopyLoopCopied(t, m - 1);
      if m < n {
        CopyStepNext(t, m);
      } else {
        assert t.knights[|t.knights| - m] == t.knights[0];
        CopyEnds(t);
      }
    }
  }

  /** The copy loop rebuilds the knights and the floor of the original, not interrupted. */
  lemma CopyLoopComplete<T>(t: Table<T>)
    requires Valid(t) && 0 < |t.knights|
    ensures CopyLoop(t, |t.knights|) == Table(t.knights, t.speaking, false)
  {
    CopyLoopCopied(t, |t.knights|);
    CopyEnds(t);
  }

  /**
   As written, `expulsarCaballero` clears the cursors of an emptied table but keeps its
   interruption flag: with Arturo `0` and `1` speaking, an interruption followed by the
   expulsion of `1` and then of Arturo leaves no knight seated and the table interrupted.
   */
  lemma ExpelKnightAsWrittenKeepsFlag()
    ensures
      var t := ArturoSpeaks(Table([0, 1], 1, false));
      var r := ExpelKnightAsWritten(ExpelKnightAsWritten(t, 1), 0);
      r == Table([], 0, true) && !Valid(r)
    ensures
      var t := ArturoSpeaks(Table([0, 1], 1, false));
      ExpelKnight(ExpelKnight(t, 1), 0) == Empty()
  {
    var t := ArturoSpeaks(Table([0, 1], 1, false));
    assert IndexOf(t.knights, 1) == 1;
    var r1 := ExpelKnightAsWritten(t, 1);
    assert r1 == Table([0], 0, true);
    assert IndexOf(r1.knights, 0) == 0;
    assert ExpelKnight(t, 1) == r1;
  }

  /**
   The first two examples of `cambioDeLugar` (arturo.h:111-112) are one table rendered from
   two speakers: Arturo `0` moves right of `1` and `2` comes to sit right of him.
   */
  lemma ChangePlaceExample()
    ensures ChangePlace(Table([0, 1, 2], 0, false), 1) == Table([0, 2, 1], 0, false)
    ensures ChangePlace(Table([0, 1, 2], 1, false), 1) == Table([0, 2, 1], 2, false)
  {
    var s := [0, 1, 2];
    assert Distinct(s) by { DistinctPairs(s); }
    assert s[1..] == [1, 2];
    assert IndexOf(s[1..], 1) == 0;
    assert Rotate(s[1..], 1) == [2, 1];
    assert [s[0]] + Rotate(s[1..], 1) == [0, 2, 1];
    assert IndexOf([0, 2, 1], 0) == 0;
    assert IndexOf([0, 2, 1], 1) == 2 by {
      assert [0, 2, 1][1..] == [2, 1] && [2, 1][1..] == [1];
    }
  }

  /**
   The third example of `cambioDeLugar` (arturo.h:113): `2` already sits left of Arturo `0`,
   so the table stays as it was.
   */
  lemma ChangePlaceExampleUnchanged()
    ensures ChangePlace(Table([0, 3, 1, 2], 2, false), 2) == Table([0, 3, 1, 2], 2, false)
  {
    var s := [0, 3, 1, 2];
    assert Distinct(s) by { DistinctPairs(s); }
    assert s[1..][2] == 2;
    ChangePlaceSpec(Table(s, 2, false), 2);
  }

  /** The renderings of arturo.h:141-146, without their text. */
  lemma RenderExamples()
    ensures Render<int>(Empty()) == []
    ensures Render(Table([0], 0, false)) == [ArturoEntry(0)]
    ensures Render(Table([0, 1, 2], 0, false)) == [ArturoEntry(0), Plain(1), Plain(2)]
    ensures Render(Table([0, 1, 2], 1, false)) == [Plain(1), Plain(2), ArturoEntry(0)]
    ensures Render(Table([0, 1, 2], 1, true)) == [ArturoEntry(0), Starred(1), Plain(2)]
  {
    var t := Table([0, 1, 2], 1, false);
    assert Render(t)[0] == Plain(1) && Render(t)[1] == Plain(2) && Render(t)[2] == ArturoEntry(0);
    var u := Table([0, 1, 2], 1, true);
    assert Render(u)[0] == ArturoEntry(0) && Render(u)[1] == Starred(1) && Render(u)[2] == Plain(2);
    var v := Table([0, 1, 2], 0, false);
    assert Render(v)[0] == ArturoEntry(0) && Render(v)[1] == Plain(1) && Render(v)[2] == Plain(2);
    assert Render(Table([0], 0, false))[0] == ArturoEntry(0);
  }
}
