/**
 The seats of a table as an arena of handles: `der` and `izq` map each live seat handle to the
 handle of its right and left neighbour (the `Nodo::der` and `Nodo::izq` pointers of
 arturo.h:164-173). The lemmas here say how the link rewirings of arturo.h keep the handles a
 single ring.
 */
module Links {
  import opened RoundTable

  /** Every handle of `ring` has a right link, to the next handle of the ring (wrapping around). */
  ghost predicate RightLinked(ring: seq<nat>, der: map<nat, nat>) {
    && (forall i {:trigger ring[i] in der} :: 0 <= i < |ring| ==> ring[i] in der)
    && (forall i {:trigger der[ring[i]]} :: 0 <= i < |ring| - 1 ==> der[ring[i]] == ring[i + 1])
    && (|ring| > 0 ==> der[ring[|ring| - 1]] == ring[0])
  }

  /** Every handle of `ring` has a left link, to the previous handle of the ring (wrapping around). */
  ghost predicate LeftLinked(ring: seq<nat>, izq: map<nat, nat>) {
    && (forall i {:trigger ring[i] in izq} :: 0 <= i < |ring| ==> ring[i] in izq)
    && (forall i {:trigger izq[ring[i]]} :: 0 < i < |ring| ==> izq[ring[i]] == ring[i - 1])
    && (|ring| > 0 ==> izq[ring[0]] == ring[|ring| - 1])
  }

  /**
   `ring` lists the seat handles in rightward order; every seat's right link is the next
   handle of the ring and its left link the previous one.
   */
  ghost predicate Linked(ring: seq<nat>, izq: map<nat, nat>, der: map<nat, nat>) {
    RightLinked(ring, der) && LeftLinked(ring, izq)
  }

  /** The links of a ring in terms of the cyclic neighbours `Succ` and `Pred` of a position. */
  lemma LinksAt(ring: seq<nat>, izq: map<nat, nat>, der: map<nat, nat>, i: nat)
    requires Linked(ring, izq, der) && i < |ring|
    ensures ring[i] in der && der[ring[i]] == ring[Succ(i, |ring|)]
    ensures ring[i] in izq && izq[ring[i]] == ring[Pred(i, |ring|)]
  {
    if i + 1 < |ring| {
      assert der[ring[i]] == ring[i + 1];
    }
    if 0 < i {
      assert izq[ring[i]] == ring[i - 1];
    }
  }

  /** Right and left links are mutual inverses on the ring. */
  lemma LinkedInverse(ring: seq<nat>, izq: map<nat, nat>, der: map<nat, nat>, h: nat)
    requires Linked(ring, izq, der) && h in ring
    ensures h in der && der[h] in izq && izq[der[h]] == h
    ensures h in izq && izq[h] in der && der[izq[h]] == h
  {
    var i :| 0 <= i < |ring| && ring[i] == h;
    LinksAt(ring, izq, der, i);
    LinksAt(ring, izq, der, Succ(i, |ring|));
    LinksAt(ring, izq, der, Pred(i, |ring|));
  }

  /** `s` with `h` inserted right after position `p`. */
  function InsertAfter(s: seq<nat>, p: nat, h: nat): (u: seq<nat>)
    requires p < |s|
    ensures |u| == |s| + 1 && u[p + 1] == h
    ensures forall x :: 0 <= x <= p ==> u[x] == s[x]
    ensures forall x :: p + 1 < x < |u| ==> u[x] == s[x - 1]
  {
    s[..p + 1] + [h] + s[p + 1..]
  }

  /** The handle right of position `p`, wrapping around. */
  function NextOf(ring: seq<nat>, p: nat): nat
    requires p < |ring|
  {
    if p + 1 < |ring| then ring[p + 1] else ring[0]
  }

  /** The handle left of position `p`, wrapping around. */
  function PrevOf(ring: seq<nat>, p: nat): nat
    requires p < |ring|
  {
    if 0 < p then ring[p - 1] else ring[|ring| - 1]
  }

  lemma InsertDistinct(ring: seq<nat>, p: nat, h: nat)
    requires Distinct(ring) && p < |ring| && h !in ring
    ensures Distinct(InsertAfter(ring, p, h))
  {
    DistinctPairs(ring);
    var u := InsertAfter(ring, p, h);
    forall x, y | 0 <= x < y < |u| ensures u[x] != u[y] {
      if y == p + 1 {
        assert u[x] == ring[x];
      } else if x == p + 1 {
        assert u[y] == ring[y - 1];
      } else {
        var ox := if x <= p then x else x - 1;
        var oy := if y <= p then y else y - 1;
        assert u[x] == ring[ox] && u[y] == ring[oy] && ox < oy;
      }
    }
    DistinctPairs(InsertAfter(ring, p, h));
  }

  lemma SpliceInRight(ring: seq<nat>, der: map<nat, nat>, p: nat, h: nat)
    requires RightLinked(ring, der) && Distinct(ring) && p < |ring| && h !in ring
    ensures RightLinked(InsertAfter(ring, p, h), der[ring[p] := h][h := NextOf(ring, p)])
  {
    DistinctPairs(ring);
    var n := |ring|;
    var u := InsertAfter(ring, p, h);
    var der' := der[ring[p] := h][h := NextOf(ring, p)];
    forall x | 0 <= x < n + 1 ensures u[x] in der' {
      if x != p + 1 {
        assert u[x] == ring[if x <= p then x else x - 1];
      }
    }
    forall x | 0 <= x < n ensures der'[u[x]] == u[x + 1] {
      if x < p {
        assert u[x] == ring[x] != ring[p];
      } else if p + 1 < x {
        assert u[x] == ring[x - 1] != ring[p];
        assert der[ring[x - 1]] == ring[x];
      }
    }
    if p + 1 < n {
      assert u[n] == ring[n - 1] != ring[p];
    }
  }

  lemma SpliceInLeft(ring: seq<nat>, izq: map<nat, nat>, p: nat, h: nat)
    requires LeftLinked(ring, izq) && Distinct(ring) && p < |ring| && h !in ring
    ensures LeftLinked(InsertAfter(ring, p, h), izq[h := ring[p]][NextOf(ring, p) := h])
  {
    DistinctPairs(ring);
    var n := |ring|;
    var u := InsertAfter(ring, p, h);
    var b := NextOf(ring, p);
    var izq' := izq[h := ring[p]][b := h];
    forall x | 0 <= x < n + 1 ensures u[x] in izq' {
      if x != p + 1 {
        assert u[x] == ring[if x <= p then x else x - 1];
      }
    }
    forall x | 0 < x < n + 1 ensures izq'[u[x]] == u[x - 1] {
      if x <= p {
        assert u[x] == ring[x] != b;
      } else if x == p + 2 {
        assert u[x] == b;
      } else if p + 2 < x {
        assert u[x] == ring[x - 1] != b;
        assert izq[ring[x - 1]] == ring[x - 2];
      }
    }
    if p + 1 < n {
      assert u[0] == ring[0] != b;
    }
  }

  /**
   Splicing a fresh seat `h` in right of `ring[p]`, with the four link updates of
   `incorporarCaballero` (arturo.h:247-251), gives the ring with `h` inserted after position `p`.
   */
  lemma SpliceIn(ring: seq<nat>, izq: map<nat, nat>, der: map<nat, nat>, p: nat, h: nat)
    requires Linked(ring, izq, der) && Distinct(ring) && p < |ring| && h !in ring
    ensures ring[p] in der
    ensures
      var a := ring[p];
      var b := der[ring[p]];
      var u := InsertAfter(ring, p, h);
      && Distinct(u)
      && Linked(u, izq[h := a][b := h], der[a := h][h := b])
  {
    LinksAt(ring, izq, der, p);
    InsertDistinct(ring, p, h);
    SpliceInRight(ring, der, p, h);
    SpliceInLeft(ring, izq, p, h);
  }

  lemma SpliceOutRight(ring: seq<nat>, der: map<nat, nat>, i: nat)
    requires RightLinked(ring, der) && Distinct(ring) && 2 <= |ring| && i < |ring|
    ensures RightLinked(Without(ring, i), der[PrevOf(ring, i) := NextOf(ring, i)])
  {
    var n := |ring|;
    var u := Without(ring, i);
    var pi := if 0 < i then i - 1 else n - 1;
    var der' := der[PrevOf(ring, i) := NextOf(ring, i)];
    RemoveAt(ring, i);
    forall x | 0 <= x < n - 1 ensures u[x] in der' {
      assert u[x] == ring[if x < i then x else x + 1];
    }
    forall x | 0 <= x < n - 2 ensures der'[u[x]] == u[x + 1] {
      if x + 1 < i {
        DistinctAt(ring, x, pi);
        assert u[x] == ring[x] != PrevOf(ring, i);
        assert der[ring[x]] == ring[x + 1];
      } else if i <= x {
        DistinctAt(ring, x + 1, pi);
        assert u[x] == ring[x + 1] != PrevOf(ring, i);
        assert der[ring[x + 1]] == ring[x + 2];
      }
    }
    if i == 0 {
      assert u[n - 2] == ring[n - 1] == PrevOf(ring, i);
    } else if i < n - 1 {
      DistinctAt(ring, n - 1, pi);
      assert u[n - 2] == ring[n - 1] != PrevOf(ring, i);
    }
  }

  lemma SpliceOutLeft(ring: seq<nat>, izq: map<nat, nat>, i: nat)
    requires LeftLinked(ring, izq) && Distinct(ring) && 2 <= |ring| && i < |ring|
    ensures LeftLinked(Without(ring, i), izq[NextOf(ring, i) := PrevOf(ring, i)])
  {
    var n := |ring|;
    var u := Without(ring, i);
    var ni := if i + 1 < n then i + 1 else 0;
    var izq' := izq[NextOf(ring, i) := PrevOf(ring, i)];
    RemoveAt(ring, i);
    forall x | 0 <= x < n - 1 ensures u[x] in izq' {
      assert u[x] == ring[if x < i then x else x + 1];
    }
    forall x | 0 < x < n - 1 ensures izq'[u[x]] == u[x - 1] {
      if x < i {
        DistinctAt(ring, x, ni);
        assert u[x] == ring[x] != NextOf(ring, i);
        assert izq[ring[x]] == ring[x - 1];
      } else if i < x {
        DistinctAt(ring, x + 1, ni);
        assert u[x] == ring[x + 1] != NextOf(ring, i);
        assert izq[ring[x + 1]] == ring[x];
      }
    }
    if i == n - 1 {
      assert u[0] == ring[0] == NextOf(ring, i);
    } else if 0 < i {
      DistinctAt(ring, 0, ni);
      assert u[0] == ring[0] != NextOf(ring, i);
    }
  }

  /**
   Splicing seat `ring[i]` out, with the two link updates of `expulsarCaballero`
   (arturo.h:269-270), gives the ring without position `i`.
   */
  lemma SpliceOut(ring: seq<nat>, izq: map<nat, nat>, der: map<nat, nat>, i: nat)
    requires Linked(ring, izq, der) && Distinct(ring) && 2 <= |ring| && i < |ring|
    ensures ring[i] in izq && ring[i] in der
    ensures
      var d := ring[i];
      var u := Without(ring, i);
      && Distinct(u)
      && Linked(u, izq[der[d] := izq[d]], der[izq[d] := der[d]])
  {
    LinksAt(ring, izq, der, i);
    RemoveAt(ring, i);
    SpliceOutRight(ring, der, i);
    SpliceOutLeft(ring, izq, i);
  }

  /** A ring may be read starting at any of its seats. */
  lemma RotateLinked(ring: seq<nat>, izq: map<nat, nat>, der: map<nat, nat>, k: nat)
    requires Linked(ring, izq, der) && k <= |ring|
    ensures Linked(Rotate(ring, k), izq, der)
  {
  }

  /** Every handle of `ring` has a value. */
  ghost predicate Seated<T>(val: map<nat, T>, ring: seq<nat>) {
    forall i :: 0 <= i < |ring| ==> ring[i] in val
  }

  /** The values seated along `ring`, in its order. */
  function Values<T>(val: map<nat, T>, ring: seq<nat>): (vs: seq<T>)
    requires Seated(val, ring)
    ensures |vs| == |ring|
    ensures forall i :: 0 <= i < |ring| ==> vs[i] == val[ring[i]]
  {
    seq(|ring|, i requires 0 <= i < |ring| => val[ring[i]])
  }

  /** Seats holding distinct values are distinct seats. */
  lemma DistinctHandles<T>(val: map<nat, T>, ring: seq<nat>)
    requires Seated(val, ring) && Distinct(Values(val, ring))
    ensures Distinct(ring)
  {
    DistinctPairs(Values(val, ring));
    DistinctPairs(ring);
    var vs := Values(val, ring);
    forall i, j | 0 <= i < j < |ring| ensures ring[i] != ring[j] {
      assert vs[i] != vs[j];
    }
  }

  /** In a ring of distinct values, a seat's position is the position of its value. */
  lemma IndexOfValues<T>(val: map<nat, T>, ring: seq<nat>, h: nat)
    requires Seated(val, ring) && Distinct(Values(val, ring)) && h in ring
    ensures h in val && val[h] in Values(val, ring)
    ensures IndexOf(Values(val, ring), val[h]) == IndexOf(ring, h)
  {
    var i := IndexOf(ring, h);
    assert Values(val, ring)[i] == val[h];
    IndexOfDistinct(Values(val, ring), i);
  }

  /** Reading the ring from the inserted seat. */
  lemma RotateInsert(s: seq<nat>, j: nat, x: nat)
    requires j < |s|
    ensures Rotate(InsertAfter(s, j, x), j + 1) == [x] + Rotate(s, j + 1)
  {
    var u := InsertAfter(s, j, x);
    var l := Rotate(u, j + 1);
    var r := [x] + Rotate(s, j + 1);
    assert |l| == |r|;
    forall i | 0 <= i < |l| ensures l[i] == r[i] {
      if i == 0 {
        assert l[0] == u[j + 1];
      } else if i < |s| - j {
        assert l[i] == u[j + 1 + i] == s[j + i];
        assert r[i] == Rotate(s, j + 1)[i - 1];
      } else {
        assert l[i] == u[i - (|s| - j)];
        assert r[i] == Rotate(s, j + 1)[i - 1];
      }
    }
  }

  /** The seat reached from `h` by following `k` right links; a seat without one ends the walk. */
  ghost function Walk(der: map<nat, nat>, h: nat, k: nat): nat
    decreases k
  {
    if k == 0 || h !in der then h else Walk(der, der[h], k - 1)
  }

  lemma {:induction false} WalkSplit(der: map<nat, nat>, h: nat, a: nat, b: nat)
    ensures Walk(der, h, a + b) == Walk(der, Walk(der, h, a), b)
    decreases a
  {
    if a > 0 && h in der {
      WalkSplit(der, der[h], a - 1, b);
    }
  }

  lemma {:induction false} WalkAlong(ring: seq<nat>, der: map<nat, nat>, i: nat, k: nat)
    requires RightLinked(ring, der) && i + k < |ring|
    ensures Walk(der, ring[i], k) == ring[i + k]
    decreases k
  {
    if k > 0 {
      assert der[ring[i]] == ring[i + 1];
      WalkAlong(ring, der, i + 1, k - 1);
    }
  }

  /** Following `k < |ring|` right links from `ring[i]` reaches position `i + k`, wrapping around. */
  lemma WalkFrom(ring: seq<nat>, der: map<nat, nat>, i: nat, k: nat)
    requires RightLinked(ring, der) && i < |ring| && k < |ring|
    ensures Walk(der, ring[i], k) == ring[if i + k < |ring| then i + k else i + k - |ring|]
  {
    var n := |ring|;
    if i + k < n {
      WalkAlong(ring, der, i, k);
    } else {
      WalkAlong(ring, der, i, n - 1 - i);
      WalkSplit(der, ring[i], n - 1 - i, 1);
      assert Walk(der, ring[n - 1], 1) == ring[0];
      WalkSplit(der, ring[i], n - i, k - (n - i));
      WalkAlong(ring, der, 0, k - (n - i));
    }
  }

  /**
   The right links form one cycle of exactly `|ring|` seats: from any seat, `|ring|` steps
   right come back to it and no shorter positive walk does.
   */
  lemma OneCycle(ring: seq<nat>, der: map<nat, nat>, i: nat, k: nat)
    requires RightLinked(ring, der) && Distinct(ring) && i < |ring|
    ensures 0 < k < |ring| ==> Walk(der, ring[i], k) != ring[i]
    ensures Walk(der, ring[i], |ring|) == ring[i]
  {
    DistinctPairs(ring);
    var n := |ring|;
    var j := if i == 0 then n - 1 else i - 1;
    WalkFrom(ring, der, i, n - 1);
    assert Walk(der, ring[i], n - 1) == ring[j];
    WalkSplit(der, ring[i], n - 1, 1);
    assert Walk(der, ring[j], 1) == ring[i];
    if 0 < k < n {
      WalkFrom(ring, der, i, k);
    }
  }

  /**
   The link updates of `cambioDeLugar` exactly as arturo.h:285-290 performs them, for Arturo's
   seat `a` and the seat `k` he moves next to.
   */
  function ChangePlaceLinksAsWritten(izq: map<nat, nat>, der: map<nat, nat>, a: nat, k: nat)
    : (links: (map<nat, nat>, map<nat, nat>))
    requires a in izq && a in der && k in der && der[a] in izq && izq[a] in der
    ensures links.0.Keys == izq.Keys && links.1.Keys == der.Keys
    ensures links.1[k] == a && links.0[a] == k
  {
    var izq1 := izq[der[a] := izq[a]];
    var der1 := der[izq1[a] := der[a]];
    var izq2 := izq1[a := k];
    var der2 := der1[a := der1[k]];
    var der3 := der2[k := a];
    (izq2, der3)
  }

  /**
   The link updates of `cambioDeLugar` with the one arturo.h:285-290 leaves out: the seat that
   ends up right of Arturo gets Arturo as its left neighbour.
   */
  function ChangePlaceLinks(izq: map<nat, nat>, der: map<nat, nat>, a: nat, k: nat)
    : (links: (map<nat, nat>, map<nat, nat>))
    requires a in izq && a in der && k in der && der[a] in izq && izq[a] in der
    ensures links.1.Keys == der.Keys && links.1[k] == a
    ensures a in links.1 && links.1[a] in links.0 && links.0[links.1[a]] == a
  {
    var (izq2, der3) := ChangePlaceLinksAsWritten(izq, der, a, k);
    (izq2[der3[a] := a], der3)
  }

  /**
   The corrected link updates of `cambioDeLugar` are an unlink of Arturo's seat `a`
   (arturo.h:285-286) followed by the splice of `a` right of `k`.
   */
  lemma ChangePlaceLinksSplice(izq: map<nat, nat>, der: map<nat, nat>, a: nat, k: nat)
    requires a in izq && a in der && k in der && der[a] in izq && izq[a] in der
    requires a != k && der[a] != a
    ensures
      var izq1 := izq[der[a] := izq[a]];
      var der1 := der[izq[a] := der[a]];
      var links := ChangePlaceLinks(izq, der, a, k);
      && k in der1
      && links.0 == izq1[a := k][der1[k] := a]
      && links.1 == der1[k := a][a := der1[k]]
  {
  }

  /**
   The corrected `cambioDeLugar` takes Arturo's seat `ring[0]` out of the ring and splices it
   back in right of `ring[i]`: read from Arturo's seat, the ring is the old one without Arturo,
   rotated so that `ring[i]` comes last.
   */
  lemma ChangePlaceRing(ring: seq<nat>, izq: map<nat, nat>, der: map<nat, nat>, i: nat)
    requires Linked(ring, izq, der) && Distinct(ring) && 3 <= |ring| && 0 < i < |ring|
    ensures ring[0] in izq && ring[0] in der && ring[i] in der && der[ring[0]] in izq && izq[ring[0]] in der
    ensures
      var links := ChangePlaceLinks(izq, der, ring[0], ring[i]);
      var u := [ring[0]] + Rotate(ring[1..], i);
      && Linked(u, links.0, links.1)
      && Distinct(u)
  {
    var a := ring[0];
    var k := ring[i];
    var rest := ring[1..];
    LinksAt(ring, izq, der, 0);
    LinkedInverse(ring, izq, der, a);
    assert Without(ring, 0) == rest;
    SpliceOut(ring, izq, der, 0);
    assert a !in rest;
    assert rest[i - 1] == k;
    ChangePlaceLinksSplice(izq, der, a, k);
    SpliceIn(rest, izq[der[a] := izq[a]], der[izq[a] := der[a]], i - 1, a);
    var v := InsertAfter(rest, i - 1, a);
    var links := ChangePlaceLinks(izq, der, a, k);
    RotateLinked(v, links.0, links.1, i);
    RotateInsert(rest, i - 1, a);
    RotateKeeps(v, i);
  }

  /** Arturo's seat followed by the others read from any of them holds only seats of the ring. */
  lemma ReseatedMembers(ring: seq<nat>, i: nat)
    requires 0 < i < |ring|
    ensures var u := [ring[0]] + Rotate(ring[1..], i);
      forall x :: 0 <= x < |u| ==> u[x] in ring
  {
    var n := |ring|;
    var rest := ring[1..];
    var u := [ring[0]] + Rotate(rest, i);
    forall x | 0 < x < |u| ensures u[x] in ring {
      if x - 1 < n - 1 - i {
        assert u[x] == rest[i + x - 1] == ring[i + x];
      } else {
        assert u[x] == rest[x - 1 - (n - 1 - i)] == ring[x - (n - 1 - i)];
      }
    }
  }

  /**
   As written, `cambioDeLugar` leaves the left link of Arturo's new right neighbour pointing at
   `k` instead of Arturo, so no ring through Arturo is linked afterwards.
   */
  lemma ChangePlaceAsWrittenBreaksLeftLink(ring: seq<nat>, izq: map<nat, nat>, der: map<nat, nat>, j: nat)
    requires Linked(ring, izq, der) && Distinct(ring) && 3 <= |ring| && 0 < j < |ring|
    ensures ring[0] in izq && ring[0] in der && ring[j] in der
    ensures der[ring[0]] in izq && izq[ring[0]] in der
    ensures
      var links := ChangePlaceLinksAsWritten(izq, der, ring[0], ring[j]);
      && ring[0] in links.1 && links.1[ring[0]] in links.0
      && links.0[links.1[ring[0]]] == ring[j] != ring[0]
      && forall r: seq<nat> :: ring[0] in r ==> !Linked(r, links.0, links.1)
  {
    var n := |ring|;
    var a := ring[0];
    var k := ring[j];
    LinkedInverse(ring, izq, der, a);
    LinkedInverse(ring, izq, der, k);
    var L := izq[a];
    var R := der[a];
    var K2 := der[k];
    assert R == ring[1] && L == ring[n - 1] && K2 == ring[Succ(j, n)];
    assert R != a && L != a && K2 != R;
    var links := ChangePlaceLinksAsWritten(izq, der, a, k);
    if k == L {
      assert links.1[a] == R;
      assert links.0[R] == L;
    } else {
      assert der[L] == a;
      assert K2 != a;
      assert links.1[a] == K2;
      assert links.0[K2] == k;
    }
    forall r: seq<nat> | a in r ensures !Linked(r, links.0, links.1) {
      if Linked(r, links.0, links.1) {
        LinkedInverse(r, links.0, links.1, a);
      }
    }
  }
}
