/**
  The ParkingSpot record and the order the admin listing uses.

  `numero` is a required, unique string; `disponible` and `activa` default
  to true; `ubicacion` is required; `descripcion` defaults to ''.  The admin
  listing sorts by `numero` as a string, so the order is lexicographic by
  character code ("10" comes before "2").
 */
module ParkingSpotModel {
  import opened Optional

  /** Surrogate for the spot's document id. */
  type SpotId = nat

  datatype ParkingSpot = ParkingSpot(
    id: SpotId,
    numero: string,
    disponible: bool,
    activa: bool,
    ubicacion: string,
    descripcion: string)

  /** The `required` check on a string field: an empty string is rejected. */
  predicate RequiredPresent(s: string) {
    |s| > 0
  }

  /** What `save()` on a loaded spot validates: both required strings are
      present.  A spot written through the update route, which runs no
      validator, can hold an empty `numero` or `ubicacion` and then fail it. */
  predicate PassesSchema(s: ParkingSpot) {
    RequiredPresent(s.numero) && RequiredPresent(s.ubicacion)
  }

  /** The spot the admin creation route saves: `descripcion` falls back to ''
      and both flags start true. */
  function NewSpot(id: SpotId, numero: string, ubicacion: string, descripcion: Option<string>): (s: ParkingSpot)
    ensures s.id == id && s.numero == numero && s.ubicacion == ubicacion
    ensures s.disponible && s.activa
    ensures descripcion.None? ==> s.descripcion == ""
    ensures descripcion.Some? ==> s.descripcion == descripcion.value
  {
    ParkingSpot(id, numero, true, true, ubicacion, descripcion.GetOr(""))
  }

  // ---------------------------------------------------------------------------
  // Lexicographic order on strings
  // ---------------------------------------------------------------------------

  /** `a` sorts before or equal to `b`, comparing character codes left to right. */
  predicate StrLeq(a: string, b: string)
    decreases |a|
  {
    |a| == 0 || (|b| > 0 && (a[0] < b[0] || (a[0] == b[0] && StrLeq(a[1..], b[1..]))))
  }

  lemma {:induction false} StrLeqReflexive(a: string)
    ensures StrLeq(a, a)
    decreases |a|
  {
    if |a| > 0 {
      StrLeqReflexive(a[1..]);
    }
  }

  lemma {:induction false} StrLeqTotal(a: string, b: string)
    ensures StrLeq(a, b) || StrLeq(b, a)
    decreases |a|
  {
    if |a| > 0 && |b| > 0 && a[0] == b[0] {
      StrLeqTotal(a[1..], b[1..]);
    }
  }

  lemma {:induction false} StrLeqTransitive(a: string, b: string, c: string)
    requires StrLeq(a, b) && StrLeq(b, c)
    ensures StrLeq(a, c)
    decreases |a|
  {
    if |a| > 0 && a[0] == b[0] && b[0] == c[0] {
      StrLeqTransitive(a[1..], b[1..], c[1..]);
    }
  }

  lemma {:induction false} StrLeqAntisymmetric(a: string, b: string)
    requires StrLeq(a, b) && StrLeq(b, a)
    ensures a == b
    decreases |a|
  {
    if |a| > 0 {
      StrLeqAntisymmetric(a[1..], b[1..]);
      assert a == [a[0]] + a[1..] && b == [b[0]] + b[1..];
    }
  }

  /** Spot numbers are compared as text, not as numbers. */
  lemma TextualOrderExample()
    ensures StrLeq("10", "2") && !StrLeq("2", "10")
  {
    assert "10"[0] == '1' && "2"[0] == '2';
  }

  // ---------------------------------------------------------------------------
  // Sorting by numero
  // ---------------------------------------------------------------------------

  predicate SortedByNumero(s: seq<ParkingSpot>) {
    forall i, j :: 0 <= i < j < |s| ==> StrLeq(s[i].numero, s[j].numero)
  }

  /** Places `x` before the first spot whose numero is not below it. */
  function InsertByNumero(s: seq<ParkingSpot>, x: ParkingSpot): (r: seq<ParkingSpot>)
    ensures multiset(r) == multiset(s) + multiset{x}
  {
    if |s| == 0 then [x]
    else if StrLeq(x.numero, s[0].numero) then [x] + s
    else
      assert s == [s[0]] + s[1..];
      [s[0]] + InsertByNumero(s[1..], x)
  }

  /** Insertion keeps a sequence sorted by numero. */
  lemma {:induction false} InsertByNumeroSorted(s: seq<ParkingSpot>, x: ParkingSpot)
    requires SortedByNumero(s)
    ensures SortedByNumero(InsertByNumero(s, x))
    decreases |s|
  {
    if |s| == 0 {
    } else if StrLeq(x.numero, s[0].numero) {
      forall k | 0 <= k < |s| ensures StrLeq(x.numero, s[k].numero) {
        if k > 0 {
          StrLeqTransitive(x.numero, s[0].numero, s[k].numero);
        }
      }
      PrependSmallestSorted(x, s);
    } else {
      var rest := InsertByNumero(s[1..], x);
      assert SortedByNumero(s[1..]);
      InsertByNumeroSorted(s[1..], x);
      StrLeqTotal(x.numero, s[0].numero);
      forall e | e in rest ensures StrLeq(s[0].numero, e.numero) {
        assert e in multiset(rest);
        if e != x {
          assert e in multiset(s[1..]);
          var k :| 0 <= k < |s[1..]| && s[1..][k] == e;
          assert s[k + 1] == e;
        }
      }
      PrependSmallestSorted(s[0], rest);
    }
  }

  /** Prepending a spot whose numero is at most every other keeps the order. */
  lemma PrependSmallestSorted(x: ParkingSpot, s: seq<ParkingSpot>)
    requires SortedByNumero(s)
    requires forall e :: e in s ==> StrLeq(x.numero, e.numero)
    ensures SortedByNumero([x] + s)
  {
    var r := [x] + s;
    forall i, j | 0 <= i < j < |r| ensures StrLeq(r[i].numero, r[j].numero) {
      assert r[j] == s[j - 1];
      if i > 0 {
        assert r[i] == s[i - 1];
      }
    }
  }

  /** `find().sort({ numero: 1 })`: the spots in ascending order of numero. */
  function SortByNumero(s: seq<ParkingSpot>): (r: seq<ParkingSpot>)
    ensures multiset(r) == multiset(s) && |r| == |s|
    ensures SortedByNumero(r)
  {
    if |s| == 0 then []
    else
      assert s == [s[0]] + s[1..];
      InsertByNumeroSorted(SortByNumero(s[1..]), s[0]);
      InsertByNumero(SortByNumero(s[1..]), s[0])
  }

  predicate DistinctNumeros(s: seq<ParkingSpot>) {
    forall i, j :: 0 <= i < j < |s| ==> s[i].numero != s[j].numero
  }

  predicate StrictlyAscending(s: seq<ParkingSpot>) {
    forall i, j :: 0 <= i < j < |s| ==> StrLeq(s[i].numero, s[j].numero) && s[i].numero != s[j].numero
  }

  /** With unique numeros (the unique index) the listing is strictly ascending,
      and it holds exactly the stored spots. */
  lemma SortByNumeroStrict(s: seq<ParkingSpot>)
    requires DistinctNumeros(s)
    ensures StrictlyAscending(SortByNumero(s))
    ensures forall x :: x in SortByNumero(s) <==> x in s
  {
    var r := SortByNumero(s);
    forall x ensures x in r <==> x in s {
      assert x in r <==> x in multiset(r);
      assert x in s <==> x in multiset(s);
    }
    forall i, j | 0 <= i < j < |r| ensures r[i].numero != r[j].numero {
      OccursTwice(r, i, j);
      AtMostOnce(s);
      assert r[i] != r[j];
      assert r[i] in r && r[j] in r;
      var a :| 0 <= a < |s| && s[a] == r[i];
      var b :| 0 <= b < |s| && s[b] == r[j];
      assert a != b;
    }
  }

  /** A sequence of spots with distinct numeros holds each spot at most once. */
  lemma {:induction false} AtMostOnce(s: seq<ParkingSpot>)
    requires DistinctNumeros(s)
    ensures forall x :: multiset(s)[x] <= 1
    decreases |s|
  {
    if |s| > 0 {
      var init, last := s[..|s| - 1], s[|s| - 1];
      assert s == init + [last];
      AtMostOnce(init);
      assert last !in init;
    }
  }

  lemma OccursTwice<T>(r: seq<T>, i: nat, j: nat)
    requires i < j < |r|
    ensures r[i] == r[j] ==> multiset(r)[r[i]] >= 2
  {
    assert r == r[..j] + [r[j]] + r[j + 1..];
    assert r[i] in r[..j];
  }
}
