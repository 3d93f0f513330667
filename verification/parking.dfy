/**
  The parking-spot and reservation handlers of the user and admin routes,
  as transitions of one store holding the spots and the reservations.

  User routes: list the spots with `disponible` set, reserve a spot, list
  one's own reservations, cancel one's own reservation.  Admin routes: list
  all spots by `numero`, create, update, delete and toggle (`activa`) a spot.
  Neither the user listing nor reserving looks at `activa`.

  The store keeps two invariants:
    Valid      spot ids and spot numeros are unique, and every spot id was
               handed out by the store;
    Exclusive  a spot held by an active reservation is not `disponible`, and
               no spot is held by two active reservations.
 */
module ParkingRoutes {
  import opened Optional
  import opened UserModel
  import opened ParkingSpotModel
  import opened ReservationModel

  /** What a handler answers. */
  datatype Response = Ok | Created(id: nat) | BadRequest | NotFound | ServerError

  function StatusCode(r: Response): (code: int)
    ensures 200 <= code < 600
    ensures code < 300 <==> r.Ok? || r.Created?
  {
    match r
    case Ok => 200
    case Created(_) => 201
    case BadRequest => 400
    case NotFound => 404
    case ServerError => 500
  }

  // ---------------------------------------------------------------------------
  // Queries over the collections
  // ---------------------------------------------------------------------------

  /** `findById`: the position of the spot with id `id`, if any. */
  function SpotIndex(spots: seq<ParkingSpot>, id: SpotId): (r: Option<nat>)
    ensures r.None? <==> forall k :: 0 <= k < |spots| ==> spots[k].id != id
    ensures r.Some? ==> r.value < |spots| && spots[r.value].id == id
  {
    if |spots| == 0 then None
    else if spots[0].id == id then Some(0)
    else match SpotIndex(spots[1..], id)
      case None => None
      case Some(k) => Some(k + 1)
  }

  /** `findOne({ numero })`: whether some spot already has this numero. */
  predicate NumeroTaken(spots: seq<ParkingSpot>, numero: string) {
    exists k :: 0 <= k < |spots| && spots[k].numero == numero
  }

  /** The unique index on `numero` rejects a write to position `k` when
      another spot already has that numero. */
  predicate NumeroClash(spots: seq<ParkingSpot>, k: nat, numero: string) {
    exists j :: 0 <= j < |spots| && j != k && spots[j].numero == numero
  }

  predicate UniqueIds(spots: seq<ParkingSpot>) {
    forall i, j :: 0 <= i < j < |spots| ==> spots[i].id != spots[j].id
  }

  /** `find({ disponible: true })`, in stored order. */
  function AvailableSpots(spots: seq<ParkingSpot>): (r: seq<ParkingSpot>)
    ensures forall s :: s in r <==> s in spots && s.disponible
    ensures forall s :: multiset(r)[s] == if s.disponible then multiset(spots)[s] else 0
    ensures |r| <= |spots|
  {
    if |spots| == 0 then []
    else
      var rest := AvailableSpots(spots[1..]);
      assert spots == [spots[0]] + spots[1..];
      if spots[0].disponible then [spots[0]] + rest else rest
  }

  /** The admin listing: every spot, ascending by numero. */
  function AllSpotsByNumero(spots: seq<ParkingSpot>): (r: seq<ParkingSpot>)
    requires DistinctNumeros(spots)
    ensures forall s :: s in r <==> s in spots
    ensures |r| == |spots|
    ensures StrictlyAscending(r)
  {
    SortByNumeroStrict(spots);
    SortByNumero(spots)
  }

  /** `findByIdAndUpdate` with the given fields: a field that is not sent
      keeps its value; `id` and `activa` are never touched. */
  function Patched(s: ParkingSpot, numero: Option<string>, ubicacion: Option<string>,
                   descripcion: Option<string>, disponible: Option<bool>): (r: ParkingSpot)
    ensures r.id == s.id && r.activa == s.activa
    ensures numero.Some? ==> r.numero == numero.value
    ensures numero.None? ==> r.numero == s.numero
    ensures ubicacion.Some? ==> r.ubicacion == ubicacion.value
    ensures ubicacion.None? ==> r.ubicacion == s.ubicacion
    ensures descripcion.Some? ==> r.descripcion == descripcion.value
    ensures descripcion.None? ==> r.descripcion == s.descripcion
    ensures disponible.Some? ==> r.disponible == disponible.value
    ensures disponible.None? ==> r.disponible == s.disponible
  {
    s.(numero := numero.GetOr(s.numero), ubicacion := ubicacion.GetOr(s.ubicacion),
       descripcion := descripcion.GetOr(s.descripcion), disponible := disponible.GetOr(s.disponible))
  }

  /** Sets `disponible` of the spot with id `id`, if there is one. */
  function Released(spots: seq<ParkingSpot>, id: SpotId): (r: seq<ParkingSpot>)
    requires UniqueIds(spots)
    ensures |r| == |spots|
    ensures forall k :: 0 <= k < |spots| && spots[k].id != id ==> r[k] == spots[k]
    ensures forall k :: 0 <= k < |spots| && spots[k].id == id ==> r[k] == spots[k].(disponible := true)
  {
    match SpotIndex(spots, id)
    case None => spots
    case Some(k) => spots[k := spots[k].(disponible := true)]
  }

  /** The cancel route's lookup: the reservation exists and is the caller's. */
  predicate Owns(reservations: seq<Reservation>, caller: UserId, rid: nat) {
    rid < |reservations| && reservations[rid].userId == caller
  }

  // ---------------------------------------------------------------------------
  // Store invariants
  // ---------------------------------------------------------------------------

  /** The unique indexes hold and every spot id was handed out. */
  predicate ValidState(spots: seq<ParkingSpot>, nextSpotId: nat) {
    UniqueIds(spots)
    && DistinctNumeros(spots)
    && (forall k :: 0 <= k < |spots| ==> spots[k].id < nextSpotId)
  }

  /** A spot held by an active reservation is not `disponible`, no spot is
      held by two active reservations, and reservations only name spot ids
      that were handed out. */
  predicate ExclusiveState(spots: seq<ParkingSpot>, reservations: seq<Reservation>, nextSpotId: nat) {
    (forall i :: 0 <= i < |reservations| ==> reservations[i].parkingSpotId < nextSpotId)
    && (forall i, j :: 0 <= i < j < |reservations| && reservations[i].estado == Activa && reservations[j].estado == Activa
          ==> reservations[i].parkingSpotId != reservations[j].parkingSpotId)
    && (forall i, k :: 0 <= i < |reservations| && 0 <= k < |spots|
          && reservations[i].estado == Activa && reservations[i].parkingSpotId == spots[k].id
          ==> !spots[k].disponible)
  }

  /** A reservation stored for a `disponible` spot without taking the spot
      (the reserve route failing between its two saves) always breaks
      Exclusive: an active reservation then holds an available spot. */
  lemma HalfReserveBreaksExclusive(spots: seq<ParkingSpot>, reservations: seq<Reservation>, nextSpotId: nat, k: nat, r: Reservation)
    requires k < |spots| && spots[k].disponible && r.parkingSpotId == spots[k].id && r.estado == Activa
    ensures !ExclusiveState(spots, reservations + [r], nextSpotId)
  {
    var rs := reservations + [r];
    assert rs[|reservations|] == r;
  }

  /** Reserving a `disponible` spot keeps Exclusive. */
  lemma ReserveKeepsExclusive(spots: seq<ParkingSpot>, reservations: seq<Reservation>, nextSpotId: nat, k: nat, r: Reservation)
    requires ValidState(spots, nextSpotId) && ExclusiveState(spots, reservations, nextSpotId)
    requires k < |spots| && spots[k].disponible && r.parkingSpotId == spots[k].id && r.estado == Activa
    ensures ExclusiveState(spots[k := spots[k].(disponible := false)], reservations + [r], nextSpotId)
  {
    var rs, ss := reservations + [r], spots[k := spots[k].(disponible := false)];
    forall i | 0 <= i < |reservations| && reservations[i].estado == Activa
      ensures reservations[i].parkingSpotId != r.parkingSpotId
    {
      assert !(reservations[i].parkingSpotId == spots[k].id);
    }
  }

  /** Cancelling an active reservation releases a spot nobody else holds. */
  lemma CancelKeepsExclusive(spots: seq<ParkingSpot>, reservations: seq<Reservation>, nextSpotId: nat, rid: nat)
    requires ValidState(spots, nextSpotId) && ExclusiveState(spots, reservations, nextSpotId)
    requires rid < |reservations| && reservations[rid].estado == Activa
    ensures ExclusiveState(Released(spots, reservations[rid].parkingSpotId),
                           reservations[rid := reservations[rid].(estado := Cancelada)], nextSpotId)
  {
    var held := reservations[rid].parkingSpotId;
    var rs := reservations[rid := reservations[rid].(estado := Cancelada)];
    var ss := Released(spots, held);
    forall i, m | 0 <= i < |rs| && 0 <= m < |ss| && rs[i].estado == Activa && rs[i].parkingSpotId == ss[m].id
      ensures !ss[m].disponible
    {
      assert i != rid && reservations[i] == rs[i];
      assert rs[i].parkingSpotId != held by {
        if i < rid {
          assert reservations[i].parkingSpotId != reservations[rid].parkingSpotId;
        } else {
          assert reservations[rid].parkingSpotId != reservations[i].parkingSpotId;
        }
      }
      assert ss[m] == spots[m];
    }
  }

  /** Removing the spot at position `k` removes exactly the spots with its id
      and keeps both invariants. */
  lemma RemoveSpotKeepsInvariants(spots: seq<ParkingSpot>, reservations: seq<Reservation>, nextSpotId: nat, k: nat)
    requires ValidState(spots, nextSpotId) && k < |spots|
    ensures var ss := spots[..k] + spots[k + 1..];
      && ValidState(ss, nextSpotId)
      && (ExclusiveState(spots, reservations, nextSpotId) ==> ExclusiveState(ss, reservations, nextSpotId))
      && (forall s :: s in ss <==> s in spots && s.id != spots[k].id)
  {
    RemoveAtShifts(spots, k);
    RemoveAtMembers(spots, k);
  }

  /** Removing position `k` shifts every later spot down by one. */
  lemma RemoveAtShifts(spots: seq<ParkingSpot>, k: nat)
    requires k < |spots|
    ensures var ss := spots[..k] + spots[k + 1..];
      |ss| == |spots| - 1 && forall m :: 0 <= m < |ss| ==> ss[m] == spots[if m < k then m else m + 1]
  {
  }

  /** With unique ids, removing position `k` removes exactly the spot with its id. */
  lemma RemoveAtMembers(spots: seq<ParkingSpot>, k: nat)
    requires UniqueIds(spots) && k < |spots|
    ensures forall s :: s in spots[..k] + spots[k + 1..] <==> s in spots && s.id != spots[k].id
  {
    var ss := spots[..k] + spots[k + 1..];
    RemoveAtShifts(spots, k);
    forall s ensures s in ss <==> s in spots && s.id != spots[k].id {
      if s in spots && s.id != spots[k].id {
        var j :| 0 <= j < |spots| && spots[j] == s;
        assert ss[if j < k then j else j - 1] == s;
      }
      if s in ss {
        var m :| 0 <= m < |ss| && ss[m] == s;
        assert s == spots[if m < k then m else m + 1];
      }
    }
  }

  // ---------------------------------------------------------------------------
  // The store
  // ---------------------------------------------------------------------------

  class ParkingStore {
    /** The spots in stored order. */
    var spots: seq<ParkingSpot>
    /** The reservations in creation order; a reservation's id is its position. */
    var reservations: seq<Reservation>
    /** The id the next created spot gets. */
    var nextSpotId: nat

    predicate Valid()
      reads this
    {
      ValidState(spots, nextSpotId)
    }

    predicate Exclusive()
      reads this
    {
      ExclusiveState(spots, reservations, nextSpotId)
    }

    constructor ()
      ensures spots == [] && reservations == [] && nextSpotId == 0
      ensures Valid() && Exclusive()
    {
      spots := [];
      reservations := [];
      nextSpotId := 0;
    }

    // -------------------------------------------------------------------------
    // User routes
    // -------------------------------------------------------------------------

    /** POST /reserve.  A missing or unreadable date makes the first save
        fail before anything is written.  The reservation is saved before the
        spot, so a spot that fails its own schema check leaves the new
        reservation stored and the spot still available. */
    method Reserve(caller: UserId, spotId: SpotId, fechaInicio: Option<int>, fechaFin: Option<int>)
      returns (resp: Response)
      requires Valid()
      modifies this
      ensures Valid() && nextSpotId == old(nextSpotId)
      ensures old(Exclusive()) && resp != ServerError ==> Exclusive()
      ensures resp == ServerError && reservations != old(reservations) ==> !Exclusive()
      ensures match SpotIndex(old(spots), spotId)
        case None =>
          resp == NotFound && spots == old(spots) && reservations == old(reservations)
        case Some(k) =>
          if !old(spots)[k].disponible then
            resp == BadRequest && spots == old(spots) && reservations == old(reservations)
          else if fechaInicio.None? || fechaFin.None? then
            resp == ServerError && spots == old(spots) && reservations == old(reservations)
          else if !PassesSchema(old(spots)[k]) then
            resp == ServerError
            && reservations == old(reservations) + [Reservation(caller, spotId, fechaInicio.value, fechaFin.value, Activa)]
            && spots == old(spots)
          else
            resp == Created(|old(reservations)|)
            && reservations == old(reservations) + [Reservation(caller, spotId, fechaInicio.value, fechaFin.value, Activa)]
            && spots == old(spots)[k := old(spots)[k].(disponible := false)]
    {
      var found := SpotIndex(spots, spotId);
      if found.None? {
        return NotFound;
      }
      var k := found.value;
      var spot := spots[k];
      if !spot.disponible {
        return BadRequest;
      }
      if fechaInicio.None? || fechaFin.None? {
        return ServerError;
      }
      var reservation := Reservation(caller, spotId, fechaInicio.value, fechaFin.value, Activa);
      if !PassesSchema(spot) {
        HalfReserveBreaksExclusive(spots, reservations, nextSpotId, k, reservation);
        reservations := reservations + [reservation];
        return ServerError;
      }
      if Exclusive() {
        ReserveKeepsExclusive(spots, reservations, nextSpotId, k, reservation);
      }
      reservations := reservations + [reservation];
      spots := spots[k := spot.(disponible := false)];
      resp := Created(|reservations| - 1);
    }

    /** DELETE /cancel-reservation/:id as written: the prior `estado` is not
        checked, so a reservation that is already cancelled or completed is
        "cancelled" again and its spot is released anyway. */
    method CancelReservation(caller: UserId, rid: nat) returns (resp: Response)
      requires Valid()
      modifies this
      ensures Valid() && nextSpotId == old(nextSpotId)
      ensures !Owns(old(reservations), caller, rid) ==>
        resp == NotFound && spots == old(spots) && reservations == old(reservations)
      ensures Owns(old(reservations), caller, rid) ==>
        resp == Ok
        && reservations == old(reservations)[rid := old(reservations)[rid].(estado := Cancelada)]
        && spots == Released(old(spots), old(reservations)[rid].parkingSpotId)
    {
      if !(rid < |reservations| && reservations[rid].userId == caller) {
        return NotFound;
      }
      var reservation := reservations[rid];
      reservations := reservations[rid := reservation.(estado := Cancelada)];
      spots := Released(spots, reservation.parkingSpotId);
      resp := Ok;
    }

    /** The cancel route with the prior state checked: only an active
        reservation can be cancelled, which keeps Exclusive. */
    method CancelActiveReservation(caller: UserId, rid: nat) returns (resp: Response)
      requires Valid()
      modifies this
      ensures Valid() && nextSpotId == old(nextSpotId)
      ensures old(Exclusive()) ==> Exclusive()
      ensures !Owns(old(reservations), caller, rid) ==>
        resp == NotFound && spots == old(spots) && reservations == old(reservations)
      ensures Owns(old(reservations), caller, rid) && old(reservations)[rid].estado != Activa ==>
        resp == BadRequest && spots == old(spots) && reservations == old(reservations)
      ensures Owns(old(reservations), caller, rid) && old(reservations)[rid].estado == Activa ==>
        resp == Ok
        && reservations == old(reservations)[rid := old(reservations)[rid].(estado := Cancelada)]
        && spots == Released(old(spots), old(reservations)[rid].parkingSpotId)
    {
      if !(rid < |reservations| && reservations[rid].userId == caller) {
        return NotFound;
      }
      var reservation := reservations[rid];
      if reservation.estado != Activa {
        return BadRequest;
      }
      if Exclusive() {
        CancelKeepsExclusive(spots, reservations, nextSpotId, rid);
      }
      reservations := reservations[rid := reservation.(estado := Cancelada)];
      spots := Released(spots, reservation.parkingSpotId);
      resp := Ok;
    }

    // -------------------------------------------------------------------------
    // Admin routes
    // -------------------------------------------------------------------------

    /** POST /parking-spot.  A taken numero is refused first; an empty numero
        or ubicacion then fails the schema's `required` check. */
    method CreateSpot(numero: string, ubicacion: string, descripcion: Option<string>) returns (resp: Response)
      requires Valid()
      modifies this
      ensures Valid() && reservations == old(reservations)
      ensures old(Exclusive()) ==> Exclusive()
      ensures NumeroTaken(old(spots), numero) ==>
        resp == BadRequest && spots == old(spots) && nextSpotId == old(nextSpotId)
      ensures !NumeroTaken(old(spots), numero) && !(RequiredPresent(numero) && RequiredPresent(ubicacion)) ==>
        resp == ServerError && spots == old(spots) && nextSpotId == old(nextSpotId)
      ensures !NumeroTaken(old(spots), numero) && RequiredPresent(numero) && RequiredPresent(ubicacion) ==>
        resp == Created(old(nextSpotId))
        && spots == old(spots) + [NewSpot(old(nextSpotId), numero, ubicacion, descripcion)]
        && nextSpotId == old(nextSpotId) + 1
    {
      if exists k :: 0 <= k < |spots| && spots[k].numero == numero {
        return BadRequest;
      }
      if !(RequiredPresent(numero) && RequiredPresent(ubicacion)) {
        return ServerError;
      }
      var spot := NewSpot(nextSpotId, numero, ubicacion, descripcion);
      spots := spots + [spot];
      resp := Created(nextSpotId);
      nextSpotId := nextSpotId + 1;
    }

    /** PUT /parking-spot/:id.  No schema validator runs; only the unique
        index on numero can refuse the write. */
    method UpdateSpot(id: SpotId, numero: Option<string>, ubicacion: Option<string>,
                      descripcion: Option<string>, disponible: Option<bool>) returns (resp: Response)
      requires Valid()
      modifies this
      ensures Valid() && reservations == old(reservations) && nextSpotId == old(nextSpotId)
      ensures match SpotIndex(old(spots), id)
        case None => resp == NotFound && spots == old(spots)
        case Some(k) =>
          var updated := Patched(old(spots)[k], numero, ubicacion, descripcion, disponible);
          if NumeroClash(old(spots), k, updated.numero) then resp == ServerError && spots == old(spots)
          else resp == Ok && spots == old(spots)[k := updated]
    {
      var found := SpotIndex(spots, id);
      if found.None? {
        return NotFound;
      }
      var k := found.value;
      var updated := Patched(spots[k], numero, ubicacion, descripcion, disponible);
      if exists j :: 0 <= j < |spots| && j != k && spots[j].numero == updated.numero {
        return ServerError;
      }
      spots := spots[k := updated];
      resp := Ok;
    }

    /** DELETE /parking-spot/:id.  Reservations referring to the spot stay. */
    method DeleteSpot(id: SpotId) returns (resp: Response)
      requires Valid()
      modifies this
      ensures Valid() && reservations == old(reservations) && nextSpotId == old(nextSpotId)
      ensures old(Exclusive()) ==> Exclusive()
      ensures SpotIndex(old(spots), id).None? ==> resp == NotFound && spots == old(spots)
      ensures SpotIndex(old(spots), id).Some? ==>
        resp == Ok
        && |spots| == |old(spots)| - 1
        && (forall s :: s in spots <==> s in old(spots) && s.id != id)
    {
      var found := SpotIndex(spots, id);
      if found.None? {
        return NotFound;
      }
      var k := found.value;
      RemoveSpotKeepsInvariants(spots, reservations, nextSpotId, k);
      spots := spots[..k] + spots[k + 1..];
      resp := Ok;
    }

    /** PUT /parking-spot/:id/toggle: flips `activa` and nothing else.  The
        spot is written back with `save()`, so one that fails its schema check
        is refused with 500 and stays as it was. */
    method ToggleSpot(id: SpotId) returns (resp: Response)
      requires Valid()
      modifies this
      ensures Valid() && reservations == old(reservations) && nextSpotId == old(nextSpotId)
      ensures old(Exclusive()) ==> Exclusive()
      ensures match SpotIndex(old(spots), id)
        case None => resp == NotFound && spots == old(spots)
        case Some(k) =>
          if !PassesSchema(old(spots)[k]) then resp == ServerError && spots == old(spots)
          else resp == Ok && spots == old(spots)[k := old(spots)[k].(activa := !old(spots)[k].activa)]
    {
      var found := SpotIndex(spots, id);
      if found.None? {
        return NotFound;
      }
      var k := found.value;
      if !PassesSchema(spots[k]) {
        return ServerError;
      }
      spots := spots[k := spots[k].(activa := !spots[k].activa)];
      resp := Ok;
    }

    /** Toggling a spot twice leaves the store as it was. */
    method ToggleTwice(id: SpotId) returns (first: Response, second: Response)
      requires Valid()
      modifies this
      ensures first == second
      ensures spots == old(spots) && reservations == old(reservations) && nextSpotId == old(nextSpotId)
    {
      first := ToggleSpot(id);
      assert |spots| == |old(spots)|;
      assert forall j :: 0 <= j < |spots| ==>
        spots[j].id == old(spots)[j].id && PassesSchema(spots[j]) == PassesSchema(old(spots)[j]);
      second := ToggleSpot(id);
    }
  }

  // ---------------------------------------------------------------------------
  // Cancelling twice
  // ---------------------------------------------------------------------------

  /** As written, a second cancel of the same reservation releases the spot
      after another user has reserved it: that user's active reservation is
      left on a spot the listing offers as free. */
  method DoubleCancelReleasesHeldSpot() returns (store: ParkingStore, second: Response)
    ensures second == Ok
    ensures |store.reservations| == 2 && |store.spots| == 1
    ensures store.reservations[1].userId == 2 && store.reservations[1].estado == Activa
    ensures store.reservations[1].parkingSpotId == store.spots[0].id && store.spots[0].disponible
    ensures store.spots[0] in AvailableSpots(store.spots)
    ensures !store.Exclusive()
  {
    store := new ParkingStore();
    var created := store.CreateSpot("A-1", "Sotano 1", None);
    var reserved := store.Reserve(1, 0, Some(0), Some(3600000));
    var cancelled := store.CancelReservation(1, 0);
    var reservedAgain := store.Reserve(2, 0, Some(0), Some(3600000));
    second := store.CancelReservation(1, 0);
  }

  /** With the prior state checked, the second cancel is refused and the spot
      stays with the user who reserved it. */
  method DoubleCancelRefused() returns (store: ParkingStore, second: Response)
    ensures second == BadRequest
    ensures |store.reservations| == 2 && |store.spots| == 1
    ensures store.reservations[1].estado == Activa && !store.spots[0].disponible
    ensures store.Exclusive()
  {
    store := new ParkingStore();
    var created := store.CreateSpot("A-1", "Sotano 1", None);
    var reserved := store.Reserve(1, 0, Some(0), Some(3600000));
    var cancelled := store.CancelActiveReservation(1, 0);
    var reservedAgain := store.Reserve(2, 0, Some(0), Some(3600000));
    second := store.CancelActiveReservation(1, 0);
  }
}
