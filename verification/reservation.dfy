/**
  The Reservation record: who holds which spot between two instants, and
  the reservation's state, one of 'activa', 'completada', 'cancelada'
  (default 'activa').  Reservations are kept in creation order, so a
  reservation's position is also its creation rank.
 */
module ReservationModel {
  import opened Optional
  import opened UserModel
  import opened ParkingSpotModel

  datatype Estado = Activa | Completada | Cancelada

  /** The stored spelling of a state. */
  function EstadoName(e: Estado): string {
    match e
    case Activa => "activa"
    case Completada => "completada"
    case Cancelada => "cancelada"
  }

  /** The schema's enum check on `estado`. */
  function ParseEstado(s: string): (r: Option<Estado>)
    ensures r.Some? ==> EstadoName(r.value) == s
  {
    if s == "activa" then Some(Activa)
    else if s == "completada" then Some(Completada)
    else if s == "cancelada" then Some(Cancelada)
    else None
  }

  /** Every state's name passes the enum check and reads back as that state. */
  lemma EstadoNameRoundTrip(e: Estado)
    ensures ParseEstado(EstadoName(e)) == Some(e)
  {
  }

  /** Dates are instants in milliseconds; both are required. */
  datatype Reservation = Reservation(
    userId: UserId,
    parkingSpotId: SpotId,
    fechaInicio: int,
    fechaFin: int,
    estado: Estado)

  /** `find({ userId }).sort({ createdAt: -1 })`: the positions of the
      caller's reservations, newest first. */
  function CallerReservations(reservations: seq<Reservation>, caller: UserId): (r: seq<nat>)
    ensures forall i: nat :: i in r <==> i < |reservations| && reservations[i].userId == caller
    ensures forall a, b :: 0 <= a < b < |r| ==> r[a] > r[b]
  {
    if |reservations| == 0 then []
    else
      var n := |reservations| - 1;
      var older := CallerReservations(reservations[..n], caller);
      assert forall i: nat :: i < n ==> reservations[..n][i] == reservations[i];
      assert forall k :: 0 <= k < |older| ==> older[k] < n by {
        forall k | 0 <= k < |older| ensures older[k] < n {
          assert older[k] in older;
        }
      }
      if reservations[n].userId == caller then [n] + older else older
  }
}
