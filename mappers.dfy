/** data/local/mappers/Mappers.kt: conversions between the screen record and the table row. */
module Mappers {
  import opened Records

  function ToReservaEntity(r: MinhaReserva): (e: ReservaEntity)
    ensures e.localId == r.localId && e.id == r.id && e.idSala == r.idSala && e.nomeSala == r.nomeSala
    ensures e.data == r.data && e.horarioInicio == r.horarioInicio && e.horarioFim == r.horarioFim
    ensures e.idUsuario == r.idUsuario
  {
    ReservaEntity(r.localId, r.id, r.idSala, r.nomeSala, r.data, r.horarioInicio, r.horarioFim, r.idUsuario)
  }

  function ToMinhaReserva(e: ReservaEntity): (r: MinhaReserva)
    ensures r.localId == e.localId && r.id == e.id && r.idSala == e.idSala && r.nomeSala == e.nomeSala
    ensures r.data == e.data && r.horarioInicio == e.horarioInicio && r.horarioFim == e.horarioFim
    ensures r.idUsuario == e.idUsuario
  {
    MinhaReserva(e.localId, e.id, e.idSala, e.nomeSala, e.data, e.horarioInicio, e.horarioFim, e.idUsuario)
  }

  /** Record to row and back loses nothing. */
  lemma RecordRoundTrip(r: MinhaReserva)
    ensures ToMinhaReserva(ToReservaEntity(r)) == r
  {
  }

  /** Row to record and back loses nothing. */
  lemma EntityRoundTrip(e: ReservaEntity)
    ensures ToReservaEntity(ToMinhaReserva(e)) == e
  {
  }
}
