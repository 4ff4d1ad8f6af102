/** The record types of the source; they carry data only. */
module Records {

  /** data/local/data/MinhaReserva.kt: a reservation as the screens and the remote store handle it. */
  datatype MinhaReserva = MinhaReserva(
    localId: int,
    id: string,
    idSala: string,
    nomeSala: string,
    data: string,
    horarioInicio: string,
    horarioFim: string,
    idUsuario: string)

  /** data/local/entity/ReservaEntity.kt: a row of the local `reservas` table; `localId` is its primary key. */
  datatype ReservaEntity = ReservaEntity(
    localId: int,
    id: string,
    idSala: string,
    nomeSala: string,
    data: string,
    horarioInicio: string,
    horarioFim: string,
    idUsuario: string)

  /** data/sala.kt: a room, its capacity, its slot length and the shifts it can be booked in. */
  datatype Sala = Sala(
    id: string,
    nome: string,
    vagasMaximas: int,
    vagasOcupadas: int,
    duracaoPadraoMinutos: int,
    turnosDisponiveis: seq<string>)
}
