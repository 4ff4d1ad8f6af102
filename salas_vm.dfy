/**
 * The newer room view-model, viewmodel/SalasViewModel.kt: the rooms offered for a shift
 * with the day's occupancy counted from the local table, the room opened on the slot
 * screen, and the two ways it loads a room's reservations.
 */
module SalasVm {
  import opened Options
  import opened Text
  import opened Records
  import opened Clock
  import opened Slots
  import opened Mappers
  import Seqs
  import Sorting
  import LocalTable

  /** `horarioInicio.split(":")[0].toIntOrNull() ?: 0`: the hour before the first ':', or 0. */
  function HoraInicio(horarioInicio: string): (h: int)
    ensures IntMin <= h <= IntMax
  {
    ToIntOrNull(Split(horarioInicio, ":")[0]).GetOr(0)
  }

  /**
   * The hour is the integer written before the first ':' (the whole text when there is
   * none), or 0 when that part is not a number.
   */
  lemma HoraInicioBeforeColon(a: string, rest: string)
    requires Lacks(a, ':')
    ensures ToIntOrNull(a).Some? ==> HoraInicio(a) == ToIntOrNull(a).value && HoraInicio(a + ":" + rest) == ToIntOrNull(a).value
    ensures ToIntOrNull(a).None? ==> HoraInicio(a) == 0 && HoraInicio(a + ":" + rest) == 0
  {
    SplitWhole(a, ":");
    SplitFirst(a, ":", rest);
  }

  /** The hour of a printed time is read back as the hour of day. */
  lemma HoraInicioOfFormat(t: nat)
    ensures HoraInicio(FormatHHmm(t)) == t / 60 % 24
  {
    var h := t / 60 % 24;
    var hh := Pad2(h);
    assert FormatHHmm(t) == hh + ":" + Pad2(t % 60);
    assert Lacks(hh, ':');
    SplitFirst(hh, ":", Pad2(t % 60));
    DigitsValueOfPad2(h);
  }

  /** The hours a shift counts: Manhã 8..11, Tarde 13..16, Noite 18..21, no hour for any other name. */
  predicate NoTurno(turno: string, hora: int)
  {
    match turno
    case "Manhã" => 8 <= hora <= 11
    case "Tarde" => 13 <= hora <= 16
    case "Noite" => 18 <= hora <= 21
    case _ => false
  }

  /** The counted hours are exactly the hours of the shift's slot window. */
  lemma NoTurnoIsWindow(turno: string, hora: int)
    ensures NoTurno(turno, hora) <==> NamedShift(turno) && ShiftWindow(turno).0 <= hora < ShiftWindow(turno).1
  {
  }

  /** Every slot generated for a named shift starts in an hour the shift counts. */
  lemma SlotStartCounted(turno: string, d: nat, i: nat)
    requires NamedShift(turno) && d > 0 && i < |WindowSlots(turno, d)|
    ensures NoTurno(turno, HoraInicio(FormatHHmm(WindowSlots(turno, d)[i].start)))
  {
    var w := ShiftWindow(turno);
    TilesShape(w.0 * 60, w.1 * 60, d);
    var s := WindowSlots(turno, d)[i];
    assert w.0 * 60 <= s.start < w.1 * 60;
    HourInWindow(s.start, w.0, w.1);
    HoraInicioOfFormat(s.start);
    NoTurnoIsWindow(turno, HoraInicio(FormatHHmm(s.start)));
  }

  lemma HourInWindow(t: nat, from: nat, to: nat)
    requires from * 60 <= t < to * 60 && to <= 24
    ensures from <= t / 60 % 24 < to
  {
    assert t / 60 < 24;
  }

  /** A day's reservation occupies `sala` in `turno`: same room, start hour in the shift. */
  function Ocupa(sala: Sala, turno: string): ReservaEntity -> bool
  {
    (r: ReservaEntity) => r.idSala == sala.id && NoTurno(turno, HoraInicio(r.horarioInicio))
  }

  /** `vagasOcupadas`: how many of the day's reservations occupy the room in the shift. */
  function VagasOcupadas(sala: Sala, turno: string, reservasDoDia: seq<ReservaEntity>): (n: nat)
    ensures n <= |reservasDoDia|
    ensures !NamedShift(turno) ==> n == 0
    ensures n == 0 <==> forall i :: 0 <= i < |reservasDoDia| ==> !Ocupa(sala, turno)(reservasDoDia[i])
  {
    Seqs.Count(reservasDoDia, Ocupa(sala, turno))
  }

  /**
   * A reservation booked for a slot the screen generated for the room and a named shift
   * adds one to the room's count in that shift.
   */
  lemma BookedSlotCounted(sala: Sala, turno: string, reservasDoDia: seq<ReservaEntity>, e: ReservaEntity, d: nat, i: nat)
    requires NamedShift(turno) && d > 0 && i < |WindowSlots(turno, d)|
    requires e.idSala == sala.id && e.horarioInicio == FormatHHmm(WindowSlots(turno, d)[i].start)
    ensures VagasOcupadas(sala, turno, reservasDoDia + [e]) == VagasOcupadas(sala, turno, reservasDoDia) + 1
  {
    SlotStartCounted(turno, d, i);
    Seqs.CountAppend(reservasDoDia, e, Ocupa(sala, turno));
  }

  /** A reservation of another room leaves the count as it was. */
  lemma OtherRoomNotCounted(sala: Sala, turno: string, reservasDoDia: seq<ReservaEntity>, e: ReservaEntity)
    requires e.idSala != sala.id
    ensures VagasOcupadas(sala, turno, reservasDoDia + [e]) == VagasOcupadas(sala, turno, reservasDoDia)
  {
    Seqs.CountAppend(reservasDoDia, e, Ocupa(sala, turno));
  }

  function OfereceTurno(turno: string): Sala -> bool { (s: Sala) => turno in s.turnosDisponiveis }

  /** `salasDoTurno`: the rooms whose shift list holds the shift, in snapshot order. */
  function SalasDoTurno(salas: seq<Sala>, turno: string): (r: seq<Sala>)
    ensures forall i :: 0 <= i < |r| ==> r[i] in salas && turno in r[i].turnosDisponiveis
    ensures forall i :: 0 <= i < |salas| && turno in salas[i].turnosDisponiveis ==> salas[i] in r
    ensures Seqs.Subsequence(r, salas)
  {
    Seqs.FilterIsSubsequence(salas, OfereceTurno(turno));
    Seqs.Filter(salas, OfereceTurno(turno))
  }

  /** `sala.copy(vagasOcupadas = ...)` over the rooms of the shift: every other field is kept. */
  function ComVagas(salas: seq<Sala>, turno: string, reservasDoDia: seq<ReservaEntity>): (r: seq<Sala>)
    ensures |r| == |salas|
    ensures forall i :: 0 <= i < |salas| ==> r[i] == salas[i].(vagasOcupadas := VagasOcupadas(salas[i], turno, reservasDoDia))
  {
    Seqs.Map(salas, (s: Sala) => s.(vagasOcupadas := VagasOcupadas(s, turno, reservasDoDia)))
  }

  function Nome(s: Sala): seq<int> { Codes(s.nome) }

  /** The list `fetchSalas` publishes: the shift's rooms, counted, sorted by name. */
  function SalasPublicadas(salasBase: seq<Sala>, turno: string, reservasDoDia: seq<ReservaEntity>): (r: seq<Sala>)
    ensures Sorting.SortedBy(r, Nome)
    ensures multiset(r) == multiset(ComVagas(SalasDoTurno(salasBase, turno), turno, reservasDoDia))
    ensures SalasDoTurno(salasBase, turno) == [] ==> r == []
  {
    if SalasDoTurno(salasBase, turno) == [] then []
    else Sorting.SortBy(ComVagas(SalasDoTurno(salasBase, turno), turno, reservasDoDia), Nome)
  }

  /** Each published room is a room of the shift with its count set, and every room of the shift is published. */
  lemma SalasPublicadasMembers(salasBase: seq<Sala>, turno: string, reservasDoDia: seq<ReservaEntity>, s: Sala)
    ensures s in SalasPublicadas(salasBase, turno, reservasDoDia) <==>
      exists b :: b in salasBase && turno in b.turnosDisponiveis && s == b.(vagasOcupadas := VagasOcupadas(b, turno, reservasDoDia))
  {
    var doTurno := SalasDoTurno(salasBase, turno);
    var contadas := ComVagas(doTurno, turno, reservasDoDia);
    var r := SalasPublicadas(salasBase, turno, reservasDoDia);
    assert s in r <==> s in contadas by {
      assert s in r <==> s in multiset(r);
      assert s in contadas <==> s in multiset(contadas);
    }
    if s in contadas {
      var i :| 0 <= i < |contadas| && contadas[i] == s;
      assert doTurno[i] in salasBase && turno in doTurno[i].turnosDisponiveis;
    }
    if exists b :: b in salasBase && turno in b.turnosDisponiveis && s == b.(vagasOcupadas := VagasOcupadas(b, turno, reservasDoDia)) {
      var b :| b in salasBase && turno in b.turnosDisponiveis && s == b.(vagasOcupadas := VagasOcupadas(b, turno, reservasDoDia));
      var k :| 0 <= k < |salasBase| && salasBase[k] == b;
      assert b in doTurno;
      var j :| 0 <= j < |doTurno| && doTurno[j] == b;
      assert contadas[j] == s;
    }
  }

  /** A room snapshot read as a `Sala` (or null when it does not convert), with its key as the id. */
  function ComId(child: (string, Option<Sala>)): Option<Sala>
  {
    if child.1.Some? then Some(child.1.value.(id := child.0)) else None
  }

  /** `salasBase`: the rooms of the snapshot that convert, each with its key as id. */
  function SalasBase(children: seq<(string, Option<Sala>)>): (r: seq<Sala>)
    ensures |r| <= |children|
    ensures forall i :: 0 <= i < |children| && children[i].1.Some? ==> children[i].1.value.(id := children[i].0) in r
    ensures forall k :: 0 <= k < |r| ==> exists i :: 0 <= i < |children| && ComId(children[i]) == Some(r[k])
  {
    var m := Seqs.Map(children, ComId);
    var rooms := Seqs.Somes(m);
    assert forall k :: 0 <= k < |rooms| ==> exists i :: 0 <= i < |children| && ComId(children[i]) == Some(rooms[k]) by {
      forall k | 0 <= k < |rooms|
        ensures exists i :: 0 <= i < |children| && ComId(children[i]) == Some(rooms[k])
      {
        var i :| 0 <= i < |m| && m[i] == Some(rooms[k]);
      }
    }
    rooms
  }

  /** The rooms keep the snapshot's order: one more child appends its room, when it converts. */
  lemma SalasBaseAppend(children: seq<(string, Option<Sala>)>, c: (string, Option<Sala>))
    ensures SalasBase(children + [c]) == SalasBase(children) + (if c.1.Some? then [c.1.value.(id := c.0)] else [])
  {
    assert Seqs.Map(children + [c], ComId) == Seqs.Map(children, ComId) + [ComId(c)];
    Seqs.SomesAppend(Seqs.Map(children, ComId), ComId(c));
  }

  /**
   * `fetchSalaById`: the room's fields, each null when missing, with the defaults
   * "Sala Desconhecida", capacity 0 and 60-minute slots; the shift list keeps the entries
   * that are strings.
   */
  function SalaFromFields(salaId: string, nome: Option<string>, vagasMaximas: Option<int>,
                          duracao: Option<int>, turnos: seq<Option<string>>): (s: Sala)
    ensures s.id == salaId && s.vagasOcupadas == 0
    ensures s.nome == (if nome.Some? then nome.value else "Sala Desconhecida")
    ensures s.vagasMaximas == (if vagasMaximas.Some? then vagasMaximas.value else 0)
    ensures s.duracaoPadraoMinutos == (if duracao.Some? then duracao.value else 60)
    ensures forall i :: 0 <= i < |turnos| && turnos[i].Some? ==> turnos[i].value in s.turnosDisponiveis
    ensures forall t :: t in s.turnosDisponiveis ==> Some(t) in turnos
  {
    var ts := Seqs.Somes(turnos);
    assert forall t :: t in ts ==> Some(t) in turnos by {
      forall t | t in ts ensures Some(t) in turnos {
        var i :| 0 <= i < |ts| && ts[i] == t;
      }
    }
    Sala(salaId, nome.GetOr("Sala Desconhecida"), vagasMaximas.GetOr(0), 0, duracao.GetOr(60), ts)
  }

  /**
   * `fetchReservasParaSalaEData`: the callback receives the reservations among the
   * snapshot's children, in order, or nothing when the read is cancelled (`None`).
   */
  method FetchReservasParaSalaEData(snapshot: Option<seq<Option<MinhaReserva>>>) returns (reservas: seq<MinhaReserva>)
    ensures snapshot.None? ==> reservas == []
    ensures snapshot.Some? ==> reservas == Seqs.Somes(snapshot.value)
  {
    reservas := [];
    if snapshot.Some? {
      var children := snapshot.value;
      for i := 0 to |children|
        invariant reservas == Seqs.Somes(children[..i])
      {
        Seqs.SomesAppend(children[..i], children[i]);
        assert children[..i + 1] == children[..i] + [children[i]];
        if children[i].Some? {
          reservas := reservas + [children[i].value];
        }
      }
      assert children[..|children|] == children;
    }
  }

  /** The view-model's published state. */
  class SalasViewModel {
    var salas: seq<Sala>
    var salaSelecionada: Option<Sala>
    var reservasDaSala: seq<MinhaReserva>

    constructor()
      ensures salas == [] && salaSelecionada == None && reservasDaSala == []
    {
      salas := [];
      salaSelecionada := None;
      reservasDaSala := [];
    }

    /**
     * `fetchSalas(turno)` once the rooms snapshot has arrived: the shift's rooms, their
     * occupancy counted over the local rows dated today (dd/MM/yyyy), sorted by name.
     */
    method FetchSalas(turno: string, children: seq<(string, Option<Sala>)>, hoje: CalendarDate, dao: LocalTable.ReservaDao)
      requires Printable(hoje)
      modifies this
      ensures salas == SalasPublicadas(SalasBase(children), turno, dao.GetReservasDoDia(FormatDisplay(hoje)))
      ensures salaSelecionada == old(salaSelecionada) && reservasDaSala == old(reservasDaSala)
    {
      var salasBase := SalasBase(children);
      var salasDoTurno := SalasDoTurno(salasBase, turno);
      if salasDoTurno == [] {
        salas := [];
        return;
      }
      var reservasDoDia := dao.GetReservasDoDia(FormatDisplay(hoje));
      var salasComVagas := ComVagas(salasDoTurno, turno, reservasDoDia);
      salas := Sorting.SortBy(salasComVagas, Nome);
    }

    /** `fetchSalaById` when the read succeeds. */
    method FetchSalaById(salaId: string, nome: Option<string>, vagasMaximas: Option<int>,
                         duracao: Option<int>, turnos: seq<Option<string>>)
      modifies this
      ensures salaSelecionada == Some(SalaFromFields(salaId, nome, vagasMaximas, duracao, turnos))
      ensures salas == old(salas) && reservasDaSala == old(reservasDaSala)
    {
      salaSelecionada := Some(SalaFromFields(salaId, nome, vagasMaximas, duracao, turnos));
    }

    /** `fetchSalaById` when the read is cancelled. */
    method FetchSalaByIdCancelled()
      modifies this
      ensures salaSelecionada == None
      ensures salas == old(salas) && reservasDaSala == old(reservasDaSala)
    {
      salaSelecionada := None;
    }

    /** `carregarReservasDaSala`: the local rows of the room and day, as records. */
    method CarregarReservasDaSala(salaId: string, data: string, dao: LocalTable.ReservaDao)
      modifies this
      ensures reservasDaSala == Seqs.Map(dao.GetReservasPorSalaEData(salaId, data), ToMinhaReserva)
      ensures forall r :: r in reservasDaSala <==> ToReservaEntity(r) in dao.rows && r.idSala == salaId && r.data == data
      ensures salas == old(salas) && salaSelecionada == old(salaSelecionada)
    {
      var entities := dao.GetReservasPorSalaEData(salaId, data);
      reservasDaSala := Seqs.Map(entities, ToMinhaReserva);
      forall r | r in reservasDaSala
        ensures ToReservaEntity(r) in dao.rows && r.idSala == salaId && r.data == data
      {
        var i :| 0 <= i < |reservasDaSala| && reservasDaSala[i] == r;
        EntityRoundTrip(entities[i]);
      }
      forall r | ToReservaEntity(r) in dao.rows && r.idSala == salaId && r.data == data
        ensures r in reservasDaSala
      {
        var e := ToReservaEntity(r);
        var i :| 0 <= i < |entities| && entities[i] == e;
        RecordRoundTrip(r);
        assert reservasDaSala[i] == r;
      }
    }
  }
}
