/** The Reservation service: room reservations whose `turma_id` must name a
    class the Management service currently lists. */
module Reservas {

  import opened Common
  import Table
  import opened Validation

  /** A row of the `reservas` table; its id is the key it is stored under.
      `data` is nullable; `turma_id` is NOT NULL; `lab` defaults to False. */
  datatype Reserva = Reserva(numSala: int, lab: bool, data: Option<string>, turmaId: int)

  /** The JSON body of a create or update request. */
  datatype Payload = Payload(data: Field<string>, sala: Field<int>, lab: Field<bool>, turmaId: Field<int>)

  /** The 201 body of a create: `id`, `sala`, `lab`. */
  datatype Receipt = Receipt(id: int, sala: int, lab: bool)

  /** One element of the list endpoint, also the `reserva` echoed by an update. */
  datatype View = View(id: int, data: Option<string>, sala: int, lab: bool, turmaId: int)

  type Store = map<int, Reserva>

  function ViewOf(id: int, r: Reserva): View {
    View(id, r.data, r.numSala, r.lab, r.turmaId)
  }

  /** `bool(data.get("lab", False))` on a boolean or null. */
  function LabOf(f: Field<bool>): bool {
    if f.Given? then f.value else false
  }

  /** POST /reservas. `id` is the fresh key the engine assigns. The turma
      check runs first; only then are `data` and `sala` read, a missing key
      or a null `sala` raising out of the handler. */
  function Create(store: Store, p: Payload, turmas: Fetch, id: int): (r: Step<Receipt, Reserva>)
    requires id !in store
    ensures r.response.Created? <==>
              turmas.Received? && Listed(turmas.records, p.turmaId.Get()) && p.data.Present() && p.sala.Given?
    ensures turmas.Unreachable? ==> r.response == Failed(CommFailure)
    ensures turmas.Received? && !Listed(turmas.records, p.turmaId.Get()) ==>
              r.response == Failed(RefNotFound(TurmaRef, p.turmaId.Get()))
    ensures turmas.Received? && Listed(turmas.records, p.turmaId.Get())
              && !(p.data.Present() && p.sala.Given?) ==>
              r.response == Failed(Rejected)
    ensures !r.response.Created? ==> r.response.Failed? && r.store == store
    ensures r.response.Created? ==>
              && p.turmaId.Given?
              && r.store == Table.Insert(store, id, Reserva(p.sala.value, LabOf(p.lab), p.data.Get(), p.turmaId.value))
              && r.response.body == Receipt(id, p.sala.value, LabOf(p.lab))
    ensures r.response.Created? && !p.lab.Given? ==> !r.store[id].lab
  {
    match Validate(turmas, TurmaRef, p.turmaId.Get())
    case Fail(e) => Step(Failed(e), store)
    case Pass =>
      if !p.data.Present() || !p.sala.Given? then Step(Failed(Rejected), store)
      else
        var row := Reserva(p.sala.value, LabOf(p.lab), p.data.Get(), p.turmaId.value);
        Step(Created(Receipt(id, row.numSala, row.lab)), Table.Insert(store, id, row))
  }

  /** The row an update leaves behind when every check passes: each present
      key overwrites its column, each absent key leaves it alone. */
  function Patch(prior: Reserva, p: Payload): Reserva
    requires !p.sala.Null?
    requires p.turmaId.Present() ==> p.turmaId.Given?
  {
    Reserva(
      if p.sala.Given? then p.sala.value else prior.numSala,
      if p.lab.Present() then LabOf(p.lab) else prior.lab,
      if p.data.Present() then p.data.Get() else prior.data,
      if p.turmaId.Given? then p.turmaId.value else prior.turmaId)
  }

  /** PUT /reservas/<id>. The turma check runs only when `turma_id` is in the
      body; nothing is committed unless every step succeeds. */
  function Update(store: Store, id: int, p: Payload, turmas: Fetch): (r: Step<View, Reserva>)
    ensures id !in store ==> r == Step(Failed(Missing), store)
    ensures r.response.Done? <==>
              && id in store
              && !p.sala.Null?
              && (p.turmaId.Present() ==> turmas.Received? && Listed(turmas.records, p.turmaId.Get()))
    ensures !r.response.Done? ==> r.response.Failed? && r.store == store
    ensures id in store && p.sala.Null? ==> r == Step(Failed(Rejected), store)
    ensures id in store && !p.sala.Null? && p.turmaId.Present() && turmas.Unreachable? ==>
              r.response == Failed(CommFailure)
    ensures id in store && !p.sala.Null? && p.turmaId.Present() && turmas.Received?
              && !Listed(turmas.records, p.turmaId.Get()) ==>
              r.response == Failed(RefNotFound(TurmaRef, p.turmaId.Get()))
    ensures r.response.Done? ==>
              && r.store.Keys == store.Keys
              && (forall k :: k in store && k != id ==> r.store[k] == store[k])
              && r.response.body == ViewOf(id, r.store[id])
              && Merged(p.data, store[id].data, r.store[id].data)
              && Merged(p.sala, Some(store[id].numSala), Some(r.store[id].numSala))
              && (p.lab.Absent? ==> r.store[id].lab == store[id].lab)
              && (p.lab.Present() ==> r.store[id].lab == LabOf(p.lab))
              && Merged(p.turmaId, Some(store[id].turmaId), Some(r.store[id].turmaId))
  {
    if id !in store then Step(Failed(Missing), store)
    else if p.sala.Null? then Step(Failed(Rejected), store)
    else
      var check := if p.turmaId.Present() then Validate(turmas, TurmaRef, p.turmaId.Get()) else Pass;
      match check
      case Fail(e) => Step(Failed(e), store)
      case Pass =>
        var row := Patch(store[id], p);
        Step(Done(ViewOf(id, row)), Table.Replace(store, id, row))
  }

  /** DELETE /reservas/<id>. */
  function Delete(store: Store, id: int): (r: Step<(), Reserva>)
    ensures id !in store ==> r == Step(Failed(Missing), store)
    ensures id in store ==> r.response.Done? && r.store == Table.Remove(store, id)
  {
    if id !in store then Step(Failed(Missing), store)
    else Step(Done(()), Table.Remove(store, id))
  }

  /** GET /reservas: every row with all five fields. */
  method List(store: Store) returns (out: seq<View>)
    ensures Table.Lists(out, store, ViewOf)
    ensures forall i :: 0 <= i < |out| ==> out[i].id in store && out[i] == ViewOf(out[i].id, store[out[i].id])
  {
    var ids;
    out, ids := Table.List(store, ViewOf);
  }

  /** Without `turma_id` in the body no fetch is made: the outcome does not
      depend on what the fetch would have returned. */
  lemma UpdateSkipsFetch(store: Store, id: int, p: Payload, f1: Fetch, f2: Fetch)
    requires p.turmaId.Absent?
    ensures Update(store, id, p, f1) == Update(store, id, p, f2)
    ensures id in store && !p.sala.Null? ==> Update(store, id, p, f1).store[id].turmaId == store[id].turmaId
  {
  }

  /** A successful update applied again with the same body and fetch
      changes nothing more. */
  lemma UpdateIdempotent(store: Store, id: int, p: Payload, turmas: Fetch)
    requires Update(store, id, p, turmas).response.Done?
    ensures var once := Update(store, id, p, turmas).store;
      Update(once, id, p, turmas) == Step(Done(ViewOf(id, once[id])), once)
  {
  }

  /** An update with an empty body commits nothing new and echoes the stored row. */
  lemma EmptyUpdateIsIdentity(store: Store, id: int, turmas: Fetch)
    requires id in store
    ensures Update(store, id, Payload(Absent, Absent, Absent, Absent), turmas) == Step(Done(ViewOf(id, store[id])), store)
  {
  }

  /** Deleting a freshly created reservation restores the table. */
  lemma CreateThenDelete(store: Store, p: Payload, turmas: Fetch, id: int)
    requires id !in store
    requires Create(store, p, turmas, id).response.Created?
    ensures Delete(Create(store, p, turmas, id).store, id) == Step(Done(()), store)
  {
  }
}
