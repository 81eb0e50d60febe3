/** The Activity service: graded activities whose `turma_id` and
    `professor_id` must both name records the Management service lists.
    Activities are created, listed and deleted; there is no update. */
module Atividades {

  import opened Common
  import Table
  import opened Validation

  /** A row of the `atividade` table; `descricao`, `turma_id` and
      `professor_id` are NOT NULL, `nota` (a float, kept opaque) is nullable. */
  datatype Atividade = Atividade(descricao: string, nota: Option<real>, turmaId: int, professorId: int)

  /** The JSON body of a create request. */
  datatype Payload = Payload(descricao: Field<string>, nota: Field<real>, turmaId: Field<int>, professorId: Field<int>)

  /** The 201 body of a create: `id`, `descricao`. */
  datatype Receipt = Receipt(id: int, descricao: string)

  /** One element of the list endpoint. */
  datatype View = View(id: int, descricao: string, nota: Option<real>, turmaId: int, professorId: int)

  type Store = map<int, Atividade>

  function ViewOf(id: int, a: Atividade): View {
    View(id, a.descricao, a.nota, a.turmaId, a.professorId)
  }

  /** Both collections are fetched and status-checked before either id is
      looked up, so a failure of either fetch wins over a missing id; then
      the class is looked up before the professor. */
  function ValidateBoth(turmas: Fetch, profs: Fetch, turmaId: Option<int>, professorId: Option<int>): (v: Verdict)
    ensures v.Pass? <==>
              turmas.Received? && profs.Received? && Listed(turmas.records, turmaId) && Listed(profs.records, professorId)
    ensures v.Pass? ==> turmaId.Some? && professorId.Some?
    ensures turmas.Unreachable? || profs.Unreachable? ==> v == Fail(CommFailure)
    ensures turmas.Received? && profs.Received? && !Listed(turmas.records, turmaId) ==>
              v == Fail(RefNotFound(TurmaRef, turmaId))
    ensures turmas.Received? && profs.Received? && Listed(turmas.records, turmaId) && !Listed(profs.records, professorId) ==>
              v == Fail(RefNotFound(ProfessorRef, professorId))
  {
    if turmas.Unreachable? || profs.Unreachable? then Fail(CommFailure)
    else if !AnyMatch(turmas.records, turmaId) then Fail(RefNotFound(TurmaRef, turmaId))
    else if !AnyMatch(profs.records, professorId) then Fail(RefNotFound(ProfessorRef, professorId))
    else Pass
  }

  /** POST /atividades. `id` is the fresh key the engine assigns. After both
      checks pass, `descricao` and `nota` are read as required keys, and a
      null `descricao` is refused by its NOT NULL column at commit. */
  function Create(store: Store, p: Payload, turmas: Fetch, profs: Fetch, id: int): (r: Step<Receipt, Atividade>)
    requires id !in store
    ensures r.response.Created? <==>
              && turmas.Received? && Listed(turmas.records, p.turmaId.Get())
              && profs.Received? && Listed(profs.records, p.professorId.Get())
              && p.descricao.Given? && p.nota.Present()
    ensures turmas.Unreachable? || profs.Unreachable? ==> r.response == Failed(CommFailure)
    ensures turmas.Received? && profs.Received? && !Listed(turmas.records, p.turmaId.Get()) ==>
              r.response == Failed(RefNotFound(TurmaRef, p.turmaId.Get()))
    ensures turmas.Received? && profs.Received? && Listed(turmas.records, p.turmaId.Get())
              && !Listed(profs.records, p.professorId.Get()) ==>
              r.response == Failed(RefNotFound(ProfessorRef, p.professorId.Get()))
    ensures turmas.Received? && Listed(turmas.records, p.turmaId.Get())
              && profs.Received? && Listed(profs.records, p.professorId.Get())
              && !(p.descricao.Given? && p.nota.Present()) ==>
              r.response == Failed(Rejected)
    ensures !r.response.Created? ==> r.response.Failed? && r.store == store
    ensures r.response.Created? ==>
              && p.turmaId.Given? && p.professorId.Given?
              && r.store == Table.Insert(store, id, Atividade(p.descricao.value, p.nota.Get(), p.turmaId.value, p.professorId.value))
              && r.response.body == Receipt(id, p.descricao.value)
  {
    match ValidateBoth(turmas, profs, p.turmaId.Get(), p.professorId.Get())
    case Fail(e) => Step(Failed(e), store)
    case Pass =>
      if !p.descricao.Given? || !p.nota.Present() then Step(Failed(Rejected), store)
      else
        var row := Atividade(p.descricao.value, p.nota.Get(), p.turmaId.value, p.professorId.value);
        Step(Created(Receipt(id, row.descricao)), Table.Insert(store, id, row))
  }

  /** DELETE /atividades/<id>. */
  function Delete(store: Store, id: int): (r: Step<(), Atividade>)
    ensures id !in store ==> r == Step(Failed(Missing), store)
    ensures id in store ==> r.response.Done? && r.store == Table.Remove(store, id)
  {
    if id !in store then Step(Failed(Missing), store)
    else Step(Done(()), Table.Remove(store, id))
  }

  /** GET /atividades: every row with all five fields. */
  method List(store: Store) returns (out: seq<View>)
    ensures Table.Lists(out, store, ViewOf)
    ensures forall i :: 0 <= i < |out| ==> out[i].id in store && out[i] == ViewOf(out[i].id, store[out[i].id])
  {
    var ids;
    out, ids := Table.List(store, ViewOf);
  }

  /** With both fetches answered, the two-reference check is the
      single-reference check for the class followed by the one for the
      professor. */
  lemma ValidateBothIsSequential(turmas: Fetch, profs: Fetch, turmaId: Option<int>, professorId: Option<int>)
    requires turmas.Received? && profs.Received?
    ensures ValidateBoth(turmas, profs, turmaId, professorId) ==
              match Validate(turmas, TurmaRef, turmaId)
              case Fail(e) => Fail(e)
              case Pass => Validate(profs, ProfessorRef, professorId)
  {
  }

  /** The one place the order of the fetches shows: a missing class is not
      reported when the professor list could not be fetched. */
  lemma FetchFailureWinsOverMissingClass(store: Store, p: Payload, turmas: Fetch, id: int)
    requires id !in store
    requires turmas.Received? && !Listed(turmas.records, p.turmaId.Get())
    ensures Create(store, p, turmas, Unreachable, id) == Step(Failed(CommFailure), store)
    ensures Validate(turmas, TurmaRef, p.turmaId.Get()) == Fail(RefNotFound(TurmaRef, p.turmaId.Get()))
  {
  }

  /** Deleting a freshly created activity restores the table. */
  lemma CreateThenDelete(store: Store, p: Payload, turmas: Fetch, profs: Fetch, id: int)
    requires id !in store
    requires Create(store, p, turmas, profs, id).response.Created?
    ensures Delete(Create(store, p, turmas, profs, id).store, id) == Step(Done(()), store)
  {
  }
}
