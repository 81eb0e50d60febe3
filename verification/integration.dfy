/** The three services together: the lists the validating services fetch are
    the listings the Management service produces from its own tables. */
module Integration {

  import opened Common
  import Table
  import opened Validation
  import Management
  import Reservas
  import Atividades

  /** A Management listing as a validating service reads it: only each
      element's id. */
  function RecordsOf<V>(listing: seq<V>, idOf: V -> int): seq<Remote> {
    seq(|listing|, i requires 0 <= i < |listing| => Remote(idOf(listing[i])))
  }

  /** An id is found in a fetched listing exactly when the listed table
      stores a row under it, for any listing whose elements carry their key. */
  lemma ListedIffStored<R, V>(s: map<int, R>, listing: seq<V>, view: (int, R) -> V, idOf: V -> int, x: int)
    requires Table.Lists(listing, s, view)
    requires forall k, row :: idOf(view(k, row)) == k
    ensures Listed(RecordsOf(listing, idOf), Some(x)) <==> x in s
  {
    var rs := RecordsOf(listing, idOf);
    if Listed(rs, Some(x)) {
      var i :| 0 <= i < |rs| && Some(rs[i].id) == Some(x);
      var k :| k in s && listing[i] == view(k, s[k]);
      assert idOf(view(k, s[k])) == k;
    }
    if x in s {
      var v := view(x, s[x]);
      assert v in listing;
      var i :| 0 <= i < |listing| && listing[i] == v;
      assert idOf(v) == x;
      assert Some(rs[i].id) == Some(x);
    }
  }

  function TurmaId(v: Management.TurmaView): int {
    v.id
  }

  function ProfessorId(v: Management.ProfessorView): int {
    v.id
  }

  /** The JSON list of GET /turmas as a validating service reads it. */
  function TurmaRecords(listing: seq<Management.TurmaView>): seq<Remote> {
    RecordsOf(listing, TurmaId)
  }

  /** The JSON list of GET /professores as a validating service reads it. */
  function ProfessorRecords(listing: seq<Management.ProfessorView>): seq<Remote> {
    RecordsOf(listing, ProfessorId)
  }

  /** Validation correctness for reservations: with a well-formed body and a
      reachable Management service, a reservation is created exactly when its
      class is stored there, and otherwise the 404 names the class id. */
  lemma ReservationAgainstManagement(store: Reservas.Store, p: Reservas.Payload,
                                     turmas: map<int, Management.Turma>, listing: seq<Management.TurmaView>, id: int)
    requires id !in store
    requires Table.Lists(listing, turmas, Management.TurmaViewOf)
    requires p.data.Present() && p.sala.Given?
    ensures var r := Reservas.Create(store, p, Received(TurmaRecords(listing)), id);
      && (r.response.Created? <==> p.turmaId.Given? && p.turmaId.value in turmas)
      && (!r.response.Created? ==> r.response == Failed(RefNotFound(TurmaRef, p.turmaId.Get())) && r.store == store)
  {
    if p.turmaId.Given? {
      ListedIffStored(turmas, listing, Management.TurmaViewOf, TurmaId, p.turmaId.value);
    }
  }

  /** Validation correctness for activities: with a well-formed body and both
      lists fetched, an activity is created exactly when its class and its
      professor are both stored in Management; a missing class is reported
      ahead of a missing professor. */
  lemma ActivityAgainstManagement(store: Atividades.Store, p: Atividades.Payload,
                                  turmas: map<int, Management.Turma>, tl: seq<Management.TurmaView>,
                                  profs: map<int, Management.Professor>, pl: seq<Management.ProfessorView>, id: int)
    requires id !in store
    requires Table.Lists(tl, turmas, Management.TurmaViewOf)
    requires Table.Lists(pl, profs, Management.ProfessorViewOf)
    requires p.descricao.Given? && p.nota.Present()
    ensures var r := Atividades.Create(store, p, Received(TurmaRecords(tl)), Received(ProfessorRecords(pl)), id);
      var turmaOk := p.turmaId.Given? && p.turmaId.value in turmas;
      var profOk := p.professorId.Given? && p.professorId.value in profs;
      && (r.response.Created? <==> turmaOk && profOk)
      && (!turmaOk ==> r.response == Failed(RefNotFound(TurmaRef, p.turmaId.Get())))
      && (turmaOk && !profOk ==> r.response == Failed(RefNotFound(ProfessorRef, p.professorId.Get())))
  {
    if p.turmaId.Given? {
      ListedIffStored(turmas, tl, Management.TurmaViewOf, TurmaId, p.turmaId.value);
    }
    if p.professorId.Given? {
      ListedIffStored(profs, pl, Management.ProfessorViewOf, ProfessorId, p.professorId.value);
    }
  }

  /** References are checked once, at write time: after Management deletes a
      class, a new reservation naming it is refused, while a reservation that
      already names it is left as it was. */
  lemma DeletedTurmaGoesStale(reservas: Reservas.Store, p: Reservas.Payload,
                              turmas: map<int, Management.Turma>, t: int,
                              listing: seq<Management.TurmaView>, id: int, held: int)
    requires t in turmas && id !in reservas
    requires Table.Lists(listing, Management.DeleteTurma(turmas, t).store, Management.TurmaViewOf)
    requires p.turmaId == Given(t)
    requires held in reservas && reservas[held].turmaId == t
    ensures var r := Reservas.Create(reservas, p, Received(TurmaRecords(listing)), id);
      && r.response == Failed(RefNotFound(TurmaRef, Some(t)))
      && r.store[held].turmaId == t
  {
    ListedIffStored(Management.DeleteTurma(turmas, t).store, listing, Management.TurmaViewOf, TurmaId, t);
  }
}
