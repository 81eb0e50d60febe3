/** The Management service: professors, classes (turmas) and students
    (alunos). It validates nothing across entities: a turma's
    `professor_id` and an aluno's `turma_id` are stored as given. Updates
    merge with `data.get(key, current)`, so a present key overwrites its
    column even with `null`, and a `null` in a NOT NULL column is refused
    at commit. */
module Management {

  import opened Common
  import Table

  /** The 201 body of every create here: `id` and the row's title
      (`nome` for professors and students, `descricao` for classes). */
  datatype Receipt = Receipt(id: int, title: string)

  // ---------------- Professores ----------------

  /** `nome` is NOT NULL; the other columns are nullable. */
  datatype Professor = Professor(nome: string, idade: Option<int>, materia: Option<string>, observacoes: Option<string>)

  datatype ProfessorPayload = ProfessorPayload(nome: Field<string>, idade: Field<int>, materia: Field<string>, observacoes: Field<string>)

  /** One element of GET /professores: `observacoes` is not shown. */
  datatype ProfessorView = ProfessorView(id: int, nome: string, idade: Option<int>, materia: Option<string>)

  function ProfessorViewOf(id: int, p: Professor): ProfessorView {
    ProfessorView(id, p.nome, p.idade, p.materia)
  }

  /** POST /professores: every column is `data.get(key)`. */
  function CreateProfessor(store: map<int, Professor>, p: ProfessorPayload, id: int): (r: Step<Receipt, Professor>)
    requires id !in store
    ensures r.response.Created? <==> p.nome.Given?
    ensures !r.response.Created? ==> r == Step(Failed(Rejected), store)
    ensures r.response.Created? ==>
              && r.store.Keys == store.Keys + {id}
              && (forall k :: k in store ==> r.store[k] == store[k])
              && r.store[id].nome == p.nome.value
              && r.store[id].idade == p.idade.Get()
              && r.store[id].materia == p.materia.Get()
              && r.store[id].observacoes == p.observacoes.Get()
              && r.response.body == Receipt(id, p.nome.value)
  {
    if !p.nome.Given? then Step(Failed(Rejected), store)
    else
      var row := Professor(p.nome.value, p.idade.Get(), p.materia.Get(), p.observacoes.Get());
      Step(Created(Receipt(id, row.nome)), Table.Insert(store, id, row))
  }

  /** PUT /professores/<id>. */
  function UpdateProfessor(store: map<int, Professor>, id: int, p: ProfessorPayload): (r: Step<(), Professor>)
    ensures id !in store ==> r == Step(Failed(Missing), store)
    ensures r.response.Done? <==> id in store && !p.nome.Null?
    ensures !r.response.Done? ==> r.response.Failed? && r.store == store
    ensures id in store && p.nome.Null? ==> r.response == Failed(Rejected)
    ensures r.response.Done? ==>
              && r.store.Keys == store.Keys
              && (forall k :: k in store && k != id ==> r.store[k] == store[k])
              && Merged(p.nome, Some(store[id].nome), Some(r.store[id].nome))
              && Merged(p.idade, store[id].idade, r.store[id].idade)
              && Merged(p.materia, store[id].materia, r.store[id].materia)
              && Merged(p.observacoes, store[id].observacoes, r.store[id].observacoes)
  {
    if id !in store then Step(Failed(Missing), store)
    else
      var cur := store[id];
      match p.nome.GetOr(Some(cur.nome))
      case None => Step(Failed(Rejected), store)
      case Some(nome) =>
        var row := Professor(nome, p.idade.GetOr(cur.idade), p.materia.GetOr(cur.materia), p.observacoes.GetOr(cur.observacoes));
        Step(Done(()), Table.Replace(store, id, row))
  }

  /** DELETE /professores/<id>. */
  function DeleteProfessor(store: map<int, Professor>, id: int): (r: Step<(), Professor>)
    ensures id !in store ==> r == Step(Failed(Missing), store)
    ensures id in store ==> r.response.Done? && r.store == Table.Remove(store, id)
  {
    if id !in store then Step(Failed(Missing), store)
    else Step(Done(()), Table.Remove(store, id))
  }

  /** GET /professores. */
  method ListProfessores(store: map<int, Professor>) returns (out: seq<ProfessorView>)
    ensures Table.Lists(out, store, ProfessorViewOf)
    ensures forall i :: 0 <= i < |out| ==> out[i].id in store && out[i] == ProfessorViewOf(out[i].id, store[out[i].id])
  {
    var ids;
    out, ids := Table.List(store, ProfessorViewOf);
  }

  // ---------------- Turmas ----------------

  /** `descricao` and `professor_id` are NOT NULL; `ativo` is nullable with
      default True. */
  datatype Turma = Turma(descricao: string, professorId: int, ativo: Option<bool>)

  datatype TurmaPayload = TurmaPayload(descricao: Field<string>, professorId: Field<int>, ativo: Field<bool>)

  datatype TurmaView = TurmaView(id: int, descricao: string, professorId: int, ativo: Option<bool>)

  function TurmaViewOf(id: int, t: Turma): TurmaView {
    TurmaView(id, t.descricao, t.professorId, t.ativo)
  }

  /** `data.get('ativo', True)` on insert. A `null` reaches the row as None,
      which the mapper leaves out of the INSERT, so the column default
      True applies to it as well. */
  function AtivoOnCreate(f: Field<bool>): bool {
    if f.Given? then f.value else true
  }

  /** POST /turmas. The professor id is not looked up anywhere. */
  function CreateTurma(store: map<int, Turma>, p: TurmaPayload, id: int): (r: Step<Receipt, Turma>)
    requires id !in store
    ensures r.response.Created? <==> p.descricao.Given? && p.professorId.Given?
    ensures !r.response.Created? ==> r == Step(Failed(Rejected), store)
    ensures r.response.Created? ==>
              && r.store.Keys == store.Keys + {id}
              && (forall k :: k in store ==> r.store[k] == store[k])
              && r.store[id].descricao == p.descricao.value
              && r.store[id].professorId == p.professorId.value
              && r.store[id].ativo == Some(AtivoOnCreate(p.ativo))
              && r.response.body == Receipt(id, p.descricao.value)
    ensures r.response.Created? && !p.ativo.Given? ==> r.store[id].ativo == Some(true)
  {
    if !p.descricao.Given? || !p.professorId.Given? then Step(Failed(Rejected), store)
    else
      var row := Turma(p.descricao.value, p.professorId.value, Some(AtivoOnCreate(p.ativo)));
      Step(Created(Receipt(id, row.descricao)), Table.Insert(store, id, row))
  }

  /** PUT /turmas/<id>. */
  function UpdateTurma(store: map<int, Turma>, id: int, p: TurmaPayload): (r: Step<(), Turma>)
    ensures id !in store ==> r == Step(Failed(Missing), store)
    ensures r.response.Done? <==> id in store && !p.descricao.Null? && !p.professorId.Null?
    ensures !r.response.Done? ==> r.response.Failed? && r.store == store
    ensures id in store && (p.descricao.Null? || p.professorId.Null?) ==> r.response == Failed(Rejected)
    ensures r.response.Done? ==>
              && r.store.Keys == store.Keys
              && (forall k :: k in store && k != id ==> r.store[k] == store[k])
              && Merged(p.descricao, Some(store[id].descricao), Some(r.store[id].descricao))
              && Merged(p.professorId, Some(store[id].professorId), Some(r.store[id].professorId))
              && Merged(p.ativo, store[id].ativo, r.store[id].ativo)
  {
    if id !in store then Step(Failed(Missing), store)
    else
      var cur := store[id];
      match (p.descricao.GetOr(Some(cur.descricao)), p.professorId.GetOr(Some(cur.professorId)))
      case (Some(descricao), Some(professorId)) =>
        var row := Turma(descricao, professorId, p.ativo.GetOr(cur.ativo));
        Step(Done(()), Table.Replace(store, id, row))
      case _ => Step(Failed(Rejected), store)
  }

  /** DELETE /turmas/<id>. Rows elsewhere that name this turma are not touched. */
  function DeleteTurma(store: map<int, Turma>, id: int): (r: Step<(), Turma>)
    ensures id !in store ==> r == Step(Failed(Missing), store)
    ensures id in store ==> r.response.Done? && r.store == Table.Remove(store, id)
  {
    if id !in store then Step(Failed(Missing), store)
    else Step(Done(()), Table.Remove(store, id))
  }

  /** GET /turmas. */
  method ListTurmas(store: map<int, Turma>) returns (out: seq<TurmaView>)
    ensures Table.Lists(out, store, TurmaViewOf)
    ensures forall i :: 0 <= i < |out| ==> out[i].id in store && out[i] == TurmaViewOf(out[i].id, store[out[i].id])
  {
    var ids;
    out, ids := Table.List(store, TurmaViewOf);
  }

  // ---------------- Alunos ----------------

  /** `nome` is NOT NULL; `turma_id` is nullable and never checked. */
  datatype Aluno = Aluno(nome: string, idade: Option<int>, turmaId: Option<int>, dataNascimento: Option<string>)

  datatype AlunoPayload = AlunoPayload(nome: Field<string>, idade: Field<int>, turmaId: Field<int>, dataNascimento: Field<string>)

  /** One element of GET /alunos: `data_nascimento` is not shown. */
  datatype AlunoView = AlunoView(id: int, nome: string, idade: Option<int>, turmaId: Option<int>)

  function AlunoViewOf(id: int, a: Aluno): AlunoView {
    AlunoView(id, a.nome, a.idade, a.turmaId)
  }

  /** POST /alunos: every column is `data.get(key)`. */
  function CreateAluno(store: map<int, Aluno>, p: AlunoPayload, id: int): (r: Step<Receipt, Aluno>)
    requires id !in store
    ensures r.response.Created? <==> p.nome.Given?
    ensures !r.response.Created? ==> r == Step(Failed(Rejected), store)
    ensures r.response.Created? ==>
              && r.store.Keys == store.Keys + {id}
              && (forall k :: k in store ==> r.store[k] == store[k])
              && r.store[id].nome == p.nome.value
              && r.store[id].idade == p.idade.Get()
              && r.store[id].turmaId == p.turmaId.Get()
              && r.store[id].dataNascimento == p.dataNascimento.Get()
              && r.response.body == Receipt(id, p.nome.value)
  {
    if !p.nome.Given? then Step(Failed(Rejected), store)
    else
      var row := Aluno(p.nome.value, p.idade.Get(), p.turmaId.Get(), p.dataNascimento.Get());
      Step(Created(Receipt(id, row.nome)), Table.Insert(store, id, row))
  }

  /** PUT /alunos/<id>. */
  function UpdateAluno(store: map<int, Aluno>, id: int, p: AlunoPayload): (r: Step<(), Aluno>)
    ensures id !in store ==> r == Step(Failed(Missing), store)
    ensures r.response.Done? <==> id in store && !p.nome.Null?
    ensures !r.response.Done? ==> r.response.Failed? && r.store == store
    ensures id in store && p.nome.Null? ==> r.response == Failed(Rejected)
    ensures r.response.Done? ==>
              && r.store.Keys == store.Keys
              && (forall k :: k in store && k != id ==> r.store[k] == store[k])
              && Merged(p.nome, Some(store[id].nome), Some(r.store[id].nome))
              && Merged(p.idade, store[id].idade, r.store[id].idade)
              && Merged(p.turmaId, store[id].turmaId, r.store[id].turmaId)
              && Merged(p.dataNascimento, store[id].dataNascimento, r.store[id].dataNascimento)
  {
    if id !in store then Step(Failed(Missing), store)
    else
      var cur := store[id];
      match p.nome.GetOr(Some(cur.nome))
      case None => Step(Failed(Rejected), store)
      case Some(nome) =>
        var row := Aluno(nome, p.idade.GetOr(cur.idade), p.turmaId.GetOr(cur.turmaId), p.dataNascimento.GetOr(cur.dataNascimento));
        Step(Done(()), Table.Replace(store, id, row))
  }

  /** DELETE /alunos/<id>. */
  function DeleteAluno(store: map<int, Aluno>, id: int): (r: Step<(), Aluno>)
    ensures id !in store ==> r == Step(Failed(Missing), store)
    ensures id in store ==> r.response.Done? && r.store == Table.Remove(store, id)
  {
    if id !in store then Step(Failed(Missing), store)
    else Step(Done(()), Table.Remove(store, id))
  }

  /** GET /alunos. */
  method ListAlunos(store: map<int, Aluno>) returns (out: seq<AlunoView>)
    ensures Table.Lists(out, store, AlunoViewOf)
    ensures forall i :: 0 <= i < |out| ==> out[i].id in store && out[i] == AlunoViewOf(out[i].id, store[out[i].id])
  {
    var ids;
    out, ids := Table.List(store, AlunoViewOf);
  }

  // ---------------- Properties across operations ----------------

  /** A professor's row after an update depends only on the keys the body
      carries: updating first with one key and then with a disjoint one is
      the same as sending both at once. */
  lemma ProfessorUpdatesCompose(store: map<int, Professor>, id: int, a: ProfessorPayload, b: ProfessorPayload)
    requires id in store
    requires !a.nome.Null? && !b.nome.Null?
    requires a.idade.Absent? || b.idade.Absent?
    requires a.materia.Absent? || b.materia.Absent?
    requires a.observacoes.Absent? || b.observacoes.Absent?
    requires a.nome.Absent? || b.nome.Absent?
    ensures var both := ProfessorPayload(
                          if b.nome.Absent? then a.nome else b.nome,
                          if b.idade.Absent? then a.idade else b.idade,
                          if b.materia.Absent? then a.materia else b.materia,
                          if b.observacoes.Absent? then a.observacoes else b.observacoes);
      UpdateProfessor(UpdateProfessor(store, id, a).store, id, b) == UpdateProfessor(store, id, both)
  {
  }

  /** Sending a professor's own stored values back leaves the table as it was. */
  lemma ProfessorUpdateWithOwnValues(store: map<int, Professor>, id: int)
    requires id in store
    ensures var cur := store[id];
      var p := ProfessorPayload(Given(cur.nome),
                                if cur.idade.Some? then Given(cur.idade.value) else Null,
                                if cur.materia.Some? then Given(cur.materia.value) else Null,
                                if cur.observacoes.Some? then Given(cur.observacoes.value) else Null);
      UpdateProfessor(store, id, p) == Step(Done(()), store)
  {
  }

  /** A professor's listing does not show `observacoes`, and an aluno's does
      not show `data_nascimento`: rows differing only there list alike. */
  lemma ListingsHideColumns(id: int, p: Professor, notes: Option<string>, a: Aluno, born: Option<string>)
    ensures ProfessorViewOf(id, p) == ProfessorViewOf(id, p.(observacoes := notes))
    ensures AlunoViewOf(id, a) == AlunoViewOf(id, a.(dataNascimento := born))
  {
  }

  /** A professor created with only `nome`, then updated with only `idade`,
      keeps the name and gains the age. */
  lemma CreateThenUpdateAge(store: map<int, Professor>, id: int, nome: string, idade: int)
    requires id !in store
    ensures var created := CreateProfessor(store, ProfessorPayload(Given(nome), Absent, Absent, Absent), id);
      var updated := UpdateProfessor(created.store, id, ProfessorPayload(Absent, Given(idade), Absent, Absent));
      && created.response == Created(Receipt(id, nome))
      && updated.response.Done?
      && updated.store[id] == Professor(nome, Some(idade), None, None)
  {
  }

  /** Deleting a just-created professor restores the table exactly. */
  lemma CreateProfessorThenDelete(store: map<int, Professor>, p: ProfessorPayload, id: int)
    requires id !in store
    requires CreateProfessor(store, p, id).response.Created?
    ensures DeleteProfessor(CreateProfessor(store, p, id).store, id) == Step(Done(()), store)
  {
  }

  /** Deleting a just-created class restores the table exactly. */
  lemma CreateTurmaThenDelete(store: map<int, Turma>, p: TurmaPayload, id: int)
    requires id !in store
    requires CreateTurma(store, p, id).response.Created?
    ensures DeleteTurma(CreateTurma(store, p, id).store, id) == Step(Done(()), store)
  {
  }

  /** Deleting a just-created student restores the table exactly. */
  lemma CreateAlunoThenDelete(store: map<int, Aluno>, p: AlunoPayload, id: int)
    requires id !in store
    requires CreateAluno(store, p, id).response.Created?
    ensures DeleteAluno(CreateAluno(store, p, id).store, id) == Step(Done(()), store)
  {
  }
}
