# Referential checks and record stores of three CRUD microservices

This project models, in Dafny, the request handlers of three small Flask
services that share a school domain:

- **Management** owns professors (`Professor`), classes (`Turma`) and
  students (`Aluno`) and checks nothing across them.
- **Reservations** owns room reservations (`Reserva`). Before a create, and
  before an update that carries `turma_id`, it fetches `GET /turmas` from
  Management and requires the id to be in the list.
- **Activities** owns graded activities (`Atividade`). Before a create it
  fetches both `GET /turmas` and `GET /professores` and requires both ids.
  It has no update endpoint, and neither has the model.

Each table is a `map<int, Row>` keyed by its primary key, so ids are unique
by construction. Each write handler (create, update, delete) is a pure
function from the table, the request body and the remote fetch result to a
`Step`: a response (201 `Created`, 200 `Done`, or `Failed` with an error) and
the table after the request. Each list handler is a method over the table
that returns the projected rows in an order the model leaves open.

A request body key is a `Field`: `Absent`, `Null` or `Given(v)`. This lets
the model tell apart Python's `data.get(k)`, `data.get(k, current)`,
`data[k]` and `k in data`, which the handlers mix.

A remote fetch is a `Fetch`. It is `Unreachable` when `requests` raised:
no connection, a non-2xx status caught by `raise_for_status()`, or a body
that is not JSON. Otherwise it is `Received(records)`.

An exception a handler does not catch is `Rejected`, which Flask turns into
a 500 and the request's session discards. Such exceptions are:
- a `KeyError` on `data["x"]`;
- `int(None)`;
- SQLite's NOT NULL violation at commit.

Modules:
- `Common` (common.dfy) holds the shared vocabulary.
- `Table` (table.dfy) holds the generic store operations, listing, and
  replay of committed writes.
- `Validation` (validation.dfy) holds the lookup rule.
- `Reservas`, `Atividades` and `Management` (one file each) hold the
  handlers of each service's `app.py`, with the rows of its `models.py`.
- `Integration` (integration.dfy) holds lemmas that connect the validating
  services to Management's own listings.

Behaviour of the handlers that the model reproduces:

- Activity creation issues both fetches and checks both statuses before it
  looks up either id; only then does it look up the class and then the
  professor. So a failed professor fetch gives 500 even when the class is
  missing (`Atividades.FetchFailureWinsOverMissingClass`).
- Nothing checks that names or descriptions are non-empty. Only a missing or
  `null` value is refused, by a `KeyError` or the NOT NULL column.
- `GET /alunos` omits `data_nascimento`, just as `GET /professores` omits
  `observacoes`.
- An activity create also needs the `nota` key present (`data["nota"]`),
  although its column is nullable. `null` is accepted.
- Reservation create reads `turma_id` with `data.get`. A missing key gives
  a 404 naming no id (the message says `None`), not a 500.

## Model

| member | source | states |
|---|---|---|
| Table.Insert | management/app.py:47-48 | adding a row under a fresh id adds exactly that key, holding that row; every other row and key is unchanged; size grows by one |
| Table.Replace | management/app.py:87-91 | committing assignments to a loaded row changes only that row; the key set and every other row are unchanged |
| Table.Remove | management/app.py:105-106 | deleting removes exactly one key; every remaining row is unchanged; size drops by one |
| Table.RemoveUndoesInsert | management/app.py:47-48 | deleting the row just inserted under a fresh id gives back the table as it was |
| Table.List | management/app.py:60-61 | `query.all()` projected: one element per stored row, each element the projection of a stored row, every stored row present, ids distinct |
| Table.ReplaySize | management/app.py:40-107 | list completeness: after any applicable sequence of committed writes, N inserts and M removals, the table has exactly N - M more rows |
| Table.ReplayLastWrite | management/app.py:40-107 | after a sequence of committed writes each key holds the row of the last insert or update on it, is gone if that last write was a delete, and is unchanged if no write touched it |
| Table.ReplayOne | management/app.py:40-107 | one committed write: an insert or update leaves its key holding the written row, a delete removes its key, and every other key keeps its row |
| Validation.AnyMatch | reservas/app.py:52 | the `any(t["id"] == x ...)` scan is true iff some fetched record's id equals the candidate; a missing or null candidate matches nothing |
| Validation.Validate | reservas/app.py:48-55 | the check passes iff the fetch succeeded and the id is listed; a failed fetch is a communication failure (500); an unlisted id is a not-found (404) naming the turma id |
| Reservas.Create | reservas/app.py:44-67 | created iff the fetch succeeded, `turma_id` is listed, `data` is present and `sala` non-null; a failed fetch gives 500 and an unlisted id 404 naming it; a listed id with `data` missing or `sala` missing or null gives 500; on any failure the table is unchanged; on success exactly one fresh row is added with `lab` defaulting to False, and the 201 body is id, sala, lab |
| Reservas.Update | reservas/app.py:112-137 | missing id gives 404 and no change; an existing row with `sala` sent as null gives 500 and no change; succeeds iff the row exists, `sala` is not null and, only when `turma_id` is present, the fetch succeeded and lists it; every failure leaves the table unchanged; on success each present key overwrites its column, each absent one keeps its value, other rows are untouched, and the full updated row is echoed |
| Reservas.Delete | reservas/app.py:150-153 | missing id gives 404 and no change; otherwise exactly that row is removed |
| Reservas.List | reservas/app.py:79-83 | every stored reservation once, with all five fields, and nothing else |
| Reservas.UpdateSkipsFetch | reservas/app.py:121-131 | without `turma_id` in the body the outcome does not depend on the fetch (none is made) and the stored `turma_id` is kept |
| Reservas.UpdateIdempotent | reservas/app.py:115-133 | repeating a successful update with the same body leaves the table as the first one did and echoes the same row |
| Reservas.EmptyUpdateIsIdentity | reservas/app.py:112-137 | an update with an empty body succeeds, echoes the stored row and changes nothing |
| Reservas.CreateThenDelete | reservas/app.py:58-67 | deleting a just-created reservation restores the table exactly |
| Atividades.ValidateBoth | atividades/app.py:49-63 | passes iff both fetches succeeded and both ids are listed; either fetch failing gives 500 whatever the ids; then a missing turma is reported before a missing professor |
| Atividades.Create | atividades/app.py:44-73 | created iff both fetches succeeded, both ids are listed, `descricao` is non-null and `nota` is present; error cases as in ValidateBoth; with both ids listed, a missing or null `descricao` or a missing `nota` gives 500; any failure leaves the table unchanged; success adds exactly one fresh row holding the four supplied values and answers 201 with id and descricao |
| Atividades.Delete | atividades/app.py:100-103 | missing id gives 404 and no change; otherwise exactly that row is removed |
| Atividades.List | atividades/app.py:84-88 | every stored activity once, with all five fields, and nothing else |
| Atividades.ValidateBothIsSequential | atividades/app.py:58-61 | once both lists are fetched, the two-reference check is the class check followed by the professor check |
| Atividades.FetchFailureWinsOverMissingClass | atividades/app.py:49-63 | with the class missing from a fetched list but the professor fetch failed, create answers 500, not the 404 a lone class check gives |
| Atividades.CreateThenDelete | atividades/app.py:65-73 | deleting a just-created activity restores the table exactly |
| Management.CreateProfessor | management/app.py:40-49 | created iff `nome` is non-null (NOT NULL column); the new row holds exactly the supplied fields, null when missing; nothing else changes; 201 with id and nome; otherwise 500 and no change |
| Management.UpdateProfessor | management/app.py:85-92 | missing id gives 404 and no change; succeeds iff the row exists and `nome` is not sent as null; a present key overwrites its column (with null too, for nullable columns); an absent key keeps its value; other rows are untouched |
| Management.DeleteProfessor | management/app.py:104-107 | missing id gives 404 and no change; otherwise exactly that row is removed |
| Management.ListProfessores | management/app.py:60-61 | every stored professor once as id, nome, idade, materia, and nothing else |
| Management.CreateTurma | management/app.py:131-135 | created iff `descricao` and `professor_id` are non-null, with no check that the professor exists; `ativo` is the supplied boolean, else True; 201 with id and descricao; otherwise 500 and no change |
| Management.UpdateTurma | management/app.py:164-170 | missing id gives 404 and no change; succeeds iff neither NOT NULL column is sent as null; descricao, professor_id and ativo merge field by field; other rows are untouched |
| Management.DeleteTurma | management/app.py:182-185 | missing id gives 404 and no change; otherwise exactly that row is removed |
| Management.ListTurmas | management/app.py:146-147 | every stored class once with all four fields, and nothing else |
| Management.CreateAluno | management/app.py:207-211 | created iff `nome` is non-null; `turma_id` is stored unchecked; the row holds exactly the supplied fields; 201 with id and nome; otherwise 500 and no change |
| Management.UpdateAluno | management/app.py:252-259 | missing id gives 404 and no change; nome, idade, turma_id and data_nascimento merge field by field, a null nome being refused; other rows are untouched |
| Management.DeleteAluno | management/app.py:276-279 | missing id gives 404 and no change; otherwise exactly that row is removed |
| Management.ListAlunos | management/app.py:222-223 | every stored student once as id, nome, idade, turma_id, and nothing else |
| Management.CreateProfessorThenDelete | management/app.py:40-49 | deleting a just-created professor restores the table exactly and answers 200 |
| Management.CreateTurmaThenDelete | management/app.py:131-135 | deleting a just-created class restores the table exactly and answers 200 |
| Management.CreateAlunoThenDelete | management/app.py:207-211 | deleting a just-created student restores the table exactly and answers 200 |
| Management.ProfessorUpdatesCompose | management/app.py:87-90 | two updates with disjoint keys equal one update carrying both: the merge depends only on which keys are present |
| Management.ProfessorUpdateWithOwnValues | management/app.py:87-91 | sending a professor's stored values back changes nothing |
| Management.ListingsHideColumns | management/app.py:61 | rows that differ only in `observacoes` (professors) or `data_nascimento` (students) list alike |
| Management.CreateThenUpdateAge | management/app.py:40-92 | a professor created with only a name and then updated with only an age keeps the name, gains the age, and other columns stay null |
| Integration.ListedIffStored | management/app.py:146-147 | an id is found in a list Management returns (classes, and likewise professors at management/app.py:60-61) iff the table stores a row under it |
| Integration.ReservationAgainstManagement | reservas/app.py:48-67 | with a well-formed body, a reservation is created iff its turma is stored in Management; otherwise the 404 names the id and nothing is added |
| Integration.ActivityAgainstManagement | atividades/app.py:49-73 | with a well-formed body, an activity is created iff both its turma and its professor are stored in Management; a missing turma is reported ahead of a missing professor |
| Integration.DeletedTurmaGoesStale | reservas/app.py:48-67 | once Management deletes a class, a new reservation naming it is refused, while an existing reservation naming it keeps its `turma_id` |

Row shapes and column rules come from the three `models.py` files, and the
datatypes follow them:
- `Reserva`: reservas/models.py:5-11.
- `Atividade`: atividades/models.py:5-10.
- `Professor`: management/models.py:5-10.
- `Turma`: management/models.py:12-16.
- `Aluno`: management/models.py:18-23.

A NOT NULL column is a non-`Option` field, and a nullable column an
`Option`. A write that would put `null` in a NOT NULL column is the
`Rejected` path of the handler that writes it.

For `Turma.ativo`, a create with `"ativo": null` still stores True. The
mapper leaves a None attribute out of the INSERT, so the column default
applies. An update with `null` stores NULL.

## Left out

- HTTP routing, the Swagger docstrings, `app.run` and port binding are framework glue.
- `MANAGEMENT_URL` and the `requests` calls themselves are out. Each fetch is a
  `Fetch` parameter, so timeouts, blocking and the exact exception text are not modelled.
- Error message strings are out. A response keeps only the error kind and, for a
  missing reference, the entity kind and the id.
- The id the storage engine picks for a new row is a parameter `id`, required
  to be absent from the table. SQLite may reuse a deleted id, so only freshness
  is modelled.
- Sessions, commit and rollback are not modelled. A handler that fails commits
  nothing, and the model returns the table unchanged.
- List order is not modelled: the queries have no ORDER BY. `Table.List` states
  what is listed, not in which order.
- Bodies that are not JSON are out. In the Reservation and Activity services,
  `request.get_json()` is used without `or {}`, so a `null` body raises on `data.get`.
- JSON type coercions are out: `int("3")`, `bool("no")`, a `true` that equals
  id 1 in Python. Each field is modelled with the Dafny type matching its
  column's kind (`int`, `bool`, `string`, `real`), not the column's width.
- Integer values outside SQLite's signed 64-bit range are not modelled, because
  Dafny's `int` is unbounded. Such an id in a path (`get_or_404`) or such a body
  value (`idade`, `professor_id`, `turma_id`, `sala`) makes the driver raise
  and the handler answer 500, where the model answers 404 or succeeds.
- Reserva `num_sala` is a `String(50)` column storing `int(sala)`. The model
  keeps it as an `int` and ignores the text conversion on read-back.
- Reserva `num_sala` and `lab` are nullable columns, but both handlers always
  write a value (`int(...)`, `bool(...)`). The model types them non-null. A NULL
  could only come from outside these handlers.
- Activity `nota` is a float. It is modelled as an opaque `real` with no arithmetic.
- Concurrency between requests is out: each request is one atomic step.
