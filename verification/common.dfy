/** Vocabulary shared by the three services: optional values, the keys of a
    JSON request body, the errors a handler reports, and the pair of a
    response and the table it leaves behind. */
module Common {

  datatype Option<+T> = None | Some(value: T)

  /** One key of a JSON request body: missing, present with `null`, or
      present with a value. Python's dictionary accessors read it three ways. */
  datatype Field<+T> = Absent | Null | Given(value: T) {

    /** `k in data` */
    predicate Present() {
      !Absent?
    }

    /** `data.get(k)`: a missing key and a `null` both read as None. */
    function Get(): Option<T> {
      if Given? then Some(value) else None
    }

    /** `data.get(k, prior)`: a present key wins, even when it holds `null`. */
    function GetOr(prior: Option<T>): Option<T> {
      match this
      case Absent => prior
      case Null => None
      case Given(v) => Some(v)
    }
  }

  /** The field-by-field merge rule of a partial update, stated on its own:
      an absent key keeps the prior value, a present key replaces it. */
  ghost predicate Merged<T>(f: Field<T>, prior: Option<T>, now: Option<T>) {
    && (f.Absent? ==> now == prior)
    && (f.Present() ==> now == f.Get())
  }

  /** Which Management collection a reference points into. */
  datatype Ref = TurmaRef | ProfessorRef

  datatype Error =
    | Missing                                 // the local id is not in the table (`get_or_404`)
    | RefNotFound(ref: Ref, id: Option<int>)  // the referenced id is not in the fetched list
    | CommFailure                             // the fetch raised or returned a non-2xx status
    | Rejected                                // an exception the handler does not catch: a
                                              // missing key, int(None), or a NOT NULL column
  {
    function Status(): int {
      match this
      case Missing => 404
      case RefNotFound(_, _) => 404
      case CommFailure => 500
      case Rejected => 500
    }
  }

  datatype Response<+B> = Created(body: B) | Done(body: B) | Failed(error: Error) {
    function Status(): int {
      match this
      case Created(_) => 201
      case Done(_) => 200
      case Failed(e) => e.Status()
    }
  }

  /** What a request handler returns together with the table after the request. */
  datatype Step<+B, R> = Step(response: Response<B>, store: map<int, R>)
}
