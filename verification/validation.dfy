/** The referential check the Reservation and Activity services run before a
    write: fetch a Management collection and look the candidate id up in it. */
module Validation {

  import opened Common

  /** One element of the JSON list a Management list endpoint returns; the
      check reads only its `id`. */
  datatype Remote = Remote(id: int)

  /** The outcome of `requests.get(url)`, `raise_for_status()` and `.json()`:
      any `RequestException` (no connection, non-2xx status, unparsable body)
      is `Unreachable`. */
  datatype Fetch = Unreachable | Received(records: seq<Remote>)

  /** The decision rule on its own: the candidate equals some record's id.
      A candidate read from a missing or `null` key matches nothing. */
  ghost predicate Listed(records: seq<Remote>, id: Option<int>) {
    exists i :: 0 <= i < |records| && Some(records[i].id) == id
  }

  /** `any(t["id"] == candidate for t in records)`, scanning left to right. */
  function AnyMatch(records: seq<Remote>, id: Option<int>): (found: bool)
    ensures found <==> Listed(records, id)
    ensures found ==> id.Some?
  {
    if records == [] then false
    else if Some(records[0].id) == id then true
    else
      var found := AnyMatch(records[1..], id);
      assert found ==> exists i :: 0 <= i < |records[1..]| && Some(records[1..][i].id) == id;
      assert forall i :: 1 <= i < |records| ==> records[i] == records[1..][i - 1];
      found
  }

  /** The outcome of a single check. */
  datatype Verdict = Pass | Fail(error: Error)

  /** One fetch followed by one lookup, as the Reservation service runs it. */
  function Validate(fetch: Fetch, ref: Ref, id: Option<int>): (v: Verdict)
    ensures v.Pass? <==> fetch.Received? && Listed(fetch.records, id)
    ensures v.Pass? ==> id.Some?
    ensures fetch.Unreachable? ==> v == Fail(CommFailure)
    ensures fetch.Received? && !Listed(fetch.records, id) ==> v == Fail(RefNotFound(ref, id))
  {
    match fetch
    case Unreachable => Fail(CommFailure)
    case Received(records) =>
      if AnyMatch(records, id) then Pass else Fail(RefNotFound(ref, id))
  }
}
