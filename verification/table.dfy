/** One table of a service's storage, keyed by its integer primary key. The
    key being the map's domain is what makes ids unique within a table. */
module Table {

  import opened Common

  /** `db.session.add(row)` + `commit()` for a row under an id the engine chose. */
  function Insert<R>(s: map<int, R>, id: int, row: R): (s': map<int, R>)
    requires id !in s
    ensures s'.Keys == s.Keys + {id}
    ensures |s'| == |s| + 1
    ensures s'[id] == row
    ensures forall k :: k in s ==> s'[k] == s[k]
  {
    s[id := row]
  }

  /** Attribute assignments on a loaded row + `commit()`. */
  function Replace<R>(s: map<int, R>, id: int, row: R): (s': map<int, R>)
    requires id in s
    ensures s'.Keys == s.Keys
    ensures |s'| == |s|
    ensures s'[id] == row
    ensures forall k :: k in s && k != id ==> s'[k] == s[k]
  {
    s[id := row]
  }

  /** `db.session.delete(row)` + `commit()`. */
  function Remove<R>(s: map<int, R>, id: int): (s': map<int, R>)
    requires id in s
    ensures s'.Keys == s.Keys - {id}
    ensures |s'| == |s| - 1
    ensures forall k :: k in s' ==> s'[k] == s[k]
  {
    s - {id}
  }

  /** Removing a row just inserted under a fresh id restores the table. */
  lemma RemoveUndoesInsert<R>(s: map<int, R>, id: int, row: R)
    requires id !in s
    ensures Remove(Insert(s, id, row), id) == s
  {
  }

  ghost predicate Distinct(ids: seq<int>) {
    forall i, j :: 0 <= i < j < |ids| ==> ids[i] != ids[j]
  }

  /** `out` shows every row of `s` through `view`, and nothing else. */
  ghost predicate Lists<R, V>(out: seq<V>, s: map<int, R>, view: (int, R) -> V) {
    && |out| == |s|
    && (forall k :: k in s ==> view(k, s[k]) in out)
    && (forall i :: 0 <= i < |out| ==> exists k :: k in s && out[i] == view(k, s[k]))
  }

  /** `Model.query.all()` projected row by row. The order the engine returns
      rows in is not modelled: `ids` reports the order this run chose. */
  method List<R, V>(s: map<int, R>, view: (int, R) -> V) returns (out: seq<V>, ids: seq<int>)
    ensures |ids| == |out| == |s|
    ensures Distinct(ids)
    ensures forall i :: 0 <= i < |ids| ==> ids[i] in s && out[i] == view(ids[i], s[ids[i]])
    ensures forall k :: k in s ==> k in ids
    ensures Lists(out, s, view)
  {
    var rest := s.Keys;
    out, ids := [], [];
    while rest != {}
      invariant rest <= s.Keys
      invariant |ids| == |out|
      invariant |ids| + |rest| == |s.Keys|
      invariant Distinct(ids)
      invariant forall i :: 0 <= i < |ids| ==> ids[i] in s && ids[i] !in rest && out[i] == view(ids[i], s[ids[i]])
      invariant forall k :: k in s ==> k in rest || k in ids
      decreases rest
    {
      var k := PickKey(rest);
      out, ids := out + [view(k, s[k])], ids + [k];
      rest := rest - {k};
    }
    forall k | k in s
      ensures view(k, s[k]) in out
    {
      var i :| 0 <= i < |ids| && ids[i] == k;
      assert out[i] == view(k, s[k]);
    }
    forall i | 0 <= i < |out|
      ensures exists k :: k in s && out[i] == view(k, s[k])
    {
      assert ids[i] in s && out[i] == view(ids[i], s[ids[i]]);
    }
  }

  /** Some key of a non-empty key set. */
  method PickKey(keys: set<int>) returns (k: int)
    requires keys != {}
    ensures k in keys
  {
    // With contradictory-assumption checking on, Dafny cannot show a witness
    // for the such-that below from `keys != {}` alone; this branch supplies it.
    if forall x :: x !in keys {
      assert false;
    }
    k :| k in keys;
  }

  /** A committed write, as seen from the table. */
  datatype Event<R> = Inserted(id: int, row: R) | Replaced(id: int, row: R) | Removed(id: int)

  /** Every event of `evs` is one its table state admits: inserts use fresh
      ids, replacements and removals existing ones. */
  ghost predicate Applicable<R>(s: map<int, R>, evs: seq<Event<R>>)
    decreases |evs|
  {
    if evs == [] then true
    else match evs[0]
      case Inserted(id, row) => id !in s && Applicable(s[id := row], evs[1..])
      case Replaced(id, row) => id in s && Applicable(s[id := row], evs[1..])
      case Removed(id) => id in s && Applicable(s - {id}, evs[1..])
  }

  function Replay<R>(s: map<int, R>, evs: seq<Event<R>>): map<int, R>
    requires Applicable(s, evs)
    decreases |evs|
  {
    if evs == [] then s
    else match evs[0]
      case Inserted(id, row) => Replay(Insert(s, id, row), evs[1..])
      case Replaced(id, row) => Replay(Replace(s, id, row), evs[1..])
      case Removed(id) => Replay(Remove(s, id), evs[1..])
  }

  function Inserts<R>(evs: seq<Event<R>>): nat {
    if evs == [] then 0 else (if evs[0].Inserted? then 1 else 0) + Inserts(evs[1..])
  }

  function Removes<R>(evs: seq<Event<R>>): nat {
    if evs == [] then 0 else (if evs[0].Removed? then 1 else 0) + Removes(evs[1..])
  }

  /** List completeness: after N inserts and M removals the table (and so
      every listing of it) holds exactly N - M more rows than it started with. */
  lemma {:induction false} ReplaySize<R>(s: map<int, R>, evs: seq<Event<R>>)
    requires Applicable(s, evs)
    ensures |Replay(s, evs)| == |s| + Inserts(evs) - Removes(evs)
    decreases |evs|
  {
    if evs != [] {
      match evs[0]
      case Inserted(id, row) => ReplaySize(Insert(s, id, row), evs[1..]);
      case Replaced(id, row) => ReplaySize(Replace(s, id, row), evs[1..]);
      case Removed(id) => ReplaySize(Remove(s, id), evs[1..]);
    }
  }

  function Touches<R>(e: Event<R>, k: int): bool {
    e.id == k
  }

  /** The last event of `evs` that concerns key `k`, if any. */
  function LastTouch<R>(evs: seq<Event<R>>, k: int): Option<Event<R>> {
    if evs == [] then None
    else if Touches(evs[|evs| - 1], k) then Some(evs[|evs| - 1])
    else LastTouch(evs[..|evs| - 1], k)
  }

  /** Each key ends up holding what the last write to it left there; keys no
      event touched keep their starting state. */
  lemma {:induction false} ReplayLastWrite<R>(s: map<int, R>, evs: seq<Event<R>>, k: int)
    requires Applicable(s, evs)
    ensures LastTouch(evs, k).None? ==> (k in Replay(s, evs) <==> k in s)
    ensures LastTouch(evs, k).None? && k in s ==> Replay(s, evs)[k] == s[k]
    ensures LastTouch(evs, k).Some? && LastTouch(evs, k).value.Removed? ==> k !in Replay(s, evs)
    ensures LastTouch(evs, k).Some? && !LastTouch(evs, k).value.Removed? ==>
              k in Replay(s, evs) && Replay(s, evs)[k] == LastTouch(evs, k).value.row
    decreases |evs|
  {
    if evs != [] {
      var n := |evs| - 1;
      assert evs[..n] + [evs[n]] == evs;
      ReplaySplit(s, evs[..n], evs[n]);
      ReplayLastWrite(s, evs[..n], k);
      ReplayOne(Replay(s, evs[..n]), evs[n], k);
    }
  }

  /** What a single event does to one key. */
  lemma ReplayOne<R>(t: map<int, R>, e: Event<R>, k: int)
    requires Applicable(t, [e])
    ensures !Touches(e, k) ==> (k in Replay(t, [e]) <==> k in t)
    ensures !Touches(e, k) && k in t ==> Replay(t, [e])[k] == t[k]
    ensures Touches(e, k) && e.Removed? ==> k !in Replay(t, [e])
    ensures Touches(e, k) && !e.Removed? ==> k in Replay(t, [e]) && Replay(t, [e])[k] == e.row
  {
  }

  /** Replaying a trace one more event at a time. */
  lemma {:induction false} ReplaySplit<R>(s: map<int, R>, evs: seq<Event<R>>, e: Event<R>)
    requires Applicable(s, evs + [e])
    ensures Applicable(s, evs)
    ensures var t := Replay(s, evs);
      && Applicable(t, [e])
      && Replay(s, evs + [e]) == Replay(t, [e])
    decreases |evs|
  {
    if evs == [] {
      assert evs + [e] == [e];
    } else {
      assert (evs + [e])[0] == evs[0];
      assert (evs + [e])[1..] == evs[1..] + [e];
      match evs[0]
      case Inserted(id, row) => ReplaySplit(s[id := row], evs[1..], e);
      case Replaced(id, row) => ReplaySplit(s[id := row], evs[1..], e);
      case Removed(id) => ReplaySplit(s - {id}, evs[1..], e);
    }
  }
}
