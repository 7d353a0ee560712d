/**
 * The persistence collaborator behind `EventRepository`: a table of events keyed by an
 * identity column. Rows are a map from id to entity; `nextId` is the identity counter.
 */
module Repository {
  import opened Wrappers
  import opened EventModel

  datatype Store = Store(rows: map<int, Event>, nextId: int)

  /** Ids are positive, below the counter, and every row records its own key as its id. */
  predicate Valid(s: Store) {
    && s.nextId >= 1
    && forall k :: k in s.rows ==> 1 <= k < s.nextId && s.rows[k].id == Some(k)
  }

  const Empty := Store(map[], 1)

  lemma EmptyIsValid()
    ensures Valid(Empty)
  {
  }

  /**
   * `save`: an entity without id (or with an id that has no row) is inserted under the
   * next identity value; an entity whose id has a row overwrites that row. The stored
   * entity is returned.
   */
  function Save(s: Store, e: Event): (res: (Store, Event))
    ensures res.1.id.Some? && res.1.id.value in res.0.rows && res.0.rows[res.1.id.value] == res.1
    ensures MutableFields(res.1) == MutableFields(e)
    ensures res.0.rows.Keys == s.rows.Keys + {res.1.id.value}
    ensures forall k :: k in s.rows && k != res.1.id.value ==> res.0.rows[k] == s.rows[k]
    ensures Valid(s) ==> Valid(res.0)
    ensures e.id.Some? && e.id.value in s.rows ==> res.1 == e && res.0.nextId == s.nextId
    ensures Valid(s) && (e.id.None? || e.id.value !in s.rows) ==> res.1.id.value !in s.rows
  {
    if e.id.Some? && e.id.value in s.rows then
      (s.(rows := s.rows[e.id.value := e]), e)
    else
      var id := s.nextId;
      var saved := e.(id := Some(id));
      (Store(s.rows[id := saved], s.nextId + 1), saved)
  }

  /** Every row records its own key as its id. */
  predicate IdsMatchKeys(rows: map<int, Event>) {
    forall k :: k in rows ==> rows[k].id == Some(k)
  }

  /** The rows with ids in [lo, hi), in ascending id order. */
  function Collect(rows: map<int, Event>, lo: int, hi: int): (r: seq<Event>)
    requires IdsMatchKeys(rows)
    ensures forall i :: 0 <= i < |r| ==>
              && r[i].id.Some? && lo <= r[i].id.value < hi
              && r[i].id.value in rows && rows[r[i].id.value] == r[i]
    ensures forall k :: k in rows && lo <= k < hi ==> rows[k] in r
    ensures forall i, j :: 0 <= i < j < |r| ==> r[i].id.value < r[j].id.value
    decreases hi - lo
  {
    if lo >= hi then []
    else
      var rest := Collect(rows, lo + 1, hi);
      if lo in rows then [rows[lo]] + rest else rest
  }

  /** The stored ids in [lo, hi). */
  function KeysIn(rows: map<int, Event>, lo: int, hi: int): set<int> {
    set k | k in rows && lo <= k < hi
  }

  /** Counting the stored ids in [lo, hi) from the low end. */
  lemma KeysInStep(rows: map<int, Event>, lo: int, hi: int)
    ensures lo >= hi ==> |KeysIn(rows, lo, hi)| == 0
    ensures lo < hi ==> |KeysIn(rows, lo, hi)| == (if lo in rows then 1 else 0) + |KeysIn(rows, lo + 1, hi)|
  {
    var keys := KeysIn(rows, lo, hi);
    if lo >= hi {
      assert keys == {} by {
        forall k | k in keys ensures false { }
      }
    } else {
      var rest := KeysIn(rows, lo + 1, hi);
      assert lo !in rest;
      if lo in rows {
        assert keys == rest + {lo};
      } else {
        assert keys == rest;
      }
    }
  }

  /** `Collect` yields one entity per stored id in range, so its length is their number. */
  lemma {:induction false} CollectCount(rows: map<int, Event>, lo: int, hi: int)
    requires IdsMatchKeys(rows)
    ensures |Collect(rows, lo, hi)| == |KeysIn(rows, lo, hi)|
    decreases hi - lo
  {
    KeysInStep(rows, lo, hi);
    if lo < hi {
      CollectCount(rows, lo + 1, hi);
    }
  }

  /** A valid store's ids all lie in [1, nextId). */
  lemma StoredKeysInRange(s: Store)
    requires Valid(s)
    ensures KeysIn(s.rows, 1, s.nextId) == s.rows.Keys
    ensures |KeysIn(s.rows, 1, s.nextId)| == |s.rows|
  {
    assert |s.rows.Keys| == |s.rows|;
  }

  /** `findAll`: every stored entity, once each, in ascending id order; empty for an empty store. */
  function FindAll(s: Store): (r: seq<Event>)
    requires Valid(s)
    ensures forall e :: e in r <==> e in s.rows.Values
    ensures forall i, j :: 0 <= i < j < |r| ==> r[i].id.Some? && r[j].id.Some? && r[i].id.value < r[j].id.value
    ensures r == [] <==> s.rows == map[]
    ensures |r| == |s.rows|
  {
    var r := Collect(s.rows, 1, s.nextId);
    CollectCount(s.rows, 1, s.nextId);
    StoredKeysInRange(s);
    assert forall e :: e in s.rows.Values ==> e in r by {
      forall e | e in s.rows.Values
        ensures e in r
      {
        var k :| k in s.rows && s.rows[k] == e;
      }
    }
    assert s.rows != map[] ==> r != [] by {
      if s.rows != map[] {
        var k :| k in s.rows;
        assert s.rows[k] in r;
      }
    }
    assert r != [] ==> s.rows != map[] by {
      if r != [] {
        assert r[0].id.value in s.rows;
      }
    }
    r
  }

  /** `findById`. */
  function FindById(s: Store, id: int): (r: Option<Event>)
    ensures r.Some? <==> id in s.rows
    ensures r.Some? ==> r.value == s.rows[id]
  {
    if id in s.rows then Some(s.rows[id]) else None
  }

  /** `delete(entity)`: removes the row of the entity's id; an entity without id is ignored. */
  function Delete(s: Store, e: Event): (s': Store)
    ensures s'.nextId == s.nextId
    ensures e.id.Some? ==> s'.rows.Keys == s.rows.Keys - {e.id.value}
    ensures e.id.None? ==> s' == s
    ensures forall k :: k in s'.rows ==> k in s.rows && s'.rows[k] == s.rows[k]
    ensures Valid(s) ==> Valid(s')
  {
    if e.id.Some? then s.(rows := s.rows - {e.id.value}) else s
  }
}
