/** The connection table: one record per live connection, keyed by connection
    id, and the room_mode index over it. */
module Store {
  import opened Protocol
  import opened Admission

  /** A connection's record: its room and its mode. Also the key of the
      room_mode index, which looks records up by both fields together. */
  datatype Entry = Entry(roomId: string, mode: int)

  type Table = map<ConnId, Entry>

  /** The room_mode index query: every connection recorded under `key`. */
  function Members(t: Table, key: Entry): set<ConnId> {
    set id | id in t && t[id] == key
  }

  /** Every record has a known mode, and no room+mode holds more members than
      its mode's capacity. */
  ghost predicate WithinCapacity(t: Table) {
    forall id :: id in t ==> 1 <= t[id].mode <= 6 && |Members(t, t[id])| <= Capacity(t[id].mode)
  }

  /** The state a registry keeps between requests: within capacity, within the
      global ceiling, and every room id of the room id form. */
  ghost predicate Consistent(t: Table, maxConnections: int) {
    WithinCapacity(t) && |t| <= maxConnections &&
    forall id :: id in t ==> IsRoomId(t[id].roomId)
  }

  lemma {:induction false} SubsetCardinality(a: set<ConnId>, b: set<ConnId>)
    requires a <= b
    ensures |a| <= |b|
  {
    if a != {} {
      var x :| x in a;
      SubsetCardinality(a - {x}, b - {x});
    }
  }

  /** Writing `c ↦ e` adds `c` to the members of `e` and takes it out of every
      other room+mode. */
  lemma MembersAfterPut(t: Table, c: ConnId, e: Entry, key: Entry)
    ensures Members(t[c := e], key) == if e == key then Members(t, key) + {c} else Members(t, key) - {c}
  {
  }

  /** Deleting a set of ids takes exactly those ids out of every room+mode. */
  lemma MembersAfterRemove(t: Table, gone: set<ConnId>, key: Entry)
    ensures Members(t - gone, key) == Members(t, key) - gone
  {
  }

  /** Writing a record whose room+mode has a free seat keeps every room+mode
      within capacity, whether the id is new or was recorded elsewhere. */
  lemma PutKeepsWithinCapacity(t: Table, c: ConnId, e: Entry)
    requires WithinCapacity(t)
    requires 1 <= e.mode <= 6 && |Members(t, e)| < Capacity(e.mode)
    ensures WithinCapacity(t[c := e])
  {
    var t' := t[c := e];
    forall id | id in t'
      ensures 1 <= t'[id].mode <= 6 && |Members(t', t'[id])| <= Capacity(t'[id].mode)
    {
      var key := t'[id];
      MembersAfterPut(t, c, e, key);
      if key == e {
        assert |Members(t, key) + {c}| <= |Members(t, key)| + 1;
      } else {
        assert id in t && t[id] == key;
        SubsetCardinality(Members(t', key), Members(t, key));
      }
    }
  }

  /** Deleting records never pushes a room+mode over capacity. */
  lemma RemoveKeepsWithinCapacity(t: Table, gone: set<ConnId>)
    requires WithinCapacity(t)
    ensures WithinCapacity(t - gone)
  {
    var t' := t - gone;
    forall id | id in t'
      ensures 1 <= t'[id].mode <= 6 && |Members(t', t'[id])| <= Capacity(t'[id].mode)
    {
      MembersAfterRemove(t, gone, t'[id]);
      SubsetCardinality(Members(t', t'[id]), Members(t, t'[id]));
    }
  }

  /** Deleting records keeps the registry consistent. */
  lemma RemoveKeepsConsistent(t: Table, maxConnections: int, gone: set<ConnId>)
    requires Consistent(t, maxConnections)
    ensures Consistent(t - gone, maxConnections)
  {
    RemoveKeepsWithinCapacity(t, gone);
    SubsetCardinality((t - gone).Keys, t.Keys);
  }
}
