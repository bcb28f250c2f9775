/**
 * Stored raw packets: payload-keyed deduplication on insert, links to decrypted messages, pruning.
 */
module RawPackets {
  import opened Common
  import opened PathCodec
  import opened FirstOfKey

  // ------------------------------------------------------------ the table

  /** One call of create. */
  datatype Arrival = Arrival(timestamp: int, data: seq<byte>)

  /** A stored packet; the digest type is left open. */
  datatype Row<D> = Row(id: nat, arrival: Arrival, hash: D, messageId: Option<nat>)

  ghost predicate SortedById<D>(rows: seq<Row<D>>) {
    forall i, j :: 0 <= i < j < |rows| ==> rows[i].id < rows[j].id
  }

  /** The unique index on the hash. */
  ghost predicate UniqueHashes<D>(rows: seq<Row<D>>) {
    forall i, j :: 0 <= i < j < |rows| ==> rows[i].hash != rows[j].hash
  }

  function Arrivals<D>(rows: seq<Row<D>>): seq<Arrival> {
    if rows == [] then [] else Arrivals(rows[..|rows| - 1]) + [rows[|rows| - 1].arrival]
  }

  /** WHERE: the rows that satisfy a predicate, in table order. */
  function Keep<D>(rows: seq<Row<D>>, keeps: Row<D> -> bool): seq<Row<D>> {
    if rows == [] then []
    else
      var before := Keep(rows[..|rows| - 1], keeps);
      if keeps(rows[|rows| - 1]) then before + [rows[|rows| - 1]] else before
  }

  lemma {:induction false} KeepMembers<D>(rows: seq<Row<D>>, keeps: Row<D> -> bool)
    ensures forall i :: 0 <= i < |Keep(rows, keeps)| ==> Keep(rows, keeps)[i] in rows && keeps(Keep(rows, keeps)[i])
    ensures forall i :: 0 <= i < |rows| && keeps(rows[i]) ==> rows[i] in Keep(rows, keeps)
  {
    if rows != [] {
      var init := rows[..|rows| - 1];
      KeepMembers(init, keeps);
      assert rows == init + [rows[|rows| - 1]];
      assert forall i :: 0 <= i < |init| ==> init[i] == rows[i];
    }
  }

  /** Each kept row is an earlier row of the table than the rows kept after it. */
  lemma {:induction false} KeepPositions<D>(rows: seq<Row<D>>, keeps: Row<D> -> bool, i: nat) returns (j: nat)
    requires i < |Keep(rows, keeps)|
    ensures j < |rows| && rows[j] == Keep(rows, keeps)[i]
  {
    var init := rows[..|rows| - 1];
    if i < |Keep(init, keeps)| {
      j := KeepPositions(init, keeps, i);
    } else {
      j := |rows| - 1;
    }
  }

  lemma {:induction false} KeepOrder<D>(rows: seq<Row<D>>, keeps: Row<D> -> bool)
    requires SortedById(rows)
    ensures SortedById(Keep(rows, keeps))
    ensures UniqueHashes(rows) ==> UniqueHashes(Keep(rows, keeps))
  {
    if rows != [] {
      var init := rows[..|rows| - 1];
      var last := rows[|rows| - 1];
      var before := Keep(init, keeps);
      KeepOrder(init, keeps);
      forall i | 0 <= i < |before|
        ensures before[i].id < last.id && (UniqueHashes(rows) ==> before[i].hash != last.hash)
      {
        var j := KeepPositions(init, keeps, i);
        assert rows[j] == before[i];
      }
    }
  }

  /** Under the unique index, a kept row's hash belongs to no deleted row. */
  lemma KeptHashes<D>(rows: seq<Row<D>>, keeps: Row<D> -> bool)
    requires UniqueHashes(rows)
    ensures var left := Keep(rows, keeps);
            var keys := set i | 0 <= i < |left| :: left[i].hash;
            forall i :: 0 <= i < |rows| ==> (rows[i].hash in keys <==> keeps(rows[i]))
  {
    var left := Keep(rows, keeps);
    var keys := set i | 0 <= i < |left| :: left[i].hash;
    KeepMembers(rows, keeps);
    forall i | 0 <= i < |rows| ensures rows[i].hash in keys <==> keeps(rows[i]) {
      if rows[i].hash in keys {
        var j :| 0 <= j < |left| && left[j].hash == rows[i].hash;
        var n :| 0 <= n < |rows| && rows[n] == left[j];
        assert n == i;
      }
    }
  }

  lemma ArrivalsSnoc<D>(rows: seq<Row<D>>, r: Row<D>)
    ensures Arrivals(rows + [r]) == Arrivals(rows) + [r.arrival]
  {
    assert (rows + [r])[..|rows|] == rows;
  }

  lemma {:induction false} SameArrivals<D>(a: seq<Row<D>>, b: seq<Row<D>>)
    requires |a| == |b| && forall i :: 0 <= i < |a| ==> a[i].arrival == b[i].arrival
    ensures Arrivals(a) == Arrivals(b)
  {
    if a != [] {
      SameArrivals(a[..|a| - 1], b[..|b| - 1]);
    }
  }

  /** The keys of the stored arrivals are the stored hashes. */
  lemma {:induction false} HashesAreKeys<D>(key: Arrival -> D, rows: seq<Row<D>>)
    requires forall i :: 0 <= i < |rows| ==> rows[i].hash == key(rows[i].arrival)
    ensures KeysOf(key, Arrivals(rows)) == Hashes(rows)
  {
    if rows != [] {
      HashesAreKeys(key, rows[..|rows| - 1]);
      KeysSnoc(key, Arrivals(rows[..|rows| - 1]), rows[|rows| - 1].arrival);
    }
  }

  ghost function Hashes<D>(rows: seq<Row<D>>): set<D> {
    if rows == [] then {} else Hashes(rows[..|rows| - 1]) + {rows[|rows| - 1].hash}
  }

  lemma {:induction false} HashesOfRows<D>(rows: seq<Row<D>>)
    ensures forall i :: 0 <= i < |rows| ==> rows[i].hash in Hashes(rows)
    ensures forall d :: d in Hashes(rows) ==> exists i :: 0 <= i < |rows| && rows[i].hash == d
  {
    if rows != [] {
      HashesOfRows(rows[..|rows| - 1]);
    }
  }

  /** Deleting rows deletes keys, when no other row shares a deleted row's key. */
  lemma {:induction false} KeptArrivals<D>(key: Arrival -> D, rows: seq<Row<D>>, keeps: Row<D> -> bool, keys: set<D>)
    requires forall i :: 0 <= i < |rows| ==>
               rows[i].hash == key(rows[i].arrival) && (rows[i].hash in keys <==> keeps(rows[i]))
    ensures Arrivals(Keep(rows, keeps)) == WithKeys(key, Arrivals(rows), keys)
  {
    if rows != [] {
      var init := rows[..|rows| - 1];
      var last := rows[|rows| - 1];
      KeptArrivals(key, init, keeps, keys);
      ArrivalsSnoc(Keep(init, keeps), last);
      WithKeysSnoc(key, Arrivals(init), last.arrival, keys);
    }
  }

  /** The table holds the first arrival of each dedup key, in arrival order, hashed right and numbered upwards. */
  ghost predicate Stored<D>(key: Arrival -> D, rows: seq<Row<D>>, nextId: nat, arrivals: seq<Arrival>) {
    && Arrivals(rows) == KeepFirst(key, arrivals)
    && SortedById(rows)
    && UniqueHashes(rows)
    && (forall i :: 0 <= i < |rows| ==> rows[i].hash == key(rows[i].arrival) && rows[i].id < nextId)
  }

  /** The stored hashes are the keys that have arrived. */
  lemma StoredKeys<D>(key: Arrival -> D, rows: seq<Row<D>>, nextId: nat, arrivals: seq<Arrival>)
    requires Stored(key, rows, nextId, arrivals)
    ensures Hashes(rows) == KeysOf(key, arrivals)
  {
    KeptKeys(key, arrivals);
    HashesAreKeys(key, rows);
  }

  lemma NewRowLast<D>(key: Arrival -> D, rows: seq<Row<D>>, nextId: nat, row: Row<D>)
    requires SortedById(rows) && UniqueHashes(rows)
    requires forall i :: 0 <= i < |rows| ==> rows[i].hash == key(rows[i].arrival) && rows[i].id < nextId
    requires row.id == nextId && row.hash == key(row.arrival) && row.hash !in Hashes(rows)
    ensures var all := rows + [row];
            && SortedById(all) && UniqueHashes(all)
            && forall i :: 0 <= i < |all| ==> all[i].hash == key(all[i].arrival) && all[i].id < nextId + 1
  {
    HashesOfRows(rows);
  }

  /** One more arrival: a known key leaves the table alone, a new one is appended. */
  lemma ArriveKeepsStored<D>(key: Arrival -> D, rows: seq<Row<D>>, nextId: nat, arrivals: seq<Arrival>, row: Row<D>)
    requires Stored(key, rows, nextId, arrivals)
    requires row.id == nextId && row.hash == key(row.arrival)
    ensures Hashes(rows) == KeysOf(key, arrivals)
    ensures row.hash in Hashes(rows) ==> Stored(key, rows, nextId, arrivals + [row.arrival])
    ensures row.hash !in Hashes(rows) ==> Stored(key, rows + [row], nextId + 1, arrivals + [row.arrival])
  {
    StoredKeys(key, rows, nextId, arrivals);
    KeysSnoc(key, arrivals, row.arrival);
    if row.hash !in Hashes(rows) {
      ArrivalsSnoc(rows, row);
      NewRowLast(key, rows, nextId, row);
    }
  }

  /** A packet heard again by another route is a duplicate: once the packet has arrived, no rerouted print of it brings
      a dedup key that is not there, whatever the hash. */
  lemma RepeatByAnotherRouteIsKnown<D>(sha256: seq<byte> -> D, arrivals: seq<Arrival>, a: Arrival, timestamp: int,
                                       transport: seq<byte>, pathByte: byte, path: seq<byte>)
    requires a in arrivals && ParseEnvelope(a.data).Some?
    requires var e := ParseEnvelope(a.data).value; WellFormed(e.header, transport, pathByte, path, e.payload)
    ensures var e := ParseEnvelope(a.data).value;
            var key := (x: Arrival) => sha256(HashedPart(x.data));
            var rerouted := Arrival(timestamp, Print(e.header, transport, pathByte, path, e.payload));
            && key(rerouted) in KeysOf(key, arrivals)
            && KeepFirst(key, arrivals + [rerouted]) == KeepFirst(key, arrivals)
  {
    var e := ParseEnvelope(a.data).value;
    var key := (x: Arrival) => sha256(HashedPart(x.data));
    RerouteKeepsIdentity(a.data, transport, pathByte, path);
    KeysOfAll(key, arrivals);
    KeysSnoc(key, arrivals, Arrival(timestamp, Print(e.header, transport, pathByte, path, e.payload)));
  }

  class RawPacketRepository<D(==)> {
    const sha256: seq<byte> -> D
    var rows: seq<Row<D>>
    var nextId: nat
    // every packet offered so far whose dedup key has not been deleted since
    ghost var arrivals: seq<Arrival>

    ghost function DedupKey(): Arrival -> D {
      (a: Arrival) => sha256(HashedPart(a.data))
    }

    /** The table holds the first arrival of each dedup key, in arrival order, hashed right and numbered upwards. */
    ghost predicate Valid()
      reads this
    {
      Stored(DedupKey(), rows, nextId, arrivals)
    }

    constructor (sha256: seq<byte> -> D)
      ensures Valid() && rows == [] && arrivals == [] && this.sha256 == sha256
    {
      this.sha256 := sha256;
      rows, nextId, arrivals := [], 1, [];
    }

    /** The stored hash: of the payload, or of the whole packet when there is none. */
    function PayloadHash(data: seq<byte>): (hash: D)
      ensures hash == sha256(HashedPart(data))
    {
      var payload := ExtractPayload(data);
      if payload.Some? && payload.value != [] then sha256(payload.value) else sha256(data)
    }

    /** The row that would violate the unique index, if any. */
    method FindHash(hash: D) returns (found: Option<nat>)
      ensures found.None? <==> hash !in Hashes(rows)
      ensures found.Some? ==> exists i :: 0 <= i < |rows| && rows[i].id == found.value && rows[i].hash == hash
    {
      HashesOfRows(rows);
      for i := 0 to |rows|
        invariant forall j :: 0 <= j < i ==> rows[j].hash != hash
      {
        if rows[i].hash == hash {
          return Some(rows[i].id);
        }
      }
      return None;
    }

    /** INSERT OR IGNORE under the unique index on the hash, then the id of the stored row. */
    method Create(data: seq<byte>, timestamp: int) returns (id: nat, isNew: bool)
      requires Valid()
      modifies this
      ensures Valid() && arrivals == old(arrivals) + [Arrival(timestamp, data)]
      ensures isNew <==> DedupKey()(Arrival(timestamp, data)) !in KeysOf(DedupKey(), old(arrivals))
      ensures isNew ==>
                id == old(nextId) && rows == old(rows) + [Row(id, Arrival(timestamp, data), PayloadHash(data), None)]
      ensures !isNew ==>
                && rows == old(rows)
                && exists i :: 0 <= i < |rows| && rows[i].id == id && rows[i].hash == PayloadHash(data)
    {
      var hash := PayloadHash(data);
      var row := Row(nextId, Arrival(timestamp, data), hash, None);
      ArriveKeepsStored(DedupKey(), rows, nextId, arrivals, row);
      var existing := FindHash(hash);
      arrivals := arrivals + [row.arrival];
      if existing.Some? {
        return existing.value, false;
      }
      rows := rows + [row];
      id, isNew, nextId := nextId, true, nextId + 1;
    }

    /** Links a stored packet to its decrypted message; nothing else moves. */
    method MarkDecrypted(packetId: nat, messageId: nat)
      requires Valid()
      modifies this`rows
      ensures Valid() && |rows| == |old(rows)|
      ensures forall i :: 0 <= i < |rows| ==>
                rows[i] ==
                if old(rows)[i].id == packetId then old(rows)[i].(messageId := Some(messageId)) else old(rows)[i]
    {
      var before := rows;
      var updated := seq(|before|, i requires 0 <= i < |before| =>
                           if before[i].id == packetId then before[i].(messageId := Some(messageId)) else before[i]);
      SameArrivals(rows, updated);
      rows := updated;
    }

    /** DELETE with a row predicate: what is left is as if the deleted packets and their duplicates had never come. */
    method Delete(deletes: Row<D> -> bool)
      requires Valid()
      modifies this`rows, this`arrivals
      ensures Valid()
      ensures forall i :: 0 <= i < |rows| ==> rows[i] in old(rows) && !deletes(rows[i])
      ensures forall i :: 0 <= i < |old(rows)| && !deletes(old(rows)[i]) ==> old(rows)[i] in rows
      ensures exists keys: set<D> :: arrivals == WithKeys(DedupKey(), old(arrivals), keys)
    {
      var keeps := (r: Row<D>) => !deletes(r);
      var left := Keep(rows, keeps);
      KeepMembers(rows, keeps);
      KeepOrder(rows, keeps);
      ghost var keys := set i | 0 <= i < |left| :: left[i].hash;
      KeptHashes(rows, keeps);
      KeptArrivals(DedupKey(), rows, keeps, keys);
      KeepFirstWithKeys(DedupKey(), arrivals, keys);
      arrivals := WithKeys(DedupKey(), arrivals, keys);
      rows := left;
    }

    method PruneOldUndecrypted(cutoff: int)
      requires Valid()
      modifies this`rows, this`arrivals
      ensures Valid()
      ensures forall i :: 0 <= i < |rows| ==>
                rows[i] in old(rows) && (rows[i].messageId.Some? || rows[i].arrival.timestamp >= cutoff)
      ensures forall i :: 0 <= i < |old(rows)| &&
                          (old(rows)[i].messageId.Some? || old(rows)[i].arrival.timestamp >= cutoff) ==>
                old(rows)[i] in rows
    {
      Delete((r: Row<D>) => r.messageId.None? && r.arrival.timestamp < cutoff);
    }

    method PurgeLinkedToMessages()
      requires Valid()
      modifies this`rows, this`arrivals
      ensures Valid()
      ensures forall i :: 0 <= i < |rows| ==> rows[i] in old(rows) && rows[i].messageId.None?
      ensures forall i :: 0 <= i < |old(rows)| && old(rows)[i].messageId.None? ==> old(rows)[i] in rows
    {
      Delete((r: Row<D>) => r.messageId.Some?);
    }
  }
}
