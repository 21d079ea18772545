/**
 The connection manager's client cache, the table of registry connections behind it, and the use
 cases that change a row and then invalidate the cache.
 */
module Connection {
  import opened Prelude

  /** A registry connection: everything a client is built from, and the soft-delete flag. */
  datatype Row = Row(settings: string, isActive: bool)

  datatype Client = Client(settings: string)

  type Rows = map<string, Row>

  /** The dictionaries of the manager; a lock is its identity. */
  datatype Cache = Cache(clients: map<string, Client>, locks: map<string, nat>, nextLock: nat)

  const SCHEMA_REGISTRY := "schema_registry"

  /** The key a client's lock is stored under. */
  function LockKey(id: string): string
  {
    "schema_" + id
  }

  /** The key an invalidation deletes. */
  function InvalidationKey(resourceType: string, id: string): string
  {
    resourceType + "_" + id
  }

  /** The two keys meet, but only across ids: invalidating `x` deletes the lock of `registry_x`. */
  lemma KeysMeetExactly(x: string, y: string)
    ensures InvalidationKey(SCHEMA_REGISTRY, x) == LockKey(y) <==> y == "registry_" + x
  {
    var k := InvalidationKey(SCHEMA_REGISTRY, x);
    assert k == "schema_" + ("registry_" + x);
    assert k[7..] == "registry_" + x;
    assert LockKey(y)[7..] == y;
  }

  function WithLock(c: Cache, key: string): Cache
  {
    if key in c.locks then c else c.(locks := c.locks[key := c.nextLock], nextLock := c.nextLock + 1)
  }

  function Invalidated(c: Cache, resourceType: string, id: string): Cache
  {
    var clients := if resourceType == SCHEMA_REGISTRY then c.clients - {id} else c.clients;
    c.(clients := clients, locks := c.locks - {InvalidationKey(resourceType, id)})
  }

  /** The client for a row read from the table, or the exception. */
  function ClientFor(row: Option<Row>): Result<Client>
  {
    match row
    case None => Err("Schema Registry not found")
    case Some(r) => if r.isActive then Ok(Client(r.settings)) else Err("Schema Registry is inactive")
  }

  function Find(rows: Rows, id: string): Option<Row>
  {
    if id in rows then Some(rows[id]) else None
  }

  /** Every cached client was built from its current row, and that row is active. */
  ghost predicate Agrees(c: Cache, rows: Rows)
  {
    forall id :: id in c.clients ==> ClientFor(Find(rows, id)) == Ok(c.clients[id])
  }

  class ConnectionManager {
    var clients: map<string, Client>
    var locks: map<string, nat>
    var nextLock: nat

    constructor ()
      ensures Value() == Cache(map[], map[], 0)
    {
      clients, locks, nextLock := map[], map[], 0;
    }

    ghost function Value(): Cache
      reads this
    {
      Cache(clients, locks, nextLock)
    }

    /** `_get_loop_scoped_lock`, in a single event loop. */
    method GetLoopScopedLock(key: string) returns (lock: nat)
      modifies this
      ensures Value() == WithLock(old(Value()), key)
      ensures key in locks && lock == locks[key]
    {
      if key in locks {
        return locks[key];
      }
      lock := nextLock;
      nextLock := nextLock + 1;
      locks := locks[key := lock];
    }

    /** `get_schema_registry_client`, run without interruption; `row` is what the table holds. */
    method GetSchemaRegistryClient(id: string, row: Option<Row>) returns (r: Result<Client>)
      modifies this
      ensures r == if id in old(clients) then Ok(old(clients)[id]) else ClientFor(row)
      ensures clients == if r.Ok? then old(clients)[id := r.value] else old(clients)
      ensures forall key :: key in old(locks) ==> key in locks && locks[key] == old(locks)[key]
    {
      if id in clients {
        return Ok(clients[id]);
      }
      var lock := GetLoopScopedLock(LockKey(id));
      r := ClientFor(row);
      if r.Ok? {
        clients := clients[id := r.value];
      }
    }

    /** `invalidate_cache`. */
    method InvalidateCache(resourceType: string, id: string)
      modifies this
      ensures Value() == Invalidated(old(Value()), resourceType, id)
    {
      if resourceType == SCHEMA_REGISTRY && id in clients {
        clients := clients - {id};
      } else {
        assert clients - {id} == clients || resourceType != SCHEMA_REGISTRY;
      }
      var lockKey := InvalidationKey(resourceType, id);
      if lockKey in locks {
        locks := locks - {lockKey};
      } else {
        assert locks - {lockKey} == locks;
      }
    }
  }

  class RegistryRepository {
    var rows: Rows

    constructor (rows: Rows)
      ensures this.rows == rows
    {
      this.rows := rows;
    }

    method GetById(id: string) returns (row: Option<Row>)
      ensures row == Find(rows, id)
    {
      row := if id in rows then Some(rows[id]) else None;
    }

    /** Creates, or overwrites and reactivates; the reactivated row is active whatever was asked. */
    method Create(id: string, row: Row)
      modifies this
      ensures rows == old(rows)[id := if id in old(rows) then Row(row.settings, true) else row]
    {
      if id in rows {
        rows := rows[id := Row(row.settings, true)];
      } else {
        rows := rows[id := row];
      }
    }

    method Update(id: string, row: Row) returns (ok: bool)
      modifies this
      ensures ok == (id in old(rows))
      ensures rows == if ok then old(rows)[id := row] else old(rows)
    {
      ok := id in rows;
      if ok {
        rows := rows[id := row];
      }
    }

    method Delete(id: string) returns (ok: bool)
      modifies this
      ensures ok == (id in old(rows))
      ensures rows == if ok then old(rows)[id := old(rows)[id].(isActive := false)] else old(rows)
    {
      ok := id in rows;
      if ok {
        rows := rows[id := rows[id].(isActive := false)];
      }
    }
  }

  // ---------- the use cases, one at a time ----------

  /** A get never breaks the agreement: a hit returns the current row's client, a miss builds it. */
  method Get(manager: ConnectionManager, repo: RegistryRepository, id: string) returns (r: Result<Client>)
    requires Agrees(manager.Value(), repo.rows)
    modifies manager
    ensures r == ClientFor(Find(repo.rows, id))
    ensures Agrees(manager.Value(), repo.rows)
  {
    var row := repo.GetById(id);
    r := manager.GetSchemaRegistryClient(id, row);
  }

  /** Update writes, then invalidates, and restores the agreement whatever the cache held for the id. */
  method Update(manager: ConnectionManager, repo: RegistryRepository, id: string, row: Row) returns (ok: bool)
    requires Agrees(manager.Value(), repo.rows)
    modifies manager, repo
    ensures ok == (id in old(repo.rows))
    ensures repo.rows == if ok then old(repo.rows)[id := row] else old(repo.rows)
    ensures manager.Value() == if ok then Invalidated(old(manager.Value()), SCHEMA_REGISTRY, id) else old(manager.Value())
    ensures Agrees(manager.Value(), repo.rows)
  {
    var existing := repo.GetById(id);
    if existing.None? {
      return false;
    }
    ok := repo.Update(id, row);
    manager.InvalidateCache(SCHEMA_REGISTRY, id);
  }

  method Delete(manager: ConnectionManager, repo: RegistryRepository, id: string) returns (ok: bool)
    requires Agrees(manager.Value(), repo.rows)
    modifies manager, repo
    ensures ok == (id in old(repo.rows))
    ensures repo.rows == if ok then old(repo.rows)[id := old(repo.rows)[id].(isActive := false)] else old(repo.rows)
    ensures Agrees(manager.Value(), repo.rows)
    ensures ok ==> id !in manager.clients && ClientFor(Find(repo.rows, id)).Err?
  {
    ok := repo.Delete(id);
    if ok {
      manager.InvalidateCache(SCHEMA_REGISTRY, id);
    }
  }

  /**
   Create does not invalidate: afterwards the cache agrees exactly when it held no client for the
   id, or one with the very settings written.
   */
  method Create(manager: ConnectionManager, repo: RegistryRepository, id: string, settings: string)
    requires Agrees(manager.Value(), repo.rows)
    modifies repo
    ensures repo.rows == old(repo.rows)[id := Row(settings, true)]
    ensures Agrees(manager.Value(), repo.rows) <==> id !in manager.clients || manager.clients[id].settings == settings
  {
    repo.Create(id, Row(settings, true));
    CreateKeepsAgreementExactly(manager.Value(), old(repo.rows), id, settings);
  }

  lemma CreateKeepsAgreementExactly(c: Cache, rows: Rows, id: string, settings: string)
    requires Agrees(c, rows)
    ensures Agrees(c, rows[id := Row(settings, true)]) <==> id !in c.clients || c.clients[id].settings == settings
    ensures (id in rows ==> !rows[id].isActive) ==> Agrees(c, rows[id := Row(settings, true)])
  {
  }
}
