/** The server's SQL layer over the shared tables. */
module Database {
  import opened Wrappers
  import opened Bytes
  import opened Tables
  import opened MessageIds
  import ClientIds
  import Registry

  type Messages = map<nat, MessageRow>

  /** The tables every session shares. */
  class Store {
    var clients: seq<Registry.Registered>
    var messages: Messages

    constructor ()
      ensures clients == [] && messages == map[]
    {
      clients, messages := [], map[];
    }

    /** Statements of other sessions may run here. Only the accept loop adds
        clients, and it gives them proper ids. */
    method Interfere()
      modifies this
      ensures ProperIds(old(clients)) ==> ProperIds(clients)
    {
    }
  }

  /** Ids in the table are the 32 nonzero characters of a hexadecimal id. */
  ghost predicate ProperIds(clients: seq<Registry.Registered>)
  {
    forall k :: 0 <= k < |clients| ==> |clients[k].id| == ClientIds.ID_SIZE && clients[k].id[0] != 0
  }

  /** The rows a client sees of the id scan. */
  function ClientIdsOf(rows: seq<Registry.Registered>): set<Bytes>
  {
    set i | 0 <= i < |rows| :: rows[i].id
  }

  /** The row with this id that was written last. */
  function FindClient(rows: seq<Registry.Registered>, id: Bytes): (row: Option<Registry.Registered>)
    ensures row.Some? <==> Registry.IdExists(rows, id)
    ensures row.Some? ==> row.value in rows && row.value.id == id
  {
    if rows == [] then None
    else if rows[|rows| - 1].id == id then Some(rows[|rows| - 1])
    else
      var front := rows[..|rows| - 1];
      assert rows == front + [rows[|rows| - 1]];
      assert Registry.IdExists(rows, id) ==> Registry.IdExists(front, id) by {
        if i :| 0 <= i < |rows| && rows[i].id == id {
          assert front[i].id == id;
        }
      }
      assert Registry.IdExists(front, id) ==> Registry.IdExists(rows, id) by {
        if i :| 0 <= i < |front| && front[i].id == id {
          assert rows[i].id == id;
        }
      }
      FindClient(front, id)
  }

  /** After "insert or replace" the id finds the new row, and every other id what it
      found before. */
  lemma InsertedIsFound(rows: seq<Registry.Registered>, row: Registry.Registered)
    ensures FindClient(Registry.InsertOrReplace(rows, row), row.id) == Some(row)
    ensures forall id: Bytes :: id != row.id ==>
              FindClient(Registry.InsertOrReplace(rows, row), id) == FindClient(rows, id)
  {
    var rest := Registry.Without(rows, row.id);
    assert (rest + [row])[..|rest|] == rest;
    forall id: Bytes | id != row.id
      ensures FindClient(rest + [row], id) == FindClient(rows, id)
    {
      OthersAreFound(rows, row.id, id);
    }
  }

  lemma {:induction false} OthersAreFound(rows: seq<Registry.Registered>, gone: Bytes, id: Bytes)
    requires id != gone
    ensures FindClient(Registry.Without(rows, gone), id) == FindClient(rows, id)
  {
    if rows != [] {
      var front, last := rows[..|rows| - 1], rows[|rows| - 1];
      OthersAreFound(front, gone, id);
      if last.id != gone {
        var rest := Registry.Without(front, gone);
        assert (rest + [last])[..|rest|] == rest;
      }
    }
  }

  /** After an index-order restart at an unsafe count, a client that registers a new
      name takes over another client's id: the id was found under another name and
      is now found under the new name and key. */
  lemma IndexOrderTakesOver(r: Registry.Registry, name: Bytes, publicKey: Bytes)
    requires Registry.Inv(r) && |r.rows| < Registry.LIMIT && !Registry.IndexOrderSafe(|r.rows|)
    requires !Registry.NameExists(r.rows, Registry.Strip(name))
    ensures var end := Registry.RegisterStep(Registry.Step(r, Registry.Restart(Registry.IndexOrder)), name, publicKey);
            && FindClient(r.rows, end.lastId).Some?
            && FindClient(r.rows, end.lastId).value.name != Registry.Strip(name)
            && FindClient(end.rows, end.lastId)
               == Some(Registry.Registered(end.lastId, Registry.Strip(name), publicKey))
  {
    Registry.IndexOrderNextId(r);
    var id := ClientIds.Add1(Registry.Restored(r.rows, Registry.IndexOrder));
    InsertedIsFound(r.rows, Registry.Registered(id, Registry.Strip(name), publicKey));
  }

  /** What `add_message` does: allocate, then insert under the primary key. */
  datatype Added = Added(id: Result<Option<nat>>, pages: Pages, messages: Messages)

  function AddMessageSpec(pages: Pages, messages: Messages, row: MessageRow): (added: Added)
    requires |pages| == PAGE_COUNT
    ensures |added.pages| == PAGE_COUNT
  {
    match Allocate(pages)
    case Raised(e) => Added(Raised(e), pages, messages)
    case Ok((id, rest)) =>
      if id in messages then Added(Raised(IntegrityError), rest, messages)
      else Added(Ok(Some(id)), rest, messages[id := row])
  }

  /** One session's connection to the tables, with its own allocator. */
  class Sql {
    const store: Store
    const idSync: IdSync

    ghost predicate Valid()
      reads this, idSync
    {
      idSync.Valid()
    }

    constructor (store: Store, idSync: IdSync)
      requires idSync.Valid()
      ensures Valid() && this.store == store && this.idSync == idSync
    {
      this.store, this.idSync := store, idSync;
    }

    method AddClient(id: Bytes, name: Bytes, publicKey: Bytes)
      modifies store`clients
      ensures store.clients == Registry.InsertOrReplace(old(store.clients), Registry.Registered(id, name, publicKey))
    {
      store.clients := Registry.InsertOrReplace(store.clients, Registry.Registered(id, name, publicKey));
    }

    method NameExists(name: Bytes) returns (found: bool)
      ensures found <==> Registry.NameExists(store.clients, name)
    {
      found := Registry.NameExists(store.clients, name);
    }

    method IdExists(id: Bytes) returns (found: bool)
      ensures found <==> Registry.IdExists(store.clients, id)
    {
      found := Registry.IdExists(store.clients, id);
    }

    /** The last row of the id scan. */
    method GetLastId(order: Registry.ScanOrder) returns (id: Option<Bytes>)
      ensures id.None? <==> store.clients == []
      ensures id.Some? ==> id.value == Registry.Restored(store.clients, order)
    {
      if |store.clients| == 0 {
        id := None;
      } else {
        id := Some(Registry.Restored(store.clients, order));
      }
    }

    method AddMessage(row: MessageRow) returns (id: Result<Option<nat>>)
      requires Valid()
      modifies store`messages, idSync.freeMessageIds
      ensures Added(id, idSync.freeMessageIds[..], store.messages)
              == AddMessageSpec(old(idSync.freeMessageIds[..]), old(store.messages), row)
      ensures id != Ok(None)
    {
      id := idSync.AllocateMessageId();
      if id.Raised? {
        return;
      }
      if id.value.Some? {
        if id.value.value in store.messages {
          return Raised(IntegrityError);
        }
        store.messages := store.messages[id.value.value := row];
      }
    }

    method GetMessages(client: Bytes) returns (ids: seq<nat>, rows: seq<MessageRow>)
      ensures ids == IdsTo(store.messages, client) && |rows| == |ids|
      ensures forall i :: 0 <= i < |ids| ==> ids[i] in store.messages && rows[i] == store.messages[ids[i]]
    {
      ids := IdsTo(store.messages, client);
      assert forall i :: 0 <= i < |ids| ==> ids[i] in ids;
      var table := store.messages;
      rows := seq(|ids|, i requires 0 <= i < |ids| => table[ids[i]]);
    }

    method DeleteMessage(id: nat)
      modifies store`messages
      ensures store.messages == old(store.messages) - {id}
    {
      store.messages := store.messages - {id};
    }
  }

  /** Opens a session's connection: a new allocator synced with the table. It
      raises ValueError exactly when some stored id is not syncable. */
  method Connect(store: Store) returns (sql: Result<Sql>)
    ensures sql.Raised? <==> exists id :: id in store.messages && !Syncable(id)
    ensures sql.Raised? ==> sql.error == ValueError
    ensures sql.Ok? ==> sql.value.Valid() && sql.value.store == store
    ensures sql.Ok? ==> fresh(sql.value) && fresh(sql.value.idSync) && fresh(sql.value.idSync.freeMessageIds)
    ensures sql.Ok? ==>
              && WellFormed(sql.value.idSync.freeMessageIds[..])
              && forall id: nat :: IsFree(sql.value.idSync.freeMessageIds[..], id)
                                   <==> id / TWO_32 < PAGE_COUNT && id % TWO_32 < PAGE_SIZE && id !in store.messages
  {
    var idSync := new IdSync();
    var ids := SortedIds(store.messages.Keys);
    var done := idSync.SyncFreeMessageIds(ids);
    SyncNewSession(ids);
    if done.Raised? {
      return Raised(ValueError);
    }
    var connection := new Sql(store, idSync);
    sql := Ok(connection);
  }
}
