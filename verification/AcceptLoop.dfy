/** The accept loop: the first request of a connection registers a client or
    names one, and starts a session for it. */
module AcceptLoop {
  import opened Wrappers
  import opened Bytes
  import ClientIds
  import Database
  import HexColumn
  import MessageIds
  import Registry
  import Requests
  import Responses
  import Session
  import Utf8

  /** What comes of a connection. Ended stands for an exception nobody catches:
      it leaves the accept loop. */
  datatype Accepted =
    | Disconnected
    | Rejected
    | Started(id: Bytes, request: Requests.Wrapper)
    | Ended
    | Undefined

  function NameOf(w: Requests.Wrapper): Bytes
    requires Session.ProperRequest(w)
  {
    w.registration[..Requests.NAME_SIZE]
  }

  function KeyOf(w: Requests.Wrapper): (key: Bytes)
    requires Session.ProperRequest(w)
    ensures |key| == HexColumn.KEY_SIZE
  {
    w.registration[Requests.NAME_SIZE..]
  }

  /** The registry and the outcome once the wrapper has parsed the delivery. */
  function Decide(r: Registry.Registry, w: Requests.Wrapper): (Registry.Registry, Accepted)
    requires Session.ProperRequest(w)
  {
    if w.err != Requests.NoErr then (r, Rejected)
    else if w.code == Requests.REGISTRATION then
      if !Utf8.IsText(NameOf(w)) then (r, Ended)
      else if Registry.NameExists(r.rows, Registry.Strip(NameOf(w))) then (r, Rejected)
      else
        var r' := Registry.RegisterStep(r, NameOf(w), HexColumn.Encode(KeyOf(w)));
        (r', Started(r'.lastId, w))
    else if !Utf8.IsText(w.id) then (r, Ended)
    else if Registry.IdExists(r.rows, w.id) then (r, Started(w.id, w))
    else (r, Rejected)
  }

  /** The registry and the outcome after a connection's first delivery. */
  function Accept(r: Registry.Registry, data: Bytes, memory: Requests.Memory): (Registry.Registry, Accepted)
    requires Requests.ValidMemory(memory)
  {
    if data == [] then (r, Disconnected)
    else
      match Requests.Parse(data, memory)
      case Undefined => (r, Undefined)
      case Throws => (r, Ended)
      case Parsed(w) => Decide(r, w)
  }

  /** The bytes of a rejection: version 2, code 9000 and no payload. */
  function Rejection(): Session.Reply
  {
    Session.Reply(2, Session.ERROR_CODE, 0, [])
  }

  class MessageUServer {
    const sql: Database.Sql
    var lastClientId: Bytes

    function State(): Registry.Registry
      reads this, sql, sql.store
    {
      Registry.Registry(sql.store.clients, lastClientId)
    }

    /** A server starts with the counter its client table restores. */
    constructor (sql: Database.Sql, order: Registry.ScanOrder)
      ensures this.sql == sql
      ensures forall last ::
                State() == Registry.Step(Registry.Registry(sql.store.clients, last), Registry.Restart(order))
    {
      this.sql := sql;
      new;
      lastClientId := UpdateLastClientId(order);
    }

    /** The last id of the scan, or the zero id when there is none. */
    method UpdateLastClientId(order: Registry.ScanOrder) returns (id: Bytes)
      ensures id == Registry.Restored(sql.store.clients, order)
    {
      var last := sql.GetLastId(order);
      id := if last.None? then ClientIds.ZeroId(ClientIds.ID_SIZE) else last.value;
    }

    method IncLastClientId()
      modifies this`lastClientId
      ensures lastClientId == ClientIds.Add1(old(lastClientId))
    {
      lastClientId := ClientIds.IdAdd1(lastClientId);
    }

    /** One turn of the accept loop. A rejected connection is sent one reply. */
    method Recv(data: Bytes, memory: Requests.Memory) returns (accepted: Accepted, replies: seq<Session.Reply>)
      requires Requests.ValidMemory(memory)
      modifies this`lastClientId, sql.store`clients
      ensures (State(), accepted) == Accept(old(State()), data, memory)
      ensures replies == if accepted.Rejected? then [Rejection()] else []
    {
      replies := [];
      if |data| <= 0 {
        return Disconnected, [];
      }
      var outcome := Requests.ParseRequest(data, memory);
      if outcome.Undefined? {
        return Undefined, [];
      }
      if outcome.Throws? {
        return Ended, [];
      }
      var w := outcome.wrapper;
      if w.err != Requests.NoErr {
        return Rejected, [Rejection()];
      }
      if w.code == Requests.REGISTRATION {
        var name := NameOf(w);
        if !Utf8.IsText(name) {
          return Ended, [];
        }
        var taken := sql.NameExists(Registry.Strip(name));
        if taken {
          return Rejected, [Rejection()];
        }
        IncLastClientId();
        sql.AddClient(lastClientId, Registry.Strip(name), HexColumn.Encode(KeyOf(w)));
        accepted := Started(lastClientId, w);
      } else {
        if !Utf8.IsText(w.id) {
          return Ended, [];
        }
        var known := sql.IdExists(w.id);
        if !known {
          return Rejected, [Rejection()];
        }
        accepted := Started(w.id, w);
      }
    }
  }

  /** Free are the ids a page can hold that are not stored. */
  ghost predicate FreeBut(pages: MessageIds.Pages, messages: Database.Messages)
    requires MessageIds.WellFormed(pages)
  {
    forall id: nat :: MessageIds.IsFree(pages, id)
                      <==> id / TWO_32 < MessageIds.PAGE_COUNT && id % TWO_32 < MessageIds.PAGE_SIZE && id !in messages
  }

  /** The thread a started session runs: its own connection to the tables, then
      the state machine. It ends at once when the allocator cannot sync. */
  method RunSession(store: Database.Store, id: Bytes, request: Requests.Wrapper, inbox: seq<Bytes>,
                    memory: Requests.Memory, names: Bytes)
    returns (raised: bool, sent: seq<Session.Reply>, ghost taken: nat, ghost moments: seq<Session.Moment>,
             ghost last: Session.Moment, ghost pages: MessageIds.Pages)
    requires |id| == ClientIds.ID_SIZE && Servable(request)
    requires Requests.ValidMemory(memory) && |names| >= Responses.NAME_SIZE
    requires Database.ProperIds(store.clients)
    modifies store
    ensures (exists k :: k in old(store.messages) && !MessageIds.Syncable(k)) ==> raised && sent == []
    ensures !(exists k :: k in old(store.messages) && !MessageIds.Syncable(k)) ==>
              && Session.Stopped(id, Session.Script(request, inbox, memory, 2, pages),
                                 taken, moments, last, sent, raised)
              && MessageIds.WellFormed(pages) && FreeBut(pages, old(store.messages))
  {
    var connected := Database.Connect(store);
    if connected.Raised? {
      raised, sent, taken, moments, pages := true, [], 0, [], [];
      last := Session.Moment([], map[], map[], [], [], []);
      return;
    }
    var session := new Session.ServerSession(id, connected.value, request);
    pages := connected.value.idSync.freeMessageIds[..];
    var count;
    raised, count, moments, last := session.Serve(inbox, memory, names);
    sent, taken := session.sent, count;
  }

  /** What a session demands of the request that opens it. */
  predicate Servable(w: Requests.Wrapper)
  {
    Session.ProperRequest(w) && w.err == Requests.NoErr && Session.Known(w.code)
  }

  // ----- properties -----

  /** The ids of registered clients are what a session demands of its table. */
  lemma RegisteredIdsAreProper(r: Registry.Registry)
    requires Registry.Inv(r)
    ensures Database.ProperIds(r.rows)
  {
    forall k | 0 <= k < |r.rows|
      ensures |r.rows[k].id| == ClientIds.ID_SIZE && r.rows[k].id[0] != 0
    {
      assert r.rows[k].id == Registry.NthClientId(k + 1);
      ClientIds.FromNatIsId((k + 1) % Registry.LIMIT, ClientIds.ID_SIZE);
      assert ClientIds.IsDigit(r.rows[k].id[0]);
    }
  }

  lemma DecidedIsServable(r: Registry.Registry, w: Requests.Wrapper)
    requires Session.ProperRequest(w) && |w.id| == ClientIds.ID_SIZE && |r.lastId| == ClientIds.ID_SIZE
    requires w.err == Requests.NoErr ==> Session.Known(w.code)
    ensures var (r', accepted) := Decide(r, w);
            && (accepted.Started? ==>
                  && Servable(accepted.request)
                  && |accepted.id| == ClientIds.ID_SIZE
                  && Registry.IdExists(r'.rows, accepted.id))
            && (r' != r ==> accepted.Started? && accepted.request.code == Requests.REGISTRATION)
  {
    var (r', accepted) := Decide(r, w);
    if accepted.Started? && w.code == Requests.REGISTRATION {
      assert r'.rows[|r'.rows| - 1].id == accepted.id;
    }
  }

  /** Every session that is started can be served, and its id is a registered
      client's; the client table changes only when a registration starts one. */
  lemma StartedIsServable(r: Registry.Registry, data: Bytes, memory: Requests.Memory)
    requires Requests.ValidMemory(memory) && |r.lastId| == ClientIds.ID_SIZE
    ensures var (r', accepted) := Accept(r, data, memory);
            && (accepted.Started? ==>
                  && Servable(accepted.request)
                  && |accepted.id| == ClientIds.ID_SIZE
                  && Registry.IdExists(r'.rows, accepted.id))
            && (r' != r ==> accepted.Started? && accepted.request.code == Requests.REGISTRATION)
  {
    if data != [] && Requests.Parse(data, memory).Parsed? {
      DecidedIsServable(r, Requests.Parse(data, memory).wrapper);
    }
  }

  lemma DecideKeeps(r: Registry.Registry, w: Requests.Wrapper)
    requires Session.ProperRequest(w) && Registry.Inv(r) && |r.rows| < Registry.LIMIT
    ensures Registry.Inv(Decide(r, w).0)
    ensures r.rows <= Decide(r, w).0.rows && |Decide(r, w).0.rows| <= |r.rows| + 1
  {
    var r' := Registry.RegisterStep(r, NameOf(w), HexColumn.Encode(KeyOf(w)));
    assert Decide(r, w).0 == r || Decide(r, w).0 == r';
    Registry.RegisterKeeps(r, NameOf(w), HexColumn.Encode(KeyOf(w)));
  }

  lemma AcceptKeeps(r: Registry.Registry, data: Bytes, memory: Requests.Memory)
    requires Requests.ValidMemory(memory) && Registry.Inv(r) && |r.rows| < Registry.LIMIT
    ensures Registry.Inv(Accept(r, data, memory).0)
    ensures r.rows <= Accept(r, data, memory).0.rows && |Accept(r, data, memory).0.rows| <= |r.rows| + 1
  {
    if data != [] && Requests.Parse(data, memory).Parsed? {
      DecideKeeps(r, Requests.Parse(data, memory).wrapper);
    }
  }

  /** No delivery makes the wrapper write past a struct, after which nothing could
      be said; Requests.WrapperOverruns tells which ones do. */
  predicate NoOverruns(deliveries: seq<Bytes>, memory: Requests.Memory)
    requires Requests.ValidMemory(memory)
  {
    forall i :: 0 <= i < |deliveries| ==> !Requests.Parse(deliveries[i], memory).Undefined?
  }

  /** The accept loop over a series of connections, until an exception ends it. */
  function AcceptAll(r: Registry.Registry, deliveries: seq<Bytes>, memory: Requests.Memory): (end: Registry.Registry)
    requires Requests.ValidMemory(memory) && NoOverruns(deliveries, memory)
    decreases |deliveries|
  {
    if deliveries == [] then r
    else
      var (r', accepted) := Accept(r, deliveries[0], memory);
      if accepted.Ended? then r' else AcceptAll(r', deliveries[1..], memory)
  }

  /** Whatever is delivered to the accept loop short of a write past a struct, ids
      and names of clients stay pairwise distinct and no client's row changes. */
  lemma {:induction false} AcceptAllKeeps(r: Registry.Registry, deliveries: seq<Bytes>, memory: Requests.Memory)
    requires Requests.ValidMemory(memory) && NoOverruns(deliveries, memory)
    requires Registry.Inv(r) && |r.rows| + |deliveries| <= Registry.LIMIT
    ensures Registry.Inv(AcceptAll(r, deliveries, memory))
    ensures r.rows <= AcceptAll(r, deliveries, memory).rows
    decreases |deliveries|
  {
    if deliveries != [] {
      AcceptKeeps(r, deliveries[0], memory);
      var (r', accepted) := Accept(r, deliveries[0], memory);
      if !accepted.Ended? {
        AcceptAllKeeps(r', deliveries[1..], memory);
      }
    }
  }

  lemma RowFound(r: Registry.Registry, i: nat)
    requires Registry.Inv(r) && i < |r.rows|
    ensures Database.FindClient(r.rows, r.rows[i].id) == Some(r.rows[i])
  {
    Registry.DistinctIds(r);
    var found := Database.FindClient(r.rows, r.rows[i].id);
    assert Registry.IdExists(r.rows, r.rows[i].id);
    var k :| 0 <= k < |r.rows| && r.rows[k] == found.value;
  }

  /** The packet of a registration under a new name appends the client's row. */
  lemma RegistrationAppends(r: Registry.Registry, sender: Bytes, version: byte, name: Bytes, key: Bytes,
                            pad: Bytes, pointer: Bytes, memory: Requests.Memory)
    requires Requests.ValidMemory(memory) && Registry.Inv(r) && |r.rows| < Registry.LIMIT
    requires |sender| == Requests.ID_SIZE && |name| == Requests.NAME_SIZE && |key| == Requests.KEY_SIZE
    requires |pad| == Requests.PAD_AFTER_TYPE && |pointer| == Requests.ADDRESS_SIZE
    requires Utf8.IsText(name) && !Registry.NameExists(r.rows, Registry.Strip(name))
    ensures var data := Requests.Packet(sender, version, Requests.Registration(name, key), pad, pointer);
            var (r', accepted) := Accept(r, data, memory);
            && accepted.Started?
            && r'.rows == r.rows + [Registry.Registered(accepted.id, Registry.Strip(name), HexColumn.Encode(key))]
  {
    var request := Requests.Registration(name, key);
    var data := Requests.Packet(sender, version, request, pad, pointer);
    Requests.RequestRoundTrip(sender, version, request, pad, pointer, memory);
    var w := Requests.Parse(data, memory).wrapper;
    assert NameOf(w) == name && KeyOf(w) == key;
    Registry.RegisterKeeps(r, name, HexColumn.Encode(key));
  }

  /** What a later answer to a public-key request holds for row i. */
  lemma RowIsServed(r: Registry.Registry, i: nat, key: Bytes, payload: Bytes)
    requires Registry.Inv(r) && i < |r.rows|
    requires |key| == HexColumn.KEY_SIZE && r.rows[i].publicKey == HexColumn.Encode(key)
    ensures Session.KeyPayload(r.rows, r.rows[i].id, payload) <==> payload == r.rows[i].id + key
  {
    RowFound(r, i);
    HexColumn.KeyRoundTrip(key);
  }

  /** From the bytes of a registration to the bytes of any later answer: whatever
      else is delivered in between short of a write past a struct, the key a client
      packs into its registration is the key that is served for its id. */
  lemma RegisteredKeyIsServed(r: Registry.Registry, sender: Bytes, version: byte, name: Bytes, key: Bytes,
                              pad: Bytes, pointer: Bytes, memory: Requests.Memory, later: seq<Bytes>, payload: Bytes)
    requires Requests.ValidMemory(memory) && NoOverruns(later, memory)
    requires Registry.Inv(r) && |r.rows| + 1 + |later| <= Registry.LIMIT
    requires |sender| == Requests.ID_SIZE && |name| == Requests.NAME_SIZE && |key| == Requests.KEY_SIZE
    requires |pad| == Requests.PAD_AFTER_TYPE && |pointer| == Requests.ADDRESS_SIZE
    requires Utf8.IsText(name) && !Registry.NameExists(r.rows, Registry.Strip(name))
    ensures var data := Requests.Packet(sender, version, Requests.Registration(name, key), pad, pointer);
            var (r', accepted) := Accept(r, data, memory);
            && accepted.Started?
            && (Session.KeyPayload(AcceptAll(r', later, memory).rows, accepted.id, payload)
                <==> payload == accepted.id + key)
  {
    RegistrationAppends(r, sender, version, name, key, pad, pointer, memory);
    var data := Requests.Packet(sender, version, Requests.Registration(name, key), pad, pointer);
    AcceptKeeps(r, data, memory);
    var r' := Accept(r, data, memory).0;
    AcceptAllKeeps(r', later, memory);
    var end := AcceptAll(r', later, memory);
    assert end.rows[|r.rows|] == r'.rows[|r.rows|];
    RowIsServed(end, |r.rows|, key, payload);
  }
}
