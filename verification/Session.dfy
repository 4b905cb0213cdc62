/** One client connection on the server: a thread that receives, answers and
    sends until the connection ends or an exception leaves the thread. */
module Session {
  import opened Wrappers
  import opened Bytes
  import opened Tables
  import opened MessageIds
  import opened Database
  import opened Utf8
  import HexColumn
  import Framing
  import Registry
  import Requests
  import Responses

  const ERROR_CODE := 9000
  const REPLY_OFFSET := 1000

  datatype Status = Receiving | Answering | Sending | Bad

  /** A response as sent: the header's fields and the payload. */
  datatype Reply = Reply(version: byte, code: nat, payloadSize: nat, payload: Bytes)

  ghost predicate WellSized(r: Reply)
  {
    r.code < TWO_16 && r.payloadSize == |r.payload| < TWO_32
  }

  /** The bytes of a reply. */
  function Wire(r: Reply): Bytes
    requires r.code < TWO_16 && r.payloadSize < TWO_32
  {
    Responses.Header(r.version, r.code, r.payloadSize) + r.payload + Framing.END_OF_PACKET
  }

  predicate Answerable(code: nat)
  {
    Requests.GET_CLIENT_LIST <= code <= Requests.GET_MESSAGES
  }

  // ----- what polling a table gives -----

  /** A row whose record can be built: the id fits its 32-bit field and the
      content column decodes. */
  predicate Deliverable(id: nat, row: MessageRow)
  {
    && id < TWO_32
    && |row.fromClient| == Responses.ID_SIZE
    && HexColumn.Decode(row.content).Ok?
    && |HexColumn.Decode(row.content).value| < TWO_32
  }

  function RecordOf(id: nat, row: MessageRow): (r: Responses.Record)
    requires Deliverable(id, row)
    ensures Responses.ValidRecord(r)
  {
    Responses.Record(row.fromClient, id, row.kind, HexColumn.Decode(row.content).value)
  }

  /** How many rows are placed before one raises. */
  function Placeable(ids: seq<nat>, rows: seq<MessageRow>): (n: nat)
    requires |rows| == |ids|
    ensures n <= |ids|
    ensures forall i :: 0 <= i < n ==> Deliverable(ids[i], rows[i])
    ensures n < |ids| ==> !Deliverable(ids[n], rows[n])
  {
    if ids == [] || !Deliverable(ids[0], rows[0]) then 0
    else 1 + Placeable(ids[1..], rows[1..])
  }

  function RecordsOf(ids: seq<nat>, rows: seq<MessageRow>, n: nat): (rs: seq<Responses.Record>)
    requires |rows| == |ids| && n <= |ids|
    requires forall i :: 0 <= i < n ==> Deliverable(ids[i], rows[i])
    ensures |rs| == n && Responses.ValidRecords(rs)
    ensures forall i :: 0 <= i < n ==> rs[i] == RecordOf(ids[i], rows[i])
  {
    seq(n, i requires 0 <= i < n => RecordOf(ids[i], rows[i]))
  }

  function RowsAt(messages: Messages, ids: seq<nat>): (rows: seq<MessageRow>)
    requires forall i :: 0 <= i < |ids| ==> ids[i] in messages
    ensures |rows| == |ids|
    ensures forall i :: 0 <= i < |ids| ==> rows[i] == messages[ids[i]]
  {
    seq(|ids|, i requires 0 <= i < |ids| => messages[ids[i]])
  }

  predicate AllDeliverable(read: Messages, ids: seq<nat>)
  {
    forall i :: 0 <= i < |ids| ==> ids[i] in read && Deliverable(ids[i], read[ids[i]])
  }

  /** The ids whose rows a poll of this table places: those before the first that
      is not deliverable, in id order. */
  function PlacedIds(read: Messages, client: Bytes): (ids: seq<nat>)
    ensures ids <= IdsTo(read, client) && AllDeliverable(read, ids)
  {
    var all := IdsTo(read, client);
    assert forall i :: 0 <= i < |all| ==> all[i] in all;
    all[..Placeable(all, RowsAt(read, all))]
  }

  /** The reply to a poll holds those rows, whatever happens to the table after
      it was read; the poll raises when it does not come to the end. */
  ghost predicate PollReads(read: Messages, client: Bytes, payload: Bytes, raised: bool)
  {
    var ids := PlacedIds(read, client);
    && payload == Responses.EncodeBatch(RecordsOf(ids, RowsAt(read, ids), |ids|))
    && (raised <==> |ids| < |IdsTo(read, client)|)
  }

  /** One DELETE statement: the table it finds and the table it leaves. */
  datatype Deletion = Deletion(before: Messages, after: Messages)

  /** A poll with statements of other sessions in between: each placed row's id is
      deleted, in order, from the table as it then is. */
  ghost predicate PollsAmid(read: Messages, client: Bytes, payload: Bytes, deletions: seq<Deletion>, raised: bool)
  {
    var ids := PlacedIds(read, client);
    && PollReads(read, client, payload, raised)
    && |deletions| == |ids|
    && forall i :: 0 <= i < |ids| ==> deletions[i].after == deletions[i].before - {ids[i]}
  }

  /** A poll with nothing in between: exactly the placed rows are deleted. */
  ghost predicate Polls(before: Messages, client: Bytes, payload: Bytes, after: Messages, raised: bool)
  {
    && PollReads(before, client, payload, raised)
    && after == before - IdSet(PlacedIds(before, client))
  }

  /** Each deletion finds the table the one before it left. */
  ghost predicate Chained(start: Messages, deletions: seq<Deletion>, end: Messages)
    decreases |deletions|
  {
    if deletions == [] then start == end
    else deletions[0].before == start && Chained(deletions[0].after, deletions[1..], end)
  }

  // ----- what the client list holds -----

  /** Every client but the requester, once, in some order; what follows each
      name's NUL is whatever is in memory. */
  ghost predicate Lists(clients: seq<Registry.Registered>, self: Bytes, listed: seq<Responses.Listed>)
  {
    && Responses.ValidList(listed)
    && (forall i, j :: 0 <= i < j < |listed| ==> listed[i].id != listed[j].id)
    && (forall i :: 0 <= i < |listed| ==>
          && listed[i].id != self
          && FindClient(clients, listed[i].id).Some?
          && listed[i].name == FindClient(clients, listed[i].id).value.name)
    && (forall k :: 0 <= k < |clients| && clients[k].id != self ==>
          exists i :: 0 <= i < |listed| && listed[i].id == clients[k].id)
  }

  ghost predicate ListPayload(clients: seq<Registry.Registered>, self: Bytes, payload: Bytes)
  {
    exists listed :: Lists(clients, self, listed) && payload == Responses.EncodeList(listed)
  }

  // ----- what the other answers hold -----

  /** The id asked for, and the first 160 bytes its hex column decodes to. */
  ghost predicate KeyPayload(clients: seq<Registry.Registered>, id: Bytes, payload: Bytes)
  {
    var row := FindClient(clients, id);
    && row.Some? && |row.value.publicKey| >= 2 * HexColumn.KEY_SIZE
    && payload == id + HexColumn.NibblePairs(row.value.publicKey, HexColumn.KEY_SIZE)
  }

  function SubmittedRow(request: Requests.Wrapper): MessageRow
    requires ProperRequest(request)
  {
    MessageRow(Recipient(request), request.id, request.sendMessage[32], HexColumn.Encode(request.content))
  }

  function Recipient(request: Requests.Wrapper): Bytes
    requires ProperRequest(request)
  {
    request.sendMessage[..Requests.ID_SIZE]
  }

  /** The message is stored under the id the allocator gives, and the reply
      names the recipient and that id in 32 bits. A larger id raises after the
      row is in. */
  ghost predicate Stores(request: Requests.Wrapper, pages: Pages, before: Messages, payload: Bytes,
                         pages': Pages, after: Messages, raised: bool)
    requires ProperRequest(request) && |pages| == PAGE_COUNT
  {
    if !(IsText(request.id) && IsText(Recipient(request))) then raised && after == before && pages' == pages
    else
      var added := AddMessageSpec(pages, before, SubmittedRow(request));
      && after == added.messages && pages' == added.pages
      && (raised <==> added.id.Raised? || added.id.value.None? || added.id.value.value >= TWO_32)
      && (!raised ==> payload == Recipient(request) + Le32(added.id.value.value))
  }

  // ----- which answers raise -----

  /** A row waits for the client that cannot be put in a reply. */
  ghost predicate HasUndeliverable(messages: Messages, client: Bytes)
  {
    exists id :: id in messages && messages[id].toClient == client && !Deliverable(id, messages[id])
  }

  predicate HasKey(clients: seq<Registry.Registered>, id: Bytes)
  {
    FindClient(clients, id).Some? && |FindClient(clients, id).value.publicKey| >= 2 * HexColumn.KEY_SIZE
  }

  /** The allocator has an id to give that is not taken and fits the reply. */
  predicate CanStore(pages: Pages, messages: Messages)
    requires |pages| == PAGE_COUNT
  {
    match Allocate(pages)
    case Raised(_) => false
    case Ok((id, _)) => id !in messages && id < TWO_32
  }

  /** The tables and the session's allocator around one answer. */
  datatype Moment = Moment(clients: seq<Registry.Registered>, before: Messages, after: Messages,
                           deletions: seq<Deletion>, pages: Pages, pages': Pages)

  /** The answer raises: an id that has to be read is not text, the id asked for
      has no key of full length, a row cannot be put in a reply, or the message
      gets no id. */
  ghost predicate Fails(clientId: Bytes, request: Requests.Wrapper, m: Moment)
    requires ProperRequest(request)
  {
    if request.code == Requests.GET_CLIENT_LIST then !IsText(clientId)
    else if request.code == Requests.GET_PUBLIC_KEY then
      IsText(request.getPublicKey) && !HasKey(m.clients, request.getPublicKey)
    else if request.code == Requests.GET_MESSAGES then
      !IsText(request.id) || HasUndeliverable(m.before, request.id)
    else if request.code == Requests.SEND_MESSAGE then
      || !IsText(request.id) || !IsText(Recipient(request))
      || (|m.pages| == PAGE_COUNT && !CanStore(m.pages, m.before))
    else false
  }

  /** What the answer to a request carries. */
  ghost predicate PayloadFits(clientId: Bytes, request: Requests.Wrapper, m: Moment, code: nat, payload: Bytes)
    requires ProperRequest(request)
  {
    if code == ERROR_CODE then payload == []
    else if request.code == Requests.REGISTRATION then payload == clientId
    else if request.code == Requests.GET_CLIENT_LIST then ListPayload(m.clients, clientId, payload)
    else if request.code == Requests.GET_PUBLIC_KEY then KeyPayload(m.clients, request.getPublicKey, payload)
    else if request.code == Requests.GET_MESSAGES then PollsAmid(m.before, request.id, payload, m.deletions, false)
    else |m.pages| == PAGE_COUNT && Stores(request, m.pages, m.before, payload, m.pages', m.after, false)
  }

  /** What is given to a session: its first request, what the peer delivers, the
      memory its wrappers start from, and the version and allocator it starts
      with. */
  datatype Script = Script(first: Requests.Wrapper, inbox: seq<Bytes>, memory: Requests.Memory,
                           version: byte, pages: Pages)

  /** A session's fields as a value. */
  datatype Machine = Machine(request: Requests.Wrapper, status: Status, version: byte, code: nat, payload: Bytes,
                             sent: seq<Reply>, pages: Pages)

  class ServerSession {
    const clientId: Bytes
    const sql: Sql
    var request: Requests.Wrapper
    var requestStatus: Status
    var active: bool
    var version: byte
    var code: nat
    var payload: Bytes
    var sent: seq<Reply>

    ghost predicate Valid()
      reads this, sql, sql.store, sql.idSync
    {
      sql.Valid() && |clientId| == Responses.ID_SIZE && code < TWO_16 && ProperIds(sql.store.clients)
    }

    function State(): Machine
      reads this, sql, sql.idSync, sql.idSync.freeMessageIds
    {
      Machine(request, requestStatus, version, code, payload, sent, sql.idSync.freeMessageIds[..])
    }

    /** A session starts with the request that opened it, ready to be answered. */
    constructor (clientId: Bytes, sql: Sql, request: Requests.Wrapper)
      requires sql.Valid() && |clientId| == Responses.ID_SIZE && ProperIds(sql.store.clients)
      ensures Valid() && this.clientId == clientId && this.sql == sql && this.request == request
      ensures requestStatus == Answering && active && sent == [] && version == 2
    {
      this.clientId, this.sql, this.request := clientId, sql, request;
      requestStatus, active, version, code, payload, sent := Answering, true, 2, 0, [], [];
    }

    // ----- recv -----

    /** Takes one delivery; no bytes mean the peer has gone. When the wrapper
        throws, the previous request is looked at again. The result tells
        whether parsing wrote past a struct. */
    method Recv(data: Bytes, memory: Requests.Memory) returns (undefined: bool)
      requires Valid() && requestStatus == Receiving && active && Requests.ValidMemory(memory)
      modifies this`request, this`requestStatus, this`active
      ensures undefined <==> data != [] && Requests.Parse(data, memory).Undefined?
      ensures active <==> data != []
      ensures State() == if active && !undefined then AfterRecv(old(State()), Requests.Parse(data, memory))
                         else old(State())
    {
      if |data| <= 0 {
        active := false;
        return false;
      }
      undefined := false;
      var outcome := Requests.ParseRequest(data, memory);
      match outcome {
        case Undefined =>
          return true;
        case Throws =>
          requestStatus := Bad;
        case Parsed(wrapper) =>
          request := wrapper;
      }
      if request.err != Requests.NoErr {
        requestStatus := Bad;
        return;
      }
      if Answerable(request.code) {
        requestStatus := Answering;
      } else {
        requestStatus := Bad;
      }
    }

    // ----- answer -----

    method AnswerRegistration() returns (raised: bool)
      requires Valid()
      modifies this`version, this`code, this`payload, this`requestStatus
      ensures Valid() && !raised
      ensures code == 2000 && version == request.version && payload == clientId && requestStatus == Sending
    {
      code := 2000;
      version := request.version;
      payload := clientId;
      requestStatus := Sending;
      raised := false;
    }

    /** The ids are taken from a set, in an order the source leaves open. The
        session's own id must read as text. */
    method AnswerClientList(memory: Bytes) returns (raised: bool)
      requires Valid() && |memory| >= Responses.NAME_SIZE
      modifies this`code, this`payload, this`requestStatus
      ensures Valid() && code == 2001
      ensures raised <==> !IsText(clientId)
      ensures !raised ==> requestStatus == Sending && ListPayload(sql.store.clients, clientId, payload)
    {
      raised := false;
      code := 2001;
      payload := [];
      if !IsText(clientId) {
        return true;
      }
      payload := ListClients(sql.store.clients, clientId, memory);
      requestStatus := Sending;
    }

    /** An id that is not text is answered with the error code. An unknown id,
        or a key column with too few digits, raises IndexError. */
    method AnswerPublicKey() returns (raised: bool)
      requires Valid() && |request.getPublicKey| == Responses.ID_SIZE
      modifies this`version, this`code, this`payload, this`requestStatus
      ensures Valid() && code == 2002 && version == request.version
      ensures !IsText(request.getPublicKey) ==> !raised && requestStatus == Bad
      ensures IsText(request.getPublicKey) ==>
                var row := FindClient(sql.store.clients, request.getPublicKey);
                && (raised <==> row.None? || |row.value.publicKey| < 2 * HexColumn.KEY_SIZE)
                && (!raised ==>
                      requestStatus == Sending && KeyPayload(sql.store.clients, request.getPublicKey, payload))
    {
      code := 2002;
      version := request.version;
      if !IsText(request.getPublicKey) {
        requestStatus := Bad;
        return false;
      }
      var row := FindClient(sql.store.clients, request.getPublicKey);
      if row.None? {
        return true;
      }
      var key := HexColumn.DecodePublicKey(row.value.publicKey);
      if key.Raised? {
        return true;
      }
      payload := request.getPublicKey + key.value;
      requestStatus := Sending;
      raised := false;
    }

    /** Appends one row's record to the payload, then deletes the row. */
    method PlaceRow(ids: seq<nat>, rows: seq<MessageRow>, i: nat, ghost deletions: seq<Deletion>)
      returns (ghost deletions': seq<Deletion>)
      requires Valid() && |rows| == |ids| && i < |ids| && Deliverable(ids[i], rows[i])
      requires PlacedSoFar(ids, rows, i, payload, deletions)
      modifies this`payload, sql.store
      ensures Valid() && PlacedSoFar(ids, rows, i + 1, payload, deletions')
    {
      payload := payload + Responses.EncodeRecord(RecordOf(ids[i], rows[i]));
      sql.store.Interfere();
      ghost var found := sql.store.messages;
      sql.DeleteMessage(ids[i]);
      deletions' := deletions + [Deletion(found, sql.store.messages)];
      PlacedNext(ids, rows, i, payload, deletions');
    }

    /** Reads the rows, then places and deletes them one by one, with statements
        of other sessions in between. */
    method AnswerMessages() returns (raised: bool, ghost deletions: seq<Deletion>)
      requires Valid()
      modifies this`code, this`payload, this`requestStatus, sql.store
      ensures Valid() && (IsText(request.id) ==> code == 2004)
      ensures if IsText(request.id)
              then PollsAmid(old(sql.store.messages), request.id, payload, deletions, raised)
              else raised && sql.store.messages == old(sql.store.messages)
      ensures !raised ==> requestStatus == Sending
    {
      deletions := [];
      if !IsText(request.id) {
        return true, [];
      }
      var ids, rows := sql.GetMessages(request.id);
      code := 2004;
      payload := [];
      ghost var read := sql.store.messages;
      PollStarts(read, request.id, ids, rows);
      var i := 0;
      while i < |ids|
        invariant 0 <= i <= |ids| && code == 2004 && Valid()
        invariant PlacedSoFar(ids, rows, i, payload, deletions)
      {
        if !Deliverable(ids[i], rows[i]) {
          PollEnds(read, request.id, ids, rows, i, payload, deletions);
          return true, deletions;
        }
        deletions := PlaceRow(ids, rows, i, deletions);
        i := i + 1;
      }
      PollEnds(read, request.id, ids, rows, i, payload, deletions);
      requestStatus := Sending;
      raised := false;
    }

    /** The row goes in before the reply's 32-bit id field can overflow. */
    method AnswerSendMessage() returns (raised: bool)
      requires Valid() && ProperRequest(request)
      modifies this`code, this`payload, this`requestStatus, sql.store`messages, sql.idSync.freeMessageIds
      ensures Valid() && code == 2003
      ensures Stores(request, old(sql.idSync.freeMessageIds[..]), old(sql.store.messages), payload,
                     sql.idSync.freeMessageIds[..], sql.store.messages, raised)
      ensures !raised ==> requestStatus == Sending
    {
      code := 2003;
      if !IsText(request.id) || !IsText(Recipient(request)) {
        return true;
      }
      var id := sql.AddMessage(SubmittedRow(request));
      if id.Raised? {
        return true;
      }
      if id.value.None? || id.value.value >= TWO_32 {
        return true;
      }
      payload := Recipient(request) + Le32(id.value.value);
      requestStatus := Sending;
      raised := false;
    }

    /** Dispatches on the request's code. Without an exception a reply is
        prepared that carries the request's code plus 1000, or the request is
        bad. Only polls and sends touch the message table. */
    method Answer(memory: Bytes) returns (raised: bool, ghost deletions: seq<Deletion>)
      requires Valid() && requestStatus == Answering && ProperRequest(request)
      requires |memory| >= Responses.NAME_SIZE
      modifies this`version, this`code, this`payload, this`requestStatus
      modifies sql.store, sql.idSync.freeMessageIds
      ensures Valid() && (!raised ==> Turn(Answering, requestStatus))
      ensures raised <==> Fails(clientId, request,
                                Moment(old(sql.store.clients), old(sql.store.messages), sql.store.messages, deletions,
                                       old(sql.idSync.freeMessageIds[..]), sql.idSync.freeMessageIds[..]))
      ensures !raised ==> requestStatus == if Granted(request) then Sending else Bad
      ensures !raised ==> version == if SetsVersion(request) then request.version else old(version)
      ensures !raised && Granted(request) ==>
                && code == request.code + REPLY_OFFSET
                && PayloadFits(clientId, request,
                               Moment(old(sql.store.clients), old(sql.store.messages), sql.store.messages, deletions,
                                      old(sql.idSync.freeMessageIds[..]), sql.idSync.freeMessageIds[..]),
                               code, payload)
      ensures request.code == Requests.GET_MESSAGES && IsText(request.id) ==>
                PollsAmid(old(sql.store.messages), request.id, payload, deletions, raised)
      ensures request.code == Requests.SEND_MESSAGE ==>
                Stores(request, old(sql.idSync.freeMessageIds[..]), old(sql.store.messages), payload,
                       sql.idSync.freeMessageIds[..], sql.store.messages, raised)
      ensures request.code != Requests.SEND_MESSAGE
              && !(request.code == Requests.GET_MESSAGES && IsText(request.id)) ==>
                sql.store.messages == old(sql.store.messages)
      ensures request.code != Requests.SEND_MESSAGE ==>
                sql.idSync.freeMessageIds[..] == old(sql.idSync.freeMessageIds[..])
      ensures request.code != Requests.GET_MESSAGES ==> sql.store.clients == old(sql.store.clients)
    {
      deletions := [];
      if request.code == Requests.REGISTRATION {
        raised := AnswerRegistration();
      } else if request.code == Requests.GET_CLIENT_LIST {
        raised := AnswerClientList(memory);
      } else if request.code == Requests.GET_PUBLIC_KEY {
        raised := AnswerPublicKey();
      } else if request.code == Requests.GET_MESSAGES {
        UndeliverableStops(sql.store.messages, request.id);
        raised, deletions := AnswerMessages();
      } else if request.code == Requests.SEND_MESSAGE {
        raised := AnswerSendMessage();
      } else {
        requestStatus := Bad;
        raised := false;
      }
    }

    // ----- bad and send -----

    method PrepareError()
      requires Valid() && requestStatus == Bad
      modifies this`code, this`payload, this`requestStatus
      ensures Valid() && Turn(Bad, requestStatus)
      ensures code == ERROR_CODE && payload == [] && requestStatus == Sending
    {
      code := ERROR_CODE;
      payload := [];
      requestStatus := Sending;
    }

    /** A payload too long for the 32-bit size field raises OverflowError. */
    method Send() returns (raised: bool)
      requires Valid() && requestStatus == Sending
      modifies this`requestStatus, this`sent
      ensures Valid() && (raised <==> |payload| >= TWO_32)
      ensures State() == if raised then old(State()) else AfterSend(old(State()))
    {
      if |payload| >= TWO_32 {
        return true;
      }
      sent := sent + [Reply(version, code, |payload|, payload)];
      requestStatus := Receiving;
      raised := false;
    }

    // ----- serv -----

    /** The loop's invariant. */
    ghost predicate Running(s: Script, taken: nat, moments: seq<Moment>, now: Moment)
      requires Requests.ValidMemory(s.memory)
      reads this, sql, sql.store, sql.idSync, sql.idSync.freeMessageIds
    {
      && Valid()
      && On(clientId, s, taken, moments, now, State())
      && (!active ==> requestStatus == Receiving && (taken == |s.inbox| || s.inbox[taken] == []))
    }

    method RecvTurn(s: Script, taken: nat, ghost moments: seq<Moment>, ghost now: Moment)
      returns (undefined: bool, taken': nat)
      requires Requests.ValidMemory(s.memory) && active && requestStatus == Receiving
      requires Running(s, taken, moments, now)
      modifies this`request, this`requestStatus, this`active
      ensures Running(s, taken', moments, now)
      ensures taken' == if active && !undefined then taken + 1 else taken
      ensures undefined ==> requestStatus == Receiving && taken < |s.inbox| && s.inbox[taken] != []
                            && Requests.Parse(s.inbox[taken], s.memory).Undefined?
    {
      ghost var before := State();
      var data := if taken < |s.inbox| then s.inbox[taken] else [];
      undefined := Recv(data, s.memory);
      taken' := taken;
      if active && !undefined {
        RecvOn(clientId, s, taken, moments, now, before, State());
        taken' := taken + 1;
      }
    }

    method AnswerTurn(names: Bytes, s: Script, taken: nat, ghost moments: seq<Moment>, ghost now: Moment)
      returns (raised: bool, ghost now': Moment)
      requires Requests.ValidMemory(s.memory) && active && requestStatus == Answering
      requires |names| >= Responses.NAME_SIZE
      requires Running(s, taken, moments, now)
      modifies this`version, this`code, this`payload, this`requestStatus
      modifies sql.store, sql.idSync.freeMessageIds
      ensures !raised ==> Running(s, taken, moments, now') && Turn(Answering, requestStatus)
      ensures raised ==> Stopped(clientId, s, taken, moments, now', sent, true)
    {
      ghost var before := State();
      ghost var clients, messages := sql.store.clients, sql.store.messages;
      ghost var deletions;
      raised, deletions := Answer(names);
      now' := Moment(clients, messages, sql.store.messages, deletions, before.pages, State().pages);
      if raised {
        AnswerStops(clientId, s, taken, moments, now, now', before);
      } else {
        AnswerOn(clientId, s, taken, moments, now, now', before, State());
      }
    }

    /** No table is looked at for the error reply. */
    method ErrorTurn(s: Script, taken: nat, ghost moments: seq<Moment>, ghost now: Moment)
      returns (ghost now': Moment)
      requires Requests.ValidMemory(s.memory) && active && requestStatus == Bad
      requires Running(s, taken, moments, now)
      modifies this`code, this`payload, this`requestStatus
      ensures Running(s, taken, moments, now') && Turn(Bad, requestStatus)
    {
      ghost var before := State();
      now' := Moment(sql.store.clients, sql.store.messages, sql.store.messages, [], before.pages, before.pages);
      PrepareError();
      ErrorOn(clientId, s, taken, moments, now, now', before, State());
    }

    method SendTurn(s: Script, taken: nat, ghost moments: seq<Moment>, ghost now: Moment)
      returns (raised: bool, ghost moments': seq<Moment>)
      requires Requests.ValidMemory(s.memory) && active && requestStatus == Sending
      requires Running(s, taken, moments, now)
      modifies this`requestStatus, this`sent
      ensures Running(s, taken, moments', now)
      ensures raised ==> moments' == moments && requestStatus == Sending && |payload| >= TWO_32
      ensures !raised ==> Turn(Sending, requestStatus)
    {
      ghost var before := State();
      raised := Send();
      moments' := moments;
      if !raised {
        moments' := SendOn(clientId, s, taken, moments, now, before, State());
      }
    }

    /** One turn, and what is left of it to count. */
    method TakeTurn(names: Bytes, s: Script, taken: nat, ghost moments: seq<Moment>, ghost now: Moment)
      returns (raised: bool, taken': nat, ghost moments': seq<Moment>, ghost now': Moment)
      requires Requests.ValidMemory(s.memory) && active && |names| >= Responses.NAME_SIZE
      requires Running(s, taken, moments, now)
      modifies this, sql.store, sql.idSync.freeMessageIds
      ensures !raised ==> Running(s, taken', moments', now') && taken' <= |s.inbox|
      ensures !raised && active ==>
                taken < taken' || (taken == taken' && Rank(requestStatus) < Rank(old(requestStatus)))
      ensures raised ==> taken' == taken && Stopped(clientId, s, taken', moments', now', sent, true)
    {
      raised, taken', moments', now' := false, taken, moments, now;
      match requestStatus
      case Receiving =>
        raised, taken' := RecvTurn(s, taken, moments, now);
        if raised {
          RecvStops(clientId, s, taken, moments, now, State());
        }
      case Answering =>
        raised, now' := AnswerTurn(names, s, taken, moments, now);
      case Bad =>
        now' := ErrorTurn(s, taken, moments, now);
      case Sending =>
        raised, moments' := SendTurn(s, taken, moments, now);
        if raised {
          SendStops(clientId, s, taken, moments, now, State());
        }
    }

    /** The thread: one turn of the state machine after another. Statements of
        other sessions run between the turns and between the statements of a
        poll; every other answer has just one statement on a shared table.
        `inbox` holds what the peer delivers, one whole request at a time; after
        it the peer is gone. The other results count the deliveries taken and
        record the tables around each answer, and around the one that failed. */
    method Serve(inbox: seq<Bytes>, memory: Requests.Memory, names: Bytes)
      returns (raised: bool, taken: nat, ghost moments: seq<Moment>, ghost last: Moment)
      requires Valid() && active && requestStatus == Answering && sent == []
      requires ProperRequest(request) && request.err == Requests.NoErr && Known(request.code)
      requires Requests.ValidMemory(memory) && |names| >= Responses.NAME_SIZE
      modifies this, sql.store, sql.idSync.freeMessageIds
      ensures Stopped(clientId,
                      Script(old(request), inbox, memory, old(version), old(sql.idSync.freeMessageIds[..])),
                      taken, moments, last, sent, raised)
    {
      var s := Script(request, inbox, memory, version, sql.idSync.freeMessageIds[..]);
      last := Moment([], map[], map[], [], [], []);
      taken, moments, raised := 0, [], false;
      while active
        invariant Running(s, taken, moments, last)
        decreases active, |inbox| - taken, Rank(requestStatus)
      {
        sql.store.Interfere();
        raised, taken, moments, last := TakeTurn(names, s, taken, moments, last);
        if raised {
          return;
        }
      }
      QuietEnd(clientId, s, taken, moments, last, State());
      raised := false;
    }
  }

  /** The loop over the client table: every id but the requester's, taken from a
      set in whatever order. */
  method ListClients(rows: seq<Registry.Registered>, self: Bytes, memory: Bytes)
    returns (payload: Bytes)
    requires ProperIds(rows) && |memory| >= Responses.NAME_SIZE
    ensures ListPayload(rows, self, payload)
  {
    payload := [];
    ghost var listed: seq<Responses.Listed> := [];
    var todo := ClientIdsOf(rows) - {self};
    while todo != {}
      invariant ListedSoFar(rows, self, todo, listed) && payload == Responses.EncodeList(listed)
      decreases |todo|
    {
      var id :| id in todo;
      ListedTurn(rows, self, todo, listed, id, memory);
      var entry := Responses.Listed(id, FindClient(rows, id).value.name, memory);
      listed := listed + [entry];
      payload := payload + Responses.EncodeListed(entry);
      todo := todo - {id};
    }
    ListedAll(rows, self, listed);
  }

  // ----- one turn of the polling loop -----

  ghost predicate PlacedSoFar(ids: seq<nat>, rows: seq<MessageRow>, n: nat, payload: Bytes, deletions: seq<Deletion>)
    requires |rows| == |ids|
  {
    && n <= |ids|
    && (forall i :: 0 <= i < n ==> Deliverable(ids[i], rows[i]))
    && payload == Responses.EncodeBatch(RecordsOf(ids, rows, n))
    && |deletions| == n
    && (forall i :: 0 <= i < n ==> deletions[i].after == deletions[i].before - {ids[i]})
  }

  lemma PlacedNext(ids: seq<nat>, rows: seq<MessageRow>, n: nat, payload: Bytes, deletions: seq<Deletion>)
    requires |rows| == |ids| && n < |ids| && Deliverable(ids[n], rows[n]) && |deletions| == n + 1
    requires forall i :: 0 <= i < n ==> Deliverable(ids[i], rows[i])
    requires payload
             == Responses.EncodeBatch(RecordsOf(ids, rows, n)) + Responses.EncodeRecord(RecordOf(ids[n], rows[n]))
    requires forall i :: 0 <= i <= n ==> deletions[i].after == deletions[i].before - {ids[i]}
    ensures PlacedSoFar(ids, rows, n + 1, payload, deletions)
  {
    Responses.BatchGrows(RecordsOf(ids, rows, n), RecordOf(ids[n], rows[n]));
    assert RecordsOf(ids, rows, n + 1) == RecordsOf(ids, rows, n) + [RecordOf(ids[n], rows[n])];
  }

  ghost predicate RowsRead(read: Messages, client: Bytes, ids: seq<nat>, rows: seq<MessageRow>)
  {
    && ids == IdsTo(read, client) && |rows| == |ids|
    && (forall i :: 0 <= i < |ids| ==> ids[i] in read)
    && rows == RowsAt(read, ids)
  }

  lemma PollStarts(read: Messages, client: Bytes, ids: seq<nat>, rows: seq<MessageRow>)
    requires ids == IdsTo(read, client) && |rows| == |ids|
    requires forall i :: 0 <= i < |ids| ==> ids[i] in read && rows[i] == read[ids[i]]
    ensures RowsRead(read, client, ids, rows)
    ensures PlacedSoFar(ids, rows, 0, [], [])
  {
    assert RecordsOf(ids, rows, 0) == [];
  }

  lemma PollEnds(read: Messages, client: Bytes, ids: seq<nat>, rows: seq<MessageRow>, n: nat,
                 payload: Bytes, deletions: seq<Deletion>)
    requires |rows| == |ids| && RowsRead(read, client, ids, rows)
    requires PlacedSoFar(ids, rows, n, payload, deletions)
    requires n < |ids| ==> !Deliverable(ids[n], rows[n])
    ensures PollsAmid(read, client, payload, deletions, n < |ids|)
  {
    PlaceableIs(ids, rows, n);
    var placed := PlacedIds(read, client);
    assert placed == ids[..n];
    assert RecordsOf(placed, RowsAt(read, placed), |placed|) == RecordsOf(ids, rows, n);
  }

  /** The first row a poll does not place is undeliverable. */
  lemma StopsAt(read: Messages, client: Bytes)
    requires |PlacedIds(read, client)| < |IdsTo(read, client)|
    ensures HasUndeliverable(read, client)
  {
    var all := IdsTo(read, client);
    assert forall i :: 0 <= i < |all| ==> all[i] in all;
    var n := Placeable(all, RowsAt(read, all));
    assert !Deliverable(all[n], read[all[n]]);
  }

  /** A poll places all rows exactly when none is undeliverable. */
  lemma UndeliverableStops(read: Messages, client: Bytes)
    ensures |PlacedIds(read, client)| < |IdsTo(read, client)| <==> HasUndeliverable(read, client)
  {
    if |PlacedIds(read, client)| < |IdsTo(read, client)| {
      StopsAt(read, client);
    } else {
      assert PlacedIds(read, client) == IdsTo(read, client);
      assert forall id :: id in read && read[id].toClient == client ==> id in PlacedIds(read, client);
    }
  }

  lemma {:induction false} ChainDeletes(start: Messages, ids: seq<nat>, deletions: seq<Deletion>, end: Messages)
    requires |deletions| == |ids| && Chained(start, deletions, end)
    requires forall i :: 0 <= i < |ids| ==> deletions[i].after == deletions[i].before - {ids[i]}
    ensures end == start - IdSet(ids)
  {
    if ids == [] {
      assert IdSet(ids) == {};
    } else {
      assert forall i :: 0 <= i < |ids| - 1 ==> deletions[1..][i] == deletions[i + 1] && ids[1..][i] == ids[i + 1];
      ChainDeletes(deletions[0].after, ids[1..], deletions[1..], end);
      HeadId(ids);
    }
  }

  /** With nothing in between, exactly the placed rows are gone. */
  lemma UndisturbedPoll(read: Messages, client: Bytes, payload: Bytes, deletions: seq<Deletion>, raised: bool,
                        end: Messages)
    requires PollsAmid(read, client, payload, deletions, raised) && Chained(read, deletions, end)
    ensures Polls(read, client, payload, end, raised)
  {
    ChainDeletes(read, PlacedIds(read, client), deletions, end);
  }

  // ----- one turn of the listing loop -----

  ghost predicate ListedSoFar(rows: seq<Registry.Registered>, self: Bytes, todo: set<Bytes>,
                              listed: seq<Responses.Listed>)
  {
    var all := ClientIdsOf(rows) - {self};
    && ProperIds(rows)
    && Responses.ValidList(listed)
    && todo <= all
    && (forall i :: 0 <= i < |listed| ==> listed[i].id in all - todo)
    && (forall i, j :: 0 <= i < j < |listed| ==> listed[i].id != listed[j].id)
    && (forall i :: 0 <= i < |listed| ==>
          && FindClient(rows, listed[i].id).Some?
          && listed[i].name == FindClient(rows, listed[i].id).value.name)
    && (forall id :: id in all - todo ==> IsListed(listed, id))
  }

  ghost predicate IsListed(listed: seq<Responses.Listed>, id: Bytes)
  {
    exists i :: 0 <= i < |listed| && listed[i].id == id
  }

  lemma ListedNext(rows: seq<Registry.Registered>, self: Bytes, todo: set<Bytes>,
                   listed: seq<Responses.Listed>, entry: Responses.Listed)
    requires ListedSoFar(rows, self, todo, listed)
    requires entry.id in todo && Responses.ValidListed(entry)
    requires FindClient(rows, entry.id).Some? && entry.name == FindClient(rows, entry.id).value.name
    ensures ListedSoFar(rows, self, todo - {entry.id}, listed + [entry])
    ensures Responses.EncodeList(listed + [entry]) == Responses.EncodeList(listed) + Responses.EncodeListed(entry)
  {
    var longer := listed + [entry];
    assert longer[..|longer| - 1] == listed;
    var all := ClientIdsOf(rows) - {self};
    forall id | id in all - (todo - {entry.id})
      ensures IsListed(longer, id)
    {
      if id == entry.id {
        assert longer[|listed|].id == id;
      } else {
        assert IsListed(listed, id);
        var i :| 0 <= i < |listed| && listed[i].id == id;
        assert longer[i].id == id;
      }
    }
  }

  lemma ListedTurn(rows: seq<Registry.Registered>, self: Bytes, todo: set<Bytes>,
                   listed: seq<Responses.Listed>, id: Bytes, memory: Bytes)
    requires ListedSoFar(rows, self, todo, listed) && id in todo && |memory| >= Responses.NAME_SIZE
    ensures FindClient(rows, id).Some?
    ensures var entry := Responses.Listed(id, FindClient(rows, id).value.name, memory);
            && Responses.ValidListed(entry)
            && ListedSoFar(rows, self, todo - {id}, listed + [entry])
            && Responses.EncodeList(listed + [entry]) == Responses.EncodeList(listed) + Responses.EncodeListed(entry)
  {
    ListedId(rows, id);
    ListedNext(rows, self, todo, listed, Responses.Listed(id, FindClient(rows, id).value.name, memory));
  }

  lemma ListedAll(rows: seq<Registry.Registered>, self: Bytes, listed: seq<Responses.Listed>)
    requires ListedSoFar(rows, self, {}, listed)
    ensures Lists(rows, self, listed)
  {
    forall k | 0 <= k < |rows| && rows[k].id != self
      ensures exists i :: 0 <= i < |listed| && listed[i].id == rows[k].id
    {
      assert rows[k].id in ClientIdsOf(rows) - {self};
      assert IsListed(listed, rows[k].id);
    }
  }

  lemma ListedId(rows: seq<Registry.Registered>, id: Bytes)
    requires ProperIds(rows) && id in ClientIdsOf(rows)
    ensures FindClient(rows, id).Some?
    ensures |id| == Responses.ID_SIZE && id[0] != 0
  {
    var i :| 0 <= i < |rows| && rows[i].id == id;
  }

  lemma {:induction false} PlaceableIs(ids: seq<nat>, rows: seq<MessageRow>, n: nat)
    requires |rows| == |ids| && n <= |ids|
    requires forall i :: 0 <= i < n ==> Deliverable(ids[i], rows[i])
    requires n < |ids| ==> !Deliverable(ids[n], rows[n])
    ensures Placeable(ids, rows) == n
  {
  }

  // ----- which request is in force -----

  /** A wrapper that throws leaves the previous request in force. */
  function InForce(previous: Requests.Wrapper, outcome: Requests.Outcome): Requests.Wrapper
  {
    if outcome.Parsed? then outcome.wrapper else previous
  }

  function StatusFor(request: Requests.Wrapper): Status
  {
    if request.err == Requests.NoErr && Answerable(request.code) then Answering else Bad
  }

  /** Structs of the declared sizes, which is how every wrapper is built. */
  predicate ProperRequest(w: Requests.Wrapper)
  {
    && |w.registration| == Requests.REGISTRATION_SIZE
    && |w.getPublicKey| == Requests.ID_SIZE
    && |w.sendMessage| == Requests.SEND_SIZE
  }

  /** The request in force after the first n deliveries. */
  function InForceAt(first: Requests.Wrapper, inbox: seq<Bytes>, memory: Requests.Memory, n: nat): Requests.Wrapper
    requires n <= |inbox| && Requests.ValidMemory(memory)
  {
    if n == 0 then first
    else InForce(InForceAt(first, inbox, memory, n - 1), Requests.Parse(inbox[n - 1], memory))
  }

  lemma InForceNext(first: Requests.Wrapper, inbox: seq<Bytes>, memory: Requests.Memory, n: nat)
    requires n < |inbox| && Requests.ValidMemory(memory)
    requires ProperRequest(InForceAt(first, inbox, memory, n))
    ensures InForceAt(first, inbox, memory, n + 1)
            == InForce(InForceAt(first, inbox, memory, n), Requests.Parse(inbox[n], memory))
    ensures ProperRequest(InForceAt(first, inbox, memory, n + 1))
  {
  }

  predicate Known(code: nat)
  {
    code == Requests.REGISTRATION || Answerable(code)
  }

  /** A request the dispatch prepares an answer for. */
  predicate Granted(request: Requests.Wrapper)
  {
    Known(request.code) && (request.code == Requests.GET_PUBLIC_KEY ==> IsText(request.getPublicKey))
  }

  /** The code of the reply to the n-th request. Only the request that opens the
      session can be a registration. */
  function ReplyCode(request: Requests.Wrapper, n: nat): nat
  {
    if request.err == Requests.NoErr && Granted(request) && (n > 0 ==> Answerable(request.code))
    then request.code + REPLY_OFFSET
    else ERROR_CODE
  }

  /** Answers to these take over the request's version. */
  predicate SetsVersion(request: Requests.Wrapper)
  {
    request.code == Requests.REGISTRATION || request.code == Requests.GET_PUBLIC_KEY
  }

  /** The version of the reply to the n-th request, in a session whose first
      version is `start`. */
  function VersionAt(start: byte, first: Requests.Wrapper, inbox: seq<Bytes>, memory: Requests.Memory, n: nat): byte
    requires n <= |inbox| && Requests.ValidMemory(memory)
    decreases n, 1
  {
    var request := InForceAt(first, inbox, memory, n);
    if Owed(request, n) && SetsVersion(request) then request.version
    else VersionBefore(start, first, inbox, memory, n)
  }

  function VersionBefore(start: byte, first: Requests.Wrapper, inbox: seq<Bytes>, memory: Requests.Memory, n: nat)
    : byte
    requires n <= |inbox| && Requests.ValidMemory(memory)
    decreases n, 0
  {
    if n == 0 then start else VersionAt(start, first, inbox, memory, n - 1)
  }

  /** Every reply carries its version. */
  ghost predicate Versioned(start: byte, first: Requests.Wrapper, inbox: seq<Bytes>, memory: Requests.Memory,
                            sent: seq<Reply>)
    requires Requests.ValidMemory(memory)
  {
    && |sent| <= |inbox| + 1
    && forall k :: 0 <= k < |sent| ==> sent[k].version == VersionAt(start, first, inbox, memory, k)
  }

  /** The allocator as the last answer left it. */
  function LastPages(start: Pages, moments: seq<Moment>): Pages
  {
    if moments == [] then start else moments[|moments| - 1].pages'
  }

  /** Each answer finds the session's allocator as the one before left it. */
  ghost predicate PagesFlow(start: Pages, moments: seq<Moment>)
  {
    forall k :: 0 <= k < |moments| ==> moments[k].pages == LastPages(start, moments[..k])
  }

  lemma PagesFlowOn(start: Pages, moments: seq<Moment>, m: Moment)
    requires PagesFlow(start, moments) && m.pages == LastPages(start, moments)
    ensures PagesFlow(start, moments + [m]) && LastPages(start, moments + [m]) == m.pages'
  {
    var moments' := moments + [m];
    forall k | 0 <= k < |moments'|
      ensures moments'[k].pages == LastPages(start, moments'[..k])
    {
      assert moments'[..k] == moments[..k];
      assert k == |moments| ==> moments[..k] == moments;
    }
  }

  // ----- one turn of the machine -----

  /** What has been taken and answered so far. */
  ghost predicate Past(clientId: Bytes, s: Script, taken: nat, moments: seq<Moment>, sent: seq<Reply>)
    requires Requests.ValidMemory(s.memory)
  {
    && Delivered(s.inbox, s.memory, taken)
    && Answered(clientId, s.first, s.inbox, s.memory, moments, sent)
    && Versioned(s.version, s.first, s.inbox, s.memory, sent)
    && PagesFlow(s.pages, moments)
  }

  /** Which request is in force and what the current state still owes. */
  ghost predicate Present(clientId: Bytes, s: Script, taken: nat, moments: seq<Moment>, now: Moment, m: Machine)
    requires Requests.ValidMemory(s.memory) && taken <= |s.inbox|
  {
    && m.request == InForceAt(s.first, s.inbox, s.memory, taken) && ProperRequest(m.request)
    && |m.sent| == (if m.status == Receiving then taken + 1 else taken)
    && Pending(clientId, m.request, taken, m.status, now, m.code, m.payload)
    && m.version == (if m.status == Answering then VersionBefore(s.version, s.first, s.inbox, s.memory, taken)
                     else VersionAt(s.version, s.first, s.inbox, s.memory, taken))
    && (if m.status == Sending then now.pages == LastPages(s.pages, moments) && m.pages == now.pages'
        else m.pages == LastPages(s.pages, moments))
  }

  ghost predicate On(clientId: Bytes, s: Script, taken: nat, moments: seq<Moment>, now: Moment, m: Machine)
    requires Requests.ValidMemory(s.memory)
  {
    Past(clientId, s, taken, moments, m.sent) && Present(clientId, s, taken, moments, now, m)
  }

  lemma PastTakes(clientId: Bytes, s: Script, taken: nat, moments: seq<Moment>, sent: seq<Reply>)
    requires Requests.ValidMemory(s.memory) && Past(clientId, s, taken, moments, sent)
    requires taken < |s.inbox| && s.inbox[taken] != [] && !Requests.Parse(s.inbox[taken], s.memory).Undefined?
    ensures Past(clientId, s, taken + 1, moments, sent)
  {
  }

  /** A bad delivery does not change the version. */
  lemma VersionStays(s: Script, n: nat)
    requires Requests.ValidMemory(s.memory) && n < |s.inbox|
    requires !Owed(InForceAt(s.first, s.inbox, s.memory, n + 1), n + 1)
    ensures VersionAt(s.version, s.first, s.inbox, s.memory, n + 1)
            == VersionAt(s.version, s.first, s.inbox, s.memory, n)
  {
  }

  function AfterRecv(m: Machine, outcome: Requests.Outcome): Machine
  {
    m.(request := InForce(m.request, outcome), status := StatusFor(InForce(m.request, outcome)))
  }

  lemma RecvOn(clientId: Bytes, s: Script, taken: nat, moments: seq<Moment>, now: Moment, m: Machine, m': Machine)
    requires Requests.ValidMemory(s.memory) && On(clientId, s, taken, moments, now, m) && m.status == Receiving
    requires taken < |s.inbox| && s.inbox[taken] != [] && !Requests.Parse(s.inbox[taken], s.memory).Undefined?
    requires m' == AfterRecv(m, Requests.Parse(s.inbox[taken], s.memory))
    ensures On(clientId, s, taken + 1, moments, now, m')
  {
    PastTakes(clientId, s, taken, moments, m.sent);
    InForceNext(s.first, s.inbox, s.memory, taken);
    if m'.status == Bad {
      VersionStays(s, taken);
    }
  }

  lemma AnswerOn(clientId: Bytes, s: Script, taken: nat, moments: seq<Moment>, now: Moment, now': Moment,
                 m: Machine, m': Machine)
    requires Requests.ValidMemory(s.memory) && On(clientId, s, taken, moments, now, m) && m.status == Answering
    requires m' == m.(status := if Granted(m.request) then Sending else Bad, code := m'.code, payload := m'.payload,
                      version := if SetsVersion(m.request) then m.request.version else m.version, pages := m'.pages)
    requires now'.pages == m.pages && now'.pages' == m'.pages
    requires !Fails(clientId, m.request, now') && (m.request.code != Requests.SEND_MESSAGE ==> m'.pages == m.pages)
    requires Granted(m.request) ==>
               && m'.code == m.request.code + REPLY_OFFSET
               && PayloadFits(clientId, m.request, now', m'.code, m'.payload)
    ensures On(clientId, s, taken, moments, now', m')
  {
    AnswerOwes(clientId, m.request, taken, now', m'.code, m'.payload);
  }

  lemma AnswerOwes(clientId: Bytes, request: Requests.Wrapper, n: nat, m: Moment, code: nat, payload: Bytes)
    requires ProperRequest(request) && Owed(request, n) && !Fails(clientId, request, m)
    requires Granted(request) ==>
               code == request.code + REPLY_OFFSET && PayloadFits(clientId, request, m, code, payload)
    ensures Pending(clientId, request, n, if Granted(request) then Sending else Bad, m, code, payload)
  {
  }

  lemma ErrorOn(clientId: Bytes, s: Script, taken: nat, moments: seq<Moment>, now: Moment, now': Moment,
                m: Machine, m': Machine)
    requires Requests.ValidMemory(s.memory) && On(clientId, s, taken, moments, now, m) && m.status == Bad
    requires m' == m.(status := Sending, code := ERROR_CODE, payload := [])
    requires now'.pages == now'.pages' == m.pages
    ensures On(clientId, s, taken, moments, now', m')
  {
  }

  function AfterSend(m: Machine): Machine
  {
    m.(status := Receiving, sent := m.sent + [Reply(m.version, m.code, |m.payload|, m.payload)])
  }

  lemma SendPast(clientId: Bytes, s: Script, taken: nat, moments: seq<Moment>, now: Moment, sent: seq<Reply>,
                 reply: Reply)
    requires Requests.ValidMemory(s.memory) && Past(clientId, s, taken, moments, sent) && |sent| == taken
    requires ReplyFits(clientId, InForceAt(s.first, s.inbox, s.memory, taken), taken, now, reply)
    requires reply.version == VersionAt(s.version, s.first, s.inbox, s.memory, taken)
    requires now.pages == LastPages(s.pages, moments)
    ensures Past(clientId, s, taken, moments + [now], sent + [reply])
  {
    AnsweredNext(clientId, s.first, s.inbox, s.memory, moments, sent, now, reply);
    PagesFlowOn(s.pages, moments, now);
  }

  lemma SendOn(clientId: Bytes, s: Script, taken: nat, moments: seq<Moment>, now: Moment, m: Machine, m': Machine)
    returns (moments': seq<Moment>)
    requires Requests.ValidMemory(s.memory) && On(clientId, s, taken, moments, now, m) && m.status == Sending
    requires m.code < TWO_16 && |m.payload| < TWO_32 && m' == AfterSend(m)
    ensures On(clientId, s, taken, moments', now, m')
  {
    moments' := moments + [now];
    SendPast(clientId, s, taken, moments, now, m.sent, Reply(m.version, m.code, |m.payload|, m.payload));
    PagesFlowOn(s.pages, moments, now);
  }

  // ----- the end of a session -----

  lemma RecvStops(clientId: Bytes, s: Script, taken: nat, moments: seq<Moment>, now: Moment, m: Machine)
    requires Requests.ValidMemory(s.memory) && On(clientId, s, taken, moments, now, m) && m.status == Receiving
    requires taken < |s.inbox| && s.inbox[taken] != [] && Requests.Parse(s.inbox[taken], s.memory).Undefined?
    ensures Stopped(clientId, s, taken, moments, now, m.sent, true)
  {
  }

  lemma AnswerStops(clientId: Bytes, s: Script, taken: nat, moments: seq<Moment>, now: Moment, now': Moment,
                    m: Machine)
    requires Requests.ValidMemory(s.memory) && On(clientId, s, taken, moments, now, m) && m.status == Answering
    requires now'.pages == m.pages && Fails(clientId, m.request, now')
    ensures Stopped(clientId, s, taken, moments, now', m.sent, true)
  {
  }

  /** A payload that does not fit belongs to an answer, for the error code has
      none. */
  lemma TooLong(clientId: Bytes, request: Requests.Wrapper, n: nat, m: Moment, code: nat, payload: Bytes)
    requires ProperRequest(request) && Pending(clientId, request, n, Sending, m, code, payload)
    requires |payload| >= TWO_32
    ensures Unanswerable(clientId, request, n, m)
  {
  }

  lemma SendStops(clientId: Bytes, s: Script, taken: nat, moments: seq<Moment>, now: Moment, m: Machine)
    requires Requests.ValidMemory(s.memory) && On(clientId, s, taken, moments, now, m) && m.status == Sending
    requires |m.payload| >= TWO_32
    ensures Stopped(clientId, s, taken, moments, now, m.sent, true)
  {
    TooLong(clientId, m.request, taken, now, m.code, m.payload);
  }

  lemma QuietEnd(clientId: Bytes, s: Script, taken: nat, moments: seq<Moment>, now: Moment, m: Machine)
    requires Requests.ValidMemory(s.memory) && On(clientId, s, taken, moments, now, m) && m.status == Receiving
    requires taken == |s.inbox| || s.inbox[taken] == []
    ensures Stopped(clientId, s, taken, moments, now, m.sent, false)
  {
  }

  /** The first deliveries are there, and none is written past a struct. */
  ghost predicate Delivered(inbox: seq<Bytes>, memory: Requests.Memory, taken: nat)
    requires Requests.ValidMemory(memory)
  {
    && taken <= |inbox|
    && forall k :: 0 <= k < taken ==> inbox[k] != [] && !Requests.Parse(inbox[k], memory).Undefined?
  }

  /** The n-th request cannot be answered: its answer raises, or the payload does
      not fit its size field. */
  ghost predicate Unanswerable(clientId: Bytes, request: Requests.Wrapper, n: nat, m: Moment)
  {
    && ProperRequest(request) && Owed(request, n)
    && (Fails(clientId, request, m)
        || exists payload :: |payload| >= TWO_32
                             && PayloadFits(clientId, request, m, ReplyCode(request, n), payload))
  }

  /** How a session ends. When all it took is answered, the next delivery ends it:
      quietly when the peer is gone, and otherwise only by a write past a struct.
      When not, the request in force could not be answered. */
  ghost predicate Ends(clientId: Bytes, first: Requests.Wrapper, inbox: seq<Bytes>, memory: Requests.Memory,
                       taken: nat, answered: nat, last: Moment, raised: bool)
    requires Requests.ValidMemory(memory) && taken <= |inbox|
  {
    if answered == taken + 1 then
      if taken == |inbox| || inbox[taken] == [] then !raised
      else raised && Requests.Parse(inbox[taken], memory).Undefined?
    else
      answered == taken && raised && Unanswerable(clientId, InForceAt(first, inbox, memory, taken), taken, last)
  }

  /** All that a session did and how it ended. */
  ghost predicate Stopped(clientId: Bytes, s: Script, taken: nat, moments: seq<Moment>, last: Moment,
                          sent: seq<Reply>, raised: bool)
    requires Requests.ValidMemory(s.memory)
  {
    && Past(clientId, s, taken, moments, sent)
    && (|sent| == taken ==> last.pages == LastPages(s.pages, moments))
    && Ends(clientId, s.first, s.inbox, s.memory, taken, |sent|, last, raised)
  }

  ghost predicate ReplyFits(clientId: Bytes, request: Requests.Wrapper, n: nat, m: Moment, reply: Reply)
  {
    && ProperRequest(request)
    && WellSized(reply)
    && reply.code == ReplyCode(request, n)
    && (Owed(request, n) ==> !Fails(clientId, request, m))
    && PayloadFits(clientId, request, m, reply.code, reply.payload)
  }

  /** Reply k answers the request in force after k deliveries, with the code and
      the payload that request calls for. */
  ghost predicate Answered(clientId: Bytes, first: Requests.Wrapper, inbox: seq<Bytes>, memory: Requests.Memory,
                           moments: seq<Moment>, sent: seq<Reply>)
    requires Requests.ValidMemory(memory)
  {
    && |sent| == |moments| <= |inbox| + 1
    && forall k :: 0 <= k < |sent| ==>
         ReplyFits(clientId, InForceAt(first, inbox, memory, k), k, moments[k], sent[k])
  }

  lemma AnsweredNext(clientId: Bytes, first: Requests.Wrapper, inbox: seq<Bytes>, memory: Requests.Memory,
                     moments: seq<Moment>, sent: seq<Reply>, m: Moment, reply: Reply)
    requires Requests.ValidMemory(memory) && Answered(clientId, first, inbox, memory, moments, sent)
    requires |sent| <= |inbox| && ReplyFits(clientId, InForceAt(first, inbox, memory, |sent|), |sent|, m, reply)
    ensures Answered(clientId, first, inbox, memory, moments + [m], sent + [reply])
  {
    var moments', sent' := moments + [m], sent + [reply];
    forall k | 0 <= k < |sent'|
      ensures ReplyFits(clientId, InForceAt(first, inbox, memory, k), k, moments'[k], sent'[k])
    {
      assert k < |sent| ==> moments'[k] == moments[k] && sent'[k] == sent[k];
    }
  }

  /** A request the machine goes on to answer. */
  predicate Owed(request: Requests.Wrapper, n: nat)
  {
    request.err == Requests.NoErr && Known(request.code) && (n > 0 ==> Answerable(request.code))
  }

  /** What the machine still owes the n-th request, state by state. */
  ghost predicate Pending(clientId: Bytes, request: Requests.Wrapper, n: nat, status: Status,
                          m: Moment, code: nat, payload: Bytes)
    requires ProperRequest(request)
  {
    match status
    case Receiving => true
    case Answering => Owed(request, n)
    case Bad => ReplyCode(request, n) == ERROR_CODE
    case Sending =>
      && code == ReplyCode(request, n)
      && (Owed(request, n) ==> !Fails(clientId, request, m))
      && PayloadFits(clientId, request, m, code, payload)
  }

  /** Turns left before the machine receives again. */
  function Rank(s: Status): nat
  {
    match s
    case Answering => 3
    case Bad => 2
    case Sending => 1
    case Receiving => 0
  }

  /** The turns the machine takes when it is not receiving. */
  predicate Turn(s: Status, next: Status)
  {
    match s
    case Answering => next == Sending || next == Bad
    case Bad => next == Sending
    case Sending => next == Receiving
    case Receiving => false
  }

  /** From any other state the machine receives again within three turns. */
  lemma ReceivesWithinThree(path: seq<Status>)
    requires |path| == 4
    requires forall i :: 0 <= i < 3 && path[i] != Receiving ==> Turn(path[i], path[i + 1])
    ensures exists i :: 0 <= i < 4 && path[i] == Receiving
  {
    assert path[0] != Receiving ==> Turn(path[0], path[1]);
    assert path[1] != Receiving ==> Turn(path[1], path[2]);
    assert path[2] != Receiving ==> Turn(path[2], path[3]);
    assert path[0] == Receiving || path[1] == Receiving || path[2] == Receiving || path[3] == Receiving;
  }

  /** A delivery that parses is answered by its own code plus 1000 or by the
      error code. One on which the wrapper throws is answered, once more, as the
      request before it; a registration, which only opens a session, is then
      answered by the error code. */
  lemma ReplyCodes(first: Requests.Wrapper, inbox: seq<Bytes>, memory: Requests.Memory, n: nat)
    requires n < |inbox| && Requests.ValidMemory(memory)
    ensures var outcome := Requests.Parse(inbox[n], memory);
            var previous := InForceAt(first, inbox, memory, n);
            var code := ReplyCode(InForceAt(first, inbox, memory, n + 1), n + 1);
            && (outcome.Parsed? ==>
                  code == if outcome.wrapper.err == Requests.NoErr && Answerable(outcome.wrapper.code)
                             && Granted(outcome.wrapper)
                          then outcome.wrapper.code + REPLY_OFFSET else ERROR_CODE)
            && (outcome.Throws? ==>
                  code == if previous.code == Requests.REGISTRATION then ERROR_CODE else ReplyCode(previous, n))
  {
  }

  // ----- bytes end to end -----

  /** What the polling client's walk gets from a poll's payload: the placed rows
      in id order, sender, type and decoded content. */
  lemma PollReadsBack(read: Messages, client: Bytes, payload: Bytes, raised: bool)
    requires PollReads(read, client, payload, raised)
    ensures var ids := PlacedIds(read, client);
            var walk := Responses.Walk(payload, 0);
            && walk.Some? && |walk.value| == |ids| && (raised <==> |ids| < |IdsTo(read, client)|)
            && forall i :: 0 <= i < |ids| ==>
                 && walk.value[i].from == read[ids[i]].fromClient
                 && walk.value[i].kind == read[ids[i]].kind
                 && HexColumn.Decode(read[ids[i]].content) == Ok(walk.value[i].content)
  {
    var ids := PlacedIds(read, client);
    Responses.BatchRoundTrip(RecordsOf(ids, RowsAt(read, ids), |ids|));
  }

  lemma RecordCarriesId(ids: seq<nat>, rows: seq<MessageRow>, i: nat) returns (p: nat)
    requires |rows| == |ids| && i < |ids| && forall k :: 0 <= k < |ids| ==> Deliverable(ids[k], rows[k])
    ensures var payload := Responses.EncodeBatch(RecordsOf(ids, rows, |ids|));
            && p + Responses.RECORD_SIZE <= |payload|
            && payload[p..p + 32] == rows[i].fromClient && FromLe32(payload[p + 32..p + 36]) == ids[i]
  {
    var rs := RecordsOf(ids, rows, |ids|);
    assert rs[i] == RecordOf(ids[i], rows[i]);
    p := Responses.OffsetOf(rs, i);
    Responses.IdLiesAt(rs, i, Responses.EncodeBatch(rs), p);
  }

  /** The record of each placed row also carries its id. */
  lemma PollCarriesIds(read: Messages, client: Bytes, payload: Bytes, raised: bool, i: nat) returns (p: nat)
    requires PollReads(read, client, payload, raised) && i < |PlacedIds(read, client)|
    ensures p + Responses.RECORD_SIZE <= |payload|
    ensures payload[p..p + 32] == read[PlacedIds(read, client)[i]].fromClient
    ensures FromLe32(payload[p + 32..p + 36]) == PlacedIds(read, client)[i]
  {
    var ids := PlacedIds(read, client);
    p := RecordCarriesId(ids, RowsAt(read, ids), i);
  }

  /** The column a sent content is stored in decodes to that content, so a
      message comes out of a poll as it went in. */
  lemma StoredContentReadsBack(content: Bytes, row: MessageRow, id: nat)
    requires row.content == HexColumn.Encode(content)
    requires |row.fromClient| == Responses.ID_SIZE && |content| < TWO_32
    ensures Deliverable(id, row) <==> id < TWO_32
    ensures Deliverable(id, row) ==> RecordOf(id, row) == Responses.Record(row.fromClient, id, row.kind, content)
  {
    HexColumn.DecodeInvertsEncode(content);
  }

  /** A reply's bytes give back its version, code, size and payload. */
  lemma ReplyReadsBack(r: Reply)
    requires WellSized(r)
    ensures |Wire(r)| == Responses.HEADER_SIZE + r.payloadSize + |Framing.END_OF_PACKET|
    ensures Wire(r)[0] == r.version
    ensures FromLe16(Wire(r)[2..4]) == r.code
    ensures FromLe32(Wire(r)[4..8]) == r.payloadSize
    ensures Wire(r)[8..8 + r.payloadSize] == r.payload
  {
    var rest := r.payload + Framing.END_OF_PACKET;
    Responses.HeaderReadsBack(r.version, r.code, r.payloadSize, rest);
    assert Wire(r) == Responses.Header(r.version, r.code, r.payloadSize) + rest;
    assert Wire(r)[8..8 + r.payloadSize] == rest[..r.payloadSize];
  }

  /** The client's size check accepts a reply exactly when the marker does not
      occur inside its header and payload. */
  lemma ReplyIsMeasured(r: Reply)
    requires WellSized(r)
    ensures var body := Responses.Header(r.version, r.code, r.payloadSize) + r.payload;
            Framing.FirstMatch(Wire(r), 0) == Some(Responses.HEADER_SIZE + r.payloadSize) <==> !Framing.Occurs(body)
  {
    WireIsMeasured(Responses.Header(r.version, r.code, r.payloadSize) + r.payload, Wire(r),
                   Responses.HEADER_SIZE + r.payloadSize);
  }

  lemma WireIsMeasured(body: Bytes, wire: Bytes, length: nat)
    requires wire == body + Framing.END_OF_PACKET && length == |body|
    ensures Framing.FirstMatch(wire, 0) == Some(length) <==> !Framing.Occurs(body)
  {
    Framing.LengthIsBody(body);
  }

  /** The listed ids are those of the table, without the requester's. */
  lemma ListsEveryOther(clients: seq<Registry.Registered>, self: Bytes, listed: seq<Responses.Listed>)
    requires Lists(clients, self, listed)
    ensures forall id: Bytes :: IsListed(listed, id) <==> id != self && Registry.IdExists(clients, id)
  {
    forall id: Bytes
      ensures IsListed(listed, id) <==> id != self && Registry.IdExists(clients, id)
    {
      if IsListed(listed, id) {
        var i :| 0 <= i < |listed| && listed[i].id == id;
        assert FindClient(clients, id).Some?;
      }
      if id != self && Registry.IdExists(clients, id) {
        var k :| 0 <= k < |clients| && clients[k].id == id;
        assert clients[k].id != self;
      }
    }
  }

  /** The list a client receives shows every other client once, with its name up
      to the first NUL; a name without one in its first 255 bytes runs on into the
      later records. */
  lemma ClientListReadsBack(clients: seq<Registry.Registered>, self: Bytes, listed: seq<Responses.Listed>, i: nat)
    requires Lists(clients, self, listed) && i < |listed|
    ensures var row := FindClient(clients, listed[i].id);
            var shown := Responses.ShownAt(Responses.EncodeList(listed), i);
            && |Responses.EncodeList(listed)| / Responses.CLIENT_SIZE == |listed|
            && row.Some? && row.value.id == shown.id == listed[i].id != self
            && var text := Responses.UpToNul(row.value.name);
            && (|text| < Responses.NAME_SIZE ==> shown.name == Some(text))
            && (|text| >= Responses.NAME_SIZE ==>
                  shown.name == Responses.CString(row.value.name[..Responses.NAME_SIZE]
                                                  + Responses.EncodeList(listed[i + 1..])))
  {
    Responses.ListRoundTrip(listed, i);
  }
}
