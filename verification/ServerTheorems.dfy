/** What the accept loop and a session do with the packets that clients send. */
module ServerTheorems {
  import opened Wrappers
  import opened Bytes
  import opened Database
  import opened MessageIds
  import opened Utf8
  import AcceptLoop
  import ClientIds
  import Registry
  import Requests
  import Session

  // ----- which ids are text -----

  lemma IdIsText(id: Bytes)
    requires ClientIds.IsId(id)
    ensures IsText(id)
  {
    assert forall i :: 0 <= i < |id| ==> ClientIds.IsDigit(id[i]);
  }

  lemma RegisteredIsText(r: Registry.Registry, id: Bytes)
    requires Registry.Inv(r) && Registry.IdExists(r.rows, id)
    ensures IsText(id)
  {
    var i :| 0 <= i < |r.rows| && r.rows[i].id == id;
    ClientIds.FromNatIsId((i + 1) % Registry.LIMIT, ClientIds.ID_SIZE);
    assert r.rows[i].id == Registry.NthClientId(i + 1);
    IdIsText(id);
  }

  // ----- the first packet of a connection -----

  /** What every packet needs: the sizes of its fields. */
  predicate Packable(sender: Bytes, request: Requests.Request, pad: Bytes, pointer: Bytes)
  {
    && |sender| == Requests.ID_SIZE && Requests.Valid(request)
    && |pad| == Requests.PAD_AFTER_TYPE && |pointer| == Requests.ADDRESS_SIZE
  }

  /** The wrapper holds the packet's sender, version and request. */
  predicate Holds(w: Requests.Wrapper, sender: Bytes, version: byte, request: Requests.Request)
  {
    && Session.ProperRequest(w) && w.id == sender && w.version == version
    && Requests.Read(w) == Some(request)
  }

  lemma PacketIsHeld(sender: Bytes, version: byte, request: Requests.Request, pad: Bytes, pointer: Bytes,
                     memory: Requests.Memory)
    requires Packable(sender, request, pad, pointer) && Requests.ValidMemory(memory)
    ensures var outcome := Requests.Parse(Requests.Packet(sender, version, request, pad, pointer), memory);
            && outcome.Parsed? && Holds(outcome.wrapper, sender, version, request)
            && outcome.wrapper.err == Requests.NoErr && outcome.wrapper.code == Requests.CodeOf(request)
  {
    Requests.RequestRoundTrip(sender, version, request, pad, pointer, memory);
  }

  /** Any packet but a registration starts a session when its sender is registered,
      is rejected when it is not, and ends the accept loop when the sender's id is
      not text. It never changes the registry. */
  lemma RequestIsDecided(r: Registry.Registry, sender: Bytes, version: byte, request: Requests.Request,
                         pad: Bytes, pointer: Bytes, memory: Requests.Memory)
    requires Packable(sender, request, pad, pointer) && Requests.ValidMemory(memory) && !request.Registration?
    ensures var data := Requests.Packet(sender, version, request, pad, pointer);
            var (r', accepted) := AcceptLoop.Accept(r, data, memory);
            && r' == r
            && (accepted.Started? <==> IsText(sender) && Registry.IdExists(r.rows, sender))
            && (accepted.Rejected? <==> IsText(sender) && !Registry.IdExists(r.rows, sender))
            && (accepted.Ended? <==> !IsText(sender))
            && (accepted.Started? ==>
                  accepted.id == sender && Holds(accepted.request, sender, version, request))
  {
    PacketIsHeld(sender, version, request, pad, pointer, memory);
  }

  /** So a registered client can come back with any of the four requests. */
  lemma RegisteredClientReturns(r: Registry.Registry, sender: Bytes, version: byte, request: Requests.Request,
                                pad: Bytes, pointer: Bytes, memory: Requests.Memory)
    requires Packable(sender, request, pad, pointer) && Requests.ValidMemory(memory) && !request.Registration?
    requires Registry.Inv(r) && Registry.IdExists(r.rows, sender)
    ensures var data := Requests.Packet(sender, version, request, pad, pointer);
            var (r', accepted) := AcceptLoop.Accept(r, data, memory);
            && r' == r && accepted.Started? && accepted.id == sender
            && Holds(accepted.request, sender, version, request)
  {
    RegisteredIsText(r, sender);
    RequestIsDecided(r, sender, version, request, pad, pointer, memory);
  }

  /** A registration starts a session under a new id when its stripped name is new,
      is rejected when it is taken, and ends the accept loop when it is not text. */
  lemma RegistrationIsDecided(r: Registry.Registry, sender: Bytes, version: byte, name: Bytes, key: Bytes,
                              pad: Bytes, pointer: Bytes, memory: Requests.Memory)
    requires Packable(sender, Requests.Registration(name, key), pad, pointer) && Requests.ValidMemory(memory)
    ensures var request := Requests.Registration(name, key);
            var data := Requests.Packet(sender, version, request, pad, pointer);
            var (r', accepted) := AcceptLoop.Accept(r, data, memory);
            && (accepted.Started? <==> IsText(name) && !Registry.NameExists(r.rows, Registry.Strip(name)))
            && (accepted.Rejected? <==> IsText(name) && Registry.NameExists(r.rows, Registry.Strip(name)))
            && (accepted.Ended? <==> !IsText(name))
            && (if accepted.Started?
                then accepted.id == r'.lastId == ClientIds.Add1(r.lastId)
                     && Holds(accepted.request, sender, version, request)
                else r' == r)
  {
    PacketIsHeld(sender, version, Requests.Registration(name, key), pad, pointer, memory);
  }

  /** A name can be good UTF-8 and still end the accept loop: its characters become
      text one octet at a time. */
  lemma AccentedNameEnds(r: Registry.Registry, sender: Bytes, version: byte, before: Bytes, after: Bytes,
                         key: Bytes, pad: Bytes, pointer: Bytes, memory: Requests.Memory)
    requires IsText(before) && IsText(after) && Requests.ValidMemory(memory)
    requires Packable(sender, Requests.Registration(before + [0xC3, 0xA9] + after, key), pad, pointer)
    ensures var name := before + [0xC3, 0xA9] + after;
            var data := Requests.Packet(sender, version, Requests.Registration(name, key), pad, pointer);
            Utf8.WellFormed(name) && AcceptLoop.Accept(r, data, memory) == (r, AcceptLoop.Ended)
  {
    AccentIsNotText(before, after);
    RegistrationIsDecided(r, sender, version, before + [0xC3, 0xA9] + after, key, pad, pointer, memory);
  }

  /** What comes of a delivery that is no packet: one with a header whose length or
      code is wrong is rejected, and one shorter than a header ends the loop. */
  lemma MalformedIsDecided(r: Registry.Registry, data: Bytes, memory: Requests.Memory)
    requires Requests.ValidMemory(memory) && |data| < TWO_32
    ensures |data| == 0 ==> AcceptLoop.Accept(r, data, memory) == (r, AcceptLoop.Disconnected)
    ensures 0 < |data| < 44 ==> AcceptLoop.Accept(r, data, memory) == (r, AcceptLoop.Ended)
    ensures |data| >= 44 && |data| != 44 + FromLe32(data[40..44]) ==>
              AcceptLoop.Accept(r, data, memory) == (r, AcceptLoop.Rejected)
    ensures |data| >= 44 && !(1000 <= FromLe16(data[36..38]) <= 1004) ==>
              AcceptLoop.Accept(r, data, memory) == (r, AcceptLoop.Rejected)
  {
    if |data| >= 44 {
      Requests.AcceptedLength(data, memory);
    }
  }

  /** The bytes of a rejection: version 2, code 9000, no payload. */
  lemma RejectionReadsBack()
    ensures var wire := Session.Wire(AcceptLoop.Rejection());
            && |wire| == 27
            && wire[0] == 2 && FromLe16(wire[2..4]) == 9000 && FromLe32(wire[4..8]) == 0
  {
    Session.ReplyReadsBack(AcceptLoop.Rejection());
  }

  // ----- the answers of a session -----

  /** For registered clients text is never the reason: a client list does not fail,
      a poll fails exactly when a row that waits cannot be put in a reply, a send to a
      registered client exactly when the least free id is taken or does not fit 32
      bits or there is none, and a request for a registered client's key exactly when
      that key is too short. */
  lemma RegisteredRequestFails(r: Registry.Registry, clientId: Bytes, request: Requests.Wrapper, m: Session.Moment)
    requires Registry.Inv(r) && m.clients == r.rows && Session.ProperRequest(request) && MessageIds.WellFormed(m.pages)
    requires Registry.IdExists(r.rows, clientId) && Registry.IdExists(r.rows, request.id)
    ensures request.code == 1000 || request.code == 1001 ==> !Session.Fails(clientId, request, m)
    ensures request.code == 1002 && Registry.IdExists(r.rows, request.getPublicKey) ==>
              (Session.Fails(clientId, request, m)
               <==> |FindClient(r.rows, request.getPublicKey).value.publicKey| < 320)
    ensures request.code == 1003 && Registry.IdExists(r.rows, Session.Recipient(request)) ==>
              (Session.Fails(clientId, request, m)
               <==> forall id: nat :: IsLeastFree(m.pages, id) ==> id in m.before || id >= TWO_32)
    ensures request.code == 1004 ==>
              (Session.Fails(clientId, request, m)
               <==> exists id :: id in m.before && m.before[id].toClient == request.id
                                 && !Session.Deliverable(id, m.before[id]))
  {
    RegisteredIsText(r, clientId);
    RegisteredIsText(r, request.id);
    if request.code == 1002 && Registry.IdExists(r.rows, request.getPublicKey) {
      RegisteredIsText(r, request.getPublicKey);
    }
    if request.code == 1003 && Registry.IdExists(r.rows, Session.Recipient(request)) {
      RegisteredIsText(r, Session.Recipient(request));
      StoreFails(m.pages, m.before);
    }
  }

  ghost predicate IsLeastFree(pages: Pages, id: nat)
    requires MessageIds.WellFormed(pages)
  {
    IsFree(pages, id) && forall j: nat :: j < id ==> !IsFree(pages, j)
  }

  lemma StoreFails(pages: Pages, messages: Messages)
    requires MessageIds.WellFormed(pages)
    ensures !Session.CanStore(pages, messages)
            <==> forall id: nat :: IsLeastFree(pages, id) ==> id in messages || id >= TWO_32
  {
    AllocateTakesLeast(pages);
  }

  // ----- a session that is sent packets -----

  /** A packet in the inbox. */
  datatype Arrival = Arrival(sender: Bytes, version: byte, request: Requests.Request, pad: Bytes, pointer: Bytes)

  ghost predicate Arrives(inbox: seq<Bytes>, k: nat, a: Arrival)
  {
    && k < |inbox| && Packable(a.sender, a.request, a.pad, a.pointer)
    && inbox[k] == Requests.Packet(a.sender, a.version, a.request, a.pad, a.pointer)
  }

  /** The code a client can expect inside a session. */
  function ExpectedCode(request: Requests.Request): nat
  {
    match request
    case Registration(_, _) => 9000
    case GetClientList => 2001
    case GetPublicKey(id) => if IsText(id) then 2002 else 9000
    case SendMessage(_, _, _) => 2003
    case GetMessages => 2004
  }

  /** The version: a key request sets it, anything else leaves it as it was. */
  function ExpectedVersion(a: Arrival, previous: byte): byte
  {
    if a.request.GetPublicKey? then a.version else previous
  }

  lemma ArrivalIsInForce(first: Requests.Wrapper, inbox: seq<Bytes>, memory: Requests.Memory, k: nat, a: Arrival)
    requires Requests.ValidMemory(memory) && k > 0 && Arrives(inbox, k - 1, a)
    ensures inbox[k - 1] != [] && !Requests.Parse(inbox[k - 1], memory).Undefined?
    ensures var w := Session.InForceAt(first, inbox, memory, k);
            Holds(w, a.sender, a.version, a.request) && Session.ReplyCode(w, k) == ExpectedCode(a.request)
  {
    PacketIsHeld(a.sender, a.version, a.request, a.pad, a.pointer, memory);
  }

  /** The bytes of a reply carry this code and this version. */
  ghost predicate OnWire(reply: Session.Reply, code: nat, version: byte)
  {
    && Session.WellSized(reply)
    && FromLe16(Session.Wire(reply)[2..4]) == code
    && Session.Wire(reply)[0] == version
  }

  lemma ReplyOnWire(reply: Session.Reply, code: nat, version: byte)
    requires Session.WellSized(reply) && reply.code == code && reply.version == version
    ensures OnWire(reply, code, version)
  {
    Session.ReplyReadsBack(reply);
  }

  lemma PacketEnds(clientId: Bytes, s: Session.Script, taken: nat, answered: nat, last: Session.Moment, raised: bool,
                   arrivals: seq<Arrival>)
    requires Requests.ValidMemory(s.memory) && taken <= |s.inbox|
    requires Session.Ends(clientId, s.first, s.inbox, s.memory, taken, answered, last, raised)
    requires |arrivals| == |s.inbox| && forall k :: 0 <= k < |arrivals| ==> Arrives(s.inbox, k, arrivals[k])
    ensures !raised ==> answered == |s.inbox| + 1
    ensures raised ==>
              && answered == taken
              && Session.Unanswerable(clientId, Session.InForceAt(s.first, s.inbox, s.memory, taken), taken, last)
  {
    if taken < |s.inbox| {
      ArrivalIsInForce(s.first, s.inbox, s.memory, taken + 1, arrivals[taken]);
    }
  }

  /** The reply to a packet. */
  lemma PacketIsAnswered(s: Session.Script, k: nat, a: Arrival, previous: Session.Reply, reply: Session.Reply)
    requires Requests.ValidMemory(s.memory) && k > 0 && Arrives(s.inbox, k - 1, a) && Session.WellSized(reply)
    requires reply.code == Session.ReplyCode(Session.InForceAt(s.first, s.inbox, s.memory, k), k)
    requires previous.version == Session.VersionAt(s.version, s.first, s.inbox, s.memory, k - 1)
    requires reply.version == Session.VersionAt(s.version, s.first, s.inbox, s.memory, k)
    ensures OnWire(reply, ExpectedCode(a.request), ExpectedVersion(a, previous.version))
  {
    CodeIsExpected(s, k, a, reply.code);
    VersionIsExpected(s, k, a);
    ReplyOnWire(reply, ExpectedCode(a.request), ExpectedVersion(a, previous.version));
  }

  lemma NextIsAnswered(clientId: Bytes, s: Session.Script, moments: seq<Session.Moment>, sent: seq<Session.Reply>,
                       k: nat, a: Arrival)
    requires Requests.ValidMemory(s.memory) && 1 <= k < |sent| && Arrives(s.inbox, k - 1, a)
    requires Session.Answered(clientId, s.first, s.inbox, s.memory, moments, sent)
    requires Session.Versioned(s.version, s.first, s.inbox, s.memory, sent)
    ensures OnWire(sent[k], ExpectedCode(a.request), ExpectedVersion(a, sent[k - 1].version))
  {
    ReplyHasCode(clientId, s, moments, sent, k);
    ReplyHasVersion(s, sent, k - 1);
    ReplyHasVersion(s, sent, k);
    PacketIsAnswered(s, k, a, sent[k - 1], sent[k]);
  }

  /** A session whose peer sends packets answers all of them before it ends, in
      order, each reply's bytes carrying the code of its request, and the version of
      the last key request; or it stops at a request that cannot be answered, having
      answered all before. */
  lemma SessionAnswersPackets(clientId: Bytes, s: Session.Script, taken: nat, moments: seq<Session.Moment>,
                              last: Session.Moment, sent: seq<Session.Reply>, raised: bool, arrivals: seq<Arrival>)
    requires Requests.ValidMemory(s.memory) && Session.Stopped(clientId, s, taken, moments, last, sent, raised)
    requires |arrivals| == |s.inbox| && forall k :: 0 <= k < |arrivals| ==> Arrives(s.inbox, k, arrivals[k])
    ensures !raised ==> |sent| == |s.inbox| + 1
    ensures raised ==>
              && |sent| == taken
              && Session.Unanswerable(clientId, Session.InForceAt(s.first, s.inbox, s.memory, taken), taken, last)
    ensures |sent| <= |s.inbox| + 1
    ensures forall k :: 1 <= k < |sent| ==>
              OnWire(sent[k], ExpectedCode(arrivals[k - 1].request),
                     ExpectedVersion(arrivals[k - 1], sent[k - 1].version))
  {
    PacketEnds(clientId, s, taken, |sent|, last, raised, arrivals);
    forall k | 1 <= k < |sent|
      ensures OnWire(sent[k], ExpectedCode(arrivals[k - 1].request),
                     ExpectedVersion(arrivals[k - 1], sent[k - 1].version))
    {
      NextIsAnswered(clientId, s, moments, sent, k, arrivals[k - 1]);
    }
  }

  lemma VersionIsExpected(s: Session.Script, k: nat, a: Arrival)
    requires Requests.ValidMemory(s.memory) && k > 0 && Arrives(s.inbox, k - 1, a)
    ensures Session.VersionAt(s.version, s.first, s.inbox, s.memory, k)
            == ExpectedVersion(a, Session.VersionAt(s.version, s.first, s.inbox, s.memory, k - 1))
  {
    PacketIsHeld(a.sender, a.version, a.request, a.pad, a.pointer, s.memory);
  }

  lemma ReplyHasVersion(s: Session.Script, sent: seq<Session.Reply>, k: nat)
    requires Requests.ValidMemory(s.memory) && k < |sent|
    requires Session.Versioned(s.version, s.first, s.inbox, s.memory, sent)
    ensures k <= |s.inbox| && sent[k].version == Session.VersionAt(s.version, s.first, s.inbox, s.memory, k)
  {
  }

  lemma ReplyHasCode(clientId: Bytes, s: Session.Script, moments: seq<Session.Moment>, sent: seq<Session.Reply>,
                     k: nat)
    requires Requests.ValidMemory(s.memory) && k < |sent|
    requires Session.Answered(clientId, s.first, s.inbox, s.memory, moments, sent)
    ensures Session.WellSized(sent[k])
    ensures k <= |s.inbox| && sent[k].code == Session.ReplyCode(Session.InForceAt(s.first, s.inbox, s.memory, k), k)
  {
    assert Session.ReplyFits(clientId, Session.InForceAt(s.first, s.inbox, s.memory, k), k, moments[k], sent[k]);
  }

  lemma CodeIsExpected(s: Session.Script, k: nat, a: Arrival, code: nat)
    requires Requests.ValidMemory(s.memory) && k > 0 && Arrives(s.inbox, k - 1, a)
    requires code == Session.ReplyCode(Session.InForceAt(s.first, s.inbox, s.memory, k), k)
    ensures code == ExpectedCode(a.request)
  {
    ArrivalIsInForce(s.first, s.inbox, s.memory, k, a);
  }
}
