/** A message's bytes from the sender's packet to the recipient's walk. */
module EndToEnd {
  import opened Wrappers
  import opened Bytes
  import opened Tables
  import opened MessageIds
  import opened Database
  import opened Session
  import HexColumn
  import Requests
  import Responses

  /** The packet a client sends is stored as a row from which exactly its sender,
      type and content can be read back. */
  lemma PacketIsStored(sender: Bytes, version: byte, to: Bytes, kind: byte, content: Bytes,
                       pad: Bytes, pointer: Bytes, memory: Requests.Memory)
    requires |sender| == Requests.ID_SIZE && Requests.Valid(Requests.SendMessage(to, kind, content))
    requires |pad| == Requests.PAD_AFTER_TYPE && |pointer| == Requests.ADDRESS_SIZE
    requires Requests.ValidMemory(memory)
    ensures var request := Requests.SendMessage(to, kind, content);
            var outcome := Requests.Parse(Requests.Packet(sender, version, request, pad, pointer), memory);
            && outcome.Parsed? && ProperRequest(outcome.wrapper)
            && outcome.wrapper.id == sender && Recipient(outcome.wrapper) == to
            && SubmittedRow(outcome.wrapper) == MessageRow(to, sender, kind, HexColumn.Encode(content))
  {
    Requests.RequestRoundTrip(sender, version, Requests.SendMessage(to, kind, content), pad, pointer, memory);
  }

  /** A stored message is in the reply to the recipient's next poll that raises
      nothing, as it was sent, whatever other sessions do meanwhile; and the poll
      deletes it. */
  lemma StoredIsPolled(table: Messages, id: nat, sender: Bytes, to: Bytes, kind: byte, content: Bytes,
                       payload: Bytes, deletions: seq<Deletion>) returns (i: nat)
    requires |sender| == Responses.ID_SIZE && |content| < TWO_32
    requires id in table && table[id] == MessageRow(to, sender, kind, HexColumn.Encode(content))
    requires PollsAmid(table, to, payload, deletions, false)
    ensures Responses.Walk(payload, 0).Some? && i < |Responses.Walk(payload, 0).value|
    ensures Responses.Walk(payload, 0).value[i] == Responses.Received(sender, kind, content)
    ensures i < |deletions| && deletions[i].after == deletions[i].before - {id}
  {
    PollReadsBack(table, to, payload, false);
    var ids := IdsTo(table, to);
    assert id in ids;
    i :| 0 <= i < |ids| && ids[i] == id;
    assert PlacedIds(table, to) == ids;
    HexColumn.DecodeInvertsEncode(content);
  }

  // ----- between sending and polling -----

  /** What sessions do to the table in the meantime. */
  datatype Statement = Insert(id: nat, row: MessageRow) | Delete(id: nat)

  function Apply(table: Messages, s: Statement): Messages
  {
    match s
    case Insert(id, row) => table[id := row]
    case Delete(id) => table - {id}
  }

  /** The primary key admits the statement, and it is not part of another poll for
      this recipient. */
  predicate Admitted(table: Messages, s: Statement, to: Bytes)
  {
    match s
    case Insert(id, _) => id !in table
    case Delete(id) => id in table ==> table[id].toClient != to
  }

  ghost predicate Becomes(table: Messages, statements: seq<Statement>, end: Messages, to: Bytes)
    decreases |statements|
  {
    if statements == [] then table == end
    else
      && Admitted(table, statements[0], to)
      && Becomes(Apply(table, statements[0]), statements[1..], end, to)
  }

  lemma {:induction false} RowStays(table: Messages, statements: seq<Statement>, end: Messages, to: Bytes, id: nat)
    requires Becomes(table, statements, end, to) && id in table && table[id].toClient == to
    ensures id in end && end[id] == table[id]
    decreases |statements|
  {
    if statements != [] {
      RowStays(Apply(table, statements[0]), statements[1..], end, to, id);
    }
  }

  /** What an answered send stored, under the id its reply names. */
  lemma AnsweredIsStored(sender: Bytes, version: byte, to: Bytes, kind: byte, content: Bytes,
                         pad: Bytes, pointer: Bytes, memory: Requests.Memory,
                         pages: Pages, before: Messages, reply: Bytes, pages': Pages, after: Messages) returns (id: nat)
    requires |sender| == Requests.ID_SIZE && Requests.Valid(Requests.SendMessage(to, kind, content))
    requires |pad| == Requests.PAD_AFTER_TYPE && |pointer| == Requests.ADDRESS_SIZE
    requires Requests.ValidMemory(memory) && |pages| == PAGE_COUNT
    requires var request := Requests.SendMessage(to, kind, content);
             var outcome := Requests.Parse(Requests.Packet(sender, version, request, pad, pointer), memory);
             && outcome.Parsed? && ProperRequest(outcome.wrapper)
             && Stores(outcome.wrapper, pages, before, reply, pages', after, false)
    ensures id < TWO_32 && id !in before && reply == to + Le32(id)
    ensures after == before[id := MessageRow(to, sender, kind, HexColumn.Encode(content))]
  {
    PacketIsStored(sender, version, to, kind, content, pad, pointer, memory);
    var request := Requests.SendMessage(to, kind, content);
    var w := Requests.Parse(Requests.Packet(sender, version, request, pad, pointer), memory).wrapper;
    id := AddMessageSpec(pages, before, SubmittedRow(w)).id.value.value;
  }

  /** End to end: a send request that is answered puts its message where the
      recipient's poll finds it. Whatever is inserted in the meantime, and
      whatever is deleted by polls for others, the recipient's next poll delivers
      sender, type and content as they were packed. */
  lemma SentIsPolled(sender: Bytes, version: byte, to: Bytes, kind: byte, content: Bytes,
                     pad: Bytes, pointer: Bytes, memory: Requests.Memory,
                     pages: Pages, before: Messages, reply: Bytes, pages': Pages, after: Messages,
                     statements: seq<Statement>, table: Messages, payload: Bytes, deletions: seq<Deletion>)
    returns (id: nat, i: nat)
    requires |sender| == Requests.ID_SIZE && Requests.Valid(Requests.SendMessage(to, kind, content))
    requires |pad| == Requests.PAD_AFTER_TYPE && |pointer| == Requests.ADDRESS_SIZE
    requires Requests.ValidMemory(memory) && |pages| == PAGE_COUNT
    requires var request := Requests.SendMessage(to, kind, content);
             var outcome := Requests.Parse(Requests.Packet(sender, version, request, pad, pointer), memory);
             && outcome.Parsed? && ProperRequest(outcome.wrapper)
             && Stores(outcome.wrapper, pages, before, reply, pages', after, false)
    requires Becomes(after, statements, table, to)
    requires PollsAmid(table, to, payload, deletions, false)
    ensures id < TWO_32 && id !in before && reply == to + Le32(id)
    ensures Responses.Walk(payload, 0).Some? && i < |Responses.Walk(payload, 0).value|
    ensures Responses.Walk(payload, 0).value[i] == Responses.Received(sender, kind, content)
    ensures i < |deletions| && deletions[i].after == deletions[i].before - {id}
  {
    id := AnsweredIsStored(sender, version, to, kind, content, pad, pointer, memory,
                           pages, before, reply, pages', after);
    RowStays(after, statements, table, to, id);
    i := StoredIsPolled(table, id, sender, to, kind, content, payload, deletions);
  }
}
