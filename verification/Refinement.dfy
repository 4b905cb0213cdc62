/** How the session code relates to the interleaved mailbox: a send is Submit then
    Insert, and a poll is PollRead, the deletes, and PollReply, also when other
    sessions' statements come in between. */
module Refinement {
  import opened Wrappers
  import opened Bytes
  import opened Tables
  import opened MessageIds
  import opened Database
  import opened Terms
  import opened Mailbox
  import HexColumn
  import MailboxRuns
  import MailboxTheorems
  import ProtocolTheorems
  import Responses
  import Session

  /** What a type and the bytes of a content stand for. */
  type Meaning = (byte, Bytes) -> (Kind, Content)

  /** The mailbox's message is the row's: same clients, and the type and content
      that the row's bytes stand for. */
  ghost predicate Same(meaning: Meaning, row: MessageRow, mail: Mail)
  {
    && mail.toClient == ProtocolTheorems.Text(row.toClient)
    && mail.fromClient == ProtocolTheorems.Text(row.fromClient)
    && (HexColumn.Decode(row.content).Ok? ==>
          (mail.kind, mail.body) == meaning(row.kind, HexColumn.Decode(row.content).value))
  }

  /** The two tables hold the same messages under the same ids. */
  ghost predicate Matches(meaning: Meaning, messages: Messages, table: map<nat, Mail>)
  {
    messages.Keys == table.Keys && forall id: nat :: id in messages ==> Same(meaning, messages[id], table[id])
  }

  lemma InsertMatches(meaning: Meaning, messages: Messages, table: map<nat, Mail>, id: nat, row: MessageRow, mail: Mail)
    requires Matches(meaning, messages, table) && Same(meaning, row, mail)
    ensures Matches(meaning, messages[id := row], table[id := mail])
  {
  }

  /** Allocating and inserting in one go does to the byte table and the
      allocator what Submit and Insert do, and raises exactly when they leave
      the session dead, whatever the bytes stand for. */
  lemma SendRefines(meaning: Meaning, st: State, s: nat, row: MessageRow, content: Bytes, messages: Messages)
    requires Matches(meaning, messages, st.table) && row.content == HexColumn.Encode(content)
    requires var to, from := ProtocolTheorems.Text(row.toClient), ProtocolTheorems.Text(row.fromClient);
             var (kind, body) := meaning(row.kind, content);
             Enabled(st, Submit(s, to, from, kind, body))
    ensures var to, from := ProtocolTheorems.Text(row.toClient), ProtocolTheorems.Text(row.fromClient);
            var (kind, body) := meaning(row.kind, content);
            var added := AddMessageSpec(st.sessions[s].pages, messages, row);
            if Allocate(st.sessions[s].pages).Raised? then
              && added.id.Raised? && added.messages == messages
              && SubmitStep(st, s, to, from, kind, body).sessions[s].phase.Dead?
              && SubmitStep(st, s, to, from, kind, body).table == st.table
            else
              var end := MailboxTheorems.SubmitAndInsert(st, s, to, from, kind, body);
              && Matches(meaning, added.messages, end.table)
              && added.pages == end.sessions[s].pages
              && (end.sessions[s].phase.Dead?
                  <==> added.id.Raised? || added.id.value.None? || added.id.value.value >= TWO_32)
  {
    var to, from := ProtocolTheorems.Text(row.toClient), ProtocolTheorems.Text(row.fromClient);
    var (kind, body) := meaning(row.kind, content);
    if Allocate(st.sessions[s].pages).Ok? {
      var id := Allocate(st.sessions[s].pages).value.0;
      var mail := Mail(to, from, kind, body, Tag(s, st.sessions[s].issued));
      HexColumn.DecodeInvertsEncode(content);
      InsertMatches(meaning, messages, st.table, id, row, mail);
    }
  }

  /** Both layers read the same rows for a client. */
  lemma SameIds(meaning: Meaning, messages: Messages, table: map<nat, Mail>, client: Bytes)
    requires Matches(meaning, messages, table)
    ensures IdsTo(messages, client) == IdsFor(table, ProtocolTheorems.Text(client))
  {
    forall id: nat | id in messages
      ensures messages[id].toClient == client <==> table[id].toClient == ProtocolTheorems.Text(client)
    {
      assert Same(meaning, messages[id], table[id]);
      if table[id].toClient == ProtocolTheorems.Text(client) {
        ProtocolTheorems.TextInjective(messages[id].toClient, client);
      }
    }
    IncreasingIsUnique(IdsTo(messages, client), IdsFor(table, ProtocolTheorems.Text(client)));
  }

  lemma DeleteMatches(meaning: Meaning, messages: Messages, table: map<nat, Mail>, ids: set<nat>)
    requires Matches(meaning, messages, table)
    ensures Matches(meaning, messages - ids, table - ids)
  {
  }

  /** A received record is the mailbox's message: sender, type and content. */
  ghost predicate Stands(meaning: Meaning, got: Responses.Received, mail: Mail)
  {
    && mail.fromClient == ProtocolTheorems.Text(got.from)
    && (mail.kind, mail.body) == meaning(got.kind, got.content)
  }

  /** What a poll's payload shows are the messages waiting for the client, up to
      the first that it could not place. */
  lemma PlacedStands(meaning: Meaning, messages: Messages, table: map<nat, Mail>, client: Bytes,
                     payload: Bytes, raised: bool)
    requires Matches(meaning, messages, table) && Session.PollReads(messages, client, payload, raised)
    ensures var n := |Session.PlacedIds(messages, client)|;
            var waiting := Waiting(table, ProtocolTheorems.Text(client));
            var walk := Responses.Walk(payload, 0);
            && n <= |waiting| && (raised <==> n < |waiting|)
            && walk.Some? && |walk.value| == n
            && forall i :: 0 <= i < n ==> Stands(meaning, walk.value[i], waiting[i])
  {
    SameIds(meaning, messages, table, client);
    Session.PollReadsBack(messages, client, payload, raised);
    var ids := Session.PlacedIds(messages, client);
    forall i | 0 <= i < |ids|
      ensures Stands(meaning, Responses.Walk(payload, 0).value[i], Waiting(table, ProtocolTheorems.Text(client))[i])
    {
      assert Same(meaning, messages[ids[i]], table[ids[i]]);
    }
  }

  /** The mailbox's poll in one go: read, place every row, reply. */
  ghost predicate PollsTo(st: State, s: nat, to: string, end: State)
  {
    && Enabled(st, PollRead(s, to))
    && var polling := PollReadStep(st, s, to);
    var n := |IdsFor(st.table, to)|;
    && MailboxTheorems.CanDrain(polling, s, n)
    && var drained := MailboxTheorems.Drain(polling, s, n);
    && Enabled(drained, PollReply(s))
    && end == PollReplyStep(drained, s)
  }

  lemma PollEnds(st: State, s: nat, to: string) returns (end: State)
    requires Enabled(st, PollRead(s, to)) && Fits(st.table, to)
    ensures PollsTo(st, s, to, end)
    ensures end.table == st.table - IdSet(IdsFor(st.table, to)) && end.sessions == st.sessions
    ensures Replied(end, to) == Replied(st, to) + Waiting(st.table, to)
  {
    MailboxRuns.PollDrains(st, s, to);
    end := PollReplyStep(MailboxTheorems.Drain(PollReadStep(st, s, to), s, |IdsFor(st.table, to)|), s);
  }

  /** A poll that raises nothing does to the byte table what reading, placing
      every row and replying do; the client's walk over its payload is, record by
      record, the mailbox's reply: senders, types and contents in the same order,
      whatever the bytes stand for. */
  lemma PollRefines(meaning: Meaning, st: State, s: nat, client: Bytes, messages: Messages,
                    payload: Bytes, after: Messages)
    returns (end: State)
    requires Matches(meaning, messages, st.table) && Enabled(st, PollRead(s, ProtocolTheorems.Text(client)))
    requires Session.Polls(messages, client, payload, after, false)
    ensures PollsTo(st, s, ProtocolTheorems.Text(client), end)
    ensures Matches(meaning, after, end.table) && end.sessions == st.sessions
    ensures var to := ProtocolTheorems.Text(client);
            var reply, walk := Waiting(st.table, to), Responses.Walk(payload, 0);
            && Replied(end, to) == Replied(st, to) + reply
            && walk.Some? && |walk.value| == |reply|
            && forall i :: 0 <= i < |reply| ==> Stands(meaning, walk.value[i], reply[i])
  {
    var to := ProtocolTheorems.Text(client);
    SameIds(meaning, messages, st.table, client);
    PlacedAllFit(messages, client, payload, after);
    MailboxFits(st.table, to);
    end := PollEnds(st, s, to);
    DeleteMatches(meaning, messages, st.table, IdSet(IdsTo(messages, client)));
    PlacedStands(meaning, messages, st.table, client, payload, false);
  }

  lemma MailboxFits(table: map<nat, Mail>, to: string)
    requires forall i :: 0 <= i < |IdsFor(table, to)| ==> IdsFor(table, to)[i] < TWO_32
    ensures Fits(table, to)
  {
    forall id | id in table && table[id].toClient == to
      ensures id < TWO_32
    {
      assert id in IdsFor(table, to);
    }
  }

  /** A poll that raises nothing has placed every row, so every id fits 32 bits. */
  lemma PlacedAllFit(messages: Messages, client: Bytes, payload: Bytes, after: Messages)
    requires Session.Polls(messages, client, payload, after, false)
    ensures var ids := IdsTo(messages, client);
            && (forall i :: 0 <= i < |ids| ==> ids[i] < TWO_32)
            && after == messages - IdSet(ids)
  {
    assert Session.PlacedIds(messages, client) == IdsTo(messages, client);
  }

  // ----- a poll amid the statements of other sessions -----

  /** `found` are the states in which the statements of session s that follow a
      poll's read find the mailbox. In between, other sessions do anything at all,
      but only s moves s. */
  ghost predicate PollTrace(st: State, s: nat, to: string, found: seq<State>)
    requires s in st.sessions
  {
    && found != []
    && (forall i :: 0 <= i < |found| ==> s in found[i].sessions)
    && found[0].sessions[s] == PollReadStep(st, s, to).sessions[s]
    && forall i :: 0 <= i < |found| - 1 && Enabled(found[i], PollDelete(s)) ==>
         found[i + 1].sessions[s] == PollDeleteStep(found[i], s).sessions[s]
  }

  /** A poll that read these rows and has placed n of them. */
  function PhaseAfter(rows: seq<Fetched>, to: string, n: nat): Phase
    requires n <= |rows|
  {
    Polling(to, rows[n..], Mails(rows)[..n])
  }

  lemma PlacesNext(st: State, s: nat, rows: seq<Fetched>, to: string, n: nat)
    requires s in st.sessions && n < |rows| && rows[n].id < TWO_32
    requires st.sessions[s].phase == PhaseAfter(rows, to, n)
    ensures Enabled(st, PollDelete(s))
    ensures PollDeleteStep(st, s).sessions[s].phase == PhaseAfter(rows, to, n + 1)
    ensures PollDeleteStep(st, s).table == st.table - {rows[n].id}
  {
    assert rows[n..][1..] == rows[n + 1..];
    assert Mails(rows)[..n] + [rows[n].mail] == Mails(rows)[..n + 1];
  }

  lemma {:induction false} PollPhase(st: State, s: nat, to: string, found: seq<State>, n: nat)
    requires s in st.sessions && PollTrace(st, s, to, found)
    requires n < |found| && n <= |IdsFor(st.table, to)|
    requires forall i :: 0 <= i < n ==> IdsFor(st.table, to)[i] < TWO_32
    ensures found[n].sessions[s].phase == PhaseAfter(Fetch(st.table, IdsFor(st.table, to)), to, n)
  {
    var rows := Fetch(st.table, IdsFor(st.table, to));
    if n == 0 {
      assert rows[0..] == rows && Mails(rows)[..0] == [];
    } else {
      PollPhase(st, s, to, found, n - 1);
      PlacesNext(found[n - 1], s, rows, to, n - 1);
    }
  }

  /** The ids a poll places are the first of those the mailbox reads, and fit. */
  lemma PlacedFit(meaning: Meaning, messages: Messages, table: map<nat, Mail>, client: Bytes)
    requires Matches(meaning, messages, table)
    ensures Session.PlacedIds(messages, client) <= IdsFor(table, ProtocolTheorems.Text(client))
    ensures forall i :: 0 <= i < |Session.PlacedIds(messages, client)| ==>
              IdsFor(table, ProtocolTheorems.Text(client))[i] < TWO_32
  {
    SameIds(meaning, messages, table, client);
  }

  /** The mailbox's next deletion leaves the table that this byte table matches. */
  ghost predicate DeletesTo(meaning: Meaning, st: State, s: nat, after: Messages)
  {
    Enabled(st, PollDelete(s)) && Matches(meaning, after, PollDeleteStep(st, s).table)
  }

  /** Each deletion of a poll does to the byte table it finds what the mailbox's
      does to the table it finds, whatever other sessions did in between. */
  lemma StatementRefines(meaning: Meaning, st: State, s: nat, client: Bytes, read: Messages, payload: Bytes,
                         deletions: seq<Session.Deletion>, raised: bool, found: seq<State>, i: nat)
    requires Matches(meaning, read, st.table) && s in st.sessions
    requires Session.PollsAmid(read, client, payload, deletions, raised)
    requires PollTrace(st, s, ProtocolTheorems.Text(client), found) && i < |deletions| && i < |found|
    requires Matches(meaning, deletions[i].before, found[i].table)
    ensures DeletesTo(meaning, found[i], s, deletions[i].after)
  {
    var to := ProtocolTheorems.Text(client);
    PlacedFit(meaning, read, st.table, client);
    PollPhase(st, s, to, found, i);
    PlacesNext(found[i], s, Fetch(st.table, IdsFor(st.table, to)), to, i);
    DeleteMatches(meaning, deletions[i].before, found[i].table, {IdsFor(st.table, to)[i]});
  }

  /** The mailbox's poll has come as far as the session's: the client's walk over
      the payload is, record by record, the reply it has built, and it has rows left
      exactly when the session's poll raised. */
  ghost predicate AsFar(meaning: Meaning, phase: Phase, to: string, payload: Bytes, raised: bool)
  {
    && phase.Polling? && phase.client == to
    && (raised <==> phase.remaining != [])
    && Responses.Walk(payload, 0).Some?
    && var got := Responses.Walk(payload, 0).value;
    && |got| == |phase.payload|
    && forall i :: 0 <= i < |got| ==> Stands(meaning, got[i], phase.payload[i])
  }

  lemma PlacedAsFar(meaning: Meaning, rows: seq<Fetched>, to: string, n: nat, payload: Bytes, raised: bool)
    requires n <= |rows| && (raised <==> n < |rows|)
    requires Responses.Walk(payload, 0).Some? && |Responses.Walk(payload, 0).value| == n
    requires forall i :: 0 <= i < n ==> Stands(meaning, Responses.Walk(payload, 0).value[i], Mails(rows)[i])
    ensures AsFar(meaning, PhaseAfter(rows, to, n), to, payload, raised)
  {
  }

  /** When the statements of a poll have run, with anything in between, the
      mailbox's poll has come as far. */
  lemma PollAmidRefines(meaning: Meaning, st: State, s: nat, client: Bytes, read: Messages, payload: Bytes,
                        deletions: seq<Session.Deletion>, raised: bool, found: seq<State>)
    requires Matches(meaning, read, st.table) && s in st.sessions
    requires Session.PollsAmid(read, client, payload, deletions, raised)
    requires PollTrace(st, s, ProtocolTheorems.Text(client), found) && |found| == |deletions| + 1
    ensures AsFar(meaning, found[|deletions|].sessions[s].phase, ProtocolTheorems.Text(client), payload, raised)
  {
    var to := ProtocolTheorems.Text(client);
    PlacedFit(meaning, read, st.table, client);
    PollPhase(st, s, to, found, |deletions|);
    PlacedStands(meaning, read, st.table, client, payload, raised);
    PlacedAsFar(meaning, Fetch(st.table, IdsFor(st.table, to)), to, |deletions|, payload, raised);
  }
}
