/** Messages can be delivered: from any state in which two sessions are idle, what
    one client has to send can be sent, polled and printed by the other. */
module ProtocolProgress {
  import opened Wrappers
  import opened Bytes
  import opened Tables
  import opened MessageIds
  import opened Terms
  import opened Client
  import opened Protocol
  import Mailbox
  import MailboxRuns
  import MailboxTheorems
  import ProtocolProofs

  lemma {:induction false} RunsCompose(st: State, first: seq<Action>, mid: State, second: seq<Action>, end: State)
    requires RunsTo(st, first, mid) && RunsTo(mid, second, end)
    ensures RunsTo(st, first + second, end)
    decreases |first|
  {
    if first == [] {
      assert first + second == second;
    } else {
      assert (first + second)[1..] == first[1..] + second;
      RunsCompose(Step(st, first[0]), first[1..], mid, second, end);
    }
  }

  lemma RunsOne(st: State, a: Action)
    requires Enabled(st, a)
    ensures RunsTo(st, [a], Step(st, a))
  {
    assert [a][1..] == [];
  }

  lemma RunsOn(st: State, actions: seq<Action>, mid: State, a: Action)
    requires RunsTo(st, actions, mid) && Enabled(mid, a)
    ensures RunsTo(st, actions + [a], Step(mid, a))
  {
    RunsOne(mid, a);
    RunsCompose(st, actions, mid, [a], Step(mid, a));
  }

  // ----- sending, polling, reading -----

  lemma SendRuns(st: State, x: nat, to: string, kind: Kind, text: string)
    returns (actions: seq<Action>, end: State, mail: Mail, id: nat)
    requires x in st.clients && st.clients[x].running && MailboxRuns.CanAllocate(st.mail, x)
    requires |to| == ID_LENGTH && HasKeyFor(st.clients[x], kind, to)
    ensures RunsTo(st, actions, end)
    ensures mail == MailboxRuns.NewMail(st.mail, x, to, st.clients[x].id, kind, mail.body)
    ensures Outgoing(st.clients[x], kind, to, text) == Some(mail.body)
    ensures end == st.(mail := end.mail, typed := st.typed[mail.tag := text])
    ensures id !in st.mail.table && id < TWO_32 && end.mail.table == st.mail.table[id := mail]
    ensures MailboxRuns.IsIdle(end.mail, x) && end.mail.replied == st.mail.replied
    ensures end.mail.sessions.Keys == st.mail.sessions.Keys
    ensures forall t :: t in st.mail.sessions && t != x ==> end.mail.sessions[t] == st.mail.sessions[t]
  {
    SentIffKeyed(st.clients[x], kind, to, text);
    var from, body := st.clients[x].id, Outgoing(st.clients[x], kind, to, text).value;
    mail := MailboxRuns.NewMail(st.mail, x, to, from, kind, body);
    var submitted, inserted;
    submitted, inserted, id := MailboxRuns.SendGoesIn(st.mail, x, to, from, kind, body);
    var mid := Step(st, Send(x, to, kind, text));
    assert mid == st.(mail := submitted, typed := st.typed[mail.tag := text]);
    end := Step(mid, Serve(Mailbox.Insert(x)));
    RunsOne(st, Send(x, to, kind, text));
    RunsOn(st, [Send(x, to, kind, text)], mid, Serve(Mailbox.Insert(x)));
    actions := [Send(x, to, kind, text)] + [Serve(Mailbox.Insert(x))];
  }

  /** The server goes on placing rows. */
  lemma {:induction false} DrainRuns(st: State, y: nat, n: nat) returns (actions: seq<Action>)
    requires MailboxTheorems.CanDrain(st.mail, y, n)
    ensures RunsTo(st, actions, st.(mail := MailboxTheorems.Drain(st.mail, y, n)))
    decreases n
  {
    if n == 0 {
      actions := [];
    } else {
      var a := Serve(Mailbox.PollDelete(y));
      var rest := DrainRuns(Step(st, a), y, n - 1);
      RunsOne(st, a);
      RunsCompose(st, [a], Step(st, a), rest, st.(mail := MailboxTheorems.Drain(st.mail, y, n)));
      actions := [a] + rest;
    }
  }

  lemma PollRuns(st: State, y: nat) returns (actions: seq<Action>, end: State)
    requires y in st.clients && st.clients[y].running && MailboxRuns.IsIdle(st.mail, y)
    requires Mailbox.Fits(st.mail.table, st.clients[y].id)
    ensures RunsTo(st, actions, end)
    ensures var to := st.clients[y].id;
            && end == st.(mail := end.mail)
            && end.mail.table == st.mail.table - IdSet(Mailbox.IdsFor(st.mail.table, to))
            && end.mail.sessions == st.mail.sessions
            && end.mail.replied == st.mail.replied[to := Mailbox.Replied(st.mail, to)
                                                         + Mailbox.Waiting(st.mail.table, to)]
  {
    var to := st.clients[y].id;
    var n := |Mailbox.IdsFor(st.mail.table, to)|;
    MailboxRuns.PollDrains(st.mail, y, to);
    var read := Step(st, Poll(y));
    var deletes := DrainRuns(read, y, n);
    var drained := read.(mail := MailboxTheorems.Drain(read.mail, y, n));
    end := Step(drained, Serve(Mailbox.PollReply(y)));
    RunsOne(st, Poll(y));
    RunsCompose(st, [Poll(y)], read, deletes, drained);
    RunsOn(st, [Poll(y)] + deletes, drained, Serve(Mailbox.PollReply(y)));
    actions := [Poll(y)] + deletes + [Serve(Mailbox.PollReply(y))];
  }

  // ----- delivery -----

  /** What waits for other clients. */
  function Others(table: map<nat, Mail>, to: string): map<nat, Mail>
  {
    map id | id in table && table[id].toClient != to :: table[id]
  }

  lemma OthersStay(table: map<nat, Mail>, id: nat, mail: Mail, to: string)
    requires id !in table && mail.toClient == to
    ensures table[id := mail] - IdSet(Mailbox.IdsFor(table[id := mail], to)) == Others(table, to)
  {
    var more := table[id := mail];
    var ids := Mailbox.IdsFor(more, to);
    forall k: nat
      ensures k in IdSet(ids) <==> k in more && more[k].toClient == to
    {
      assert k in IdSet(ids) <==> k in ids;
    }
  }

  lemma UnreadGrows(before: State, after: State, y: nat, more: seq<Mail>)
    requires LogsOk(before) && y in before.clients && after.clients == before.clients && after.seen == before.seen
    requires Mailbox.Replied(after.mail, before.clients[y].id)
             == Mailbox.Replied(before.mail, before.clients[y].id) + more
    ensures y in before.seen && Unread(after, y) == Unread(before, y) + more
  {
    assert LogOk(before, y);
  }

  lemma SendAndPoll(st: State, x: nat, y: nat, kind: Kind, text: string)
    returns (actions: seq<Action>, end: State, mail: Mail, delivered: seq<Mail>)
    requires x in st.clients && y in st.clients && st.clients[x].running && st.clients[y].running
    requires MailboxRuns.CanAllocate(st.mail, x) && MailboxRuns.IsIdle(st.mail, y)
    requires Mailbox.Fits(st.mail.table, st.clients[y].id)
    requires |st.clients[y].id| == ID_LENGTH && HasKeyFor(st.clients[x], kind, st.clients[y].id)
    ensures RunsTo(st, actions, end)
    ensures mail == MailboxRuns.NewMail(st.mail, x, st.clients[y].id, st.clients[x].id, kind, mail.body)
    ensures Outgoing(st.clients[x], kind, st.clients[y].id, text) == Some(mail.body)
    ensures AllWaiting(st.mail.table, st.clients[y].id, mail, delivered)
    ensures end == st.(mail := end.mail, typed := st.typed[mail.tag := text])
    ensures end.mail.table == Others(st.mail.table, st.clients[y].id)
    ensures Mailbox.Replied(end.mail, st.clients[y].id) == Mailbox.Replied(st.mail, st.clients[y].id) + delivered
    ensures MailboxRuns.IsIdle(end.mail, x) && MailboxRuns.IsIdle(end.mail, y)
    ensures x != y ==> end.mail.sessions[y] == st.mail.sessions[y]
  {
    var to := st.clients[y].id;
    var sending, sent, polling, id;
    sending, sent, mail, id := SendRuns(st, x, to, kind, text);
    delivered := Mailbox.Waiting(sent.mail.table, to);
    polling, end := PollRuns(sent, y);
    RunsCompose(st, sending, sent, polling, end);
    actions := sending + polling;
    OthersStay(st.mail.table, id, mail, to);
    DeliveredIs(st.mail.table, id, mail, to);
  }

  /** The run: send, poll, read. */
  lemma Delivers(st: State, x: nat, y: nat, kind: Kind, text: string)
    returns (actions: seq<Action>, end: State, mail: Mail, delivered: seq<Mail>)
    requires LogsOk(st) && x in st.clients && y in st.clients && st.clients[x].running && st.clients[y].running
    requires MailboxRuns.CanAllocate(st.mail, x) && MailboxRuns.IsIdle(st.mail, y)
    requires Mailbox.Fits(st.mail.table, st.clients[y].id)
    requires |st.clients[y].id| == ID_LENGTH && HasKeyFor(st.clients[x], kind, st.clients[y].id)
    ensures RunsTo(st, actions, end)
    ensures mail == MailboxRuns.NewMail(st.mail, x, st.clients[y].id, st.clients[x].id, kind, mail.body)
    ensures Outgoing(st.clients[x], kind, st.clients[y].id, text) == Some(mail.body)
    ensures AllWaiting(st.mail.table, st.clients[y].id, mail, delivered)
    ensures end.mail.table == Others(st.mail.table, st.clients[y].id)
    ensures Mailbox.Replied(end.mail, st.clients[y].id) == Mailbox.Replied(st.mail, st.clients[y].id) + delivered
    ensures y in st.seen
    ensures end.clients == st.clients[y := ReceiveAll(st.clients[y], Arrived(Unread(st, y) + delivered))]
    ensures end.seen == st.seen[y := |Mailbox.Replied(end.mail, st.clients[y].id)|]
    ensures end.typed == st.typed[mail.tag := text]
    ensures MailboxRuns.IsIdle(end.mail, x) && MailboxRuns.IsIdle(end.mail, y)
    ensures x != y ==> end.mail.sessions[y] == st.mail.sessions[y]
  {
    var running, polled;
    running, polled, mail, delivered := SendAndPoll(st, x, y, kind, text);
    UnreadGrows(st, polled, y, delivered);
    end := Step(polled, Read(y));
    RunsOn(st, running, polled, Read(y));
    actions := running + [Read(y)];
  }

  /** In any state a run can reach, whatever else waits in the table: when the
      sessions of x and y are idle, x has cached the key of y that the kind of
      message needs and gets an id, and the ids waiting for y fit a reply, then
      the message can be sent, polled and read. Then y has printed it as it was typed, with all that waited for it,
      and what waits for others is untouched. */
  lemma CanDeliver(past: seq<Action>, st: State, x: nat, y: nat, kind: Kind, text: string)
    returns (actions: seq<Action>, end: State, mail: Mail, delivered: seq<Mail>)
    requires RunsTo(EMPTY, past, st) && x in st.clients && y in st.clients
    requires MailboxRuns.CanAllocate(st.mail, x) && MailboxRuns.IsIdle(st.mail, y)
    requires Mailbox.Fits(st.mail.table, st.clients[y].id)
    requires HasKeyFor(st.clients[x], kind, st.clients[y].id)
    ensures RunsTo(EMPTY, past + actions, end)
    ensures mail == MailboxRuns.NewMail(st.mail, x, st.clients[y].id, st.clients[x].id, kind, mail.body)
    ensures Outgoing(st.clients[x], kind, st.clients[y].id, text) == Some(mail.body)
    ensures AllWaiting(st.mail.table, st.clients[y].id, mail, delivered)
    ensures end.mail.table == Others(st.mail.table, st.clients[y].id)
    ensures Mailbox.Replied(end.mail, st.clients[y].id) == Mailbox.Replied(st.mail, st.clients[y].id) + delivered
    ensures y in st.seen
    ensures end.clients == st.clients[y := ReceiveAll(st.clients[y], Arrived(Unread(st, y) + delivered))]
    ensures end.clients[y].log == ExpectedLog(end.typed, Mailbox.Replied(end.mail, st.clients[y].id))
    ensures Expected(end.typed, mail) in end.clients[y].log && end.typed == st.typed[mail.tag := text]
    ensures MailboxRuns.IsIdle(end.mail, x) && MailboxRuns.IsIdle(end.mail, y)
    ensures x != y ==> end.mail.sessions[y] == st.mail.sessions[y]
  {
    Reached(past, st);
    actions, end, mail, delivered := Delivers(st, x, y, kind, text);
    ReceivingKeepsId(st.clients[y], Arrived(Unread(st, y) + delivered));
    RunsCompose(EMPTY, past, st, actions, end);
    Reached(past + actions, end);
    PrintedLast(end, y, mail);
  }

  lemma Reached(actions: seq<Action>, end: State)
    requires RunsTo(EMPTY, actions, end)
    ensures LogsOk(end)
    ensures forall n :: n in end.clients ==> end.clients[n].running && |end.clients[n].id| == ID_LENGTH
  {
    ProtocolProofs.EmptyInv();
    ProtocolProofs.RunKeeps(EMPTY, actions, end);
    assert forall n :: n in end.clients ==> KeysOk(end.table, n, end.clients[n]);
  }

  /** The new message and all that waited for its addressee. */
  ghost predicate AllWaiting(table: map<nat, Mail>, to: string, mail: Mail, delivered: seq<Mail>)
  {
    && mail in delivered
    && (forall k :: k in table && table[k].toClient == to ==> table[k] in delivered)
    && (table == map[] ==> delivered == [mail])
  }

  lemma DeliveredIs(table: map<nat, Mail>, id: nat, mail: Mail, to: string)
    requires id !in table && mail.toClient == to
    ensures AllWaiting(table, to, mail, Mailbox.Waiting(table[id := mail], to))
  {
    var more := table[id := mail];
    MailboxRuns.IsWaiting(more, id, to);
    forall k | k in table && table[k].toClient == to
      ensures table[k] in Mailbox.Waiting(more, to)
    {
      MailboxRuns.IsWaiting(more, k, to);
    }
    if table == map[] {
      MailboxRuns.OnlyWaiting(more, id, to);
    }
  }

  lemma {:induction false} ReceivingKeepsId(c: ClientState, ms: seq<Incoming>)
    ensures ReceiveAll(c, ms).id == c.id
  {
    if ms != [] {
      ReceivingKeepsId(c, ms[..|ms| - 1]);
    }
  }

  lemma PrintedLast(end: State, y: nat, mail: Mail)
    requires LogsOk(end) && y in end.clients && y in end.seen
    requires end.seen[y] == |Mailbox.Replied(end.mail, end.clients[y].id)|
    requires mail in Mailbox.Replied(end.mail, end.clients[y].id)
    ensures end.clients[y].log == ExpectedLog(end.typed, Mailbox.Replied(end.mail, end.clients[y].id))
    ensures Expected(end.typed, mail) in end.clients[y].log
  {
    assert LogOk(end, y);
    var replied := Mailbox.Replied(end.mail, end.clients[y].id);
    assert replied[..|replied|] == replied;
    var i :| 0 <= i < |replied| && replied[i] == mail;
    assert ExpectedLog(end.typed, replied)[i] == Expected(end.typed, mail);
  }

  // ----- a run from the start -----

  /** Two clients register and open their sessions. */
  lemma TwoRegister(a: string, b: string) returns (actions: seq<Action>, end: State)
    requires |a| == |b| == ID_LENGTH && a != b
    ensures RunsTo(EMPTY, actions, end)
    ensures end.clients == map[0 := NewClient(0, a), 1 := NewClient(1, b)]
    ensures end.table == map[a := PublicKey(0), b := PublicKey(1)] && end.mail.table == map[]
    ensures end.seen == map[0 := 0, 1 := 0] && end.mail.replied == map[]
    ensures MailboxRuns.CanAllocate(end.mail, 0) && MailboxRuns.CanAllocate(end.mail, 1)
  {
    var s1 := Step(EMPTY, Register(0, a));
    var s2 := Step(s1, Register(1, b));
    MailboxRuns.FreshSession(s2.mail, 0);
    var s3 := Step(s2, Serve(Mailbox.Open(0)));
    MailboxRuns.FreshSession(s3.mail, 1);
    end := Step(s3, Serve(Mailbox.Open(1)));
    RunsOne(EMPTY, Register(0, a));
    RunsOn(EMPTY, [Register(0, a)], s1, Register(1, b));
    actions := [Register(0, a)] + [Register(1, b)];
    RunsOn(EMPTY, actions, s2, Serve(Mailbox.Open(0)));
    RunsOn(EMPTY, actions + [Serve(Mailbox.Open(0))], s3, Serve(Mailbox.Open(1)));
    actions := actions + [Serve(Mailbox.Open(0))] + [Serve(Mailbox.Open(1))];
  }

  /** A lone key message is all its addressee takes in. */
  lemma KeyTaken(c: ClientState, mail: Mail, key: AesKey)
    requires c.running && mail.kind == SendSymmetricKey && mail.fromClient !in c.aesKeys
    requires OpenRsa(c.privateKey, mail.body) == Some(key)
    ensures ReceiveAll(c, Arrived([mail])).aesKeys == c.aesKeys[mail.fromClient := key]
  {
    var arrived := Arrived([mail]);
    assert arrived[..0] == [];
    assert ReceiveAll(c, arrived[..0]) == c;
  }

  /** The same, and the second has fetched the public key of the first. */
  lemma TwoKeyed(a: string, b: string) returns (actions: seq<Action>, end: State)
    requires |a| == |b| == ID_LENGTH && a != b
    ensures RunsTo(EMPTY, actions, end)
    ensures end.clients == map[0 := NewClient(0, a), 1 := SavePublicKey(NewClient(1, b), a, PublicKey(0))]
    ensures end.mail.table == map[] && end.seen == map[0 := 0, 1 := 0] && end.mail.replied == map[]
    ensures MailboxRuns.CanAllocate(end.mail, 0) && MailboxRuns.CanAllocate(end.mail, 1)
  {
    var first, start := TwoRegister(a, b);
    assert RequestedId(a) == a;
    RunsOn(EMPTY, first, start, FetchKey(1, a));
    actions := first + [FetchKey(1, a)];
    end := Step(start, FetchKey(1, a));
  }

  /** The second has sent the first its AES key. */
  lemma KeyIsShared(a: string, b: string) returns (actions: seq<Action>, end: State)
    requires |a| == |b| == ID_LENGTH && a != b
    ensures RunsTo(EMPTY, actions, end)
    ensures 0 in end.clients && end.clients[0].id == a && b in end.clients[0].aesKeys
    ensures 1 in end.clients && end.clients[1].id == b
    ensures end.mail.table == map[]
    ensures MailboxRuns.CanAllocate(end.mail, 0) && MailboxRuns.IsIdle(end.mail, 1)
  {
    var first, keyed := TwoKeyed(a, b);
    var second, mail, delivered;
    second, end, mail, delivered := CanDeliver(first, keyed, 1, 0, SendSymmetricKey, "");
    actions := first + second;
    assert Unread(keyed, 0) + delivered == [mail];
    KeyTaken(keyed.clients[0], mail, AesKey(1));
    ReceivingKeepsId(keyed.clients[0], Arrived([mail]));
  }

  /** There is a run in which two clients register, one fetches the other's public
      key and sends it its AES key, and the other then sends a text or a file that
      is printed as it was typed. */
  lemma ContentCanArrive(a: string, b: string, kind: Kind, text: string)
    returns (actions: seq<Action>, end: State)
    requires |a| == |b| == ID_LENGTH && a != b && (kind == SendText || kind == SendFile)
    ensures RunsTo(EMPTY, actions, end)
    ensures 1 in end.clients && Message(a, kind, text) in end.clients[1].log
  {
    var first, shared := KeyIsShared(a, b);
    var second, mail, delivered;
    second, end, mail, delivered := CanDeliver(first, shared, 0, 1, kind, text);
    actions := first + second;
    ContentExpected(end.typed, mail, text);
  }

  lemma ContentExpected(typed: map<Tag, string>, mail: Mail, text: string)
    requires (mail.kind == SendText || mail.kind == SendFile) && mail.tag in typed && typed[mail.tag] == text
    ensures Expected(typed, mail) == Message(mail.fromClient, mail.kind, text)
  {
  }
}
