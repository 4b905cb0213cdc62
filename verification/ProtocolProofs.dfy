/** Key agreement and delivery in every run of the messenger. */
module ProtocolProofs {
  import opened Wrappers
  import opened Terms
  import opened Client
  import opened Protocol
  import Mailbox
  import OrderProofs

  // ----- what the server's steps leave alone -----

  /** Any mailbox step other than a submit. */
  ghost predicate MailStep(m: Mailbox.State, a: Mailbox.Action, m': Mailbox.State)
  {
    Mailbox.Enabled(m, a) && !a.Submit? && m' == Mailbox.Step(m, a)
  }

  /** What such a step does to the parts the protocol talks about. */
  lemma MailFrame(m: Mailbox.State, a: Mailbox.Action, m': Mailbox.State)
    requires MailStep(m, a, m')
    ensures m'.sessions.Keys == m.sessions.Keys + {a.s}
    ensures forall t :: t in m.sessions && t != a.s ==> m'.sessions[t] == m.sessions[t]
    ensures a.s in m.sessions ==> m'.sessions[a.s].issued == m.sessions[a.s].issued
    ensures a.s !in m.sessions ==> a.Open?
  {
  }

  lemma MailPhases(m: Mailbox.State, a: Mailbox.Action, m': Mailbox.State)
    requires MailStep(m, a, m') && a.s in m'.sessions
    ensures !m'.sessions[a.s].phase.Inserting?
    ensures m'.sessions[a.s].phase.Polling? && a.PollRead? ==> m'.sessions[a.s].phase.client == a.client
    ensures m'.sessions[a.s].phase.Polling? && !a.PollRead? ==>
              && a.s in m.sessions && m.sessions[a.s].phase.Polling?
              && m'.sessions[a.s].phase.client == m.sessions[a.s].phase.client
  {
  }

  lemma MailAccepted(m: Mailbox.State, a: Mailbox.Action, m': Mailbox.State)
    requires MailStep(m, a, m')
    ensures forall x :: x in m'.accepted ==>
              || x in m.accepted
              || (a.s in m.sessions && m.sessions[a.s].phase.Inserting? && m.sessions[a.s].phase.mail == x)
  {
  }

  lemma MailReplied(m: Mailbox.State, a: Mailbox.Action, m': Mailbox.State, client: string)
    requires MailStep(m, a, m')
    ensures Mailbox.Replied(m, client) <= Mailbox.Replied(m', client)
  {
  }

  lemma SubmitFrame(m: Mailbox.State, a: Mailbox.Action)
    requires Mailbox.Enabled(m, a) && a.Submit?
    ensures var m' := Mailbox.Step(m, a);
            && m' == m.(sessions := m.sessions[a.s := m'.sessions[a.s]])
            && !m'.sessions[a.s].phase.Polling?
            && m.sessions[a.s].issued <= m'.sessions[a.s].issued
            && (m'.sessions[a.s].phase.Inserting? ==>
                  && m'.sessions[a.s].issued == m.sessions[a.s].issued + 1
                  && m'.sessions[a.s].phase.mail
                     == Mailbox.Mail(a.to, a.from, a.kind, a.body, Mailbox.Tag(a.s, m.sessions[a.s].issued)))
  {
  }

  // ----- mail steps -----

  lemma MailSessions(st: State, a: Mailbox.Action, st': State)
    requires SessionsOk(st) && MailStep(st.mail, a, st'.mail) && st' == st.(mail := st'.mail)
    requires a.s in st.clients && (a.PollRead? ==> a.client == st.clients[a.s].id)
    ensures SessionsOk(st')
  {
    MailFrame(st.mail, a, st'.mail);
    MailPhases(st.mail, a, st'.mail);
  }

  lemma MailKeepsAccepted(st: State, a: Mailbox.Action, st': State)
    requires AcceptedOk(st) && InsertingOk(st)
    requires MailStep(st.mail, a, st'.mail) && st' == st.(mail := st'.mail)
    ensures AcceptedOk(st')
  {
    MailAccepted(st.mail, a, st'.mail);
  }

  lemma MailKeepsInserting(st: State, a: Mailbox.Action, st': State)
    requires InsertingOk(st) && TypedOk(st)
    requires MailStep(st.mail, a, st'.mail) && st' == st.(mail := st'.mail)
    ensures InsertingOk(st') && TypedOk(st')
  {
    MailFrame(st.mail, a, st'.mail);
    MailPhases(st.mail, a, st'.mail);
  }

  lemma MailLogs(st: State, a: Mailbox.Action, st': State)
    requires LogsOk(st)
    requires MailStep(st.mail, a, st'.mail) && st' == st.(mail := st'.mail)
    ensures LogsOk(st')
  {
    forall n | n in st'.clients
      ensures LogOk(st', n)
    {
      assert LogOk(st, n);
      MailReplied(st.mail, a, st'.mail, st.clients[n].id);
      assert Mailbox.Replied(st'.mail, st.clients[n].id)[..st.seen[n]]
          == Mailbox.Replied(st.mail, st.clients[n].id)[..st.seen[n]];
    }
  }

  lemma MailKeeps(st: State, a: Mailbox.Action, st': State)
    requires Inv(st) && Mailbox.Orderly(st.mail, a)
    requires MailStep(st.mail, a, st'.mail) && st' == st.(mail := st'.mail)
    requires a.s in st.clients && (a.PollRead? ==> a.client == st.clients[a.s].id)
    ensures Inv(st')
  {
    OrderProofs.StepKeeps(st.mail, a);
    MailSessions(st, a, st');
    MailKeepsAccepted(st, a, st');
    MailKeepsInserting(st, a, st');
    MailLogs(st, a, st');
  }

  lemma ServeKeeps(st: State, a: Mailbox.Action)
    requires Inv(st) && Enabled(st, Serve(a))
    ensures Inv(Step(st, Serve(a)))
  {
    assert a.s in st.clients;
    MailKeeps(st, a, st.(mail := Mailbox.Step(st.mail, a)));
  }

  /** No second poll for a client can be in flight: only its own session polls
      for it, and that session is idle. */
  lemma OwnPollOnly(st: State, n: nat)
    requires TableOk(st) && SessionsOk(st) && n in st.clients
    requires n in st.mail.sessions && st.mail.sessions[n].phase.Idle?
    ensures Mailbox.NoPoll(st.mail, st.clients[n].id)
  {
    var id := st.clients[n].id;
    assert forall s :: s in st.clients && st.clients[s].id == id ==> s == n by {
      forall s | s in st.clients && st.clients[s].id == id
        ensures s == n
      {
        assert st.table[id] == PublicKey(s);
      }
    }
  }

  lemma PollKeeps(st: State, n: nat)
    requires n in st.clients && Mailbox.Enabled(st.mail, Mailbox.PollRead(n, st.clients[n].id))
    requires Inv(st)
    ensures Inv(PollStep(st, n))
  {
    OwnPollOnly(st, n);
    OrderProofs.ExclusiveIsOrderly(st.mail, Mailbox.PollRead(n, st.clients[n].id));
    MailKeeps(st, Mailbox.PollRead(n, st.clients[n].id), PollStep(st, n));
  }

  // ----- sending -----

  /** The public key a client sends under is the addressee's row. */
  lemma CachedForAddressee(table: map<string, PublicKey>, n: nat, c: ClientState, to: string)
    requires KeysOk(table, n, c) && |to| == ID_LENGTH && to in c.publicKeys
    ensures to in table && c.publicKeys[to] == table[to]
  {
    assert RequestedId(to) == to;
  }

  /** A client that sends encrypts for the addressee. */
  lemma OutgoingIsWellKeyed(st: State, n: nat, to: string, kind: Kind, text: string, mail: Mail)
    requires TableOk(st) && ClientsOk(st) && n in st.clients
    requires Outgoing(st.clients[n], kind, to, text).Some?
    requires mail.toClient == to && mail.fromClient == st.clients[n].id && mail.kind == kind && mail.tag.session == n
    requires mail.body == Outgoing(st.clients[n], kind, to, text).value
    ensures WellKeyed(st.table, st.typed[mail.tag := text], mail)
  {
    assert KeysOk(st.table, n, st.clients[n]);
    if kind == SendSymmetricKey {
      CachedForAddressee(st.table, n, st.clients[n], to);
    }
  }

  lemma WellKeyedLater(table: map<string, PublicKey>, typed: map<Tag, string>, tag: Tag, text: string, m: Mail)
    requires WellKeyed(table, typed, m) && tag !in typed
    ensures WellKeyed(table, typed[tag := text], m)
  {
  }

  lemma TypedGrows(st: State, st': State, tag: Tag, text: string)
    requires AcceptedOk(st) && InsertingOk(st) && tag !in st.typed
    requires st'.typed == st.typed[tag := text] && st'.table == st.table
    requires st'.mail.accepted == st.mail.accepted
    ensures AcceptedOk(st')
    ensures forall s :: s in st.mail.sessions && st.mail.sessions[s].phase.Inserting? ==>
              WellKeyed(st'.table, st'.typed, st.mail.sessions[s].phase.mail)
  {
    forall m | m in st'.mail.accepted
      ensures WellKeyed(st'.table, st'.typed, m)
    {
      WellKeyedLater(st.table, st.typed, tag, text, m);
    }
    forall s | s in st.mail.sessions && st.mail.sessions[s].phase.Inserting?
      ensures WellKeyed(st'.table, st'.typed, st.mail.sessions[s].phase.mail)
    {
      WellKeyedLater(st.table, st.typed, tag, text, st.mail.sessions[s].phase.mail);
    }
  }

  /** What was replied was accepted, and so was recorded when it was sent. */
  lemma RepliedIsTyped(st: State, client: string)
    requires AcceptedOk(st) && Mailbox.PlacedOk(st.mail) && Mailbox.SentOk(st.mail)
    ensures forall m :: m in Mailbox.Replied(st.mail, client) ==>
              m in st.mail.accepted && m.toClient == client && WellKeyed(st.table, st.typed, m)
  {
  }

  lemma LogsWhenTyped(st: State, st': State, tag: Tag, text: string)
    requires LogsOk(st) && AcceptedOk(st) && Mailbox.PlacedOk(st.mail) && Mailbox.SentOk(st.mail)
    requires tag !in st.typed && st'.typed == st.typed[tag := text]
    requires st'.clients == st.clients && st'.seen == st.seen && st'.mail.replied == st.mail.replied
    ensures LogsOk(st')
  {
    forall n | n in st'.clients
      ensures LogOk(st', n)
    {
      assert LogOk(st, n);
      RepliedIsTyped(st, st.clients[n].id);
      var read := Mailbox.Replied(st.mail, st.clients[n].id)[..st.seen[n]];
      assert ExpectedLog(st'.typed, read) == ExpectedLog(st.typed, read);
    }
  }

  lemma SendKeepsTyped(st: State, n: nat, to: string, kind: Kind, text: string)
    requires TableOk(st) && ClientsOk(st) && AcceptedOk(st) && InsertingOk(st) && TypedOk(st) && LogsOk(st)
    requires Mailbox.PlacedOk(st.mail) && Mailbox.SentOk(st.mail)
    requires CanSend(st, n, to, kind, text)
    ensures var st' := SendStep(st, n, to, kind, text);
            AcceptedOk(st') && InsertingOk(st') && TypedOk(st') && LogsOk(st')
  {
    var a := SubmitOf(st, n, to, kind, text);
    var st' := SendStep(st, n, to, kind, text);
    SubmitFrame(st.mail, a);
    if st'.mail.sessions[n].phase.Inserting? {
      var mail := st'.mail.sessions[n].phase.mail;
      OutgoingIsWellKeyed(st, n, to, kind, text, mail);
      SendRecords(st, st', n, mail, text);
    } else {
      SendFails(st, st', n);
    }
  }

  /** A send that gets no id leaves everything as it was but its session. */
  lemma SendFails(st: State, st': State, n: nat)
    requires AcceptedOk(st) && InsertingOk(st) && TypedOk(st) && LogsOk(st)
    requires n in st.mail.sessions && n in st'.mail.sessions && !st'.mail.sessions[n].phase.Inserting?
    requires st.mail.sessions[n].issued <= st'.mail.sessions[n].issued
    requires st'.mail == st.mail.(sessions := st.mail.sessions[n := st'.mail.sessions[n]])
    requires st' == st.(mail := st'.mail)
    ensures AcceptedOk(st') && InsertingOk(st') && TypedOk(st') && LogsOk(st')
  {
    SameLogs(st, st');
  }

  lemma SendRecords(st: State, st': State, n: nat, mail: Mail, text: string)
    requires AcceptedOk(st) && InsertingOk(st) && TypedOk(st) && LogsOk(st)
    requires Mailbox.PlacedOk(st.mail) && Mailbox.SentOk(st.mail)
    requires n in st.mail.sessions && n in st'.mail.sessions
    requires st'.mail.sessions[n].phase.Inserting? && st'.mail.sessions[n].phase.mail == mail
    requires mail.tag == Mailbox.Tag(n, st.mail.sessions[n].issued)
    requires st'.mail.sessions[n].issued == st.mail.sessions[n].issued + 1
    requires st'.mail == st.mail.(sessions := st.mail.sessions[n := st'.mail.sessions[n]])
    requires st' == st.(mail := st'.mail, typed := st.typed[mail.tag := text])
    requires WellKeyed(st.table, st'.typed, mail)
    ensures AcceptedOk(st') && InsertingOk(st') && TypedOk(st') && LogsOk(st')
  {
    TypedGrows(st, st', mail.tag, text);
    LogsWhenTyped(st, st', mail.tag, text);
  }

  lemma SameLogs(st: State, st': State)
    requires LogsOk(st)
    requires st'.typed == st.typed && st'.clients == st.clients && st'.seen == st.seen
    requires st'.mail.replied == st.mail.replied
    ensures LogsOk(st')
  {
    forall n | n in st'.clients
      ensures LogOk(st', n)
    {
      assert LogOk(st, n);
    }
  }

  lemma SendKeeps(st: State, n: nat, to: string, kind: Kind, text: string)
    requires Inv(st) && Enabled(st, Send(n, to, kind, text))
    ensures Inv(SendStep(st, n, to, kind, text))
  {
    var a := SubmitOf(st, n, to, kind, text);
    OrderProofs.StepKeeps(st.mail, a);
    SubmitFrame(st.mail, a);
    SendKeepsTyped(st, n, to, kind, text);
    SendSessions(st, n, to, kind, text);
  }

  lemma SendSessions(st: State, n: nat, to: string, kind: Kind, text: string)
    requires SessionsOk(st) && CanSend(st, n, to, kind, text)
    ensures SessionsOk(SendStep(st, n, to, kind, text))
  {
    SubmitFrame(st.mail, SubmitOf(st, n, to, kind, text));
  }

  // ----- registering and fetching keys -----

  lemma RegisterTable(st: State, n: nat, id: string)
    requires TableOk(st) && Enabled(st, Register(n, id))
    ensures TableOk(RegisterStep(st, n, id))
  {
  }

  lemma RegisterClients(st: State, n: nat, id: string)
    requires ClientsOk(st) && Enabled(st, Register(n, id))
    ensures ClientsOk(RegisterStep(st, n, id))
  {
    var st' := RegisterStep(st, n, id);
    forall k | k in st'.clients
      ensures KeysOk(st'.table, k, st'.clients[k])
    {
      assert k != n ==> KeysOk(st.table, k, st.clients[k]);
    }
  }

  lemma RegisterSessions(st: State, n: nat, id: string)
    requires SessionsOk(st) && Enabled(st, Register(n, id))
    ensures SessionsOk(RegisterStep(st, n, id))
  {
  }

  lemma WellKeyedInLarger(table: map<string, PublicKey>, id: string, key: PublicKey, typed: map<Tag, string>, m: Mail)
    requires WellKeyed(table, typed, m) && id !in table
    ensures WellKeyed(table[id := key], typed, m)
  {
  }

  lemma RegisterAccepted(st: State, n: nat, id: string)
    requires AcceptedOk(st) && InsertingOk(st) && Enabled(st, Register(n, id))
    ensures AcceptedOk(RegisterStep(st, n, id)) && InsertingOk(RegisterStep(st, n, id))
  {
    var st' := RegisterStep(st, n, id);
    forall m | m in st'.mail.accepted
      ensures WellKeyed(st'.table, st'.typed, m)
    {
      WellKeyedInLarger(st.table, id, PublicKey(n), st.typed, m);
    }
    forall s | s in st'.mail.sessions && st'.mail.sessions[s].phase.Inserting?
      ensures WellKeyed(st'.table, st'.typed, st'.mail.sessions[s].phase.mail)
    {
      WellKeyedInLarger(st.table, id, PublicKey(n), st.typed, st.mail.sessions[s].phase.mail);
    }
  }

  lemma RegisterLogs(st: State, n: nat, id: string)
    requires LogsOk(st) && Enabled(st, Register(n, id))
    ensures LogsOk(RegisterStep(st, n, id))
  {
    var st' := RegisterStep(st, n, id);
    forall k | k in st'.clients
      ensures LogOk(st', k)
    {
      assert k != n ==> LogOk(st, k);
    }
  }

  lemma RegisterKeeps(st: State, n: nat, id: string)
    requires Inv(st) && Enabled(st, Register(n, id))
    ensures Inv(RegisterStep(st, n, id))
  {
    RegisterTable(st, n, id);
    RegisterClients(st, n, id);
    RegisterSessions(st, n, id);
    RegisterAccepted(st, n, id);
    RegisterLogs(st, n, id);
  }

  /** Only client n's caches and log changed, and how far it has read. */
  ghost predicate ClientChange(st: State, n: nat, st': State)
  {
    && n in st.clients && n in st'.clients && n in st'.seen
    && st' == st.(clients := st.clients[n := st'.clients[n]], seen := st.seen[n := st'.seen[n]])
    && st'.clients[n].id == st.clients[n].id
  }

  lemma ClientTable(st: State, n: nat, st': State)
    requires TableOk(st) && ClientChange(st, n, st')
    ensures TableOk(st')
  {
    assert forall k :: k in st'.clients ==> k in st.clients && st'.clients[k].id == st.clients[k].id;
  }

  lemma ClientKeys(st: State, n: nat, st': State)
    requires ClientsOk(st) && ClientChange(st, n, st') && KeysOk(st.table, n, st'.clients[n])
    ensures ClientsOk(st')
  {
    forall k | k in st'.clients
      ensures KeysOk(st'.table, k, st'.clients[k])
    {
      assert KeysOk(st.table, k, st.clients[k]);
    }
  }

  lemma ClientSessions(st: State, n: nat, st': State)
    requires SessionsOk(st) && ClientChange(st, n, st')
    ensures SessionsOk(st')
  {
  }

  lemma ClientLogs(st: State, n: nat, st': State)
    requires LogsOk(st) && ClientChange(st, n, st') && LogOk(st', n)
    ensures LogsOk(st')
  {
    forall k | k in st'.clients
      ensures LogOk(st', k)
    {
      assert LogOk(st, k);
    }
  }

  lemma ClientKeeps(st: State, n: nat, st': State)
    requires Inv(st) && ClientChange(st, n, st')
    requires KeysOk(st.table, n, st'.clients[n]) && LogOk(st', n)
    ensures Inv(st')
  {
    ClientTable(st, n, st');
    ClientKeys(st, n, st');
    ClientSessions(st, n, st');
    ClientLogs(st, n, st');
  }

  lemma FetchKeyKeeps(st: State, n: nat, typed: string)
    requires Inv(st) && Enabled(st, FetchKey(n, typed))
    ensures Inv(FetchKeyStep(st, n, typed))
  {
    var st' := FetchKeyStep(st, n, typed);
    assert KeysOk(st.table, n, st.clients[n]) && LogOk(st, n);
    FetchKeyOk(st, n, typed);
    ClientKeeps(st, n, st');
  }

  lemma FetchKeyOk(st: State, n: nat, typed: string)
    requires CanFetch(st, n, typed) && KeysOk(st.table, n, st.clients[n]) && LogOk(st, n)
    ensures var st' := FetchKeyStep(st, n, typed);
            ClientChange(st, n, st') && KeysOk(st.table, n, st'.clients[n]) && LogOk(st', n)
  {
    var st' := FetchKeyStep(st, n, typed);
    assert st'.seen == st.seen[n := st.seen[n]];
  }

  // ----- reading -----

  /** One well-keyed message addressed to the client prints what is expected. */
  lemma ReceiveOne(st: State, n: nat, c: ClientState, m: Mail)
    requires TableOk(st) && n in st.clients && KeysOk(st.table, n, c) && c.id == st.clients[n].id
    requires WellKeyed(st.table, st.typed, m) && m.toClient == c.id
    ensures var c' := Receive(c, Incoming(m.fromClient, m.kind, m.body));
            && KeysOk(st.table, n, c') && c'.id == c.id
            && c'.log == c.log + [Expected(st.typed, m)]
  {
  }

  lemma {:induction false} ReceiveMany(st: State, n: nat, c: ClientState, ms: seq<Mail>)
    requires TableOk(st) && n in st.clients && KeysOk(st.table, n, c) && c.id == st.clients[n].id
    requires forall m :: m in ms ==> WellKeyed(st.table, st.typed, m) && m.toClient == c.id
    ensures var c' := ReceiveAll(c, Arrived(ms));
            && KeysOk(st.table, n, c') && c'.id == c.id
            && c'.log == c.log + ExpectedLog(st.typed, ms)
  {
    if ms != [] {
      var front, last := ms[..|ms| - 1], ms[|ms| - 1];
      assert ms == front + [last];
      assert Arrived(ms)[..|ms| - 1] == Arrived(front);
      ReceiveMany(st, n, c, front);
      assert last in ms;
      ReceiveOne(st, n, ReceiveAll(c, Arrived(front)), last);
      assert ExpectedLog(st.typed, ms) == ExpectedLog(st.typed, front) + [Expected(st.typed, last)];
    }
  }

  lemma ReadClient(st: State, n: nat)
    requires TableOk(st) && AcceptedOk(st) && Mailbox.PlacedOk(st.mail) && Mailbox.SentOk(st.mail)
    requires n in st.clients && n in st.seen && KeysOk(st.table, n, st.clients[n]) && LogOk(st, n)
    ensures var c := ReceiveAll(st.clients[n], Arrived(Unread(st, n)));
            && KeysOk(st.table, n, c)
            && c.id == st.clients[n].id
            && c.log == st.clients[n].log + ExpectedLog(st.typed, Unread(st, n))
  {
    RepliedIsTyped(st, st.clients[n].id);
    ReceiveMany(st, n, st.clients[n], Unread(st, n));
  }

  lemma ReadLog(st: State, n: nat)
    requires n in st.clients && LogOk(st, n)
    requires ReadStep(st, n).clients[n].id == st.clients[n].id
    requires ReadStep(st, n).clients[n].log == st.clients[n].log + ExpectedLog(st.typed, Unread(st, n))
    ensures LogOk(ReadStep(st, n), n)
  {
    var replied := Mailbox.Replied(st.mail, st.clients[n].id);
    ExpectedLogSplits(st.typed, replied, st.seen[n]);
    assert replied[..|replied|] == replied;
  }

  lemma ExpectedLogSplits(typed: map<Tag, string>, ms: seq<Mail>, k: nat)
    requires k <= |ms|
    ensures ExpectedLog(typed, ms) == ExpectedLog(typed, ms[..k]) + ExpectedLog(typed, ms[k..])
  {
  }

  lemma ReadKeeps(st: State, n: nat)
    requires Inv(st) && Enabled(st, Read(n))
    ensures Inv(ReadStep(st, n))
  {
    assert KeysOk(st.table, n, st.clients[n]) && LogOk(st, n);
    ReadClient(st, n);
    ReadLog(st, n);
    ClientKeeps(st, n, ReadStep(st, n));
  }

  // ----- every run -----

  lemma EmptyInv()
    ensures Inv(EMPTY)
  {
    OrderProofs.EmptyInv();
  }

  lemma StepKeeps(st: State, a: Action)
    requires Inv(st) && Enabled(st, a)
    ensures Inv(Step(st, a))
  {
    match a
    case Register(n, id) => RegisterKeeps(st, n, id);
    case Serve(step) => ServeKeeps(st, step);
    case FetchKey(n, typed) => FetchKeyKeeps(st, n, typed);
    case Send(n, to, kind, text) => SendKeeps(st, n, to, kind, text);
    case Poll(n) => PollKeeps(st, n);
    case Read(n) => ReadKeeps(st, n);
  }

  lemma {:induction false} RunKeeps(st: State, actions: seq<Action>, end: State)
    requires Inv(st) && RunsTo(st, actions, end)
    ensures Inv(end)
    decreases |actions|
  {
    if actions != [] {
      StepKeeps(st, actions[0]);
      RunKeeps(Step(st, actions[0]), actions[1..], end);
    }
  }
}
