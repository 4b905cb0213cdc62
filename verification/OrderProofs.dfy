/** Orderly steps keep the order of replies. */
module OrderProofs {
  import opened Bytes
  import opened Mailbox
  import opened MailboxProofs

  lemma ApartTurns(a: seq<Mail>, b: seq<Mail>)
    requires Apart(a, b)
    ensures Apart(b, a)
  {
  }

  // ----- a session-only change -----

  /** The polls of a state in which only session s changed. */
  lemma SessionOrdered(st: State, st': State, s: nat)
    requires Ordered(st) && SessionChange(st, st', s)
    requires CanFinish(st'.sessions[s].phase) ==> PollOrdered(st', s)
    requires forall t :: t != s && CanFinish(st'.sessions[s].phase)
                         && FinishingPollOf(st, t, st'.sessions[s].phase.client) ==>
               Apart(Outcome(st'.sessions[s].phase), Outcome(st.sessions[t].phase))
    ensures Ordered(st')
  {
    assert forall c: string :: Replied(st', c) == Replied(st, c);
    assert forall t :: t in st.sessions && t != s ==> st'.sessions[t] == st.sessions[t];
    assert forall t, c: string :: t != s ==> (FinishingPollOf(st', t, c) <==> FinishingPollOf(st, t, c));
    forall t | t in st'.sessions && CanFinish(st'.sessions[t].phase)
      ensures PollOrdered(st', t)
    {
      assert t != s ==> PollOrdered(st, t);
    }
    forall t, u, c: string | t != u && FinishingPollOf(st', t, c) && FinishingPollOf(st', u, c)
      ensures Apart(Outcome(st'.sessions[t].phase), Outcome(st'.sessions[u].phase))
    {
      if u == s {
        ApartTurns(Outcome(st'.sessions[s].phase), Outcome(st.sessions[t].phase));
      }
    }
  }

  // ----- a poll starts -----

  /** What waits for a client follows in sending order what was sent to it. */
  lemma WaitingInOrder(st: State, client: string)
    requires OrderOk(st) && SentOk(st) && Ordered(st)
    ensures InSendingOrder(Replied(st, client) + Waiting(st.table, client))
  {
    var ids := IdsFor(st.table, client);
    assert forall i :: 0 <= i < |ids| ==> ids[i] in ids;
    var sent, waiting := Replied(st, client), Waiting(st.table, client);
    assert forall i :: 0 <= i < |sent| ==> sent[i] in Placed(st, client);
    assert forall i, j :: 0 <= i < j < |waiting| ==> SentBefore(waiting[i], waiting[j]);
  }

  lemma FetchFits(table: map<nat, Mail>, client: string)
    ensures Fits(table, client) <==> AllFit(Fetch(table, IdsFor(table, client)))
  {
    var ids := IdsFor(table, client);
    assert forall i :: 0 <= i < |ids| ==> ids[i] in ids;
    if AllFit(Fetch(table, ids)) {
      forall id | id in table && table[id].toClient == client
        ensures id < TWO_32
      {
        assert id in ids;
        var i :| 0 <= i < |ids| && ids[i] == id;
        assert Fetch(table, ids)[i].id == id;
      }
    }
  }

  lemma NewOutcome(st: State, s: nat, client: string)
    requires s in st.sessions
    ensures Outcome(PollReadStep(st, s, client).sessions[s].phase) == Waiting(st.table, client)
    ensures CanFinish(PollReadStep(st, s, client).sessions[s].phase) <==> Fits(st.table, client)
  {
    var rows := Fetch(st.table, IdsFor(st.table, client));
    assert PollReadStep(st, s, client).sessions[s].phase == Polling(client, rows, []);
    assert [] + Mails(rows) == Mails(rows);
    FetchFits(st.table, client);
  }

  /** A poll with nothing left to place holds its payload. */
  lemma DrainedOutcome(st: State, t: nat, client: string)
    requires NothingToPlace(st, client) && FinishingPollOf(st, t, client)
    ensures st.sessions[t].phase.remaining == []
    ensures Outcome(st.sessions[t].phase) == st.sessions[t].phase.payload
  {
    assert !LivePollOf(st, t, client);
    assert Mails([]) == [];
  }

  lemma WaitingIsApart(st: State, t: nat, client: string)
    requires NothingToPlace(st, client) && OrderSafe(st, client) && Fits(st.table, client)
    requires FinishingPollOf(st, t, client)
    ensures Apart(Waiting(st.table, client), Outcome(st.sessions[t].phase))
  {
    DrainedOutcome(st, t, client);
    var ids, waiting := IdsFor(st.table, client), Waiting(st.table, client);
    var payload := st.sessions[t].phase.payload;
    forall i, j | 0 <= i < |waiting| && 0 <= j < |payload|
      ensures waiting[i].tag.session != payload[j].tag.session
    {
      assert ids[i] in ids && st.table[ids[i]] == waiting[i];
      assert WaitsFrom(st.table, client, waiting[i].tag.session);
      assert Carries(st, t, payload[j]);
    }
  }

  lemma PollReadOrdered(st: State, s: nat, client: string)
    requires OrderOk(st) && SentOk(st) && Ordered(st) && Enabled(st, PollRead(s, client))
    requires NothingToPlace(st, client) && OrderSafe(st, client)
    ensures Ordered(PollReadStep(st, s, client))
  {
    var st' := PollReadStep(st, s, client);
    NewOutcome(st, s, client);
    WaitingInOrder(st, client);
    assert Replied(st', client) == Replied(st, client);
    forall t | t != s && CanFinish(st'.sessions[s].phase) && FinishingPollOf(st, t, client)
      ensures Apart(Outcome(st'.sessions[s].phase), Outcome(st.sessions[t].phase))
    {
      WaitingIsApart(st, t, client);
    }
    SessionOrdered(st, st', s);
  }

  // ----- an insert, a delete -----

  lemma InsertOrdered(st: State, s: nat, id: nat, mail: Mail, st': State)
    requires Ordered(st) && Inserts(st, s, id, mail, st')
    ensures Ordered(st')
  {
    assert forall c: string :: Replied(st', c) == Replied(st, c);
    assert forall t, c: string :: FinishingPollOf(st', t, c) <==> FinishingPollOf(st, t, c);
    forall t | t in st'.sessions && CanFinish(st'.sessions[t].phase)
      ensures PollOrdered(st', t)
    {
      assert PollOrdered(st, t);
    }
  }

  lemma SplitMails(payload: seq<Mail>, rows: seq<Fetched>)
    requires rows != []
    ensures payload + [rows[0].mail] + Mails(rows[1..]) == payload + Mails(rows)
  {
    assert Mails(rows) == [rows[0].mail] + Mails(rows[1..]);
  }

  lemma FitsWithoutFirst(rows: seq<Fetched>)
    requires rows != [] && rows[0].id < TWO_32
    ensures AllFit(rows[1..]) <==> AllFit(rows)
  {
    assert forall i :: 0 < i < |rows| ==> rows[i] == rows[1..][i - 1];
  }

  /** Placing a row does not change what the reply will hold. */
  lemma SameOutcome(phase: Phase, next: Phase)
    requires phase.Polling? && phase.remaining != [] && phase.remaining[0].id < TWO_32
    requires next == Polling(phase.client, phase.remaining[1..], phase.payload + [phase.remaining[0].mail])
    ensures Outcome(next) == Outcome(phase)
    ensures CanFinish(next) <==> CanFinish(phase)
  {
    SplitMails(phase.payload, phase.remaining);
    FitsWithoutFirst(phase.remaining);
  }

  lemma DeleteOrdered(st: State, s: nat, id: nat, mail: Mail, st': State)
    requires Ordered(st) && Deletes(st, s, id, mail, st') && id < TWO_32
    ensures Ordered(st')
  {
    DeletePlaced(st, s, id, mail, st');
    SameOutcome(st.sessions[s].phase, st'.sessions[s].phase);
    assert forall t :: t in st.sessions && t != s ==> st'.sessions[t] == st.sessions[t];
    assert forall t, c: string :: FinishingPollOf(st', t, c) <==> FinishingPollOf(st, t, c);
    forall t | t in st'.sessions && CanFinish(st'.sessions[t].phase)
      ensures PollOrdered(st', t)
    {
      assert PollOrdered(st, t);
    }
  }

  // ----- a reply -----

  lemma JoinOrdered(sent: seq<Mail>, now: seq<Mail>, later: seq<Mail>)
    requires InSendingOrder(sent + now) && InSendingOrder(sent + later) && Apart(now, later)
    ensures InSendingOrder(sent + now + later)
  {
    var all := sent + now + later;
    forall i, j | 0 <= i < j < |all|
      ensures SentBefore(all[i], all[j])
    {
      if j < |sent| + |now| {
        assert all[i] == (sent + now)[i] && all[j] == (sent + now)[j];
      } else if i < |sent| {
        assert all[i] == (sent + later)[i] && all[j] == (sent + later)[j - |now|];
      } else if i >= |sent| + |now| {
        assert all[i] == (sent + later)[i - |now|] && all[j] == (sent + later)[j - |now|];
      } else {
        assert all[i] == now[i - |sent|] && all[j] == later[j - |sent| - |now|];
      }
    }
  }

  lemma ReplyOrdered(st: State, s: nat, client: string, payload: seq<Mail>, st': State)
    requires Ordered(st) && Replies(st, s, client, payload, st')
    ensures Ordered(st')
  {
    ReplyLogs(st, s, client, payload, st');
    assert Mails([]) == [];
    assert Outcome(st.sessions[s].phase) == payload && FinishingPollOf(st, s, client) && PollOrdered(st, s);
    assert forall t :: t in st.sessions && t != s ==> st'.sessions[t] == st.sessions[t];
    assert forall t, c: string :: FinishingPollOf(st', t, c) <==> FinishingPollOf(st, t, c) && t != s;
    forall t | t in st'.sessions && CanFinish(st'.sessions[t].phase)
      ensures PollOrdered(st', t)
    {
      assert PollOrdered(st, t);
      if st.sessions[t].phase.client == client {
        assert FinishingPollOf(st, t, client);
        JoinOrdered(Replied(st, client), payload, Outcome(st.sessions[t].phase));
      }
    }
  }

  // ----- every step -----

  lemma EmptyInv()
    ensures Inv(EMPTY)
  {
    EmptyCore();
  }

  lemma OrderedStepKeeps(st: State, a: Action)
    requires OrderOk(st) && SentOk(st) && Ordered(st) && Enabled(st, a) && Orderly(st, a)
    ensures Ordered(Step(st, a))
  {
    match a
    case Open(s) => SessionOrdered(st, OpenStep(st, s), s);
    case Submit(s, to, from, kind, body) => SessionOrdered(st, SubmitStep(st, s, to, from, kind, body), s);
    case Insert(s) =>
      var Inserting(id, mail) := st.sessions[s].phase;
      if id in st.table {
        SessionOrdered(st, Die(st, s), s);
      } else {
        InsertOrdered(st, s, id, mail, InsertStep(st, s));
      }
    case PollRead(s, client) => PollReadOrdered(st, s, client);
    case PollDelete(s) =>
      var Fetched(id, mail) := st.sessions[s].phase.remaining[0];
      if id >= TWO_32 {
        SessionOrdered(st, Die(st, s), s);
      } else {
        DeleteOrdered(st, s, id, mail, PollDeleteStep(st, s));
      }
    case PollReply(s) =>
      ReplyOrdered(st, s, st.sessions[s].phase.client, st.sessions[s].phase.payload, PollReplyStep(st, s));
    case Crash(s) => SessionOrdered(st, Die(st, s), s);
  }

  /** Every orderly step keeps the whole invariant. */
  lemma StepKeeps(st: State, a: Action)
    requires Inv(st) && Enabled(st, a) && Orderly(st, a)
    ensures Inv(Step(st, a))
  {
    CoreStepKeeps(st, a);
    OrderedStepKeeps(st, a);
  }

  /** One poll at a time is orderly. */
  lemma ExclusiveIsOrderly(st: State, a: Action)
    requires Exclusive(st, a)
    ensures Orderly(st, a)
  {
    assert a.PollRead? ==> forall s :: LivePollOf(st, s, a.client) || FinishingPollOf(st, s, a.client) ==>
                                         PollOf(st, s, a.client);
  }
}
