/** Exactly which polls endanger the order of replies. */
module MailboxOrder {
  import opened Mailbox
  import opened MailboxRuns
  import opened MailboxTheorems
  import MailboxProofs
  import OrderProofs

  /** Every orderly continuation sends this recipient's messages in order. */
  ghost predicate RepliesInOrder(st: State, client: string)
  {
    forall actions: seq<Action>, end: State :: RunsOrderly(st, actions, end) ==> InSendingOrder(Replied(end, client))
  }

  lemma InvRepliesInOrder(st: State, client: string)
    requires Inv(st)
    ensures RepliesInOrder(st, client)
  {
    forall actions: seq<Action>, end: State | RunsOrderly(st, actions, end)
      ensures InSendingOrder(Replied(end, client))
    {
      RunKeeps(st, actions, end);
    }
  }

  lemma DisorderRefutes(st: State, client: string, actions: seq<Action>, end: State)
    requires RunsOrderly(st, actions, end) && !InSendingOrder(Replied(end, client))
    ensures !RepliesInOrder(st, client)
  {
  }

  // ----- overtaking -----

  lemma {:induction false} NoReadIsOrderly(st: State, actions: seq<Action>, end: State)
    requires RunsTo(st, actions, end) && NoReads(actions)
    ensures RunsOrderly(st, actions, end)
    decreases |actions|
  {
    if actions != [] {
      assert forall i :: 0 <= i < |actions| - 1 ==> actions[1..][i] == actions[i + 1];
      NoReadIsOrderly(Step(st, actions[0]), actions[1..], end);
    }
  }

  lemma {:induction false} DeletesAre(s: nat, n: nat)
    ensures forall i :: 0 <= i < n ==> PollDeletes(s, n)[i] == PollDelete(s)
  {
    if n > 0 {
      DeletesAre(s, n - 1);
    }
  }

  predicate NoReads(actions: seq<Action>)
  {
    forall i :: 0 <= i < |actions| ==> !actions[i].PollRead?
  }

  lemma DeletesRun(st: State, s: nat, n: nat)
    requires CanDrain(st, s, n)
    ensures RunsTo(st, PollDeletes(s, n), Drain(st, s, n)) && NoReads(PollDeletes(s, n))
  {
    DrainRuns(st, s, n);
    DeletesAre(s, n);
  }

  lemma ThenReplies(st: State, actions: seq<Action>, mid: State, s: nat)
    requires RunsTo(st, actions, mid) && NoReads(actions) && Enabled(mid, PollReply(s))
    ensures RunsTo(st, actions + [PollReply(s)], PollReplyStep(mid, s)) && NoReads(actions + [PollReply(s)])
  {
    RunsOn(st, actions, mid, PollReply(s));
  }

  /** A poll goes through to its reply. */
  lemma DrainsAndReplies(st: State, s: nat, client: string) returns (actions: seq<Action>, end: State)
    requires Enabled(st, PollRead(s, client)) && Fits(st.table, client)
    ensures RunsTo(PollReadStep(st, s, client), actions, end) && NoReads(actions)
    ensures end.sessions == st.sessions
    ensures end.replied == st.replied[client := Replied(st, client) + Waiting(st.table, client)]
  {
    var n := |IdsFor(st.table, client)|;
    var polling := PollReadStep(st, s, client);
    PollDrains(st, s, client);
    DeletesRun(polling, s, n);
    ThenReplies(polling, PollDeletes(s, n), Drain(polling, s, n), s);
    actions, end := PollDeletes(s, n) + [PollReply(s)], PollReplyStep(Drain(polling, s, n), s);
  }

  /** A new poll goes through to its reply, and then an older one sends its own. */
  lemma Overtakes(st: State, s: nat, t: nat, client: string) returns (actions: seq<Action>, end: State)
    requires Enabled(st, PollRead(s, client)) && Fits(st.table, client)
    requires t in st.sessions && st.sessions[t].phase.Polling? && st.sessions[t].phase.remaining == []
    requires st.sessions[t].phase.client == client
    ensures RunsOrderly(PollReadStep(st, s, client), actions, end)
    ensures Replied(end, client)
            == Replied(st, client) + Waiting(st.table, client) + st.sessions[t].phase.payload
  {
    var first, sent := DrainsAndReplies(st, s, client);
    ReplySends(sent, t, client, st.sessions[t].phase.payload);
    ThenReplies(PollReadStep(st, s, client), first, sent, t);
    actions, end := first + [PollReply(t)], PollReplyStep(sent, t);
    NoReadIsOrderly(PollReadStep(st, s, client), actions, end);
  }

  lemma LaterFirst(sent: seq<Mail>, waiting: seq<Mail>, payload: seq<Mail>, m: Mail, n: Mail)
    requires n in waiting && m in payload && m.tag.session == n.tag.session && m.tag.serial < n.tag.serial
    ensures !InSendingOrder(sent + waiting + payload)
  {
    var i :| 0 <= i < |waiting| && waiting[i] == n;
    var j :| 0 <= j < |payload| && payload[j] == m;
    var all := sent + waiting + payload;
    assert all[|sent| + i] == n && all[|sent| + |waiting| + j] == m;
  }

  lemma UnsafeInverts(st: State, s: nat, client: string) returns (actions: seq<Action>, end: State)
    requires OrderOk(st) && PlacedOk(st) && SentOk(st)
    requires Enabled(st, PollRead(s, client)) && NothingToPlace(st, client) && !OrderSafe(st, client)
    ensures RunsOrderly(PollReadStep(st, s, client), actions, end)
    ensures !InSendingOrder(Replied(end, client))
  {
    var t, m :| FinishingPollOf(st, t, client) && Carries(st, t, m) && WaitsFrom(st.table, client, m.tag.session);
    var id :| id in st.table && st.table[id].toClient == client && st.table[id].tag.session == m.tag.session;
    OrderProofs.DrainedOutcome(st, t, client);
    CarriedIsPlaced(st, m);
    assert m in Placed(st, client) && SentBefore(m, st.table[id]);
    IsWaiting(st.table, id, client);
    actions, end := Overtakes(st, s, t, client);
    LaterFirst(Replied(st, client), Waiting(st.table, client), st.sessions[t].phase.payload, m, st.table[id]);
  }

  /** When exactly a poll may start without risk to order, given that it places
      nothing twice: every orderly continuation sends the recipient's messages in
      sending order if and only if no poll that can still finish holds a message of
      a session from which another message would now be polled past it. */
  lemma OrderExactly(st: State, s: nat, client: string)
    requires Inv(st) && Enabled(st, PollRead(s, client)) && NothingToPlace(st, client)
    ensures OrderSafe(st, client) <==> RepliesInOrder(PollReadStep(st, s, client), client)
  {
    if OrderSafe(st, client) {
      MailboxProofs.PollReadCore(st, s, client);
      OrderProofs.PollReadOrdered(st, s, client);
      InvRepliesInOrder(PollReadStep(st, s, client), client);
    } else {
      var actions, end := UnsafeInverts(st, s, client);
      DisorderRefutes(PollReadStep(st, s, client), client, actions, end);
    }
  }
}
