/** What every step of the mailbox keeps. */
module MailboxProofs {
  import opened Wrappers
  import opened Bytes
  import opened Tables
  import opened MessageIds
  import opened Terms
  import opened Mailbox

  /** Only session s changed. */
  ghost predicate SessionChange(st: State, st': State, s: nat)
  {
    && s in st'.sessions
    && st' == st.(sessions := st.sessions[s := st'.sessions[s]])
  }

  // ----- a session-only change -----

  lemma SessionTags(st: State, st': State, s: nat)
    requires TagsOk(st) && SessionChange(st, st', s)
    requires s in st.sessions ==> st.sessions[s].issued <= st'.sessions[s].issued
    requires NewestOk(st', s)
    ensures TagsOk(st')
  {
    assert forall t :: t in st.sessions && t != s ==> st'.sessions[t] == st.sessions[t];
  }

  lemma SessionConserved(st: State, st': State, s: nat)
    requires Conserved(st) && SessionChange(st, st', s)
    ensures Conserved(st')
  {
    assert forall c: string :: Placed(st', c) == Placed(st, c);
    assert forall m :: InTable(st', m) <==> InTable(st, m);
  }

  lemma SessionIds(st: State, st': State, s: nat)
    requires IdsOk(st) && SessionChange(st, st', s)
    requires s in st.sessions ==> st.sessions[s].nextId <= st'.sessions[s].nextId
    requires InsertingOk(st', s)
    ensures IdsOk(st')
  {
    assert forall t :: t in st.sessions && t != s ==> st'.sessions[t] == st.sessions[t];
  }

  lemma SessionOrder(st: State, st': State, s: nat)
    requires OrderOk(st) && SessionChange(st, st', s)
    ensures OrderOk(st')
  {
    assert forall c: string :: Placed(st', c) == Placed(st, c);
  }

  lemma SessionLive(st: State, st': State, s: nat)
    requires LivePollsOk(st) && SessionChange(st, st', s)
    requires Live(st'.sessions[s].phase) ==> RowsOk(st', s) && NothingToPlace(st, st'.sessions[s].phase.client)
    ensures LivePollsOk(st')
  {
    assert forall t :: t in st.sessions && t != s ==> st'.sessions[t] == st.sessions[t];
    forall t | t in st'.sessions && Live(st'.sessions[t].phase)
      ensures RowsOk(st', t)
    {
      assert t != s ==> RowsOk(st, t);
    }
    assert forall t, c: string :: t != s ==> (LivePollOf(st', t, c) <==> LivePollOf(st, t, c));
  }

  lemma SessionSent(st: State, st': State, s: nat)
    requires SentOk(st) && SessionChange(st, st', s)
    requires st'.sessions[s].phase.Polling? ==> st'.sessions[s].phase.payload == []
    ensures SentOk(st')
  {
    assert forall c: string :: Placed(st', c) == Placed(st, c) && Replied(st', c) == Replied(st, c);
    assert forall t :: t in st.sessions && t != s ==> st'.sessions[t] == st.sessions[t];
    forall t | t in st'.sessions && st'.sessions[t].phase.Polling?
      ensures UnsentOk(st', t)
    {
      assert t != s ==> UnsentOk(st, t);
    }
    assert forall t, m :: Carries(st', t, m) ==> Carries(st, t, m);
  }

  /** The session's counters only grow. */
  ghost predicate Onward(st: State, st': State, s: nat)
  {
    && s in st'.sessions
    && (s in st.sessions ==>
          && st.sessions[s].issued <= st'.sessions[s].issued
          && st.sessions[s].nextId <= st'.sessions[s].nextId)
  }

  /** What a new value of one session must satisfy to keep the core. */
  lemma SessionCore(st: State, st': State, s: nat)
    requires Core(st) && SessionChange(st, st', s) && Onward(st, st', s)
    requires NewestOk(st', s) && InsertingOk(st', s) && AllocatorOk(st'.sessions[s])
    requires st'.sessions[s].phase.Polling? ==> st'.sessions[s].phase.payload == []
    requires Live(st'.sessions[s].phase) ==> RowsOk(st', s) && NothingToPlace(st, st'.sessions[s].phase.client)
    ensures Core(st')
  {
    SessionTags(st, st', s);
    SessionConserved(st, st', s);
    SessionIds(st, st', s);
    SessionOrder(st, st', s);
    SessionLive(st, st', s);
    SessionSent(st, st', s);
  }

  lemma DieCore(st: State, s: nat)
    requires Core(st) && s in st.sessions
    ensures Core(Die(st, s))
  {
    SessionCore(st, Die(st, s), s);
  }

  lemma OpenCore(st: State, s: nat)
    requires Core(st) && s !in st.sessions
    ensures Core(OpenStep(st, s))
  {
    FirstPageIsAllFree();
    SyncNewSession(SortedIds(st.table.Keys));
    SessionCore(st, OpenStep(st, s), s);
  }

  lemma SubmitCore(st: State, s: nat, to: string, from: string, kind: Kind, body: Content)
    requires Core(st) && Enabled(st, Submit(s, to, from, kind, body))
    ensures Core(SubmitStep(st, s, to, from, kind, body))
  {
    if Allocate(st.sessions[s].pages).Raised? {
      DieCore(st, s);
    } else {
      SubmitFits(st, s, to, from, kind, body);
      SessionCore(st, SubmitStep(st, s, to, from, kind, body), s);
    }
  }

  /** The session as it is with the message about to go in. */
  lemma SubmitFits(st: State, s: nat, to: string, from: string, kind: Kind, body: Content)
    requires TagsOk(st) && AllocatorsOk(st) && IdsOk(st) && Enabled(st, Submit(s, to, from, kind, body))
    requires Allocate(st.sessions[s].pages).Ok?
    ensures var st' := SubmitStep(st, s, to, from, kind, body);
            && SessionChange(st, st', s) && Onward(st, st', s)
            && st'.sessions[s].phase.Inserting?
            && NewestOk(st', s) && InsertingOk(st', s) && AllocatorOk(st'.sessions[s])
  {
    assert AllocatorOk(st.sessions[s]);
    AllocateTakesLeast(st.sessions[s].pages);
    assert forall id :: id in st.table ==> RowOwned(st, id);
  }

  lemma AllFetched(table: map<nat, Mail>, client: string)
    ensures RemainingOk(table, client, Fetch(table, IdsFor(table, client)))
    ensures PrecedesLater(table, client, Fetch(table, IdsFor(table, client)))
  {
    var ids := IdsFor(table, client);
    var remaining := Fetch(table, ids);
    assert forall i :: 0 <= i < |ids| ==> ids[i] in ids;
    forall id | id in table && table[id].toClient == client
      ensures StillToPlace(remaining, id)
    {
      assert id in ids;
      var j :| 0 <= j < |ids| && ids[j] == id;
      assert remaining[j].id == id;
    }
  }

  lemma PollReadRows(st: State, s: nat, client: string)
    requires s in st.sessions
    ensures RowsOk(PollReadStep(st, s, client), s)
  {
    AllFetched(st.table, client);
  }

  lemma PollReadCore(st: State, s: nat, client: string)
    requires Core(st) && Enabled(st, PollRead(s, client)) && NothingToPlace(st, client)
    ensures Core(PollReadStep(st, s, client))
  {
    PollReadRows(st, s, client);
    SessionCore(st, PollReadStep(st, s, client), s);
  }

  // ----- an insert -----

  /** The row that goes in and the state it goes in to. */
  ghost predicate Inserts(st: State, s: nat, id: nat, mail: Mail, st': State)
  {
    && s in st.sessions && st.sessions[s].phase == Inserting(id, mail)
    && id !in st.table
    && s in st'.sessions
    && st' == st.(table := st.table[id := mail],
                  accepted := st.accepted + {mail},
                  sessions := st.sessions[s := st'.sessions[s]])
    && st'.sessions[s] == st.sessions[s].(phase := st'.sessions[s].phase)
    && (st'.sessions[s].phase == Idle || st'.sessions[s].phase == Dead)
  }

  lemma InsertTags(st: State, s: nat, id: nat, mail: Mail, st': State)
    requires TagsOk(st) && Inserts(st, s, id, mail, st')
    ensures TagsOk(st') && mail !in st.accepted
  {
    assert NewestOk(st, s);
    assert forall t :: t in st.sessions && t != s ==> st'.sessions[t] == st.sessions[t];
    forall t | t in st'.sessions
      ensures NewestOk(st', t)
    {
      assert NewestOk(st, t);
    }
  }

  lemma InsertConserved(st: State, s: nat, id: nat, mail: Mail, st': State)
    requires Conserved(st) && Inserts(st, s, id, mail, st') && mail !in st.accepted
    ensures Conserved(st')
  {
    assert forall c: string :: Placed(st', c) == Placed(st, c);
    forall m | m in st'.accepted
      ensures InTable(st', m) || m in Placed(st', m.toClient)
    {
      if m == mail {
        assert st'.table[id] == m;
      } else if InTable(st, m) {
        var at :| at in st.table && st.table[at] == m;
        assert st'.table[at] == m;
      }
    }
  }

  lemma InsertIds(st: State, s: nat, id: nat, mail: Mail, st': State)
    requires IdsOk(st) && Inserts(st, s, id, mail, st') && NewestOk(st, s)
    ensures IdsOk(st')
  {
    assert InsertingOk(st, s);
    assert forall t :: t in st.sessions && t != s ==> st'.sessions[t] == st.sessions[t];
    forall i | i in st'.table
      ensures RowOwned(st', i)
    {
      assert i != id ==> RowOwned(st, i);
    }
    forall t | t in st'.sessions
      ensures InsertingOk(st', t)
    {
      assert InsertingOk(st, t);
    }
  }

  /** The new row is later than everything its session has had accepted. */
  lemma InsertIsLatest(st: State, s: nat, id: nat, mail: Mail, st': State)
    requires TagsOk(st) && IdsOk(st) && Conserved(st) && Inserts(st, s, id, mail, st')
    ensures forall i :: i in st.table ==> SentBefore(st.table[i], mail)
    ensures forall i :: i in st.table && st.table[i].tag.session == s ==> i < id
    ensures forall c: string, m :: m in Placed(st, c) ==> SentBefore(m, mail)
  {
    assert NewestOk(st, s);
    assert InsertingOk(st, s);
  }

  lemma InsertOrder(st: State, s: nat, id: nat, mail: Mail, st': State)
    requires OrderOk(st) && Inserts(st, s, id, mail, st')
    requires NewestOk(st, s)
    requires forall i :: i in st.table ==> SentBefore(st.table[i], mail)
    requires forall i :: i in st.table && st.table[i].tag.session == s ==> i < id
    requires forall c: string, m :: m in Placed(st, c) ==> SentBefore(m, mail)
    ensures OrderOk(st')
  {
    assert forall c: string :: Placed(st', c) == Placed(st, c);
  }

  lemma InsertLive(st: State, s: nat, id: nat, mail: Mail, st': State)
    requires LivePollsOk(st) && Inserts(st, s, id, mail, st')
    requires forall i :: i in st.table ==> SentBefore(st.table[i], mail)
    ensures LivePollsOk(st')
  {
    assert forall t :: t in st.sessions && t != s ==> st'.sessions[t] == st.sessions[t];
    assert forall t, c: string :: LivePollOf(st', t, c) <==> LivePollOf(st, t, c);
    forall t | t in st'.sessions && Live(st'.sessions[t].phase)
      ensures RowsOk(st', t)
    {
      assert RowsOk(st, t);
    }
  }

  lemma InsertSent(st: State, s: nat, id: nat, mail: Mail, st': State)
    requires SentOk(st) && Inserts(st, s, id, mail, st')
    ensures SentOk(st')
  {
    assert forall c: string :: Placed(st', c) == Placed(st, c) && Replied(st', c) == Replied(st, c);
    assert forall t, m :: Carries(st', t, m) <==> Carries(st, t, m);
    forall t | t in st'.sessions && st'.sessions[t].phase.Polling?
      ensures UnsentOk(st', t)
    {
      assert UnsentOk(st, t);
    }
  }

  lemma InsertCoreParts(st: State, s: nat, id: nat, mail: Mail, st': State)
    requires Core(st) && Inserts(st, s, id, mail, st')
    ensures Core(st')
  {
    InsertTags(st, s, id, mail, st');
    InsertConserved(st, s, id, mail, st');
    InsertIds(st, s, id, mail, st');
    InsertIsLatest(st, s, id, mail, st');
    InsertOrder(st, s, id, mail, st');
    InsertLive(st, s, id, mail, st');
    InsertSent(st, s, id, mail, st');
  }

  lemma InsertCore(st: State, s: nat)
    requires Core(st) && Enabled(st, Insert(s))
    ensures Core(InsertStep(st, s))
  {
    var Inserting(id, mail) := st.sessions[s].phase;
    if id in st.table {
      DieCore(st, s);
    } else {
      InsertCoreParts(st, s, id, mail, InsertStep(st, s));
    }
  }

  // ----- a delete -----

  /** The row that moves from the table to the end of the recipient's log. */
  ghost predicate Deletes(st: State, s: nat, id: nat, mail: Mail, st': State)
  {
    && s in st.sessions && st.sessions[s].phase.Polling? && st.sessions[s].phase.remaining != []
    && st.sessions[s].phase.remaining[0] == Fetched(id, mail)
    && var Polling(client, remaining, payload) := st.sessions[s].phase;
    && st' == SetPhase(st, s, Polling(client, remaining[1..], payload + [mail]))
              .(table := st.table - {id}, placed := st.placed[client := Placed(st, client) + [mail]])
  }

  lemma DeletePlaced(st: State, s: nat, id: nat, mail: Mail, st': State)
    requires Deletes(st, s, id, mail, st')
    ensures Placed(st', st.sessions[s].phase.client) == Placed(st, st.sessions[s].phase.client) + [mail]
    ensures forall c: string :: c != st.sessions[s].phase.client ==> Placed(st', c) == Placed(st, c)
    ensures forall c: string :: Replied(st', c) == Replied(st, c)
    ensures forall t, c: string :: PollOf(st', t, c) <==> PollOf(st, t, c)
  {
  }

  lemma DeleteTags(st: State, s: nat, id: nat, mail: Mail, st': State)
    requires TagsOk(st) && Deletes(st, s, id, mail, st')
    ensures TagsOk(st')
  {
    forall t | t in st'.sessions
      ensures NewestOk(st', t)
    {
      assert NewestOk(st, t);
    }
  }

  lemma DeletePending(st: State, s: nat, id: nat, mail: Mail, st': State)
    requires PendingOk(st) && PlacedOk(st) && Deletes(st, s, id, mail, st') && RowsOk(st, s)
    ensures PendingOk(st') && PlacedOk(st')
  {
    DeletePlaced(st, s, id, mail, st');
    var client := st.sessions[s].phase.client;
    assert st.table[id] == mail && mail.toClient == client;
    assert mail !in Placed(st, client);
    assert NoDuplicates(Placed(st, client));
    assert NoDuplicates(Placed(st', client));
  }

  lemma DeleteLosesNothing(st: State, s: nat, id: nat, mail: Mail, st': State)
    requires NothingLost(st) && Deletes(st, s, id, mail, st') && RowsOk(st, s)
    ensures NothingLost(st')
  {
    DeletePlaced(st, s, id, mail, st');
    assert st.table[id] == mail && mail.toClient == st.sessions[s].phase.client;
    forall m | m in st'.accepted
      ensures InTable(st', m) || m in Placed(st', m.toClient)
    {
      if m != mail && InTable(st, m) {
        var at :| at in st.table && st.table[at] == m;
        assert st'.table[at] == m;
      }
    }
  }

  lemma DeleteAllocators(st: State, s: nat, id: nat, mail: Mail, st': State)
    requires AllocatorsOk(st) && Deletes(st, s, id, mail, st')
    ensures AllocatorsOk(st')
  {
    forall t | t in st'.sessions
      ensures AllocatorOk(st'.sessions[t])
    {
      assert AllocatorOk(st.sessions[t]);
    }
  }

  lemma DeleteIds(st: State, s: nat, id: nat, mail: Mail, st': State)
    requires IdsOk(st) && Deletes(st, s, id, mail, st')
    ensures IdsOk(st')
  {
    forall i | i in st'.table
      ensures RowOwned(st', i)
    {
      assert RowOwned(st, i);
    }
    forall t | t in st'.sessions
      ensures InsertingOk(st', t)
    {
      assert InsertingOk(st, t);
    }
  }

  /** The first remaining row precedes every other pending row for its recipient. */
  lemma FirstPrecedesPending(st: State, s: nat, id: nat, mail: Mail, st': State)
    requires OrderOk(st) && Deletes(st, s, id, mail, st') && RowsOk(st, s)
    ensures forall i :: i in st'.table && st'.table[i].toClient == st.sessions[s].phase.client
                        ==> SentBefore(mail, st'.table[i])
  {
    var Polling(client, remaining, payload) := st.sessions[s].phase;
    forall i | i in st'.table && st'.table[i].toClient == client
      ensures SentBefore(mail, st'.table[i])
    {
      if StillToPlace(remaining, i) {
        var j :| 0 <= j < |remaining| && remaining[j].id == i;
        assert j > 0 && id < i;
      } else {
        assert remaining[0].mail == mail;
      }
    }
  }

  lemma DeleteOrder(st: State, s: nat, id: nat, mail: Mail, st': State)
    requires OrderOk(st) && Deletes(st, s, id, mail, st') && RowsOk(st, s)
    ensures OrderOk(st')
  {
    DeletePlaced(st, s, id, mail, st');
    FirstPrecedesPending(st, s, id, mail, st');
    var client := st.sessions[s].phase.client;
    assert st.table[id] == mail && mail.toClient == client;
    assert InSendingOrder(Placed(st', client));
  }

  lemma DeleteOwnRows(st: State, s: nat, id: nat, mail: Mail, st': State)
    requires Conserved(st) && Deletes(st, s, id, mail, st') && RowsOk(st, s)
    ensures RowsOk(st', s)
  {
    var Polling(client, remaining, payload) := st.sessions[s].phase;
    var rest := remaining[1..];
    assert st.table[id] == mail && mail.toClient == client;
    assert RemainingOk(st'.table, client, rest);
    forall k | k in st'.table && StillToPlace(remaining, k)
      ensures StillToPlace(rest, k)
    {
      TailToPlace(remaining, k);
    }
    assert PrecedesLater(st'.table, client, rest) by {
      assert forall i :: 0 <= i < |rest| ==> rest[i] == remaining[i + 1];
    }
  }

  lemma TailToPlace(remaining: seq<Fetched>, k: nat)
    requires remaining != [] && StillToPlace(remaining, k) && remaining[0].id != k
    ensures StillToPlace(remaining[1..], k)
  {
    var j :| 0 <= j < |remaining| && remaining[j].id == k;
    assert remaining[1..][j - 1].id == k;
  }

  lemma DeleteOtherRows(st: State, s: nat, id: nat, mail: Mail, st': State, t: nat)
    requires LivePollsOk(st) && Deletes(st, s, id, mail, st') && id < TWO_32
    requires t != s && t in st.sessions && Live(st.sessions[t].phase)
    ensures t in st'.sessions && st'.sessions[t] == st.sessions[t] && RowsOk(st', t)
  {
    assert RowsOk(st, s) && RowsOk(st, t);
    assert LivePollOf(st, s, st.sessions[s].phase.client) && LivePollOf(st, t, st.sessions[t].phase.client);
    assert st.sessions[t].phase.client != st.sessions[s].phase.client;
    assert st.table[id].toClient == st.sessions[s].phase.client;
  }

  lemma DeleteLive(st: State, s: nat, id: nat, mail: Mail, st': State)
    requires Conserved(st) && LivePollsOk(st) && Deletes(st, s, id, mail, st') && id < TWO_32
    ensures LivePollsOk(st')
  {
    DeleteOwnRows(st, s, id, mail, st');
    forall t | t in st'.sessions && Live(st'.sessions[t].phase)
      ensures RowsOk(st', t)
    {
      if t != s {
        DeleteOtherRows(st, s, id, mail, st', t);
      }
    }
    assert forall t, c: string :: LivePollOf(st', t, c) ==> LivePollOf(st, t, c);
  }

  /** A row still in the table is in no reply yet. */
  lemma PendingIsUnsent(st: State, id: nat)
    requires PlacedOk(st) && SentOk(st) && id in st.table
    ensures forall c: string :: st.table[id] !in Placed(st, c) && st.table[id] !in Replied(st, c)
    ensures forall t :: !Carries(st, t, st.table[id])
  {
    assert forall t, m :: Carries(st, t, m) ==> m in Placed(st, st.sessions[t].phase.client);
  }

  lemma DeleteSent(st: State, s: nat, id: nat, mail: Mail, st': State)
    requires PlacedOk(st) && SentOk(st) && Deletes(st, s, id, mail, st') && RowsOk(st, s)
    ensures SentOk(st')
  {
    DeletePlaced(st, s, id, mail, st');
    assert st.table[id] == mail;
    PendingIsUnsent(st, id);
    forall t | t in st'.sessions && st'.sessions[t].phase.Polling?
      ensures UnsentOk(st', t)
    {
      DeleteUnsent(st, s, id, mail, st', t);
    }
    assert forall t, m :: Carries(st', t, m) ==> Carries(st, t, m) || (t == s && m == mail);
  }

  lemma DeleteUnsent(st: State, s: nat, id: nat, mail: Mail, st': State, t: nat)
    requires SentOk(st) && Deletes(st, s, id, mail, st') && t in st'.sessions && st'.sessions[t].phase.Polling?
    requires mail !in Replied(st, st.sessions[s].phase.client) && !Carries(st, s, mail)
    ensures UnsentOk(st', t)
  {
    DeletePlaced(st, s, id, mail, st');
    assert UnsentOk(st, t);
    assert t != s ==> st'.sessions[t] == st.sessions[t];
  }

  lemma DeleteCoreParts(st: State, s: nat, id: nat, mail: Mail, st': State)
    requires Core(st) && Deletes(st, s, id, mail, st') && id < TWO_32
    ensures Core(st') && RowsOk(st, s)
  {
    assert RowsOk(st, s);
    DeleteTags(st, s, id, mail, st');
    DeletePending(st, s, id, mail, st');
    DeleteLosesNothing(st, s, id, mail, st');
    DeleteAllocators(st, s, id, mail, st');
    DeleteIds(st, s, id, mail, st');
    DeleteOrder(st, s, id, mail, st');
    DeleteLive(st, s, id, mail, st');
    DeleteSent(st, s, id, mail, st');
  }

  lemma PollDeleteCore(st: State, s: nat)
    requires Core(st) && Enabled(st, PollDelete(s))
    ensures Core(PollDeleteStep(st, s))
  {
    var Fetched(id, mail) := st.sessions[s].phase.remaining[0];
    if id >= TWO_32 {
      DieCore(st, s);
    } else {
      DeleteCoreParts(st, s, id, mail, PollDeleteStep(st, s));
    }
  }

  // ----- a reply -----

  /** A finished payload is sent. */
  ghost predicate Replies(st: State, s: nat, client: string, payload: seq<Mail>, st': State)
  {
    && s in st.sessions && st.sessions[s].phase == Polling(client, [], payload)
    && st' == SetPhase(st, s, Idle).(replied := st.replied[client := Replied(st, client) + payload])
  }

  lemma ReplyLogs(st: State, s: nat, client: string, payload: seq<Mail>, st': State)
    requires Replies(st, s, client, payload, st')
    ensures forall c: string :: Placed(st', c) == Placed(st, c)
    ensures Replied(st', client) == Replied(st, client) + payload
    ensures forall c: string :: c != client ==> Replied(st', c) == Replied(st, c)
    ensures forall t, c: string :: PollOf(st', t, c) <==> PollOf(st, t, c) && t != s
  {
  }

  lemma ReplyTags(st: State, s: nat, client: string, payload: seq<Mail>, st': State)
    requires TagsOk(st) && AllocatorsOk(st) && IdsOk(st) && Replies(st, s, client, payload, st')
    ensures TagsOk(st') && AllocatorsOk(st') && IdsOk(st')
  {
    forall t | t in st'.sessions
      ensures NewestOk(st', t) && InsertingOk(st', t) && AllocatorOk(st'.sessions[t])
    {
      assert NewestOk(st, t) && InsertingOk(st, t) && AllocatorOk(st.sessions[t]);
    }
    forall i | i in st'.table
      ensures RowOwned(st', i)
    {
      assert RowOwned(st, i);
    }
  }

  lemma ReplyConserved(st: State, s: nat, client: string, payload: seq<Mail>, st': State)
    requires Conserved(st) && OrderOk(st) && Replies(st, s, client, payload, st')
    ensures Conserved(st') && OrderOk(st')
  {
    ReplyLogs(st, s, client, payload, st');
    assert forall m :: InTable(st', m) <==> InTable(st, m);
  }

  lemma ReplyLive(st: State, s: nat, client: string, payload: seq<Mail>, st': State)
    requires LivePollsOk(st) && Replies(st, s, client, payload, st')
    ensures LivePollsOk(st')
  {
    assert forall t, c: string :: LivePollOf(st', t, c) ==> LivePollOf(st, t, c);
    forall t | t in st'.sessions && Live(st'.sessions[t].phase)
      ensures RowsOk(st', t)
    {
      assert RowsOk(st, t);
    }
  }

  lemma JoinApart(sent: seq<Mail>, more: seq<Mail>)
    requires NoDuplicates(sent) && NoDuplicates(more) && forall m :: m in more ==> m !in sent
    ensures NoDuplicates(sent + more)
  {
    assert forall i :: 0 <= i < |more| ==> more[i] in more;
  }

  lemma ReplySent(st: State, s: nat, client: string, payload: seq<Mail>, st': State)
    requires PlacedOk(st) && SentOk(st) && Replies(st, s, client, payload, st')
    ensures SentOk(st')
  {
    ReplyLogs(st, s, client, payload, st');
    assert UnsentOk(st, s);
    JoinApart(Replied(st, client), payload);
    forall t | t in st'.sessions && st'.sessions[t].phase.Polling?
      ensures UnsentOk(st', t)
    {
      assert UnsentOk(st, t);
      assert forall m :: m in payload ==> Carries(st, s, m);
      assert forall m :: m in st.sessions[t].phase.payload ==> Carries(st, t, m);
    }
    assert forall t, m :: Carries(st', t, m) ==> Carries(st, t, m);
  }

  lemma ReplyCore(st: State, s: nat)
    requires Core(st) && Enabled(st, PollReply(s))
    ensures Core(PollReplyStep(st, s))
  {
    var Polling(client, _, payload) := st.sessions[s].phase;
    var st' := PollReplyStep(st, s);
    ReplyTags(st, s, client, payload, st');
    ReplyConserved(st, s, client, payload, st');
    ReplyLive(st, s, client, payload, st');
    ReplySent(st, s, client, payload, st');
  }

  // ----- every step -----

  lemma EmptyCore()
    ensures Core(EMPTY)
  {
    EmptyTables();
    EmptyPolls();
  }

  lemma EmptyTables()
    ensures TagsOk(EMPTY) && Conserved(EMPTY) && AllocatorsOk(EMPTY)
  {
  }

  lemma EmptyPolls()
    ensures IdsOk(EMPTY) && OrderOk(EMPTY) && LivePollsOk(EMPTY) && SentOk(EMPTY)
  {
  }

  /** Every step keeps the core while no poll starts before another for its
      recipient has placed its rows. */
  lemma CoreStepKeeps(st: State, a: Action)
    requires Core(st) && Enabled(st, a) && NoOverlap(st, a)
    ensures Core(Step(st, a))
  {
    match a
    case Open(s) => OpenCore(st, s);
    case Submit(s, to, from, kind, body) => SubmitCore(st, s, to, from, kind, body);
    case Insert(s) => InsertCore(st, s);
    case PollRead(s, client) => PollReadCore(st, s, client);
    case PollDelete(s) => PollDeleteCore(st, s);
    case PollReply(s) => ReplyCore(st, s);
    case Crash(s) => DieCore(st, s);
  }
}
