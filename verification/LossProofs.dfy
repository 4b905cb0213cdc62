/** What becomes lost, and what survives. */
module LossProofs {
  import opened Bytes
  import opened Mailbox
  import opened MailboxProofs

  // ----- which steps lose messages -----

  ghost predicate SameCarried(st: State, st': State)
  {
    forall t, m :: Carries(st', t, m) <==> Carries(st, t, m)
  }

  /** The step ends a poll without a reply. */
  predicate KillsPoll(st: State, a: Action)
    requires Enabled(st, a)
  {
    || a.Crash?
    || (a.PollDelete? && st.sessions[a.s].phase.remaining[0].id >= TWO_32)
  }

  lemma NothingMoves(st: State, st': State, m: Mail)
    requires SameCarried(st, st') && st'.placed == st.placed && st'.replied == st.replied
    ensures Lost(st', m) <==> Lost(st, m)
    ensures Carried(st', m) <==> Carried(st, m)
  {
    assert Carried(st', m) ==> exists s :: Carries(st, s, m);
    assert Carried(st, m) ==> exists s :: Carries(st', s, m);
  }

  lemma DieLoses(st: State, s: nat, m: Mail)
    requires SentOk(st) && PlacedOk(st) && s in st.sessions
    ensures Lost(Die(st, s), m) <==> Lost(st, m) || Carries(st, s, m)
  {
    var st' := Die(st, s);
    assert forall t, x :: Carries(st', t, x) <==> Carries(st, t, x) && t != s;
    if Carries(st, s, m) {
      assert UnsentOk(st, s);
      assert !Carried(st', m);
    } else {
      assert Carried(st, m) ==> Carried(st', m) by {
        if Carried(st, m) {
          var t :| Carries(st, t, m);
          assert Carries(st', t, m);
        }
      }
    }
  }

  lemma DeleteLoses(st: State, s: nat, id: nat, mail: Mail, st': State, m: Mail)
    requires PlacedOk(st) && SentOk(st) && Deletes(st, s, id, mail, st') && RowsOk(st, s)
    ensures Lost(st', m) <==> Lost(st, m)
  {
    DeletePlaced(st, s, id, mail, st');
    assert st.table[id] == mail && mail.toClient == st.sessions[s].phase.client;
    assert forall t, x :: Carries(st', t, x) <==> Carries(st, t, x) || (t == s && x == mail);
    assert Carries(st', s, mail);
    PendingIsUnsent(st, id);
    if m != mail {
      assert Carried(st', m) <==> Carried(st, m) by {
        if Carried(st', m) {
          var t :| Carries(st', t, m);
          assert Carries(st, t, m);
        }
        if Carried(st, m) {
          var t :| Carries(st, t, m);
          assert Carries(st', t, m);
        }
      }
    }
  }

  lemma ReplyLoses(st: State, s: nat, client: string, payload: seq<Mail>, st': State, m: Mail)
    requires PlacedOk(st) && SentOk(st) && Replies(st, s, client, payload, st')
    ensures Lost(st', m) <==> Lost(st, m)
  {
    ReplyLogs(st, s, client, payload, st');
    assert UnsentOk(st, s);
    assert forall t, x :: Carries(st', t, x) <==> Carries(st, t, x) && t != s;
    if m in payload {
      assert Carries(st, s, m) && m.toClient == client;
      assert m in Replied(st', client);
    } else {
      assert Carried(st', m) <==> Carried(st, m) by {
        if Carried(st', m) {
          var t :| Carries(st', t, m);
          assert Carries(st, t, m);
        }
        if Carried(st, m) {
          var t :| Carries(st, t, m);
          assert Carries(st', t, m);
        }
      }
    }
  }

  predicate IsQuiet(a: Action)
  {
    a.Open? || a.Submit? || a.Insert? || a.PollRead?
  }

  /** What the steps that neither place, nor reply, nor end a poll leave alone. */
  lemma QuietStep(st: State, a: Action)
    requires Enabled(st, a) && IsQuiet(a)
    ensures var st' := Step(st, a);
            && a.s in st'.sessions && st'.sessions == st.sessions[a.s := st'.sessions[a.s]]
            && st'.placed == st.placed && st'.replied == st.replied
            && (a.s in st.sessions ==> !st.sessions[a.s].phase.Polling?)
            && (st'.sessions[a.s].phase.Polling? ==>
                  a.PollRead? && st'.sessions[a.s].phase.payload == [] && st'.sessions[a.s].phase.client == a.client)
    ensures SameCarried(st, Step(st, a))
  {
  }

  /** Exactly when a message becomes lost: the session that carries it dies, or
      meets an id that does not fit the reply. */
  lemma LostExactly(st: State, a: Action, m: Mail)
    requires Core(st) && Enabled(st, a)
    ensures Lost(Step(st, a), m) <==> Lost(st, m) || (Carries(st, a.s, m) && KillsPoll(st, a))
  {
    match a
    case Crash(s) => DieLoses(st, s, m);
    case PollDelete(s) =>
      var Fetched(id, mail) := st.sessions[s].phase.remaining[0];
      if id >= TWO_32 {
        DieLoses(st, s, m);
      } else {
        assert RowsOk(st, s);
        DeleteLoses(st, s, id, mail, PollDeleteStep(st, s), m);
      }
    case PollReply(s) =>
      ReplyLoses(st, s, st.sessions[s].phase.client, st.sessions[s].phase.payload, PollReplyStep(st, s), m);
    case _ =>
      QuietStep(st, a);
      NothingMoves(st, Step(st, a), m);
  }

  // ----- one poll at a time: what survives -----

  lemma {:induction false} KeepJoins(a: seq<Mail>, b: seq<Mail>, gone: set<Mail>)
    ensures Keep(a + b, gone) == Keep(a, gone) + Keep(b, gone)
    decreases |b|
  {
    if b == [] {
      assert a + b == a;
    } else {
      var front := b[..|b| - 1];
      assert (a + b)[..|a + b| - 1] == a + front;
      KeepJoins(a, front, gone);
    }
  }

  lemma {:induction false} KeepAll(log: seq<Mail>, gone: set<Mail>)
    requires forall m :: m in log ==> m !in gone
    ensures Keep(log, gone) == log
  {
    if log != [] {
      var front := log[..|log| - 1];
      assert log == front + [log[|log| - 1]];
      KeepAll(front, gone);
    }
  }

  lemma {:induction false} KeepNone(log: seq<Mail>, gone: set<Mail>)
    requires forall m :: m in log ==> m in gone
    ensures Keep(log, gone) == []
  {
    if log != [] {
      var front := log[..|log| - 1];
      assert log == front + [log[|log| - 1]];
      KeepNone(front, gone);
    }
  }

  ghost predicate Joined(gone: set<Mail>, more: set<Mail>, all: set<Mail>)
  {
    forall m :: m in all <==> m in gone || m in more
  }

  lemma {:induction false} KeepTwice(log: seq<Mail>, gone: set<Mail>, more: set<Mail>, all: set<Mail>)
    requires Joined(gone, more, all)
    ensures Keep(Keep(log, gone), more) == Keep(log, all)
  {
    if log == [] {
      assert Keep(log, gone) == [] == Keep(log, all);
    } else {
      var front, last := log[..|log| - 1], log[|log| - 1];
      KeepTwice(front, gone, more, all);
      OneMoreKept(front, last, gone, more, all);
      assert log == front + [last];
    }
  }

  lemma OneMoreKept(log: seq<Mail>, last: Mail, gone: set<Mail>, more: set<Mail>, all: set<Mail>)
    requires Joined(gone, more, all) && Keep(Keep(log, gone), more) == Keep(log, all)
    ensures Keep(Keep(log + [last], gone), more) == Keep(log + [last], all)
  {
    if last in gone {
      DropsLast(log, last, gone);
      DropsLast(log, last, all);
    } else {
      KeepsLast(log, last, gone);
      if last in more {
        DropsLast(log, last, all);
        DropsLast(Keep(log, gone), last, more);
      } else {
        KeepsLast(log, last, all);
        KeepsLast(Keep(log, gone), last, more);
      }
    }
  }

  lemma DropsLast(log: seq<Mail>, last: Mail, gone: set<Mail>)
    requires last in gone
    ensures Keep(log + [last], gone) == Keep(log, gone)
  {
    var longer := log + [last];
    assert longer[..|longer| - 1] == log;
    assert Keep(log, gone) + [] == Keep(log, gone);
  }

  lemma KeepsLast(log: seq<Mail>, last: Mail, gone: set<Mail>)
    requires last !in gone
    ensures Keep(log + [last], gone) == Keep(log, gone) + [last]
  {
    var longer := log + [last];
    assert longer[..|longer| - 1] == log;
  }

  lemma SameSurviving(st: State, st': State, c: string)
    requires SameCarried(st, st') && st'.placed == st.placed && st'.replied == st.replied
    ensures Surviving(st', c) == Surviving(st, c)
  {
    forall m
      ensures Lost(st', m) <==> Lost(st, m)
    {
      NothingMoves(st, st', m);
    }
    assert LostTo(st', c) == LostTo(st, c);
  }

  /** A change of one session that carries nothing before or after. */
  lemma QuietWhole(st: State, st': State, s: nat)
    requires Whole(st) && s in st'.sessions && st'.sessions == st.sessions[s := st'.sessions[s]]
    requires st'.placed == st.placed && st'.replied == st.replied
    requires s in st.sessions ==> !st.sessions[s].phase.Polling?
    requires st'.sessions[s].phase.Polling? ==>
               st'.sessions[s].phase.payload == [] && NoPoll(st, st'.sessions[s].phase.client)
    ensures Whole(st')
  {
    assert SameCarried(st, st');
    assert forall t :: t in st.sessions && t != s ==> st'.sessions[t] == st.sessions[t];
    assert forall t, c: string :: PollOf(st, t, c) ==> PollOf(st', t, c);
    assert forall t, c: string :: PollOf(st', t, c) && t != s ==> PollOf(st, t, c);
    forall c: string
      ensures Surviving(st', c) == Surviving(st, c) && Replied(st', c) == Replied(st, c)
      ensures NoPoll(st', c) ==> NoPoll(st, c)
    {
      SameSurviving(st, st', c);
    }
    forall t | t in st'.sessions && st'.sessions[t].phase.Polling?
      ensures PollWhole(st', t)
    {
      if t == s {
        var c := st'.sessions[s].phase.client;
        assert Replied(st, c) + [] == Replied(st, c);
      } else {
        assert PollWhole(st, t);
      }
    }
  }

  lemma LostWithPoll(st: State, s: nat)
    requires PlacedOk(st) && SentOk(st) && s in st.sessions && st.sessions[s].phase.Polling?
    ensures var Polling(client, _, payload) := st.sessions[s].phase;
            && LostTo(Die(st, s), client) == LostTo(st, client) + (set m | m in payload)
            && forall c: string :: c != client ==> LostTo(Die(st, s), c) == LostTo(st, c)
  {
    var Polling(client, _, payload) := st.sessions[s].phase;
    assert UnsentOk(st, s);
    assert forall c: string :: Placed(Die(st, s), c) == Placed(st, c);
    forall m
      ensures Lost(Die(st, s), m) <==> Lost(st, m) || m in payload
    {
      DieLoses(st, s, m);
      assert Carries(st, s, m) <==> m in payload;
    }
  }

  lemma DyingSurvivors(placed: seq<Mail>, gone: set<Mail>, sent: seq<Mail>, payload: seq<Mail>)
    requires Keep(placed, gone) == sent + payload && forall m :: m in payload ==> m !in sent
    ensures Keep(placed, gone + set m | m in payload) == sent
  {
    var dying := set m | m in payload;
    KeepTwice(placed, gone, dying, gone + dying);
    KeepJoins(sent, payload, dying);
    KeepAll(sent, dying);
    KeepNone(payload, dying);
    assert sent + [] == sent;
  }

  lemma DieWhole(st: State, s: nat)
    requires PlacedOk(st) && SentOk(st) && Whole(st) && s in st.sessions && st.sessions[s].phase.Polling?
    ensures Whole(Die(st, s))
  {
    var st' := Die(st, s);
    var Polling(client, _, payload) := st.sessions[s].phase;
    assert PollOf(st, s, client) && PollWhole(st, s) && UnsentOk(st, s);
    LostWithPoll(st, s);
    DyingSurvivors(Placed(st, client), LostTo(st, client), Replied(st, client), payload);
    assert forall c: string :: Placed(st', c) == Placed(st, c) && Replied(st', c) == Replied(st, c);
    assert forall t, c: string :: PollOf(st', t, c) <==> PollOf(st, t, c) && t != s;
    assert forall c: string :: c != client ==> Surviving(st', c) == Surviving(st, c);
    forall t | t in st'.sessions && st'.sessions[t].phase.Polling?
      ensures PollWhole(st', t)
    {
      assert PollWhole(st, t) && PollOf(st, t, st.sessions[t].phase.client);
    }
    forall c: string | c != client && NoPoll(st', c)
      ensures NoPoll(st, c)
    {
      assert forall t :: PollOf(st, t, c) ==> t != s && PollOf(st', t, c);
    }
  }

  lemma DeleteSurvives(st: State, s: nat, id: nat, mail: Mail, st': State)
    requires PlacedOk(st) && SentOk(st) && Deletes(st, s, id, mail, st') && RowsOk(st, s)
    ensures var client := st.sessions[s].phase.client;
            && Surviving(st', client) == Surviving(st, client) + [mail]
            && forall c: string :: c != client ==> Surviving(st', c) == Surviving(st, c)
  {
    DeletePlaced(st, s, id, mail, st');
    var client := st.sessions[s].phase.client;
    assert st.table[id] == mail;
    forall m
      ensures Lost(st', m) <==> Lost(st, m)
    {
      DeleteLoses(st, s, id, mail, st', m);
    }
    PendingIsUnsent(st, id);
    assert LostTo(st', client) == LostTo(st, client);
    assert forall c: string :: c != client ==> LostTo(st', c) == LostTo(st, c);
    KeepsLast(Placed(st, client), mail, LostTo(st, client));
  }

  lemma DeleteWhole(st: State, s: nat, id: nat, mail: Mail, st': State)
    requires PlacedOk(st) && SentOk(st) && Whole(st) && Deletes(st, s, id, mail, st') && RowsOk(st, s)
    ensures Whole(st')
  {
    DeleteSurvives(st, s, id, mail, st');
    DeletePolls(st, s, id, mail, st');
    forall t | t in st'.sessions && st'.sessions[t].phase.Polling?
      ensures PollWhole(st', t)
    {
      assert PollOf(st', t, st'.sessions[t].phase.client);
      DeletePollWhole(st, s, id, mail, st', t);
    }
    DeleteRestWhole(st, s, id, mail, st');
  }

  lemma DeletePolls(st: State, s: nat, id: nat, mail: Mail, st': State)
    requires Deletes(st, s, id, mail, st')
    ensures PollOf(st, s, st.sessions[s].phase.client)
    ensures forall t, c: string :: PollOf(st', t, c) <==> PollOf(st, t, c)
    ensures forall c: string :: Replied(st', c) == Replied(st, c)
  {
    assert forall t :: t in st.sessions && t != s ==> st'.sessions[t] == st.sessions[t];
  }

  lemma DeleteRestWhole(st: State, s: nat, id: nat, mail: Mail, st': State)
    requires RestWhole(st) && Deletes(st, s, id, mail, st')
    requires forall c: string :: c != st.sessions[s].phase.client ==> Surviving(st', c) == Surviving(st, c)
    ensures RestWhole(st')
  {
    DeletePolls(st, s, id, mail, st');
    forall c: string | NoPoll(st', c)
      ensures Surviving(st', c) == Replied(st', c)
    {
      assert !PollOf(st', s, c);
      assert NoPoll(st, c);
    }
  }

  lemma DeletePollWhole(st: State, s: nat, id: nat, mail: Mail, st': State, t: nat)
    requires Whole(st) && Deletes(st, s, id, mail, st') && t in st.sessions && st.sessions[t].phase.Polling?
    requires Surviving(st', st.sessions[s].phase.client) == Surviving(st, st.sessions[s].phase.client) + [mail]
    requires forall c: string :: c != st.sessions[s].phase.client ==> Surviving(st', c) == Surviving(st, c)
    ensures t in st'.sessions && st'.sessions[t].phase.Polling? && PollWhole(st', t)
  {
    DeletePlaced(st, s, id, mail, st');
    var client := st.sessions[s].phase.client;
    assert PollWhole(st, t) && PollOf(st, t, st.sessions[t].phase.client) && PollOf(st, s, client);
    if t == s {
      assert Replied(st, client) + st.sessions[s].phase.payload + [mail]
          == Replied(st, client) + (st.sessions[s].phase.payload + [mail]);
    } else {
      assert st'.sessions[t] == st.sessions[t];
    }
  }

  lemma ReplyWhole(st: State, s: nat, client: string, payload: seq<Mail>, st': State)
    requires PlacedOk(st) && SentOk(st) && Whole(st) && Replies(st, s, client, payload, st')
    ensures Whole(st')
  {
    ReplyLogs(st, s, client, payload, st');
    assert PollWhole(st, s) && PollOf(st, s, client);
    forall c: string
      ensures Surviving(st', c) == Surviving(st, c)
    {
      forall m
        ensures Lost(st', m) <==> Lost(st, m)
      {
        ReplyLoses(st, s, client, payload, st', m);
      }
      assert LostTo(st', c) == LostTo(st, c);
    }
    forall t | t in st'.sessions && st'.sessions[t].phase.Polling?
      ensures PollWhole(st', t)
    {
      assert PollWhole(st, t) && PollOf(st, t, st.sessions[t].phase.client);
    }
    forall c: string | c != client && NoPoll(st', c)
      ensures NoPoll(st, c)
    {
      assert forall t :: PollOf(st, t, c) ==> t != s && PollOf(st', t, c);
    }
  }

  lemma EmptyWhole()
    ensures Whole(EMPTY)
  {
    assert forall c: string :: Surviving(EMPTY, c) == [];
  }

  lemma WholeStepKeeps(st: State, a: Action)
    requires Core(st) && Whole(st) && Enabled(st, a) && Exclusive(st, a)
    ensures Whole(Step(st, a))
  {
    match a
    case PollDelete(s) =>
      PollDeleteWhole(st, s);
    case PollReply(s) =>
      ReplyWhole(st, s, st.sessions[s].phase.client, st.sessions[s].phase.payload, PollReplyStep(st, s));
    case Crash(s) =>
      if st.sessions[s].phase.Polling? {
        DieWhole(st, s);
      } else {
        QuietWhole(st, Die(st, s), s);
      }
    case _ =>
      QuietStep(st, a);
      QuietWhole(st, Step(st, a), a.s);
  }

  lemma PollDeleteWhole(st: State, s: nat)
    requires Core(st) && Whole(st) && Enabled(st, PollDelete(s))
    ensures Whole(PollDeleteStep(st, s))
  {
    var Fetched(id, mail) := st.sessions[s].phase.remaining[0];
    if id >= TWO_32 {
      DieWhole(st, s);
    } else {
      assert RowsOk(st, s);
      DeleteWhole(st, s, id, mail, PollDeleteStep(st, s));
    }
  }
}
