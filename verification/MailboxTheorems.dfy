/** What the mailbox invariant means for the messages of a run. */
module MailboxTheorems {
  import opened Wrappers
  import opened Bytes
  import opened Tables
  import opened MessageIds
  import opened Terms
  import opened Mailbox
  import LossProofs
  import MailboxProofs
  import OrderProofs

  /** `end` is reached from `st` by these steps, of all sessions in any
      interleaving; no poll starts while another for its recipient still has a
      row to place. */
  ghost predicate RunsTo(st: State, actions: seq<Action>, end: State)
    decreases |actions|
  {
    if actions == [] then st == end
    else
      && Enabled(st, actions[0])
      && NoOverlap(st, actions[0])
      && RunsTo(Step(st, actions[0]), actions[1..], end)
  }

  /** The same when no poll starts that could overtake another either. */
  ghost predicate RunsOrderly(st: State, actions: seq<Action>, end: State)
    decreases |actions|
  {
    if actions == [] then st == end
    else
      && Enabled(st, actions[0])
      && Orderly(st, actions[0])
      && RunsOrderly(Step(st, actions[0]), actions[1..], end)
  }

  /** The same with at most one poll in flight for each recipient. */
  ghost predicate RunsExclusively(st: State, actions: seq<Action>, end: State)
    decreases |actions|
  {
    if actions == [] then st == end
    else
      && Enabled(st, actions[0])
      && Exclusive(st, actions[0])
      && RunsExclusively(Step(st, actions[0]), actions[1..], end)
  }

  /** Any steps at all. */
  ghost predicate Happens(st: State, actions: seq<Action>, end: State)
    decreases |actions|
  {
    if actions == [] then st == end
    else Enabled(st, actions[0]) && Happens(Step(st, actions[0]), actions[1..], end)
  }

  lemma {:induction false} RunKeepsCore(st: State, actions: seq<Action>, end: State)
    requires Core(st) && RunsTo(st, actions, end)
    ensures Core(end)
    decreases |actions|
  {
    if actions != [] {
      MailboxProofs.CoreStepKeeps(st, actions[0]);
      RunKeepsCore(Step(st, actions[0]), actions[1..], end);
    }
  }

  lemma RunCore(actions: seq<Action>, end: State)
    requires RunsTo(EMPTY, actions, end)
    ensures Core(end)
  {
    MailboxProofs.EmptyCore();
    RunKeepsCore(EMPTY, actions, end);
  }

  lemma {:induction false} RunKeeps(st: State, actions: seq<Action>, end: State)
    requires Inv(st) && RunsOrderly(st, actions, end)
    ensures Inv(end)
    decreases |actions|
  {
    if actions != [] {
      OrderProofs.StepKeeps(st, actions[0]);
      RunKeeps(Step(st, actions[0]), actions[1..], end);
    }
  }

  lemma RunInv(actions: seq<Action>, end: State)
    requires RunsOrderly(EMPTY, actions, end)
    ensures Inv(end)
  {
    OrderProofs.EmptyInv();
    RunKeeps(EMPTY, actions, end);
  }

  lemma {:induction false} RunKeepsWhole(st: State, actions: seq<Action>, end: State)
    requires Core(st) && Whole(st) && RunsExclusively(st, actions, end)
    ensures Whole(end)
    decreases |actions|
  {
    if actions != [] {
      OrderProofs.ExclusiveIsOrderly(st, actions[0]);
      MailboxProofs.CoreStepKeeps(st, actions[0]);
      LossProofs.WholeStepKeeps(st, actions[0]);
      RunKeepsWhole(Step(st, actions[0]), actions[1..], end);
    }
  }

  // ----- exactly once -----

  ghost function PendingIds(st: State, m: Mail): set<nat>
  {
    set id | id in st.table && st.table[id] == m
  }

  ghost function Count(log: seq<Mail>, m: Mail): nat
  {
    if log == [] then 0 else Count(log[..|log| - 1], m) + (if log[|log| - 1] == m then 1 else 0)
  }

  lemma {:induction false} CountIs(log: seq<Mail>, m: Mail)
    requires NoDuplicates(log)
    ensures Count(log, m) == if m in log then 1 else 0
  {
    if log != [] {
      var front, last := log[..|log| - 1], log[|log| - 1];
      LastIsNew(log, m);
      CountIs(front, m);
    }
  }

  lemma LastIsNew(log: seq<Mail>, m: Mail)
    requires log != [] && NoDuplicates(log)
    ensures NoDuplicates(log[..|log| - 1])
    ensures m in log <==> m in log[..|log| - 1] || m == log[|log| - 1]
    ensures m in log[..|log| - 1] ==> m != log[|log| - 1]
  {
    var front := log[..|log| - 1];
    if m in log && m != log[|log| - 1] {
      var i :| 0 <= i < |log| && log[i] == m;
      assert front[i] == m;
    }
    if m in front {
      var i :| 0 <= i < |front| && front[i] == m;
      assert log[i] == m;
    }
  }

  lemma PendingCount(st: State, m: Mail)
    requires PendingOk(st)
    ensures |PendingIds(st, m)| == if InTable(st, m) then 1 else 0
  {
    if InTable(st, m) {
      var id :| id in st.table && st.table[id] == m;
      assert PendingIds(st, m) == {id};
    } else {
      assert PendingIds(st, m) == {};
    }
  }

  /** Conservation: in every run an accepted message is either pending under one
      id or placed once in a reply to its addressee; it is in nobody else's
      replies; nothing else is ever pending or placed; and it is sent at most
      once, after it was placed. */
  lemma ExactlyOnce(actions: seq<Action>, end: State, m: Mail)
    requires RunsTo(EMPTY, actions, end)
    ensures |PendingIds(end, m)| + Count(Placed(end, m.toClient), m) == if m in end.accepted then 1 else 0
    ensures forall c: string :: c != m.toClient ==> m !in Placed(end, c)
    ensures Count(Replied(end, m.toClient), m) <= Count(Placed(end, m.toClient), m)
  {
    RunCore(actions, end);
    CountIs(Placed(end, m.toClient), m);
    CountIs(Replied(end, m.toClient), m);
    PendingCount(end, m);
    ConservedOnce(end, m);
  }

  lemma ConservedOnce(end: State, m: Mail)
    requires Conserved(end)
    ensures m in end.accepted <==> InTable(end, m) || m in Placed(end, m.toClient)
    ensures !(InTable(end, m) && m in Placed(end, m.toClient))
    ensures forall c: string :: c != m.toClient ==> m !in Placed(end, c)
  {
  }

  // ----- what is lost -----

  /** Where every accepted message is: in exactly one of four places. It waits in
      the table, is carried by a reply under construction, has been sent to its
      addressee, or is lost. */
  lemma WhereItIs(actions: seq<Action>, end: State, m: Mail)
    requires RunsTo(EMPTY, actions, end)
    ensures m in end.accepted
            <==> InTable(end, m) || Carried(end, m) || m in Replied(end, m.toClient) || Lost(end, m)
    ensures InTable(end, m) ==> !Carried(end, m) && m !in Replied(end, m.toClient) && !Lost(end, m)
    ensures Carried(end, m) ==> m !in Replied(end, m.toClient) && !Lost(end, m)
    ensures m in Replied(end, m.toClient) ==> !Lost(end, m)
  {
    RunCore(actions, end);
    CoreWhere(end, m);
  }

  lemma CoreWhere(st: State, m: Mail)
    requires Conserved(st) && SentOk(st)
    ensures m in st.accepted <==> InTable(st, m) || Carried(st, m) || m in Replied(st, m.toClient) || Lost(st, m)
    ensures InTable(st, m) ==> !Carried(st, m) && m !in Replied(st, m.toClient) && !Lost(st, m)
    ensures Carried(st, m) ==> m !in Replied(st, m.toClient) && !Lost(st, m)
    ensures m in Replied(st, m.toClient) ==> !Lost(st, m)
  {
    CarriedIsPlaced(st, m);
    ConservedOnce(st, m);
  }

  lemma CarriedIsPlaced(st: State, m: Mail)
    requires PlacedOk(st) && SentOk(st)
    ensures Carried(st, m) ==> m in Placed(st, m.toClient) && m !in Replied(st, m.toClient)
    ensures forall s :: Carries(st, s, m) ==> st.sessions[s].phase.client == m.toClient
  {
    forall s | Carries(st, s, m)
      ensures st.sessions[s].phase.client == m.toClient
      ensures m in Placed(st, m.toClient) && m !in Replied(st, m.toClient)
    {
      assert UnsentOk(st, s);
    }
  }

  /** The lost stay lost: no later step sends them. */
  lemma {:induction false} LostForever(st: State, actions: seq<Action>, end: State, m: Mail)
    requires Core(st) && RunsTo(st, actions, end) && Lost(st, m)
    ensures Lost(end, m) && m !in Replied(end, m.toClient)
    decreases |actions|
  {
    if actions != [] {
      LossProofs.LostExactly(st, actions[0], m);
      MailboxProofs.CoreStepKeeps(st, actions[0]);
      LostForever(Step(st, actions[0]), actions[1..], end, m);
    }
  }

  /** With one poll at a time, what has been sent to a client, and then the reply
      being built, is what was placed without what was lost, in the same order. */
  lemma PlacedIsReplied(actions: seq<Action>, end: State, client: string)
    requires RunsExclusively(EMPTY, actions, end)
    ensures NoPoll(end, client) ==> Surviving(end, client) == Replied(end, client)
    ensures forall s :: PollOf(end, s, client) ==>
              Surviving(end, client) == Replied(end, client) + end.sessions[s].phase.payload
    ensures (forall m :: m in Placed(end, client) ==> !Lost(end, m)) ==> Surviving(end, client) == Placed(end, client)
  {
    MailboxProofs.EmptyCore();
    LossProofs.EmptyWhole();
    RunKeepsWhole(EMPTY, actions, end);
    forall s | PollOf(end, s, client)
      ensures Surviving(end, client) == Replied(end, client) + end.sessions[s].phase.payload
    {
      assert PollWhole(end, s);
    }
    if forall m :: m in Placed(end, client) ==> !Lost(end, m) {
      LossProofs.KeepAll(Placed(end, client), LostTo(end, client));
    }
  }

  // ----- first in, first out -----

  ghost predicate Earlier(m: Mail, n: Mail)
  {
    m.tag.session == n.tag.session && m.toClient == n.toClient && m.tag.serial < n.tag.serial
  }

  /** m occurs in the log before n. */
  ghost predicate Before(log: seq<Mail>, m: Mail, n: Mail)
  {
    exists i, j :: 0 <= i < j < |log| && log[i] == m && log[j] == n
  }

  /** Messages one session sends to one recipient are placed in sending order,
      none overtaking another, and wait in that order in the table. */
  lemma SessionFifo(actions: seq<Action>, end: State, m: Mail, n: Mail)
    requires RunsTo(EMPTY, actions, end)
    requires m in end.accepted && n in end.accepted && Earlier(m, n)
    ensures n in Placed(end, n.toClient) ==> Before(Placed(end, n.toClient), m, n)
    ensures forall i, j :: i in end.table && j in end.table && end.table[i] == m && end.table[j] == n ==> i < j
  {
    RunCore(actions, end);
    InvFifo(end, m, n);
  }

  lemma InvFifo(end: State, m: Mail, n: Mail)
    requires Conserved(end) && OrderOk(end)
    requires m in end.accepted && Earlier(m, n)
    ensures n in Placed(end, n.toClient) ==> Before(Placed(end, n.toClient), m, n)
    ensures forall i, j :: i in end.table && j in end.table && end.table[i] == m && end.table[j] == n ==> i < j
  {
    var log := Placed(end, n.toClient);
    if n in log {
      assert forall id :: id in end.table && end.table[id].toClient == n.toClient ==> SentBefore(n, end.table[id]);
      assert !InTable(end, m);
      LogFifo(log, m, n);
    }
  }

  lemma LogFifo(log: seq<Mail>, m: Mail, n: Mail)
    requires InSendingOrder(log) && m in log && n in log && Earlier(m, n)
    ensures Before(log, m, n)
  {
    var i :| 0 <= i < |log| && log[i] == m;
    var j :| 0 <= j < |log| && log[j] == n;
    assert i < j;
  }

  /** Carried by a poll that meets an id that does not fit before it can reply. */
  ghost predicate Doomed(st: State, m: Mail)
  {
    exists s :: Carries(st, s, m) && !CanFinish(st.sessions[s].phase)
  }

  /** A doomed poll goes on to its end, or takes what it carries with it. */
  lemma DoomedStep(st: State, a: Action, s: nat, m: Mail)
    requires Core(st) && Enabled(st, a) && Carries(st, s, m) && !CanFinish(st.sessions[s].phase)
    ensures Doomed(Step(st, a), m) || Lost(Step(st, a), m)
  {
    LossProofs.LostExactly(st, a, m);
    if a.s != s {
      OtherPhaseStays(st, a, s);
      assert Carries(Step(st, a), s, m);
    } else if a.PollDelete? && st.sessions[s].phase.remaining[0].id < TWO_32 {
      OrderProofs.FitsWithoutFirst(st.sessions[s].phase.remaining);
      assert Carries(Step(st, a), s, m);
    }
  }

  lemma OtherPhaseStays(st: State, a: Action, s: nat)
    requires Enabled(st, a) && a.s != s && s in st.sessions
    ensures s in Step(st, a).sessions && Step(st, a).sessions[s] == st.sessions[s]
  {
  }

  /** What a doomed poll carries is never sent. */
  lemma {:induction false} DoomedForever(st: State, actions: seq<Action>, end: State, m: Mail)
    requires Core(st) && RunsTo(st, actions, end) && Doomed(st, m)
    ensures m !in Replied(end, m.toClient)
    decreases |actions|
  {
    if actions == [] {
      CoreWhere(st, m);
    } else {
      var s :| Carries(st, s, m) && !CanFinish(st.sessions[s].phase);
      DoomedStep(st, actions[0], s, m);
      MailboxProofs.CoreStepKeeps(st, actions[0]);
      if Doomed(Step(st, actions[0]), m) {
        DoomedForever(Step(st, actions[0]), actions[1..], end, m);
      } else {
        LostForever(Step(st, actions[0]), actions[1..], end, m);
      }
    }
  }

  /** The same over the recipient's whole sequence of poll replies, in every run
      of orderly steps: nothing is repeated, and when a message has been sent,
      every earlier one of its session has been sent before it, or is lost, or is
      in a reply that can never be sent. */
  lemma ReplyFifo(actions: seq<Action>, end: State, m: Mail, n: Mail)
    requires RunsOrderly(EMPTY, actions, end)
    requires m in end.accepted && n in Replied(end, n.toClient) && Earlier(m, n)
    ensures NoDuplicates(Replied(end, n.toClient))
    ensures Before(Replied(end, n.toClient), m, n) || Lost(end, m) || Doomed(end, m)
  {
    RunInv(actions, end);
    InvFifo(end, m, n);
    CoreWhere(end, m);
    if m in Replied(end, n.toClient) {
      LogFifo(Replied(end, n.toClient), m, n);
    } else if Carried(end, m) {
      var s :| Carries(end, s, m);
      CarriedIsPlaced(end, m);
      if CanFinish(end.sessions[s].phase) {
        SentBeforeCarried(end, s, n, m);
      }
    }
  }

  /** What a finishing poll carries comes after what was sent. */
  lemma SentBeforeCarried(st: State, s: nat, n: Mail, m: Mail)
    requires Ordered(st) && s in st.sessions && CanFinish(st.sessions[s].phase)
    requires n in Replied(st, st.sessions[s].phase.client) && Carries(st, s, m)
    ensures SentBefore(n, m)
  {
    assert PollOrdered(st, s);
    var sent, outcome := Replied(st, st.sessions[s].phase.client), Outcome(st.sessions[s].phase);
    var i :| 0 <= i < |sent| && sent[i] == n;
    var j :| 0 <= j < |st.sessions[s].phase.payload| && st.sessions[s].phase.payload[j] == m;
    assert outcome[j] == m;
    assert (sent + outcome)[i] == n && (sent + outcome)[|sent| + j] == m;
  }

  // ----- the ids a session gives -----

  /** The id and the message a step takes from an allocator, if it does. */
  ghost function GivenBy(st: State, a: Action): seq<Fetched>
    requires Enabled(st, a)
  {
    if a.Submit? && Allocate(st.sessions[a.s].pages).Ok? then
      [Fetched(Allocate(st.sessions[a.s].pages).value.0,
               Mail(a.to, a.from, a.kind, a.body, Tag(a.s, st.sessions[a.s].issued)))]
    else []
  }

  /** All of them over a run, in order. */
  ghost function Given(st: State, actions: seq<Action>): seq<Fetched>
    decreases |actions|
  {
    if actions == [] || !Enabled(st, actions[0]) then []
    else GivenBy(st, actions[0]) + Given(Step(st, actions[0]), actions[1..])
  }

  /** Later ones of a session have greater serials and greater ids. */
  ghost predicate IdsAscend(given: seq<Fetched>)
  {
    forall i, j :: 0 <= i < j < |given| && given[i].mail.tag.session == given[j].mail.tag.session ==>
      given[i].mail.tag.serial < given[j].mail.tag.serial && given[i].id < given[j].id
  }

  /** They are beyond what the sessions have given so far. */
  ghost predicate Beyond(st: State, given: seq<Fetched>)
  {
    forall i :: 0 <= i < |given| && given[i].mail.tag.session in st.sessions ==>
      && st.sessions[given[i].mail.tag.session].issued <= given[i].mail.tag.serial
      && st.sessions[given[i].mail.tag.session].nextId <= given[i].id
  }

  /** The sessions have given all of them. */
  ghost predicate Behind(given: seq<Fetched>, st: State)
  {
    forall i :: 0 <= i < |given| ==>
      var s := given[i].mail.tag.session;
      && s in st.sessions
      && given[i].mail.tag.serial < st.sessions[s].issued && given[i].id < st.sessions[s].nextId
  }

  /** No session is lost or goes back. */
  ghost predicate NoneGoesBack(st: State, next: State)
  {
    forall s :: s in st.sessions ==>
      && s in next.sessions
      && st.sessions[s].issued <= next.sessions[s].issued
      && st.sessions[s].nextId <= next.sessions[s].nextId
  }

  /** A step that leaves a session's allocator and counters alone. */
  lemma PhaseGives(st: State, s: nat, phase: Phase, next: State)
    requires AllocatorsOk(st) && s in st.sessions && next.sessions == st.sessions[s := st.sessions[s].(phase := phase)]
    ensures NoneGoesBack(st, next) && AllocatorsOk(next)
  {
    assert AllocatorOk(st.sessions[s]);
  }

  lemma SubmitGives(st: State, a: Action)
    requires AllocatorsOk(st) && Enabled(st, a) && a.Submit? && Allocate(st.sessions[a.s].pages).Ok?
    ensures Beyond(st, GivenBy(st, a)) && Behind(GivenBy(st, a), Step(st, a)) && NoneGoesBack(st, Step(st, a))
    ensures AllocatorsOk(Step(st, a))
  {
    assert AllocatorOk(st.sessions[a.s]);
    AllocateTakesLeast(st.sessions[a.s].pages);
    assert forall t :: t in st.sessions && t != a.s ==> Step(st, a).sessions[t] == st.sessions[t];
  }

  lemma OpenGives(st: State, a: Action)
    requires AllocatorsOk(st) && Enabled(st, a) && a.Open?
    ensures NoneGoesBack(st, Step(st, a)) && AllocatorsOk(Step(st, a))
  {
    FirstPageIsAllFree();
    SyncNewSession(SortedIds(st.table.Keys));
  }

  /** A step that gives an id puts its session beyond it. */
  lemma StepGives(st: State, a: Action)
    requires AllocatorsOk(st) && Enabled(st, a)
    ensures Beyond(st, GivenBy(st, a)) && Behind(GivenBy(st, a), Step(st, a)) && NoneGoesBack(st, Step(st, a))
    ensures AllocatorsOk(Step(st, a))
  {
    if a.Open? {
      OpenGives(st, a);
    } else if a.Submit? && Allocate(st.sessions[a.s].pages).Ok? {
      SubmitGives(st, a);
    } else {
      OnlyPhase(st, a);
      PhaseGives(st, a.s, Step(st, a).sessions[a.s].phase, Step(st, a));
    }
  }

  lemma OnlyPhase(st: State, a: Action)
    requires Enabled(st, a) && !a.Open? && !(a.Submit? && Allocate(st.sessions[a.s].pages).Ok?)
    ensures a.s in st.sessions && a.s in Step(st, a).sessions
    ensures Step(st, a).sessions == st.sessions[a.s := st.sessions[a.s].(phase := Step(st, a).sessions[a.s].phase)]
    ensures GivenBy(st, a) == []
  {
  }

  lemma GivenJoins(st: State, now: seq<Fetched>, next: State, later: seq<Fetched>)
    requires |now| <= 1 && IdsAscend(later) && Beyond(st, now) && Beyond(next, later)
    requires Behind(now, next) && NoneGoesBack(st, next)
    ensures IdsAscend(now + later) && Beyond(st, now + later)
  {
  }

  lemma {:induction false} GivenAscend(st: State, actions: seq<Action>)
    requires AllocatorsOk(st)
    ensures IdsAscend(Given(st, actions)) && Beyond(st, Given(st, actions))
    decreases |actions|
  {
    if actions != [] && Enabled(st, actions[0]) {
      var next := Step(st, actions[0]);
      StepGives(st, actions[0]);
      GivenAscend(next, actions[1..]);
      GivenJoins(st, GivenBy(st, actions[0]), next, Given(next, actions[1..]));
    }
  }

  /** Every message of a state is among those given, and a waiting one under the
      id it was given. */
  ghost predicate AllGiven(st: State, given: seq<Fetched>)
  {
    && (forall m :: m in st.accepted ==> exists id :: Fetched(id, m) in given)
    && (forall id :: id in st.table ==> Fetched(id, st.table[id]) in given)
    && (forall s :: s in st.sessions && st.sessions[s].phase.Inserting? ==>
          Fetched(st.sessions[s].phase.id, st.sessions[s].phase.mail) in given)
  }

  lemma StepGiven(st: State, a: Action, given: seq<Fetched>)
    requires Enabled(st, a) && AllGiven(st, given)
    ensures AllGiven(Step(st, a), given + GivenBy(st, a))
  {
    if a.Insert? {
      InsertGiven(st, a.s, given);
    } else if a.Submit? {
      SubmitGiven(st, a, given);
    } else {
      assert Step(st, a).accepted == st.accepted;
      assert given + GivenBy(st, a) == given;
    }
  }

  lemma InsertGiven(st: State, s: nat, given: seq<Fetched>)
    requires Enabled(st, Insert(s)) && AllGiven(st, given)
    ensures AllGiven(InsertStep(st, s), given)
    ensures given + GivenBy(st, Insert(s)) == given
  {
    var Inserting(id, mail) := st.sessions[s].phase;
    assert Fetched(id, mail) in given;
  }

  lemma SubmitGiven(st: State, a: Action, given: seq<Fetched>)
    requires Enabled(st, a) && a.Submit? && AllGiven(st, given)
    ensures AllGiven(Step(st, a), given + GivenBy(st, a))
  {
    var more := given + GivenBy(st, a);
    assert forall f :: f in given ==> f in more;
    forall m | m in st.accepted
      ensures exists id :: Fetched(id, m) in more
    {
      var id :| Fetched(id, m) in given;
      assert Fetched(id, m) in more;
    }
    if Allocate(st.sessions[a.s].pages).Ok? {
      assert GivenBy(st, a)[0] in more;
    }
  }

  lemma {:induction false} RunGiven(st: State, actions: seq<Action>, end: State, given: seq<Fetched>)
    requires Happens(st, actions, end) && AllGiven(st, given)
    ensures AllGiven(end, given + Given(st, actions))
    decreases |actions|
  {
    if actions == [] {
      assert given + [] == given;
    } else {
      StepGiven(st, actions[0], given);
      var now, later := GivenBy(st, actions[0]), Given(Step(st, actions[0]), actions[1..]);
      RunGiven(Step(st, actions[0]), actions[1..], end, given + now);
      assert given + now + later == given + (now + later);
    }
  }

  /** Over any steps at all, the messages one session sends get strictly increasing
      ids, whether or not the earlier ones are still waiting: an id deleted by a
      poll is never given again by the same session. Every accepted message got
      one of these ids, and waits under no other. */
  lemma SessionIdsAscend(actions: seq<Action>, end: State)
    requires Happens(EMPTY, actions, end)
    ensures IdsAscend(Given(EMPTY, actions))
    ensures forall m :: m in end.accepted ==> exists id :: Fetched(id, m) in Given(EMPTY, actions)
    ensures forall id :: id in end.table ==> Fetched(id, end.table[id]) in Given(EMPTY, actions)
  {
    MailboxProofs.EmptyCore();
    GivenAscend(EMPTY, actions);
    RunGiven(EMPTY, actions, end, []);
    assert [] + Given(EMPTY, actions) == Given(EMPTY, actions);
  }

  // ----- why polls must not overlap -----

  ghost predicate CanDrain(st: State, s: nat, n: nat)
  {
    && s in st.sessions && st.sessions[s].phase.Polling?
    && n <= |st.sessions[s].phase.remaining|
    && forall i :: 0 <= i < n ==> st.sessions[s].phase.remaining[i].id < TWO_32
  }

  /** Session s places its next n rows. */
  ghost function Drain(st: State, s: nat, n: nat): State
    requires CanDrain(st, s, n)
    decreases n
  {
    if n == 0 then st else Drain(PollDeleteStep(st, s), s, n - 1)
  }

  lemma OnePlaced(st: State, s: nat)
    requires s in st.sessions && st.sessions[s].phase.Polling? && st.sessions[s].phase.remaining != []
    requires st.sessions[s].phase.remaining[0].id < TWO_32
    ensures var Polling(client, remaining, payload) := st.sessions[s].phase;
            var next := PollDeleteStep(st, s);
            && next.table == st.table - {remaining[0].id} && next.replied == st.replied
            && next.sessions == st.sessions[s := st.sessions[s].(
                 phase := Polling(client, remaining[1..], payload + [remaining[0].mail]))]
            && Placed(next, client) == Placed(st, client) + [remaining[0].mail]
  {
  }

  lemma {:induction false} DrainPlaces(st: State, s: nat, n: nat, client: string, remaining: seq<Fetched>)
    requires CanDrain(st, s, n)
    requires st.sessions[s].phase.client == client && st.sessions[s].phase.remaining == remaining
    ensures Placed(Drain(st, s, n), client) == Placed(st, client) + Mails(remaining[..n])
    decreases n
  {
    if n == 0 {
      assert Placed(st, client) + Mails(remaining[..0]) == Placed(st, client);
    } else {
      OnePlaced(st, s);
      DrainPlaces(PollDeleteStep(st, s), s, n - 1, client, remaining[1..]);
      FirstMail(Placed(st, client), remaining, n);
    }
  }

  lemma FirstMail(log: seq<Mail>, rows: seq<Fetched>, n: nat)
    requires 0 < n <= |rows|
    ensures log + [rows[0].mail] + Mails(rows[1..][..n - 1]) == log + Mails(rows[..n])
  {
    assert Mails(rows[..n]) == [rows[0].mail] + Mails(rows[1..][..n - 1]);
  }

  function PollDeletes(s: nat, n: nat): (actions: seq<Action>)
    ensures |actions| == n
  {
    if n == 0 then [] else [PollDelete(s)] + PollDeletes(s, n - 1)
  }

  lemma {:induction false} DrainRuns(st: State, s: nat, n: nat)
    requires CanDrain(st, s, n)
    ensures RunsTo(st, PollDeletes(s, n), Drain(st, s, n))
    decreases n
  {
    if n > 0 {
      DrainRuns(PollDeleteStep(st, s), s, n - 1);
      assert PollDeletes(s, n)[1..] == PollDeletes(s, n - 1);
    }
  }

  /** The row a live poll places next is one a new poll reads too. */
  lemma ReadAgain(st: State, t: nat) returns (k: nat)
    requires t in st.sessions && Live(st.sessions[t].phase) && RowsOk(st, t)
    ensures var Polling(client, remaining, _) := st.sessions[t].phase;
            && k < |IdsFor(st.table, client)| && IdsFor(st.table, client)[k] == remaining[0].id
            && Fetch(st.table, IdsFor(st.table, client))[k] == remaining[0]
  {
    var Polling(client, remaining, payload) := st.sessions[t].phase;
    var ids := IdsFor(st.table, client);
    assert remaining[0].id in ids;
    k :| 0 <= k < |ids| && ids[k] == remaining[0].id;
  }

  /** Smaller ids come first, so rows up to one that fits all fit. */
  lemma OverlapDrains(st: State, mid: State, s: nat, k: nat, client: string)
    requires k < |IdsFor(st.table, client)| && IdsFor(st.table, client)[k] < TWO_32
    requires s in mid.sessions
    requires mid.sessions[s].phase == Polling(client, Fetch(st.table, IdsFor(st.table, client)), [])
    ensures CanDrain(mid, s, k + 1)
  {
    var ids := IdsFor(st.table, client);
    assert forall i :: 0 <= i < k ==> ids[i] < ids[k];
  }

  /** A poll started while another still has a row to place can go on to place
      that row twice. */
  lemma OverlappingPollsDuplicate(st: State, s: nat, t: nat) returns (actions: seq<Action>, end: State)
    requires Core(st) && t in st.sessions && Live(st.sessions[t].phase)
    requires s in st.sessions && st.sessions[s].phase.Idle?
    ensures var client := st.sessions[t].phase.client;
            && Enabled(st, PollRead(s, client))
            && RunsTo(PollReadStep(st, s, client), actions, end)
            && !NoDuplicates(Placed(end, client))
  {
    assert RowsOk(st, t);
    var k := ReadAgain(st, t);
    var client := st.sessions[t].phase.client;
    var both := PollReadStep(st, s, client);
    OverlapState(st, s, t);
    var mid := PollDeleteStep(both, t);
    OverlapDrains(st, mid, s, k, client);
    DrainRepeats(mid, s, k, client, Fetch(st.table, IdsFor(st.table, client)));
    end := Drain(mid, s, k + 1);
    DrainRuns(mid, s, k + 1);
    actions := [PollDelete(t)] + PollDeletes(s, k + 1);
    assert actions[1..] == PollDeletes(s, k + 1);
  }

  /** Every continuation places every message for this recipient at most once. */
  ghost predicate PlacesOnce(st: State, client: string)
  {
    forall actions: seq<Action>, end: State :: RunsTo(st, actions, end) ==> NoDuplicates(Placed(end, client))
  }

  lemma CorePlacesOnce(st: State, client: string)
    requires Core(st)
    ensures PlacesOnce(st, client)
  {
    forall actions: seq<Action>, end: State | RunsTo(st, actions, end)
      ensures NoDuplicates(Placed(end, client))
    {
      RunKeepsCore(st, actions, end);
    }
  }

  lemma DuplicateRefutes(st: State, client: string, actions: seq<Action>, end: State)
    requires RunsTo(st, actions, end) && !NoDuplicates(Placed(end, client))
    ensures !PlacesOnce(st, client)
  {
  }

  /** When exactly a poll may start: every continuation places every message at
      most once if and only if no other poll for the recipient has a row to
      place. */
  lemma OverlapExactly(st: State, s: nat, client: string)
    requires Core(st) && Enabled(st, PollRead(s, client))
    ensures NothingToPlace(st, client) <==> PlacesOnce(PollReadStep(st, s, client), client)
  {
    if NothingToPlace(st, client) {
      MailboxProofs.PollReadCore(st, s, client);
      CorePlacesOnce(PollReadStep(st, s, client), client);
    } else {
      var t :| LivePollOf(st, t, client);
      var actions, end := OverlappingPollsDuplicate(st, s, t);
      DuplicateRefutes(PollReadStep(st, s, client), client, actions, end);
    }
  }

  lemma OverlapState(st: State, s: nat, t: nat)
    requires t in st.sessions && st.sessions[t].phase.Polling? && st.sessions[t].phase.remaining != []
    requires st.sessions[t].phase.remaining[0].id < TWO_32
    requires s in st.sessions && st.sessions[s].phase.Idle?
    ensures var client := st.sessions[t].phase.client;
            var both := PollReadStep(st, s, client);
            && Enabled(both, PollDelete(t))
            && var mid := PollDeleteStep(both, t);
            && s in mid.sessions
            && mid.sessions[s].phase == Polling(client, Fetch(st.table, IdsFor(st.table, client)), [])
            && Placed(mid, client) == Placed(st, client) + [st.sessions[t].phase.remaining[0].mail]
  {
  }

  lemma DrainRepeats(mid: State, s: nat, k: nat, client: string, remaining: seq<Fetched>)
    requires CanDrain(mid, s, k + 1)
    requires mid.sessions[s].phase.client == client && mid.sessions[s].phase.remaining == remaining
    requires remaining[k].mail in Placed(mid, client)
    ensures !NoDuplicates(Placed(Drain(mid, s, k + 1), client))
  {
    DrainPlaces(mid, s, k + 1, client, remaining);
    Repeats(Placed(mid, client), Mails(remaining[..k + 1]), k);
  }

  lemma Repeats(log: seq<Mail>, more: seq<Mail>, k: nat)
    requires k < |more| && more[k] in log
    ensures !NoDuplicates(log + more)
  {
    var at :| 0 <= at < |log| && log[at] == more[k];
    assert (log + more)[at] == (log + more)[|log| + k];
  }

  // ----- why allocators collide -----

  function SubmitAndInsert(st: State, s: nat, to: string, from: string, kind: Kind, body: Content): State
    requires Enabled(st, Submit(s, to, from, kind, body)) && Allocate(st.sessions[s].pages).Ok?
  {
    InsertStep(SubmitStep(st, s, to, from, kind, body), s)
  }

  /** An id the session still holds free is under no row of its own. */
  lemma FreeIdIsNotOwn(st: State, s: nat, id: nat)
    requires AllocatorsOk(st) && IdsOk(st) && s in st.sessions
    requires AllocatorOk(st.sessions[s]) && IsFree(st.sessions[s].pages, id) && id in st.table
    ensures st.table[id].tag.session != s
  {
    assert RowOwned(st, id);
  }

  /** With nothing in between, a message is refused exactly when another session
      has stored a row under the least id this allocator holds free; then the
      session dies, and no message is lost or replaced. */
  lemma RefusedIffTaken(st: State, s: nat, to: string, from: string, kind: Kind, body: Content, id: nat, mail: Mail)
    requires Core(st) && Enabled(st, Submit(s, to, from, kind, body))
    requires Allocate(st.sessions[s].pages).Ok? && id == Allocate(st.sessions[s].pages).value.0
    requires mail == Mail(to, from, kind, body, Tag(s, st.sessions[s].issued))
    ensures var end := SubmitAndInsert(st, s, to, from, kind, body);
            && mail !in st.accepted
            && (mail !in end.accepted <==> id in st.table)
            && (id in st.table ==>
                  && st.table[id].tag.session != s
                  && end.table == st.table && end.accepted == st.accepted && end.sessions[s].phase.Dead?)
            && (id !in st.table ==> end.table == st.table[id := mail] && end.accepted == st.accepted + {mail})
  {
    assert !TagOk(st, mail);
    SubmitThenInsert(st, s, to, from, kind, body, id, mail);
    assert AllocatorOk(st.sessions[s]);
    AllocateTakesLeast(st.sessions[s].pages);
    if id in st.table {
      FreeIdIsNotOwn(st, s, id);
    }
  }

  lemma SubmitThenInsert(st: State, s: nat, to: string, from: string, kind: Kind, body: Content, id: nat, mail: Mail)
    requires Enabled(st, Submit(s, to, from, kind, body))
    requires Allocate(st.sessions[s].pages).Ok? && id == Allocate(st.sessions[s].pages).value.0
    requires mail == Mail(to, from, kind, body, Tag(s, st.sessions[s].issued))
    ensures var end := SubmitAndInsert(st, s, to, from, kind, body);
            && s in end.sessions
            && (id in st.table ==>
                  end.table == st.table && end.accepted == st.accepted && end.sessions[s].phase.Dead?)
            && (id !in st.table ==> end.table == st.table[id := mail] && end.accepted == st.accepted + {mail})
  {
  }

  /** Two sessions opened over the same table hand out the same first id: the
      first message of whichever sends second is refused while the other's
      waits, and its session dies. */
  lemma TwinSessionsCollide(st: State, s: nat, t: nat, to: string, from: string, kind: Kind, body: Content,
                            to': string, from': string, kind': Kind, body': Content)
    requires s !in st.sessions && t !in st.sessions && s != t
    requires var synced := Sync(FirstPage(), SortedIds(st.table.Keys)); synced.Ok? && Allocate(synced.value).Ok?
    ensures var opened' := OpenStep(OpenStep(st, s), t);
            && Enabled(opened', Submit(s, to, from, kind, body))
            && var first := SubmitAndInsert(opened', s, to, from, kind, body);
            && first.accepted == st.accepted + {Mail(to, from, kind, body, Tag(s, 0))}
            && Enabled(first, Submit(t, to', from', kind', body'))
            && var end := SubmitAndInsert(first, t, to', from', kind', body');
            && end.sessions[t].phase.Dead?
            && end.table == first.table && end.accepted == first.accepted
            && |end.table| == |st.table| + 1
  {
    var ids := SortedIds(st.table.Keys);
    SyncNewSession(ids);
    var pages := Sync(FirstPage(), ids).value;
    AllocateTakesLeast(pages);
  }
}
