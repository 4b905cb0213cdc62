/** Runs of the mailbox that deliver, and two that show why polls for one
    recipient should not overlap. */
module MailboxRuns {
  import opened Wrappers
  import opened Bytes
  import opened Tables
  import opened MessageIds
  import opened Terms
  import opened Mailbox
  import opened MailboxTheorems
  import OrderProofs

  ghost predicate IsIdle(st: State, s: nat)
  {
    s in st.sessions && st.sessions[s].phase.Idle? && |st.sessions[s].pages| == PAGE_COUNT
  }

  /** The session has an id to give that is not taken and fits the replies. */
  ghost predicate CanAllocate(st: State, s: nat)
  {
    && IsIdle(st, s)
    && Allocate(st.sessions[s].pages).Ok?
    && Allocate(st.sessions[s].pages).value.0 < TWO_32
    && Allocate(st.sessions[s].pages).value.0 !in st.table
  }

  function NewMail(st: State, s: nat, to: string, from: string, kind: Kind, body: Content): Mail
    requires s in st.sessions
  {
    Mail(to, from, kind, body, Tag(s, st.sessions[s].issued))
  }

  /** A send that goes in. */
  lemma SendGoesIn(st: State, s: nat, to: string, from: string, kind: Kind, body: Content)
    returns (mid: State, end: State, id: nat)
    requires CanAllocate(st, s)
    ensures Enabled(st, Submit(s, to, from, kind, body)) && mid == Step(st, Submit(s, to, from, kind, body))
    ensures s in mid.sessions && mid.sessions[s].phase == Inserting(id, NewMail(st, s, to, from, kind, body))
    ensures Enabled(mid, Insert(s)) && end == Step(mid, Insert(s))
    ensures id !in st.table && id < TWO_32
    ensures end.table == st.table[id := NewMail(st, s, to, from, kind, body)]
    ensures IsIdle(end, s) && end.replied == st.replied && end.sessions.Keys == st.sessions.Keys
    ensures forall t :: t in st.sessions && t != s ==> end.sessions[t] == st.sessions[t]
  {
    id := Allocate(st.sessions[s].pages).value.0;
    mid := Step(st, Submit(s, to, from, kind, body));
    end := Step(mid, Insert(s));
  }

  function Ids(rows: seq<Fetched>): (ids: seq<nat>)
    ensures |ids| == |rows| && forall i :: 0 <= i < |rows| ==> ids[i] == rows[i].id
  {
    seq(|rows|, i requires 0 <= i < |rows| => rows[i].id)
  }

  /** Placing all remaining rows deletes them all and leaves the reply ready. */
  lemma {:induction false} DrainAll(st: State, s: nat)
    requires s in st.sessions && st.sessions[s].phase.Polling?
    requires CanDrain(st, s, |st.sessions[s].phase.remaining|)
    ensures var Polling(client, remaining, payload) := st.sessions[s].phase;
            var end := Drain(st, s, |remaining|);
            && end.table == st.table - IdSet(Ids(remaining))
            && end.replied == st.replied
            && end.sessions == st.sessions[s := st.sessions[s].(
                 phase := Polling(client, [], payload + Mails(remaining)))]
    decreases |st.sessions[s].phase.remaining|
  {
    var Polling(client, remaining, payload) := st.sessions[s].phase;
    if remaining == [] {
      assert payload + Mails(remaining) == payload;
      assert IdSet(Ids(remaining)) == {};
    } else {
      var next := PollDeleteStep(st, s);
      OnePlaced(st, s);
      DrainAll(next, s);
      OrderProofs.SplitMails(payload, remaining);
      assert Ids(remaining)[1..] == Ids(remaining[1..]);
      HeadId(Ids(remaining));
    }
  }

  lemma FitsIds(table: map<nat, Mail>, to: string)
    requires Fits(table, to)
    ensures forall i :: 0 <= i < |IdsFor(table, to)| ==> IdsFor(table, to)[i] < TWO_32
  {
    assert forall i :: 0 <= i < |IdsFor(table, to)| ==> IdsFor(table, to)[i] in IdsFor(table, to);
  }

  /** Undisturbed, a poll of the mailbox deletes every row it read and replies
      with all of them in order. */
  lemma PollDrains(st: State, s: nat, to: string)
    requires Enabled(st, PollRead(s, to)) && Fits(st.table, to)
    ensures var ids := IdsFor(st.table, to);
            var polling := PollReadStep(st, s, to);
            && CanDrain(polling, s, |ids|)
            && var drained := Drain(polling, s, |ids|);
            && drained.table == st.table - IdSet(ids)
            && Enabled(drained, PollReply(s))
            && var end := PollReplyStep(drained, s);
            && end.table == drained.table && end.sessions == st.sessions
            && end.replied == st.replied[to := Replied(st, to) + Waiting(st.table, to)]
  {
    var ids := IdsFor(st.table, to);
    var polling := PollReadStep(st, s, to);
    FitsIds(st.table, to);
    DrainAll(polling, s);
    assert Ids(Fetch(st.table, ids)) == ids;
    assert [] + Waiting(st.table, to) == Waiting(st.table, to);
    ReplySends(Drain(polling, s, |ids|), s, to, Waiting(st.table, to));
    BackToIdle(st, s, polling, Polling(to, [], Waiting(st.table, to)));
  }

  lemma ReplySends(st: State, s: nat, to: string, payload: seq<Mail>)
    requires s in st.sessions && st.sessions[s].phase == Polling(to, [], payload)
    ensures Enabled(st, PollReply(s))
    ensures PollReplyStep(st, s).table == st.table
    ensures PollReplyStep(st, s).sessions == st.sessions[s := st.sessions[s].(phase := Idle)]
    ensures PollReplyStep(st, s).replied == st.replied[to := Replied(st, to) + payload]
  {
  }

  lemma BackToIdle(st: State, s: nat, polling: State, phase: Phase)
    requires s in st.sessions && st.sessions[s].phase.Idle?
    requires s in polling.sessions && polling.sessions == SetPhase(st, s, polling.sessions[s].phase).sessions
    ensures var drained := polling.sessions[s := polling.sessions[s].(phase := phase)];
            drained[s := drained[s].(phase := Idle)] == st.sessions
  {
  }

  /** A waiting message is among those a poll takes. */
  lemma IsWaiting(table: map<nat, Mail>, id: nat, client: string)
    requires id in table && table[id].toClient == client
    ensures table[id] in Waiting(table, client)
  {
    var ids := IdsFor(table, client);
    assert id in ids;
    var k :| 0 <= k < |ids| && ids[k] == id;
    assert Waiting(table, client)[k] == table[id];
  }

  lemma OnlyId(table: map<nat, Mail>, id: nat, to: string)
    requires table.Keys == {id} && table[id].toClient == to
    ensures IdsFor(table, to) == [id]
  {
    IncreasingIsUnique(IdsFor(table, to), [id]);
  }

  lemma OnlyWaiting(table: map<nat, Mail>, id: nat, to: string)
    requires table.Keys == {id} && table[id].toClient == to
    ensures Waiting(table, to) == [table[id]]
  {
    OnlyId(table, id, to);
  }

  // ----- runs from the start -----

  lemma {:induction false} RunsOn(st: State, actions: seq<Action>, mid: State, a: Action)
    requires RunsTo(st, actions, mid) && Enabled(mid, a) && NoOverlap(mid, a)
    ensures RunsTo(st, actions + [a], Step(mid, a))
    decreases |actions|
  {
    if actions == [] {
      assert [a][1..] == [];
      assert actions + [a] == [a];
    } else {
      RunsOn(Step(st, actions[0]), actions[1..], mid, a);
      assert (actions + [a])[1..] == actions[1..] + [a];
    }
  }

  lemma FirstPages()
    ensures FirstPage() == PagesAfter(0)
    ensures Allocate(PagesAfter(0)) == Ok((0, PagesAfter(1))) && Allocate(PagesAfter(1)) == Ok((1, PagesAfter(2)))
  {
    assert Range(PAGE_SIZE)[0..] == Range(PAGE_SIZE);
    AllocateAfter(0);
    AllocateAfter(1);
  }

  lemma FreshSession(st: State, s: nat)
    requires st.table == map[] && s !in st.sessions
    ensures OpenStep(st, s) == st.(sessions := st.sessions[s := Session(PagesAfter(0), 0, 0, Idle)])
    ensures CanAllocate(OpenStep(st, s), s)
  {
    assert SortedIds(st.table.Keys) == [];
    FirstPages();
  }

  lemma ThreeOpen() returns (actions: seq<Action>, end: State)
    ensures RunsTo(EMPTY, actions, end)
    ensures end == EMPTY.(sessions := map[0 := Session(PagesAfter(0), 0, 0, Idle),
                                          1 := Session(PagesAfter(0), 0, 0, Idle),
                                          2 := Session(PagesAfter(0), 0, 0, Idle)])
  {
    FreshSession(EMPTY, 0);
    var one := OpenStep(EMPTY, 0);
    FreshSession(one, 1);
    var two := OpenStep(one, 1);
    FreshSession(two, 2);
    end := OpenStep(two, 2);
    RunsOn(EMPTY, [], EMPTY, Open(0));
    RunsOn(EMPTY, [] + [Open(0)], one, Open(1));
    RunsOn(EMPTY, [] + [Open(0)] + [Open(1)], two, Open(2));
    actions := [] + [Open(0)] + [Open(1)] + [Open(2)];
  }

  lemma OneSent(to: string, from: string, kind: Kind, body: Content) returns (actions: seq<Action>, end: State, m: Mail)
    ensures RunsTo(EMPTY, actions, end)
    ensures m == Mail(to, from, kind, body, Tag(0, 0)) && end.accepted == {m} && end.table == map[0 := m]
    ensures end.sessions == map[0 := Session(PagesAfter(1), 1, 1, Idle),
                                1 := Session(PagesAfter(0), 0, 0, Idle),
                                2 := Session(PagesAfter(0), 0, 0, Idle)]
    ensures end.replied == map[] && end.placed == map[]
  {
    var opening, open := ThreeOpen();
    FirstPages();
    var submit, insert := Submit(0, to, from, kind, body), Insert(0);
    var submitted := Step(open, submit);
    end := Step(submitted, insert);
    m := Mail(to, from, kind, body, Tag(0, 0));
    RunsOn(EMPTY, opening, open, submit);
    RunsOn(EMPTY, opening + [submit], submitted, insert);
    actions := opening + [submit] + [insert];
  }

  /** A poll of a table with one row for the recipient reads just that row. */
  lemma ReadsOne(st: State, s: nat, to: string, id: nat, m: Mail)
    requires s in st.sessions && st.table == map[id := m] && m.toClient == to
    ensures PollReadStep(st, s, to) == SetPhase(st, s, Polling(to, [Fetched(id, m)], []))
  {
    OnlyId(st.table, id, to);
    assert Fetch(st.table, [id]) == [Fetched(id, m)];
  }

  /** Session 0 has sent one message, and session 1 has read it in a poll but not
      placed it yet; session 2 is idle. */
  lemma OneRead(to: string, from: string, kind: Kind, body: Content) returns (actions: seq<Action>, end: State, m: Mail)
    ensures RunsTo(EMPTY, actions, end)
    ensures m == Mail(to, from, kind, body, Tag(0, 0)) && end.accepted == {m} && end.table == map[0 := m]
    ensures end.sessions == map[0 := Session(PagesAfter(1), 1, 1, Idle),
                                1 := Session(PagesAfter(0), 0, 0, Polling(to, [Fetched(0, m)], [])),
                                2 := Session(PagesAfter(0), 0, 0, Idle)]
    ensures end.replied == map[] && end.placed == map[]
  {
    var sending, sent;
    sending, sent, m := OneSent(to, from, kind, body);
    ReadsOne(sent, 1, to, 0, m);
    end := Step(sent, PollRead(1, to));
    RunsOn(EMPTY, sending, sent, PollRead(1, to));
    actions := sending + [PollRead(1, to)];
  }

  /** A run reaches a state in which a poll has a row to place and another session
      can start one for the same recipient: the case OverlappingPollsDuplicate
      speaks of. */
  lemma OverlapIsReachable(to: string, from: string, kind: Kind, body: Content)
    returns (actions: seq<Action>, end: State, more: seq<Action>, twice: State)
    ensures RunsTo(EMPTY, actions, end) && Core(end)
    ensures LivePollOf(end, 1, to) && Enabled(end, PollRead(2, to))
    ensures RunsTo(PollReadStep(end, 2, to), more, twice) && !NoDuplicates(Placed(twice, to))
  {
    var m;
    actions, end, m := OneRead(to, from, kind, body);
    RunCore(actions, end);
    more, twice := OverlappingPollsDuplicate(end, 2, 1);
  }

  /** The first poll has placed its message but not sent its reply, and session 0
      has sent another one. */
  lemma OneUnsent(to: string, from: string, kind: Kind, body: Content)
    returns (actions: seq<Action>, end: State, m: Mail, n: Mail)
    ensures RunsTo(EMPTY, actions, end)
    ensures m == Mail(to, from, kind, body, Tag(0, 0)) && n == Mail(to, from, kind, body, Tag(0, 1))
    ensures end.accepted == {m, n} && end.table == map[1 := n] && end.replied == map[]
    ensures end.sessions == map[0 := Session(PagesAfter(2), 2, 2, Idle),
                                1 := Session(PagesAfter(0), 0, 0, Polling(to, [], [m])),
                                2 := Session(PagesAfter(0), 0, 0, Idle)]
  {
    var reading, read;
    reading, read, m := OneRead(to, from, kind, body);
    FirstPages();
    var delete, submit, insert := PollDelete(1), Submit(0, to, from, kind, body), Insert(0);
    var placed := Step(read, delete);
    assert placed.sessions[1].phase == Polling(to, [], [m]);
    var submitted := Step(placed, submit);
    n := Mail(to, from, kind, body, Tag(0, 1));
    end := Step(submitted, insert);
    RunsOn(EMPTY, reading, read, delete);
    RunsOn(EMPTY, reading + [delete], placed, submit);
    RunsOn(EMPTY, reading + [delete] + [submit], submitted, insert);
    actions := reading + [delete] + [submit] + [insert];
  }

  /** A poll of one row, from reading to replying. */
  lemma OnePoll(st: State, s: nat, to: string, id: nat, m: Mail) returns (actions: seq<Action>, end: State)
    requires IsIdle(st, s) && NothingToPlace(st, to)
    requires st.table == map[id := m] && m.toClient == to && id < TWO_32
    ensures RunsTo(st, actions, end)
    ensures end.accepted == st.accepted && end.sessions == st.sessions
    ensures end.replied == st.replied[to := Replied(st, to) + [m]]
  {
    ReadsOne(st, s, to, id, m);
    var read := Step(st, PollRead(s, to));
    var placed := Step(read, PollDelete(s));
    assert placed.sessions[s].phase == Polling(to, [], [m]);
    end := Step(placed, PollReply(s));
    assert end.sessions == st.sessions;
    RunsOn(st, [], st, PollRead(s, to));
    RunsOn(st, [] + [PollRead(s, to)], read, PollDelete(s));
    RunsOn(st, [] + [PollRead(s, to)] + [PollDelete(s)], placed, PollReply(s));
    actions := [] + [PollRead(s, to)] + [PollDelete(s)] + [PollReply(s)];
  }

  lemma {:induction false} RunsCompose(st: State, first: seq<Action>, mid: State, second: seq<Action>, end: State)
    requires RunsTo(st, first, mid) && RunsTo(mid, second, end)
    ensures RunsTo(st, first + second, end)
    decreases |first|
  {
    if first == [] {
      assert first + second == second;
    } else {
      assert (first + second)[1..] == first[1..] + second;
      RunsCompose(Step(st, first[0]), first[1..], mid, second, end);
    }
  }

  /** Exactly once does not need more than NoOverlap, but order does: a poll that
      overlaps one whose reply is still to be sent can overtake it. */
  lemma RepliesCanInvert(to: string, from: string, kind: Kind, body: Content)
    returns (actions: seq<Action>, end: State, m: Mail, n: Mail)
    ensures RunsTo(EMPTY, actions, end)
    ensures m in end.accepted && n in end.accepted && Earlier(m, n) && m.toClient == to
    ensures Replied(end, to) == [n, m] && !InSendingOrder(Replied(end, to))
  {
    var first, unsent, second, overtaken;
    first, unsent, m, n := OneUnsent(to, from, kind, body);
    second, overtaken := OnePoll(unsent, 2, to, 1, n);
    RunsCompose(EMPTY, first, unsent, second, overtaken);
    RunsOn(EMPTY, first + second, overtaken, PollReply(1));
    actions := first + second + [PollReply(1)];
    end := Step(overtaken, PollReply(1));
    ReplySends(overtaken, 1, to, [m]);
    assert !SentBefore(Replied(end, to)[0], Replied(end, to)[1]);
  }

  /** A poll's session dies after its one row was placed. */
  lemma OneCrashed(to: string, from: string, kind: Kind, body: Content)
    returns (actions: seq<Action>, end: State, m: Mail)
    ensures RunsTo(EMPTY, actions, end)
    ensures m in end.accepted && m.toClient == to && Placed(end, to) == [m] && end.replied == map[]
    ensures forall s :: s in end.sessions ==> !end.sessions[s].phase.Polling?
  {
    var reading, read;
    reading, read, m := OneRead(to, from, kind, body);
    var placed := Step(read, PollDelete(1));
    end := Step(placed, Crash(1));
    RunsOn(EMPTY, reading, read, PollDelete(1));
    RunsOn(EMPTY, reading + [PollDelete(1)], placed, Crash(1));
    actions := reading + [PollDelete(1)] + [Crash(1)];
  }

  /** Rows are deleted before the reply is sent, so a session that dies in between
      takes what it has placed with it: a run in which an accepted message is lost,
      and stays lost whatever follows. */
  lemma MessageCanBeLost(to: string, from: string, kind: Kind, body: Content)
    returns (actions: seq<Action>, end: State, m: Mail)
    ensures RunsTo(EMPTY, actions, end) && Core(end)
    ensures m in end.accepted && m.toClient == to && Lost(end, m)
    ensures forall more: seq<Action>, later: State :: RunsTo(end, more, later) ==> m !in Replied(later, to)
  {
    actions, end, m := OneCrashed(to, from, kind, body);
    RunCore(actions, end);
    forall more: seq<Action>, later: State | RunsTo(end, more, later)
      ensures m !in Replied(later, to)
    {
      LostForever(end, more, later, m);
    }
  }
}
