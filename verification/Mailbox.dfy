/** The mailbox under interleaved sessions. Every session has its own allocator
    and the steps of all sessions interleave at SQL-statement granularity. */
module Mailbox {
  import opened Wrappers
  import opened Bytes
  import opened Tables
  import opened MessageIds
  import opened Terms

  /** Names a message for the properties: the session that sent it and its
      place among that session's messages. */
  datatype Tag = Tag(session: nat, serial: nat)

  datatype Mail = Mail(toClient: string, fromClient: string, kind: Kind, body: Content, tag: Tag)

  datatype Fetched = Fetched(id: nat, mail: Mail)

  datatype Phase =
    | Idle
    | Inserting(id: nat, mail: Mail)
    | Polling(client: string, remaining: seq<Fetched>, payload: seq<Mail>)
    | Dead

  /** `issued` counts this session's messages; every id it took is below `nextId`. */
  datatype Session = Session(pages: Pages, issued: nat, nextId: nat, phase: Phase)

  /** `placed` is what has been put in a reply and deleted, `replied` what has
      been sent. */
  datatype State = State(
    table: map<nat, Mail>,
    sessions: map<nat, Session>,
    accepted: set<Mail>,
    placed: map<string, seq<Mail>>,
    replied: map<string, seq<Mail>>)

  datatype Action =
    | Open(s: nat)
    | Submit(s: nat, to: string, from: string, kind: Kind, body: Content)
    | Insert(s: nat)
    | PollRead(s: nat, client: string)
    | PollDelete(s: nat)
    | PollReply(s: nat)
    | Crash(s: nat)

  function LogOf(logs: map<string, seq<Mail>>, client: string): seq<Mail>
  {
    if client in logs then logs[client] else []
  }

  function Placed(st: State, client: string): seq<Mail>
  {
    LogOf(st.placed, client)
  }

  function Replied(st: State, client: string): seq<Mail>
  {
    LogOf(st.replied, client)
  }

  function Fetch(table: map<nat, Mail>, ids: seq<nat>): (rows: seq<Fetched>)
    requires forall id :: id in ids ==> id in table
    ensures |rows| == |ids|
    ensures forall i :: 0 <= i < |ids| ==> rows[i] == Fetched(ids[i], table[ids[i]])
  {
    seq(|ids|, i requires 0 <= i < |ids| => assert ids[i] in ids; Fetched(ids[i], table[ids[i]]))
  }

  function Mails(rows: seq<Fetched>): (mails: seq<Mail>)
    ensures |mails| == |rows| && forall i :: 0 <= i < |rows| ==> mails[i] == rows[i].mail
  {
    seq(|rows|, i requires 0 <= i < |rows| => rows[i].mail)
  }

  /** The keys a poll reads, in primary-key order. */
  function IdsFor(table: map<nat, Mail>, client: string): (ids: seq<nat>)
    ensures Increasing(ids)
    ensures forall id :: id in ids <==> id in table && table[id].toClient == client
  {
    SortedIds(set id | id in table && table[id].toClient == client)
  }

  /** What waits for a client, in the order a poll takes it. */
  function Waiting(table: map<nat, Mail>, to: string): seq<Mail>
  {
    Mails(Fetch(table, IdsFor(table, to)))
  }

  function SetPhase(st: State, s: nat, phase: Phase): State
    requires s in st.sessions
  {
    st.(sessions := st.sessions[s := st.sessions[s].(phase := phase)])
  }

  /** An uncaught exception ends the session's thread; a reply under
      construction is lost. */
  function Die(st: State, s: nat): State
    requires s in st.sessions
  {
    SetPhase(st, s, Dead)
  }

  function OpenStep(st: State, s: nat): State
  {
    var session :=
      match Sync(FirstPage(), SortedIds(st.table.Keys))
      case Ok(pages) => Session(pages, 0, 0, Idle)
      case Raised(_) => Session(FirstPage(), 0, 0, Dead);
    st.(sessions := st.sessions[s := session])
  }

  function SubmitStep(st: State, s: nat, to: string, from: string, kind: Kind, body: Content): State
    requires s in st.sessions && |st.sessions[s].pages| == PAGE_COUNT
  {
    var session := st.sessions[s];
    match Allocate(session.pages)
    case Raised(_) => Die(st, s)
    case Ok((id, rest)) =>
      var mail := Mail(to, from, kind, body, Tag(s, session.issued));
      st.(sessions := st.sessions[s := Session(rest, session.issued + 1, id + 1, Inserting(id, mail))])
  }

  /** The primary key rejects a duplicate. The reply carries the id in 32 bits,
      so a larger one raises OverflowError after the row is in. */
  function InsertStep(st: State, s: nat): State
    requires s in st.sessions && st.sessions[s].phase.Inserting?
  {
    var Inserting(id, mail) := st.sessions[s].phase;
    if id in st.table then Die(st, s)
    else
      SetPhase(st, s, if id < TWO_32 then Idle else Dead)
        .(table := st.table[id := mail], accepted := st.accepted + {mail})
  }

  function PollReadStep(st: State, s: nat, client: string): State
    requires s in st.sessions
  {
    SetPhase(st, s, Polling(client, Fetch(st.table, IdsFor(st.table, client)), []))
  }

  /** Appends the next row to the payload and deletes it by id. A record holds
      its id in 32 bits. */
  function PollDeleteStep(st: State, s: nat): State
    requires s in st.sessions && st.sessions[s].phase.Polling? && st.sessions[s].phase.remaining != []
  {
    var Polling(client, remaining, payload) := st.sessions[s].phase;
    var Fetched(id, mail) := remaining[0];
    if id >= TWO_32 then Die(st, s)
    else
      SetPhase(st, s, Polling(client, remaining[1..], payload + [mail]))
        .(table := st.table - {id}, placed := st.placed[client := Placed(st, client) + [mail]])
  }

  function PollReplyStep(st: State, s: nat): State
    requires s in st.sessions && st.sessions[s].phase.Polling?
  {
    var Polling(client, _, payload) := st.sessions[s].phase;
    SetPhase(st, s, Idle).(replied := st.replied[client := Replied(st, client) + payload])
  }

  predicate Enabled(st: State, a: Action)
  {
    match a
    case Open(s) => s !in st.sessions
    case Submit(s, _, _, _, _) => s in st.sessions && st.sessions[s].phase.Idle? && |st.sessions[s].pages| == PAGE_COUNT
    case Insert(s) => s in st.sessions && st.sessions[s].phase.Inserting?
    case PollRead(s, _) => s in st.sessions && st.sessions[s].phase.Idle?
    case PollDelete(s) => s in st.sessions && st.sessions[s].phase.Polling? && st.sessions[s].phase.remaining != []
    case PollReply(s) => s in st.sessions && st.sessions[s].phase.Polling? && st.sessions[s].phase.remaining == []
    case Crash(s) => s in st.sessions && !st.sessions[s].phase.Dead?
  }

  function Step(st: State, a: Action): State
    requires Enabled(st, a)
  {
    match a
    case Open(s) => OpenStep(st, s)
    case Submit(s, to, from, kind, body) => SubmitStep(st, s, to, from, kind, body)
    case Insert(s) => InsertStep(st, s)
    case PollRead(s, client) => PollReadStep(st, s, client)
    case PollDelete(s) => PollDeleteStep(st, s)
    case PollReply(s) => PollReplyStep(st, s)
    case Crash(s) => Die(st, s)
  }

  predicate PollOf(st: State, s: nat, client: string)
  {
    s in st.sessions && st.sessions[s].phase.Polling? && st.sessions[s].phase.client == client
  }

  /** A poll that places a row when it goes on. One whose next id does not fit its
      field dies instead. */
  predicate Live(phase: Phase)
  {
    phase.Polling? && phase.remaining != [] && phase.remaining[0].id < TWO_32
  }

  predicate LivePollOf(st: State, s: nat, client: string)
  {
    PollOf(st, s, client) && Live(st.sessions[s].phase)
  }

  /** No poll for this recipient has a row to place. */
  ghost predicate NothingToPlace(st: State, client: string)
  {
    forall s :: !LivePollOf(st, s, client)
  }

  /** No poll starts while another for its recipient has a row to place. */
  ghost predicate NoOverlap(st: State, a: Action)
  {
    a.PollRead? ==> NothingToPlace(st, a.client)
  }

  /** Every message waiting for a client has an id that fits a reply. */
  ghost predicate Fits(table: map<nat, Mail>, to: string)
  {
    forall id :: id in table && table[id].toClient == to ==> id < TWO_32
  }

  predicate AllFit(rows: seq<Fetched>)
  {
    forall i :: 0 <= i < |rows| ==> rows[i].id < TWO_32
  }

  /** A poll that can go on to its reply: every row left has an id that fits. */
  predicate CanFinish(phase: Phase)
  {
    phase.Polling? && AllFit(phase.remaining)
  }

  predicate FinishingPollOf(st: State, s: nat, client: string)
  {
    PollOf(st, s, client) && CanFinish(st.sessions[s].phase)
  }

  /** A message in a reply under construction. */
  predicate Carries(st: State, s: nat, m: Mail)
  {
    s in st.sessions && st.sessions[s].phase.Polling? && m in st.sessions[s].phase.payload
  }

  ghost predicate WaitsFrom(table: map<nat, Mail>, to: string, session: nat)
  {
    exists id :: id in table && table[id].toClient == to && table[id].tag.session == session
  }

  /** If a poll for this recipient could finish, no other poll that can holds a
      message of a session from which more is waiting. */
  ghost predicate OrderSafe(st: State, client: string)
  {
    Fits(st.table, client) ==>
      forall s, m :: FinishingPollOf(st, s, client) && Carries(st, s, m) ==>
        !WaitsFrom(st.table, client, m.tag.session)
  }

  /** No poll starts while another for its recipient has a row to place, or could
      be overtaken. */
  ghost predicate Orderly(st: State, a: Action)
  {
    NoOverlap(st, a) && (a.PollRead? ==> OrderSafe(st, a.client))
  }

  /** No other poll for this recipient is in flight. */
  ghost predicate NoPoll(st: State, client: string)
  {
    forall s :: !PollOf(st, s, client)
  }

  /** At most one poll in flight for each recipient: more than Orderly asks. */
  ghost predicate Exclusive(st: State, a: Action)
  {
    a.PollRead? ==> NoPoll(st, a.client)
  }

  const EMPTY := State(map[], map[], {}, map[], map[])

  // ----- the invariant -----

  ghost predicate TagOk(st: State, m: Mail)
  {
    m.tag.session in st.sessions && m.tag.serial < st.sessions[m.tag.session].issued
  }

  /** The message a session is about to insert is its newest and is not stored yet. */
  ghost predicate NewestOk(st: State, s: nat)
    requires s in st.sessions
  {
    st.sessions[s].phase.Inserting? ==>
      var mail := st.sessions[s].phase.mail;
      && mail.tag.session == s && mail.tag.serial + 1 == st.sessions[s].issued
      && forall m :: m in st.accepted && m.tag.session == s ==> m.tag.serial < mail.tag.serial
  }

  ghost predicate TagsOk(st: State)
  {
    && (forall m :: m in st.accepted ==> TagOk(st, m))
    && (forall s :: s in st.sessions ==> NewestOk(st, s))
    && (forall m, n :: m in st.accepted && n in st.accepted && m.tag == n.tag ==> m == n)
  }

  ghost predicate InTable(st: State, m: Mail)
  {
    exists id :: id in st.table && st.table[id] == m
  }

  ghost predicate NoDuplicates(log: seq<Mail>)
  {
    forall i, j :: 0 <= i < j < |log| ==> log[i] != log[j]
  }

  ghost predicate PendingOk(st: State)
  {
    && (forall id :: id in st.table ==> st.table[id] in st.accepted)
    && (forall i, j :: i in st.table && j in st.table && st.table[i] == st.table[j] ==> i == j)
  }

  ghost predicate PlacedOk(st: State)
  {
    && (forall c: string, m :: m in Placed(st, c) ==> m in st.accepted && m.toClient == c)
    && (forall c: string, m, id :: m in Placed(st, c) && id in st.table ==> st.table[id] != m)
    && (forall c: string :: NoDuplicates(Placed(st, c)))
  }

  ghost predicate NothingLost(st: State)
  {
    forall m :: m in st.accepted ==> InTable(st, m) || m in Placed(st, m.toClient)
  }

  /** Every accepted message is pending or placed in a reply to its addressee,
      never both, and exactly once. */
  ghost predicate Conserved(st: State)
  {
    PendingOk(st) && PlacedOk(st) && NothingLost(st)
  }

  /** A session's ids only grow, and what it may still take lies above them. */
  ghost predicate AllocatorOk(session: Session)
  {
    && WellFormed(session.pages)
    && forall id: nat :: IsFree(session.pages, id) ==> session.nextId <= id
  }

  ghost predicate AllocatorsOk(st: State)
  {
    forall s :: s in st.sessions ==> AllocatorOk(st.sessions[s])
  }

  ghost predicate RowOwned(st: State, id: nat)
    requires id in st.table
  {
    st.table[id].tag.session in st.sessions && id < st.sessions[st.table[id].tag.session].nextId
  }

  /** The id a session is about to insert is the newest it took. */
  ghost predicate InsertingOk(st: State, s: nat)
    requires s in st.sessions
  {
    st.sessions[s].phase.Inserting? ==>
      && st.sessions[s].nextId == st.sessions[s].phase.id + 1
      && forall id :: id in st.table && st.table[id].tag.session == s ==> id < st.sessions[s].phase.id
  }

  ghost predicate IdsOk(st: State)
  {
    && (forall id :: id in st.table ==> RowOwned(st, id))
    && (forall s :: s in st.sessions ==> InsertingOk(st, s))
  }

  /** If both come from one session, m was sent before n. */
  ghost predicate SentBefore(m: Mail, n: Mail)
  {
    m.tag.session == n.tag.session ==> m.tag.serial < n.tag.serial
  }

  ghost predicate InSendingOrder(log: seq<Mail>)
  {
    forall i, j :: 0 <= i < j < |log| ==> SentBefore(log[i], log[j])
  }

  ghost predicate OrderOk(st: State)
  {
    && (forall i, j :: i in st.table && j in st.table && i < j ==> SentBefore(st.table[i], st.table[j]))
    && (forall c: string :: InSendingOrder(Placed(st, c)))
    && (forall c: string, m, id :: m in Placed(st, c) && id in st.table && st.table[id].toClient == c ==>
          SentBefore(m, st.table[id]))
  }

  /** The rows a poll still has to place are in the table as they were read. */
  ghost predicate RemainingOk(table: map<nat, Mail>, client: string, remaining: seq<Fetched>)
  {
    && (forall i :: 0 <= i < |remaining| ==>
          && remaining[i].id in table
          && table[remaining[i].id] == remaining[i].mail
          && remaining[i].mail.toClient == client)
    && (forall i, j :: 0 <= i < j < |remaining| ==> remaining[i].id < remaining[j].id)
  }

  ghost predicate StillToPlace(remaining: seq<Fetched>, id: nat)
  {
    exists j :: 0 <= j < |remaining| && remaining[j].id == id
  }

  /** They precede whatever has arrived since they were read. */
  ghost predicate PrecedesLater(table: map<nat, Mail>, client: string, remaining: seq<Fetched>)
  {
    forall i, id :: 0 <= i < |remaining| && id in table && table[id].toClient == client && !StillToPlace(remaining, id)
                    ==> SentBefore(remaining[i].mail, table[id])
  }

  ghost predicate RowsOk(st: State, s: nat)
    requires s in st.sessions && st.sessions[s].phase.Polling?
  {
    var Polling(client, remaining, _) := st.sessions[s].phase;
    RemainingOk(st.table, client, remaining) && PrecedesLater(st.table, client, remaining)
  }

  ghost predicate LivePollsOk(st: State)
  {
    && (forall s :: s in st.sessions && Live(st.sessions[s].phase) ==> RowsOk(st, s))
    && (forall s, t, c: string :: LivePollOf(st, s, c) && LivePollOf(st, t, c) ==> s == t)
  }

  ghost predicate UnsentOk(st: State, s: nat)
    requires s in st.sessions && st.sessions[s].phase.Polling?
  {
    var Polling(client, _, payload) := st.sessions[s].phase;
    && NoDuplicates(payload)
    && (forall m :: m in payload ==> m in Placed(st, client) && m !in Replied(st, client))
  }

  /** What is sent was placed, and is sent once: replies under construction share
      nothing with each other or with what has been sent. */
  ghost predicate SentOk(st: State)
  {
    && (forall c: string, m :: m in Replied(st, c) ==> m in Placed(st, c))
    && (forall c: string :: NoDuplicates(Replied(st, c)))
    && (forall s :: s in st.sessions && st.sessions[s].phase.Polling? ==> UnsentOk(st, s))
    && (forall s, t, m :: Carries(st, s, m) && Carries(st, t, m) ==> s == t)
  }

  /** What every run keeps in which no poll starts while another for its recipient
      has a row to place. */
  ghost predicate Core(st: State)
  {
    && TagsOk(st)
    && Conserved(st)
    && AllocatorsOk(st)
    && IdsOk(st)
    && OrderOk(st)
    && LivePollsOk(st)
    && SentOk(st)
  }

  // ----- the order of replies -----

  /** What a poll's reply will hold if it goes on to the end. */
  function Outcome(phase: Phase): seq<Mail>
    requires phase.Polling?
  {
    phase.payload + Mails(phase.remaining)
  }

  /** No session has messages in both. */
  ghost predicate Apart(a: seq<Mail>, b: seq<Mail>)
  {
    forall i, j :: 0 <= i < |a| && 0 <= j < |b| ==> a[i].tag.session != b[j].tag.session
  }

  ghost predicate PollOrdered(st: State, s: nat)
    requires s in st.sessions && st.sessions[s].phase.Polling?
  {
    InSendingOrder(Replied(st, st.sessions[s].phase.client) + Outcome(st.sessions[s].phase))
  }

  /** Replies are in sending order, and whichever poll that can finish replies
      next, they stay so. */
  ghost predicate Ordered(st: State)
  {
    && (forall c: string :: InSendingOrder(Replied(st, c)))
    && (forall s :: s in st.sessions && CanFinish(st.sessions[s].phase) ==> PollOrdered(st, s))
    && (forall s, t, c: string :: s != t && FinishingPollOf(st, s, c) && FinishingPollOf(st, t, c) ==>
          Apart(Outcome(st.sessions[s].phase), Outcome(st.sessions[t].phase)))
  }

  /** What every run of orderly steps keeps. */
  ghost predicate Inv(st: State)
  {
    Core(st) && Ordered(st)
  }

  // ----- what is lost -----

  ghost predicate Carried(st: State, m: Mail)
  {
    exists s :: Carries(st, s, m)
  }

  /** Deleted from the table, but neither sent nor about to be. */
  ghost predicate Lost(st: State, m: Mail)
  {
    m in Placed(st, m.toClient) && m !in Replied(st, m.toClient) && !Carried(st, m)
  }

  ghost function LostTo(st: State, client: string): set<Mail>
  {
    set m | m in Placed(st, client) && Lost(st, m)
  }

  /** A log without some messages. */
  function Keep(log: seq<Mail>, gone: set<Mail>): (kept: seq<Mail>)
    ensures forall m :: m in kept <==> m in log && m !in gone
  {
    if log == [] then []
    else
      var front, last := log[..|log| - 1], log[|log| - 1];
      assert log == front + [last];
      Keep(front, gone) + if last in gone then [] else [last]
  }

  /** A recipient's placed messages without the lost ones, in placing order. */
  ghost function Surviving(st: State, client: string): seq<Mail>
  {
    Keep(Placed(st, client), LostTo(st, client))
  }

  ghost predicate PollWhole(st: State, s: nat)
    requires s in st.sessions && st.sessions[s].phase.Polling?
  {
    var Polling(client, _, payload) := st.sessions[s].phase;
    Surviving(st, client) == Replied(st, client) + payload
  }

  ghost predicate OnePollEach(st: State)
  {
    forall s, t, c: string :: PollOf(st, s, c) && PollOf(st, t, c) ==> s == t
  }

  ghost predicate PollsWhole(st: State)
  {
    forall s :: s in st.sessions && st.sessions[s].phase.Polling? ==> PollWhole(st, s)
  }

  ghost predicate RestWhole(st: State)
  {
    forall c: string :: NoPoll(st, c) ==> Surviving(st, c) == Replied(st, c)
  }

  /** What every run keeps with at most one poll in flight for each recipient:
      what survives is sent or in the one reply being built, in placing order. */
  ghost predicate Whole(st: State)
  {
    OnePollEach(st) && PollsWhole(st) && RestWhole(st)
  }
}
