/** The whole messenger: any number of clients that register, fetch public keys,
    exchange AES keys, send and poll in any order, over the mailbox. Client n
    talks to the server through session n and is never restarted. */
module Protocol {
  import opened Wrappers
  import opened Terms
  import opened Client
  import Mailbox

  type Mail = Mailbox.Mail
  type Tag = Mailbox.Tag

  /** `table` is the PublicKey column by client id. `typed` records what the
      user typed for each message, and `seen` how many polled messages each
      client has gone through. */
  datatype State = State(
    table: map<string, PublicKey>,
    clients: map<nat, ClientState>,
    mail: Mailbox.State,
    typed: map<Tag, string>,
    seen: map<nat, nat>)

  datatype Action =
    | Register(n: nat, id: string)
    | Serve(a: Mailbox.Action)
    | FetchKey(n: nat, typed: string)
    | Send(n: nat, to: string, kind: Kind, text: string)
    | Poll(n: nat)
    | Read(n: nat)

  const EMPTY := State(map[], map[], Mailbox.EMPTY, map[], map[])

  /** Keys are made once, when the client starts. */
  function NewClient(n: nat, id: string): ClientState
  {
    ClientState(id, PrivateKey(n), AesKey(n), map[], map[], [], true)
  }

  function RegisterStep(st: State, n: nat, id: string): State
  {
    st.(table := st.table[id := PublicKey(n)],
        clients := st.clients[n := NewClient(n, id)],
        seen := st.seen[n := 0])
  }

  /** The id a public-key request carries: the first 32 characters typed. */
  function RequestedId(typed: string): string
    requires |typed| >= ID_LENGTH
  {
    typed[..ID_LENGTH]
  }

  predicate CanFetch(st: State, n: nat, typed: string)
  {
    n in st.clients && st.clients[n].running && |typed| >= ID_LENGTH && RequestedId(typed) in st.table
  }

  /** The key is cached under all that was typed. */
  function FetchKeyStep(st: State, n: nat, typed: string): State
    requires CanFetch(st, n, typed)
  {
    st.(clients := st.clients[n := SavePublicKey(st.clients[n], typed, st.table[RequestedId(typed)])])
  }

  predicate CanSend(st: State, n: nat, to: string, kind: Kind, text: string)
  {
    && n in st.clients && st.clients[n].running
    && Outgoing(st.clients[n], kind, to, text).Some?
    && Mailbox.Enabled(st.mail, SubmitOf(st, n, to, kind, text))
  }

  function SubmitOf(st: State, n: nat, to: string, kind: Kind, text: string): Mailbox.Action
    requires n in st.clients && Outgoing(st.clients[n], kind, to, text).Some?
  {
    Mailbox.Submit(n, to, st.clients[n].id, kind, Outgoing(st.clients[n], kind, to, text).value)
  }

  function SendStep(st: State, n: nat, to: string, kind: Kind, text: string): State
    requires CanSend(st, n, to, kind, text)
  {
    var mail' := Mailbox.Step(st.mail, SubmitOf(st, n, to, kind, text));
    if mail'.sessions[n].phase.Inserting? then
      st.(mail := mail', typed := st.typed[mail'.sessions[n].phase.mail.tag := text])
    else
      st.(mail := mail')
  }

  function PollStep(st: State, n: nat): State
    requires n in st.clients && Mailbox.Enabled(st.mail, Mailbox.PollRead(n, st.clients[n].id))
  {
    st.(mail := Mailbox.Step(st.mail, Mailbox.PollRead(n, st.clients[n].id)))
  }

  function Arrived(ms: seq<Mail>): (arrived: seq<Incoming>)
    ensures |arrived| == |ms|
  {
    seq(|ms|, i requires 0 <= i < |ms| => Incoming(ms[i].fromClient, ms[i].kind, ms[i].body))
  }

  function Unread(st: State, n: nat): seq<Mail>
    requires n in st.clients && n in st.seen
  {
    var replied := Mailbox.Replied(st.mail, st.clients[n].id);
    if st.seen[n] <= |replied| then replied[st.seen[n]..] else []
  }

  function ReadStep(st: State, n: nat): State
    requires n in st.clients && n in st.seen
  {
    st.(clients := st.clients[n := ReceiveAll(st.clients[n], Arrived(Unread(st, n)))],
        seen := st.seen[n := |Mailbox.Replied(st.mail, st.clients[n].id)|])
  }

  predicate Enabled(st: State, a: Action)
  {
    match a
    case Register(n, id) => n !in st.clients && id !in st.table && |id| == ID_LENGTH
    case Serve(step) =>
      && Mailbox.Enabled(st.mail, step)
      && !step.Submit? && !step.PollRead?
      && (step.Open? ==> step.s in st.clients)
    case FetchKey(n, typed) => CanFetch(st, n, typed)
    case Send(n, to, kind, text) => CanSend(st, n, to, kind, text)
    case Poll(n) =>
      && n in st.clients && st.clients[n].running
      && Mailbox.Enabled(st.mail, Mailbox.PollRead(n, st.clients[n].id))
    case Read(n) => n in st.clients && st.clients[n].running && n in st.seen
  }

  function Step(st: State, a: Action): State
    requires Enabled(st, a)
  {
    match a
    case Register(n, id) => RegisterStep(st, n, id)
    case Serve(step) => st.(mail := Mailbox.Step(st.mail, step))
    case FetchKey(n, typed) => FetchKeyStep(st, n, typed)
    case Send(n, to, kind, text) => SendStep(st, n, to, kind, text)
    case Poll(n) => PollStep(st, n)
    case Read(n) => ReadStep(st, n)
  }

  ghost predicate RunsTo(st: State, actions: seq<Action>, end: State)
    decreases |actions|
  {
    if actions == [] then st == end
    else Enabled(st, actions[0]) && RunsTo(Step(st, actions[0]), actions[1..], end)
  }

  // ----- the invariant -----

  /** Every id in the table belongs to the client that made its key. */
  ghost predicate TableOk(st: State)
  {
    && (forall n :: n in st.clients ==>
          && |st.clients[n].id| == ID_LENGTH
          && st.clients[n].id in st.table && st.table[st.clients[n].id] == PublicKey(n))
    && (forall id :: id in st.table ==> st.table[id].maker in st.clients && st.clients[st.table[id].maker].id == id)
  }

  /** A cached public key is the server's row for the id that was requested. */
  ghost predicate CachedKeyOk(table: map<string, PublicKey>, typed: string, key: PublicKey)
  {
    |typed| >= ID_LENGTH && RequestedId(typed) in table && key == table[RequestedId(typed)]
  }

  /** A client holds its own keys; every cached public key is the server's row,
      every cached AES key the one that row's owner made. */
  ghost predicate KeysOk(table: map<string, PublicKey>, n: nat, c: ClientState)
  {
    && c.running && c.privateKey == PrivateKey(n) && c.aesKey == AesKey(n)
    && (forall y :: y in c.publicKeys ==> CachedKeyOk(table, y, c.publicKeys[y]))
    && (forall y :: y in c.aesKeys ==> y in table && c.aesKeys[y] == AesKey(table[y].maker))
  }

  ghost predicate ClientsOk(st: State)
  {
    forall n :: n in st.clients ==> KeysOk(st.table, n, st.clients[n])
  }

  /** Session n serves client n and polls only for it. */
  ghost predicate SessionsOk(st: State)
  {
    forall s :: s in st.mail.sessions ==>
      && s in st.clients
      && (st.mail.sessions[s].phase.Polling? ==> st.mail.sessions[s].phase.client == st.clients[s].id)
  }

  /** A key message holds its sender's AES key under the addressee's public key;
      a text or file holds what was typed under the addressee's own AES key. */
  ghost predicate WellKeyed(table: map<string, PublicKey>, typed: map<Tag, string>, m: Mail)
  {
    && m.tag in typed
    && m.fromClient in table && table[m.fromClient].maker == m.tag.session
    && match m.kind
       case GetSymmetricKey => m.body == NoContent
       case SendSymmetricKey => m.toClient in table && m.body == RsaBox(table[m.toClient], AesKey(m.tag.session))
       case _ => m.toClient in table && m.body == AesBox(AesKey(table[m.toClient].maker), typed[m.tag])
  }

  ghost predicate AcceptedOk(st: State)
  {
    forall m :: m in st.mail.accepted ==> WellKeyed(st.table, st.typed, m)
  }

  ghost predicate InsertingOk(st: State)
  {
    forall s :: s in st.mail.sessions && st.mail.sessions[s].phase.Inserting? ==>
      WellKeyed(st.table, st.typed, st.mail.sessions[s].phase.mail)
  }

  /** Nothing is recorded for a message not sent yet. */
  ghost predicate TypedOk(st: State)
  {
    forall tag: Tag :: tag in st.typed ==>
      tag.session in st.mail.sessions && tag.serial < st.mail.sessions[tag.session].issued
  }

  function TypedText(typed: map<Tag, string>, tag: Tag): string
  {
    if tag in typed then typed[tag] else ""
  }

  /** What a message should make its addressee print. */
  function Expected(typed: map<Tag, string>, m: Mail): Entry
  {
    match m.kind
    case GetSymmetricKey => KeyRequest(m.fromClient)
    case SendSymmetricKey => KeyReceived(m.fromClient)
    case _ => Message(m.fromClient, m.kind, TypedText(typed, m.tag))
  }

  function ExpectedLog(typed: map<Tag, string>, ms: seq<Mail>): (entries: seq<Entry>)
    ensures |entries| == |ms|
    ensures forall i :: 0 <= i < |ms| ==> entries[i] == Expected(typed, ms[i])
  {
    seq(|ms|, i requires 0 <= i < |ms| => Expected(typed, ms[i]))
  }

  ghost predicate LogOk(st: State, n: nat)
    requires n in st.clients
  {
    var replied := Mailbox.Replied(st.mail, st.clients[n].id);
    && n in st.seen && st.seen[n] <= |replied|
    && st.clients[n].log == ExpectedLog(st.typed, replied[..st.seen[n]])
  }

  ghost predicate LogsOk(st: State)
  {
    forall n :: n in st.clients ==> LogOk(st, n)
  }

  ghost predicate Inv(st: State)
  {
    && Mailbox.Inv(st.mail)
    && TableOk(st)
    && ClientsOk(st)
    && SessionsOk(st)
    && AcceptedOk(st)
    && InsertingOk(st)
    && TypedOk(st)
    && LogsOk(st)
  }
}
