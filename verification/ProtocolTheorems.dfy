/** What the protocol invariant means for clients and their messages. */
module ProtocolTheorems {
  import opened Wrappers
  import opened Bytes
  import opened Terms
  import opened Client
  import opened Protocol
  import Mailbox
  import MailboxTheorems
  import ProtocolProofs
  import Registry

  lemma RunInv(actions: seq<Action>, end: State)
    requires RunsTo(EMPTY, actions, end)
    ensures Inv(end)
  {
    ProtocolProofs.EmptyInv();
    ProtocolProofs.RunKeeps(EMPTY, actions, end);
  }

  ghost predicate IsContent(m: Mail)
  {
    m.kind == SendText || m.kind == SendFile
  }

  /** In every run, every text or file accepted for a client, and so every one
      delivered to it, opens under that client's own AES key to exactly what its
      sender typed. */
  lemma AcceptedOpensToTyped(actions: seq<Action>, end: State, n: nat, m: Mail)
    requires RunsTo(EMPTY, actions, end)
    requires n in end.clients && m in end.mail.accepted && m.toClient == end.clients[n].id && IsContent(m)
    ensures m.tag in end.typed && OpenAes(end.clients[n].aesKey, m.body) == Some(end.typed[m.tag])
  {
    RunInv(actions, end);
    assert KeysOk(end.table, n, end.clients[n]);
    assert WellKeyed(end.table, end.typed, m);
  }

  /** What a client has printed is, message by message and in order, what the
      messages replied to it should print; no RSA failure has ended it. */
  lemma PrintedAsTyped(actions: seq<Action>, end: State, n: nat)
    requires RunsTo(EMPTY, actions, end) && n in end.clients
    ensures end.clients[n].running && n in end.seen
    ensures var replied := Mailbox.Replied(end.mail, end.clients[n].id);
            && end.seen[n] <= |replied| && |end.clients[n].log| == end.seen[n]
            && forall i :: 0 <= i < end.seen[n] ==>
                 && replied[i] in end.mail.accepted
                 && replied[i].toClient == end.clients[n].id
                 && replied[i].tag in end.typed
                 && end.clients[n].log[i] == Expected(end.typed, replied[i])
  {
    RunInv(actions, end);
    assert LogOk(end, n) && KeysOk(end.table, n, end.clients[n]);
    ProtocolProofs.RepliedIsTyped(end, end.clients[n].id);
  }

  /** Once a client has read its replies, an accepted message for it has been
      printed if and only if it is not waiting in the table, not carried by a
      reply under construction and not lost. */
  lemma AcceptedIsPrinted(actions: seq<Action>, end: State, n: nat, m: Mail)
    requires RunsTo(EMPTY, actions, end) && n in end.clients
    requires m in end.mail.accepted && m.toClient == end.clients[n].id
    requires n in end.seen && end.seen[n] == |Mailbox.Replied(end.mail, m.toClient)|
    ensures PrintedFor(end, n, m)
            <==> !Mailbox.InTable(end.mail, m) && !Mailbox.Carried(end.mail, m) && !Mailbox.Lost(end.mail, m)
  {
    RunInv(actions, end);
    MailboxTheorems.CoreWhere(end.mail, m);
    RepliedIsPrinted(end, n, m);
  }

  /** The client's log has an entry for the message, and it says what it should. */
  ghost predicate PrintedFor(st: State, n: nat, m: Mail)
    requires n in st.clients
  {
    exists i ::
      && 0 <= i < |st.clients[n].log| && i < |Mailbox.Replied(st.mail, st.clients[n].id)|
      && Mailbox.Replied(st.mail, st.clients[n].id)[i] == m && st.clients[n].log[i] == Expected(st.typed, m)
  }

  lemma RepliedIsPrinted(end: State, n: nat, m: Mail)
    requires n in end.clients && LogOk(end, n) && m.toClient == end.clients[n].id
    requires end.seen[n] == |Mailbox.Replied(end.mail, m.toClient)|
    ensures PrintedFor(end, n, m) <==> m in Mailbox.Replied(end.mail, m.toClient)
  {
    var replied := Mailbox.Replied(end.mail, m.toClient);
    if m in replied {
      var i :| 0 <= i < |replied| && replied[i] == m;
      assert replied[..|replied|][i] == m;
      assert end.clients[n].log[i] == Expected(end.typed, m);
    }
  }

  /** Messages one client sends to another are printed in sending order, and
      none is printed twice. */
  lemma PrintedInOrder(actions: seq<Action>, end: State, n: nat, i: nat, j: nat)
    requires RunsTo(EMPTY, actions, end) && n in end.clients
    requires i < j < |end.clients[n].log|
    ensures var replied := Mailbox.Replied(end.mail, end.clients[n].id);
            j < |replied| && replied[i] != replied[j] && Mailbox.SentBefore(replied[i], replied[j])
  {
    RunInv(actions, end);
    assert LogOk(end, n);
    RepliesAreOrdered(end.mail, end.clients[n].id);
  }

  lemma RepliesAreOrdered(mail: Mailbox.State, client: string)
    requires Mailbox.Ordered(mail) && Mailbox.SentOk(mail)
    ensures Mailbox.InSendingOrder(Mailbox.Replied(mail, client))
    ensures Mailbox.NoDuplicates(Mailbox.Replied(mail, client))
  {
  }

  /** Every accepted message of every run is in exactly one place. */
  lemma MessagesConserved(actions: seq<Action>, end: State, m: Mail)
    requires RunsTo(EMPTY, actions, end)
    ensures m in end.mail.accepted <==> Mailbox.InTable(end.mail, m) || m in Mailbox.Placed(end.mail, m.toClient)
    ensures !(Mailbox.InTable(end.mail, m) && m in Mailbox.Placed(end.mail, m.toClient))
  {
    RunInv(actions, end);
    MailboxTheorems.ConservedOnce(end.mail, m);
  }

  /** Key agreement: a public key is cached under what was typed, and is the
      server's row for the id in its first 32 characters; cached AES keys are the
      ones their owners hold, and a queued key message is its sender's AES key
      under its addressee's public key. */
  lemma KeyAgreement(actions: seq<Action>, end: State, n: nat)
    requires RunsTo(EMPTY, actions, end) && n in end.clients
    ensures forall y :: y in end.clients[n].publicKeys ==>
              && |y| >= ID_LENGTH && RequestedId(y) in end.table
              && end.clients[n].publicKeys[y] == end.table[RequestedId(y)]
    ensures forall y :: y in end.clients[n].aesKeys ==>
              && y in end.table && end.table[y].maker in end.clients
              && end.clients[end.table[y].maker].id == y
              && end.clients[end.table[y].maker].aesKey == end.clients[n].aesKeys[y]
    ensures forall m :: m in end.mail.accepted && m.kind == SendSymmetricKey && m.fromClient == end.clients[n].id ==>
              m.toClient in end.table && m.body == RsaBox(end.table[m.toClient], end.clients[n].aesKey)
  {
    RunInv(actions, end);
    assert KeysOk(end.table, n, end.clients[n]);
    forall y | y in end.clients[n].aesKeys
      ensures y in end.table && end.table[y].maker in end.clients
      ensures end.clients[end.table[y].maker].id == y
      ensures end.clients[end.table[y].maker].aesKey == end.clients[n].aesKeys[y]
    {
      var owner := end.table[y].maker;
      assert KeysOk(end.table, owner, end.clients[owner]);
    }
    forall m | m in end.mail.accepted && m.kind == SendSymmetricKey && m.fromClient == end.clients[n].id
      ensures m.toClient in end.table && m.body == RsaBox(end.table[m.toClient], end.clients[n].aesKey)
    {
      assert WellKeyed(end.table, end.typed, m);
    }
  }

  // ----- nothing agreed on is ever revised -----

  ghost predicate Grows(st: State, st': State)
  {
    && (forall id :: id in st.table ==> id in st'.table && st'.table[id] == st.table[id])
    && (forall tag: Tag :: tag in st.typed ==> tag in st'.typed && st'.typed[tag] == st.typed[tag])
    && (forall n :: n in st.clients ==> n in st'.clients && ClientGrows(st.clients[n], st'.clients[n]))
    && st.mail.accepted <= st'.mail.accepted
  }

  ghost predicate ClientGrows(c: ClientState, c': ClientState)
  {
    && c'.id == c.id && c'.privateKey == c.privateKey && c'.aesKey == c.aesKey
    && (forall y :: y in c.publicKeys ==> y in c'.publicKeys && c'.publicKeys[y] == c.publicKeys[y])
    && (forall y :: y in c.aesKeys ==> y in c'.aesKeys && c'.aesKeys[y] == c.aesKeys[y])
    && c.log <= c'.log
  }

  lemma {:induction false} ReceivingGrows(c: ClientState, ms: seq<Incoming>)
    ensures ClientGrows(c, ReceiveAll(c, ms))
  {
    if ms != [] {
      ReceivingGrows(c, ms[..|ms| - 1]);
    }
  }

  lemma ServerStepGrows(st: State, a: Mailbox.Action)
    requires Mailbox.Enabled(st.mail, a)
    ensures Grows(st, st.(mail := Mailbox.Step(st.mail, a)))
  {
    assert st.mail.accepted <= Mailbox.Step(st.mail, a).accepted;
  }

  lemma SendGrows(st: State, n: nat, to: string, kind: Kind, text: string)
    requires TypedOk(st) && CanSend(st, n, to, kind, text)
    ensures Grows(st, SendStep(st, n, to, kind, text))
  {
    ProtocolProofs.SubmitFrame(st.mail, SubmitOf(st, n, to, kind, text));
  }

  lemma ReadGrows(st: State, n: nat)
    requires n in st.clients && n in st.seen
    ensures Grows(st, ReadStep(st, n))
  {
    ReceivingGrows(st.clients[n], Arrived(Unread(st, n)));
  }

  lemma RegisterGrows(st: State, n: nat, id: string)
    requires Enabled(st, Register(n, id))
    ensures Grows(st, RegisterStep(st, n, id))
  {
  }

  lemma FetchKeyGrows(st: State, n: nat, typed: string)
    requires CanFetch(st, n, typed)
    ensures Grows(st, FetchKeyStep(st, n, typed))
  {
  }

  lemma StepGrows(st: State, a: Action)
    requires TypedOk(st) && Enabled(st, a)
    ensures Grows(st, Step(st, a))
  {
    match a
    case Register(n, id) => RegisterGrows(st, n, id);
    case Serve(step) => ServerStepGrows(st, step);
    case FetchKey(n, typed) => FetchKeyGrows(st, n, typed);
    case Send(n, to, kind, text) => SendGrows(st, n, to, kind, text);
    case Poll(n) => ServerStepGrows(st, Mailbox.PollRead(n, st.clients[n].id));
    case Read(n) => ReadGrows(st, n);
  }

  /** From any point of a run on: no table row, cached key, typed text or printed
      line ever changes. */
  lemma {:induction false} RunGrows(st: State, actions: seq<Action>, end: State)
    requires Inv(st) && RunsTo(st, actions, end)
    ensures Grows(st, end)
    decreases |actions|
  {
    if actions == [] {
      GrowsReflexive(st);
    } else {
      var mid := Step(st, actions[0]);
      StepGrows(st, actions[0]);
      ProtocolProofs.StepKeeps(st, actions[0]);
      RunGrows(mid, actions[1..], end);
      GrowsTransitive(st, mid, end);
    }
  }

  lemma GrowsReflexive(st: State)
    ensures Grows(st, st)
  {
  }

  lemma GrowsTransitive(a: State, b: State, c: State)
    requires Grows(a, b) && Grows(b, c)
    ensures Grows(a, c)
  {
    forall n | n in a.clients
      ensures n in c.clients && ClientGrows(a.clients[n], c.clients[n])
    {
      assert ClientGrows(a.clients[n], b.clients[n]) && ClientGrows(b.clients[n], c.clients[n]);
    }
  }

  // ----- registration supplies the fresh ids -----

  function Text(id: Bytes): (text: string)
    ensures |text| == |id|
  {
    seq(|id|, i requires 0 <= i < |id| => id[i] as char)
  }

  lemma TextInjective(a: Bytes, b: Bytes)
    requires Text(a) == Text(b)
    ensures a == b
  {
    assert |a| == |Text(a)| == |b|;
    forall i | 0 <= i < |a|
      ensures a[i] == b[i]
    {
      assert Text(a)[i] == Text(b)[i];
    }
  }

  /** Client n of the protocol is the n-th row of the registry, counting from 1. */
  ghost predicate Corresponds(r: Registry.Registry, st: State)
  {
    && (forall n: nat :: n in st.clients <==> 0 < n <= |r.rows|)
    && (forall n: nat :: n in st.clients ==> st.clients[n].id == Text(r.rows[n - 1].id))
  }

  lemma NewIdNotInTable(r: Registry.Registry, st: State, id: Bytes)
    requires TableOk(st) && Corresponds(r, st) && !Registry.IdExists(r.rows, id)
    ensures Text(id) !in st.table
  {
    forall k: nat | k in st.clients
      ensures st.clients[k].id != Text(id)
    {
      if Text(r.rows[k - 1].id) == Text(id) {
        TextInjective(r.rows[k - 1].id, id);
      }
    }
  }

  lemma NextRowCorresponds(r: Registry.Registry, st: State, row: Registry.Registered)
    requires Corresponds(r, st)
    ensures Corresponds(r.(rows := r.rows + [row]), RegisterStep(st, |r.rows| + 1, Text(row.id)))
  {
  }

  /** The id the accept loop gives a new client is one the protocol can
      register, and the two tables go on agreeing. */
  lemma RegistrationIsEnabled(r: Registry.Registry, st: State, name: Bytes, publicKey: Bytes)
    requires Registry.Inv(r) && |r.rows| < Registry.LIMIT && TableOk(st) && Corresponds(r, st)
    requires !Registry.NameExists(r.rows, Registry.Strip(name))
    ensures var r' := Registry.RegisterStep(r, name, publicKey);
            var n, id := |r.rows| + 1, Text(r'.lastId);
            && Enabled(st, Register(n, id))
            && Corresponds(r', RegisterStep(st, n, id))
  {
    var r' := Registry.RegisterStep(r, name, publicKey);
    Registry.RegisterKeeps(r, name, publicKey);
    Registry.NextIdFresh(r);
    NewIdNotInTable(r, st, r'.lastId);
    var row := r'.rows[|r.rows|];
    NextRowCorresponds(r, st, row);
    SameRows(r.(rows := r.rows + [row]), r', RegisterStep(st, |r.rows| + 1, Text(row.id)));
  }

  lemma SameRows(r: Registry.Registry, r': Registry.Registry, st: State)
    requires Corresponds(r, st) && r.rows == r'.rows
    ensures Corresponds(r', st)
  {
  }
}
