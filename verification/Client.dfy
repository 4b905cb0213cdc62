/** The messenger client: its keys, its caches of friends' keys, what it sends
    and what it makes of the messages a poll returns. */
module Client {
  import opened Wrappers
  import opened Terms

  const ID_LENGTH := 32

  /** What a received message leads the client to print. */
  datatype Entry =
    | KeyRequest(from: string)
    | KeyReceived(from: string)
    | Message(from: string, kind: Kind, plain: string)
    | Undecryptable(from: string, kind: Kind)

  datatype Incoming = Incoming(from: string, kind: Kind, body: Content)

  /** `running` turns false when an exception leaves the command loop, which ends
      the program. */
  datatype ClientState = ClientState(
    id: string,
    privateKey: PrivateKey,
    aesKey: AesKey,
    publicKeys: map<string, PublicKey>,
    aesKeys: map<string, AesKey>,
    log: seq<Entry>,
    running: bool)

  function SavePublicKey(c: ClientState, id: string, key: PublicKey): ClientState
  {
    if id in c.publicKeys then c else c.(publicKeys := c.publicKeys[id := key])
  }

  /** The first key from a friend stays. */
  function SaveAesKey(c: ClientState, id: string, key: AesKey): ClientState
  {
    if id in c.aesKeys then c else c.(aesKeys := c.aesKeys[id := key])
  }

  /** The content `sendMsgClient` puts in a message, if it sends one at all. */
  function Outgoing(c: ClientState, kind: Kind, to: string, text: string): Option<Content>
  {
    if |to| != ID_LENGTH then None
    else
      match kind
      case GetSymmetricKey => Some(NoContent)
      case SendSymmetricKey => if to in c.publicKeys then Some(RsaBox(c.publicKeys[to], c.aesKey)) else None
      case SendText => if to in c.aesKeys then Some(AesBox(c.aesKeys[to], text)) else None
      case SendFile => if to in c.aesKeys then Some(AesBox(c.aesKeys[to], text)) else None
  }

  /** The friend's key that the kind of message needs has been cached. */
  predicate HasKeyFor(c: ClientState, kind: Kind, to: string)
  {
    match kind
    case GetSymmetricKey => true
    case SendSymmetricKey => to in c.publicKeys
    case SendText => to in c.aesKeys
    case SendFile => to in c.aesKeys
  }

  /** A message is sent exactly when the id is a whole one and the key it needs is
      cached. A key request has no content; a text or file opens, under the cached
      key and no other, to what was typed; a key message opens, for the maker of the
      cached public key and nobody else, to the sender's key. */
  lemma SentIffKeyed(c: ClientState, kind: Kind, to: string, text: string)
    ensures Outgoing(c, kind, to, text).Some? <==> |to| == ID_LENGTH && HasKeyFor(c, kind, to)
    ensures Outgoing(c, kind, to, text).Some? ==>
              var content := Outgoing(c, kind, to, text).value;
              && (kind == GetSymmetricKey <==> content == NoContent)
              && (kind == SendText || kind == SendFile ==>
                    forall key: AesKey :: OpenAes(key, content) == if key == c.aesKeys[to] then Some(text) else None)
              && (kind == SendSymmetricKey ==>
                    forall key: PrivateKey ::
                      OpenRsa(key, content) == if key.maker == c.publicKeys[to].maker then Some(c.aesKey) else None)
  {
  }

  function Logged(c: ClientState, entry: Entry): ClientState
  {
    c.(log := c.log + [entry])
  }

  /** One turn of the loop over received messages. The RSA case is the one
      whose exception the loop does not catch. */
  function Receive(c: ClientState, m: Incoming): ClientState
  {
    if !c.running then c
    else
      match m.kind
      case GetSymmetricKey => Logged(c, KeyRequest(m.from))
      case SendSymmetricKey =>
        (match OpenRsa(c.privateKey, m.body)
         case None => c.(running := false)
         case Some(key) => Logged(SaveAesKey(c, m.from, key), KeyReceived(m.from)))
      case _ =>
        match OpenAes(c.aesKey, m.body)
        case None => Logged(c, Undecryptable(m.from, m.kind))
        case Some(plain) => Logged(c, Message(m.from, m.kind, plain))
  }

  function ReceiveAll(c: ClientState, ms: seq<Incoming>): ClientState
  {
    if ms == [] then c else Receive(ReceiveAll(c, ms[..|ms| - 1]), ms[|ms| - 1])
  }

  class MessageUClient {
    const id: string
    const rsaPrivateKey: PrivateKey
    const aesKey: AesKey
    var friendPubKeys: map<string, PublicKey>
    var friendAesKeys: map<string, AesKey>
    var log: seq<Entry>
    var running: bool

    function State(): ClientState
      reads this
    {
      ClientState(id, rsaPrivateKey, aesKey, friendPubKeys, friendAesKeys, log, running)
    }

    constructor (id: string, rsaPrivateKey: PrivateKey, aesKey: AesKey)
      ensures State() == ClientState(id, rsaPrivateKey, aesKey, map[], map[], [], true)
    {
      this.id, this.rsaPrivateKey, this.aesKey := id, rsaPrivateKey, aesKey;
      friendPubKeys, friendAesKeys := map[], map[];
      log, running := [], true;
    }

    method SaveFriendPubKey(friend: string, key: PublicKey)
      modifies this
      ensures State() == SavePublicKey(old(State()), friend, key)
    {
      if friend !in friendPubKeys {
        friendPubKeys := friendPubKeys[friend := key];
      }
    }

    method SaveFriendAesKey(friend: string, key: AesKey)
      modifies this
      ensures State() == SaveAesKey(old(State()), friend, key)
    {
      if friend !in friendAesKeys {
        friendAesKeys := friendAesKeys[friend := key];
      }
    }

    method EncryptedAESKey(friend: string) returns (content: Option<Content>)
      ensures content == if friend in friendPubKeys then Some(RsaBox(friendPubKeys[friend], aesKey)) else None
    {
      if friend in friendPubKeys {
        content := Some(RsaBox(friendPubKeys[friend], aesKey));
      } else {
        content := None;
      }
    }

    method EncryptedMessage(friend: string, message: string) returns (content: Option<Content>)
      ensures content == if friend in friendAesKeys then Some(AesBox(friendAesKeys[friend], message)) else None
    {
      if friend in friendAesKeys {
        content := Some(AesBox(friendAesKeys[friend], message));
      } else {
        content := None;
      }
    }

    method SendMsgClient(kind: Kind, friend: string, text: string) returns (content: Option<Content>)
      ensures content == Outgoing(State(), kind, friend, text)
    {
      if |friend| != ID_LENGTH {
        return None;
      }
      match kind {
        case GetSymmetricKey =>
          content := Some(NoContent);
        case SendSymmetricKey =>
          content := EncryptedAESKey(friend);
        case SendText =>
          content := EncryptedMessage(friend, text);
        case SendFile =>
          content := EncryptedMessage(friend, text);
      }
    }

    /** Goes through the messages of one poll reply in order. */
    method GetMsgsClient(messages: seq<Incoming>)
      requires running
      modifies this
      ensures State() == ReceiveAll(old(State()), messages)
    {
      ghost var before := State();
      var i := 0;
      while i < |messages|
        invariant 0 <= i <= |messages|
        invariant running
        invariant State() == ReceiveAll(before, messages[..i])
      {
        var m := messages[i];
        assert messages[..i + 1][..i] == messages[..i];
        match m.kind {
          case GetSymmetricKey =>
            log := log + [KeyRequest(m.from)];
          case SendSymmetricKey =>
            var key := OpenRsa(rsaPrivateKey, m.body);
            if key.None? {
              running := false;
              StoppedStays(before, messages, i + 1);
              return;
            }
            SaveFriendAesKey(m.from, key.value);
            log := log + [KeyReceived(m.from)];
          case _ =>
            var plain := OpenAes(aesKey, m.body);
            if plain.Some? {
              log := log + [Message(m.from, m.kind, plain.value)];
            } else {
              log := log + [Undecryptable(m.from, m.kind)];
            }
        }
        i := i + 1;
      }
      assert messages[..i] == messages;
    }
  }

  /** After the program has ended, later messages change nothing. */
  lemma {:induction false} StoppedStays(c: ClientState, ms: seq<Incoming>, n: nat)
    requires n <= |ms| && !ReceiveAll(c, ms[..n]).running
    ensures ReceiveAll(c, ms) == ReceiveAll(c, ms[..n])
  {
    if n == |ms| {
      assert ms[..n] == ms;
    } else {
      var front := ms[..|ms| - 1];
      assert front[..n] == ms[..n];
      StoppedStays(c, front, n);
    }
  }

  lemma {:induction false} ReceiveAllSplits(c: ClientState, ms: seq<Incoming>, ns: seq<Incoming>)
    ensures ReceiveAll(c, ms + ns) == ReceiveAll(ReceiveAll(c, ms), ns)
  {
    if ns == [] {
      assert ms + ns == ms;
    } else {
      var front := ns[..|ns| - 1];
      assert (ms + ns)[..|ms + ns| - 1] == ms + front;
      ReceiveAllSplits(c, ms, front);
    }
  }

  /** Every key that arrives opens. */
  predicate KeysOpen(c: ClientState, ms: seq<Incoming>)
  {
    forall i :: 0 <= i < |ms| && ms[i].kind == SendSymmetricKey ==> OpenRsa(c.privateKey, ms[i].body).Some?
  }

  lemma {:induction false} ReceivingKeepsKeys(c: ClientState, ms: seq<Incoming>)
    ensures ReceiveAll(c, ms).privateKey == c.privateKey && ReceiveAll(c, ms).aesKey == c.aesKey
  {
    if ms != [] {
      ReceivingKeepsKeys(c, ms[..|ms| - 1]);
    }
  }

  /** The program goes on exactly when every key that arrives opens. */
  lemma {:induction false} RunsOnIffKeysOpen(c: ClientState, ms: seq<Incoming>)
    ensures ReceiveAll(c, ms).running <==> c.running && KeysOpen(c, ms)
  {
    if ms != [] {
      var front := ms[..|ms| - 1];
      RunsOnIffKeysOpen(c, front);
      ReceivingKeepsKeys(c, front);
      assert forall i :: 0 <= i < |front| ==> front[i] == ms[i];
    }
  }

  /** What an entry of the log says of the message it is for. */
  ghost predicate Shows(key: AesKey, m: Incoming, entry: Entry)
  {
    && entry.from == m.from
    && (entry.KeyRequest? <==> m.kind == GetSymmetricKey)
    && (entry.KeyReceived? <==> m.kind == SendSymmetricKey)
    && (entry.Message? <==> (m.kind == SendText || m.kind == SendFile) && OpenAes(key, m.body).Some?)
    && (entry.Undecryptable? <==> (m.kind == SendText || m.kind == SendFile) && OpenAes(key, m.body).None?)
    && (entry.Message? ==> entry.kind == m.kind && OpenAes(key, m.body) == Some(entry.plain))
  }

  lemma OneIsShown(c: ClientState, m: Incoming) returns (entry: Entry)
    requires c.running && Receive(c, m).running
    ensures Receive(c, m).log == c.log + [entry] && Shows(c.aesKey, m, entry)
  {
    entry := Receive(c, m).log[|c.log|];
  }

  /** The log after these messages has one entry for each. */
  ghost predicate AllShown(key: AesKey, before: seq<Entry>, ms: seq<Incoming>, after: seq<Entry>)
  {
    && |after| == |before| + |ms| && before <= after
    && forall i :: 0 <= i < |ms| ==> Shows(key, ms[i], after[|before| + i])
  }

  lemma OneMoreShown(key: AesKey, before: seq<Entry>, ms: seq<Incoming>, after: seq<Entry>, entry: Entry)
    requires ms != [] && AllShown(key, before, ms[..|ms| - 1], after) && Shows(key, ms[|ms| - 1], entry)
    ensures AllShown(key, before, ms, after + [entry])
  {
    var front := ms[..|ms| - 1];
    assert forall i :: 0 <= i < |front| ==> front[i] == ms[i];
  }

  /** While the program goes on, every message leaves one entry, in order; one that
      does not decrypt stops nothing. */
  lemma {:induction false} EachIsShown(c: ClientState, ms: seq<Incoming>)
    requires ReceiveAll(c, ms).running
    ensures AllShown(c.aesKey, c.log, ms, ReceiveAll(c, ms).log)
  {
    if ms != [] {
      var front := ms[..|ms| - 1];
      EachIsShown(c, front);
      ReceivingKeepsKeys(c, front);
      var entry := OneIsShown(ReceiveAll(c, front), ms[|ms| - 1]);
      OneMoreShown(c.aesKey, c.log, ms, ReceiveAll(c, front).log, entry);
    }
  }

  /** Caches keep the first key: whatever arrives later, it never changes. */
  lemma {:induction false} CachedKeysStay(c: ClientState, ms: seq<Incoming>, friend: string)
    requires friend in c.aesKeys
    ensures friend in ReceiveAll(c, ms).aesKeys && ReceiveAll(c, ms).aesKeys[friend] == c.aesKeys[friend]
    ensures ReceiveAll(c, ms).publicKeys == c.publicKeys
  {
    if ms != [] {
      CachedKeysStay(c, ms[..|ms| - 1], friend);
    }
  }
}
