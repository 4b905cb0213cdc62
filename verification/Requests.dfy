/** Request packets: how the client lays them out and how the server's wrapper
    reads them back, in the Win32 layout of the shared structs. */
module Requests {
  import opened Wrappers
  import opened Bytes

  const ID_SIZE := 32
  const NAME_SIZE := 255
  const KEY_SIZE := 160

  // Padding the compiler inserts.
  const PAD_AFTER_VERSION := 3
  const PAD_AFTER_CODE := 2
  const PAD_AFTER_TYPE := 3
  const ADDRESS_SIZE := 4

  const HEADER_SIZE := 44
  const REGISTRATION_SIZE := 415
  const SEND_SIZE := 44

  const REGISTRATION := 1000
  const GET_CLIENT_LIST := 1001
  const GET_PUBLIC_KEY := 1002
  const SEND_MESSAGE := 1003
  const GET_MESSAGES := 1004

  datatype Request =
    | Registration(name: Bytes, key: Bytes)
    | GetClientList
    | GetPublicKey(id: Bytes)
    | SendMessage(to: Bytes, kind: byte, content: Bytes)
    | GetMessages

  function CodeOf(r: Request): (code: nat)
    ensures REGISTRATION <= code <= GET_MESSAGES
  {
    match r
    case Registration(_, _) => REGISTRATION
    case GetClientList => GET_CLIENT_LIST
    case GetPublicKey(_) => GET_PUBLIC_KEY
    case SendMessage(_, _, _) => SEND_MESSAGE
    case GetMessages => GET_MESSAGES
  }

  /** Fields of the fixed sizes, and a packet whose size fits its 32-bit field. */
  predicate Valid(r: Request)
  {
    match r
    case Registration(name, key) => |name| == NAME_SIZE && |key| == KEY_SIZE
    case GetClientList => true
    case GetPublicKey(id) => |id| == ID_SIZE
    case SendMessage(to, _, content) => |to| == ID_SIZE && HEADER_SIZE + SEND_SIZE + |content| < TWO_32
    case GetMessages => true
  }

  function Header(id: Bytes, version: byte, code: nat, payloadSize: nat): (h: Bytes)
    requires |id| == ID_SIZE && code < TWO_16 && payloadSize < TWO_32
    ensures |h| == HEADER_SIZE
  {
    id + [version] + Zeros(PAD_AFTER_VERSION) + Le16(code) + Zeros(PAD_AFTER_CODE) + Le32(payloadSize)
  }

  /** The payload of a request. The client allocates the send-message struct
      without clearing it: its padding and its pointer are whatever they are. */
  function Payload(r: Request, pad: Bytes, pointer: Bytes): (p: Bytes)
    requires Valid(r) && |pad| == PAD_AFTER_TYPE && |pointer| == ADDRESS_SIZE
    ensures HEADER_SIZE + |p| < TWO_32
  {
    match r
    case Registration(name, key) => name + key
    case GetClientList => []
    case GetPublicKey(id) => id
    case SendMessage(to, kind, content) => to + [kind] + pad + Le32(|content|) + pointer + content
    case GetMessages => []
  }

  /** What `sendReq` puts on the wire. */
  function Packet(sender: Bytes, version: byte, r: Request, pad: Bytes, pointer: Bytes): (packet: Bytes)
    requires |sender| == ID_SIZE && Valid(r) && |pad| == PAD_AFTER_TYPE && |pointer| == ADDRESS_SIZE
    ensures HEADER_SIZE <= |packet| < TWO_32
  {
    var payload := Payload(r, pad, pointer);
    Header(sender, version, CodeOf(r), |payload|) + payload
  }

  // ----- the server's wrapper -----

  datatype Err = NoErr | BadHeader | BadPayload

  /** The wrapper's members after construction. The payload structs start out as
      uninitialised memory. */
  datatype Wrapper = Wrapper(
    err: Err,
    id: Bytes,
    version: byte,
    code: nat,
    payloadSize: nat,
    registration: Bytes,
    getPublicKey: Bytes,
    sendMessage: Bytes,
    content: Bytes)

  datatype Memory = Memory(registration: Bytes, getPublicKey: Bytes, sendMessage: Bytes)

  predicate ValidMemory(m: Memory)
  {
    |m.registration| == REGISTRATION_SIZE && |m.getPublicKey| == ID_SIZE && |m.sendMessage| == SEND_SIZE
  }

  /** Undefined stands for a write past the end of a struct. */
  datatype Outcome = Parsed(wrapper: Wrapper) | Throws | Undefined

  function HeaderOnly(buffer: Bytes, err: Err, m: Memory): Wrapper
    requires |buffer| >= HEADER_SIZE
  {
    Wrapper(err, buffer[..32], buffer[32], FromLe16(buffer[36..38]), FromLe32(buffer[40..44]),
            m.registration, m.getPublicKey, m.sendMessage, [])
  }

  /** The first n bytes of a struct overwritten from a list. */
  function Overwrite(struct: Bytes, from: Bytes, n: nat): Bytes
    requires n <= |struct| && n <= |from|
  {
    from[..n] + struct[n..]
  }

  function CopyInto(struct: Bytes, from: Bytes, n: nat): Option<Result<Bytes>>
  {
    if n <= |struct| then
      if n <= |from| then Some(Ok(Overwrite(struct, from, n))) else Some(Raised(IndexError))
    else if |struct| < |from| then None
    else Some(Raised(IndexError))
  }

  function Parse(buffer: Bytes, m: Memory): Outcome
    requires ValidMemory(m)
  {
    if |buffer| < HEADER_SIZE then Throws
    else
      var w := HeaderOnly(buffer, NoErr, m);
      var rest := buffer[HEADER_SIZE..];
      if |buffer| % TWO_32 != (HEADER_SIZE + w.payloadSize) % TWO_32 then Parsed(w.(err := BadHeader))
      else if w.code == REGISTRATION then
        match CopyInto(m.registration, rest, w.payloadSize)
        case None => Undefined
        case Some(Raised(_)) => Throws
        case Some(Ok(struct)) => Parsed(w.(registration := struct))
      else if w.code == GET_PUBLIC_KEY then
        match CopyInto(m.getPublicKey, rest, w.payloadSize)
        case None => Undefined
        case Some(Raised(_)) => Throws
        case Some(Ok(struct)) => Parsed(w.(getPublicKey := struct))
      else if w.code == SEND_MESSAGE then
        if |rest| < SEND_SIZE then Throws
        else
          var struct := rest[..SEND_SIZE];
          var size := FromLe32(struct[36..40]);
          if |rest| < SEND_SIZE + size then Throws
          else Parsed(w.(sendMessage := struct, content := rest[SEND_SIZE..SEND_SIZE + size]))
      else if w.code == GET_CLIENT_LIST || w.code == GET_MESSAGES then Parsed(w)
      else Parsed(w.(err := BadPayload))
  }

  /** Copies n bytes of the list over a struct, byte by byte. */
  method CopyBytes(struct: array<byte>, from: Bytes, n: nat) returns (done: Option<Result<()>>)
    modifies struct
    ensures done.None? <==> CopyInto(old(struct[..]), from, n).None?
    ensures done.Some? ==> (done.value.Ok? <==> CopyInto(old(struct[..]), from, n).value.Ok?)
    ensures done.Some? && done.value.Ok? ==>
              Some(Ok(struct[..])) == CopyInto(old(struct[..]), from, n)
  {
    ghost var before := struct[..];
    var i := 0;
    while i < n
      invariant 0 <= i <= n && i <= struct.Length && i <= |from|
      invariant forall k :: 0 <= k < i ==> struct[k] == from[k]
      invariant forall k :: i <= k < struct.Length ==> struct[k] == before[k]
    {
      if i == |from| {
        return Some(Raised(IndexError));
      }
      if i == struct.Length {
        return None;
      }
      struct[i] := from[i];
      i := i + 1;
    }
    assert struct[..] == Overwrite(before, from, n);
    done := Some(Ok(()));
  }

  /** The wrapper's constructor. */
  method ParseRequest(buffer: Bytes, m: Memory) returns (outcome: Outcome)
    requires ValidMemory(m)
    ensures outcome == Parse(buffer, m)
  {
    var header := new byte[HEADER_SIZE](i => 0);
    var copied := CopyBytes(header, buffer, HEADER_SIZE);
    if copied == None || copied.value.Raised? {
      return Throws;
    }
    assert header[..] == buffer[..HEADER_SIZE];
    var h := header[..];
    assert h[36..38] == buffer[36..38] && h[40..44] == buffer[40..44] && h[..32] == buffer[..32];
    var payloadSize := FromLe32(h[40..44]);
    var code := FromLe16(h[36..38]);
    var w := Wrapper(NoErr, h[..32], h[32], code, payloadSize,
                     m.registration, m.getPublicKey, m.sendMessage, []);
    var rest := buffer[HEADER_SIZE..];
    if |buffer| % TWO_32 != (HEADER_SIZE + payloadSize) % TWO_32 {
      return Parsed(w.(err := BadHeader));
    }
    if code == REGISTRATION {
      var struct := new byte[REGISTRATION_SIZE](i requires 0 <= i < REGISTRATION_SIZE => m.registration[i]);
      assert struct[..] == m.registration;
      copied := CopyBytes(struct, rest, payloadSize);
      if copied == None {
        outcome := Undefined;
      } else if copied.value.Raised? {
        outcome := Throws;
      } else {
        outcome := Parsed(w.(registration := struct[..]));
      }
    } else if code == GET_PUBLIC_KEY {
      var struct := new byte[ID_SIZE](i requires 0 <= i < ID_SIZE => m.getPublicKey[i]);
      assert struct[..] == m.getPublicKey;
      copied := CopyBytes(struct, rest, payloadSize);
      if copied == None {
        outcome := Undefined;
      } else if copied.value.Raised? {
        outcome := Throws;
      } else {
        outcome := Parsed(w.(getPublicKey := struct[..]));
      }
    } else if code == SEND_MESSAGE {
      outcome := ParseSendMessage(rest, m, w);
    } else if code == GET_CLIENT_LIST || code == GET_MESSAGES {
      outcome := Parsed(w);
    } else {
      outcome := Parsed(w.(err := BadPayload));
    }
  }

  method ParseSendMessage(rest: Bytes, m: Memory, w: Wrapper) returns (outcome: Outcome)
    requires ValidMemory(m)
    ensures outcome ==
            if |rest| < SEND_SIZE then Throws
            else
              var struct := rest[..SEND_SIZE];
              var size := FromLe32(struct[36..40]);
              if |rest| < SEND_SIZE + size then Throws
              else Parsed(w.(sendMessage := struct, content := rest[SEND_SIZE..SEND_SIZE + size]))
  {
    var struct := new byte[SEND_SIZE](i requires 0 <= i < SEND_SIZE => m.sendMessage[i]);
    var copied := CopyBytes(struct, rest, SEND_SIZE);
    if copied == None || copied.value.Raised? {
      return Throws;
    }
    assert struct[..] == rest[..SEND_SIZE];
    var size := FromLe32(struct[36..40]);
    assert struct[36..40] == rest[..SEND_SIZE][36..40];
    var content: Bytes := [];
    var i := 0;
    while i < size
      invariant 0 <= i <= size && SEND_SIZE + i <= |rest|
      invariant content == rest[SEND_SIZE..SEND_SIZE + i]
    {
      if SEND_SIZE + i >= |rest| {
        return Throws;
      }
      content := content + [rest[SEND_SIZE + i]];
      i := i + 1;
    }
    outcome := Parsed(w.(sendMessage := struct[..], content := content));
  }

  // ----- round trip -----

  /** The request a wrapper holds, as the server reads its members. */
  function Read(w: Wrapper): (r: Option<Request>)
    requires |w.registration| == REGISTRATION_SIZE && |w.sendMessage| == SEND_SIZE
  {
    if w.err != NoErr then None
    else if w.code == REGISTRATION then Some(Registration(w.registration[..NAME_SIZE], w.registration[NAME_SIZE..]))
    else if w.code == GET_CLIENT_LIST then Some(GetClientList)
    else if w.code == GET_PUBLIC_KEY then Some(GetPublicKey(w.getPublicKey))
    else if w.code == SEND_MESSAGE then Some(SendMessage(w.sendMessage[..ID_SIZE], w.sendMessage[32], w.content))
    else if w.code == GET_MESSAGES then Some(GetMessages)
    else None
  }

  lemma HeaderFields(id: Bytes, version: byte, code: nat, payloadSize: nat, payload: Bytes)
    requires |id| == ID_SIZE && code < TWO_16 && payloadSize < TWO_32
    ensures var buffer := Header(id, version, code, payloadSize) + payload;
            && buffer[..32] == id
            && buffer[32] == version
            && FromLe16(buffer[36..38]) == code
            && FromLe32(buffer[40..44]) == payloadSize
            && buffer[HEADER_SIZE..] == payload
  {
    var buffer := Header(id, version, code, payloadSize) + payload;
    assert buffer[36..38] == Le16(code);
    assert buffer[40..44] == Le32(payloadSize);
  }

  lemma SendFields(to: Bytes, kind: byte, pad: Bytes, pointer: Bytes, content: Bytes)
    requires |to| == ID_SIZE && |pad| == PAD_AFTER_TYPE && |pointer| == ADDRESS_SIZE && |content| < TWO_32
    ensures var payload := to + [kind] + pad + Le32(|content|) + pointer + content;
            && |payload| == SEND_SIZE + |content|
            && payload[..SEND_SIZE][..ID_SIZE] == to
            && payload[..SEND_SIZE][32] == kind
            && FromLe32(payload[..SEND_SIZE][36..40]) == |content|
            && payload[SEND_SIZE..SEND_SIZE + |content|] == content
  {
    var payload := to + [kind] + pad + Le32(|content|) + pointer + content;
    assert payload[..SEND_SIZE][36..40] == Le32(|content|);
  }

  /** Every request the client builds is accepted and read back as it was, from
      whatever memory the wrapper starts with. */
  lemma RequestRoundTrip(sender: Bytes, version: byte, r: Request, pad: Bytes, pointer: Bytes, m: Memory)
    requires |sender| == ID_SIZE && Valid(r) && |pad| == PAD_AFTER_TYPE && |pointer| == ADDRESS_SIZE
    requires ValidMemory(m)
    ensures var outcome := Parse(Packet(sender, version, r, pad, pointer), m);
            && outcome.Parsed?
            && outcome.wrapper.id == sender && outcome.wrapper.version == version
            && outcome.wrapper.code == CodeOf(r)
            && |outcome.wrapper.registration| == REGISTRATION_SIZE && |outcome.wrapper.sendMessage| == SEND_SIZE
            && Read(outcome.wrapper) == Some(r)
  {
    var payload := Payload(r, pad, pointer);
    HeaderFields(sender, version, CodeOf(r), |payload|, payload);
    match r
    case Registration(name, key) =>
      assert Overwrite(m.registration, payload, |payload|) == payload;
      assert payload[..NAME_SIZE] == name && payload[NAME_SIZE..] == key;
    case GetPublicKey(id) =>
      assert Overwrite(m.getPublicKey, payload, |payload|) == id;
    case SendMessage(to, kind, content) =>
      SendFields(to, kind, pad, pointer, content);
    case _ =>
  }

  /** A payload shorter than its struct is taken too: the rest of the struct is
      whatever was in memory. */
  lemma ShortPayloadIsTaken(sender: Bytes, version: byte, payload: Bytes, m: Memory)
    requires |sender| == ID_SIZE && ValidMemory(m)
    ensures |payload| <= REGISTRATION_SIZE ==>
              var outcome := Parse(Header(sender, version, REGISTRATION, |payload|) + payload, m);
              && outcome.Parsed? && outcome.wrapper.err == NoErr
              && outcome.wrapper.registration == payload + m.registration[|payload|..]
    ensures |payload| <= ID_SIZE ==>
              var outcome := Parse(Header(sender, version, GET_PUBLIC_KEY, |payload|) + payload, m);
              && outcome.Parsed? && outcome.wrapper.err == NoErr
              && outcome.wrapper.getPublicKey == payload + m.getPublicKey[|payload|..]
  {
    assert payload[..|payload|] == payload;
    if |payload| <= REGISTRATION_SIZE {
      HeaderFields(sender, version, REGISTRATION, |payload|, payload);
    }
    if |payload| <= ID_SIZE {
      HeaderFields(sender, version, GET_PUBLIC_KEY, |payload|, payload);
    }
  }

  /** The length check: modulo 2^32 in general, and for every buffer below 2^32
      bytes exactly header plus payload_size. */
  lemma AcceptedLength(buffer: Bytes, m: Memory)
    requires ValidMemory(m) && |buffer| >= HEADER_SIZE
    ensures var size := FromLe32(buffer[40..44]);
            var outcome := Parse(buffer, m);
            && (outcome.Parsed? && outcome.wrapper.err == BadHeader
                <==> |buffer| % TWO_32 != (HEADER_SIZE + size) % TWO_32)
            && (|buffer| < TWO_32 ==>
                  (|buffer| % TWO_32 == (HEADER_SIZE + size) % TWO_32 <==> |buffer| == HEADER_SIZE + size))
  {
    if |buffer| < TWO_32 {
      LengthsAgree(|buffer|, FromLe32(buffer[40..44]));
    }
  }

  /** A sum that wraps is less than a header. */
  lemma LengthsAgree(length: nat, size: nat)
    requires HEADER_SIZE <= length < TWO_32 && size < TWO_32
    ensures length % TWO_32 == (HEADER_SIZE + size) % TWO_32 <==> length == HEADER_SIZE + size
  {
  }

  /** Below 2^32 bytes the wrapper throws exactly on a buffer shorter than a
      header, and on a send-message packet whose announced length matches but
      which is too short for its struct or for the content the struct announces. */
  lemma WrapperThrows(buffer: Bytes, m: Memory)
    requires ValidMemory(m)
    requires |buffer| < TWO_32
    ensures Parse(buffer, m) == Throws <==>
              || |buffer| < HEADER_SIZE
              || (FromLe16(buffer[36..38]) == SEND_MESSAGE && |buffer| == HEADER_SIZE + FromLe32(buffer[40..44])
                  && (|buffer| < HEADER_SIZE + SEND_SIZE
                      || |buffer| < HEADER_SIZE + SEND_SIZE
                         + FromLe32(buffer[HEADER_SIZE..][..SEND_SIZE][36..40])))
  {
    if |buffer| >= HEADER_SIZE {
      AcceptedLength(buffer, m);
    }
  }

  /** Below 2^32 bytes the wrapper writes past a struct exactly on a registration or
      public-key packet of the announced length whose payload is longer than its
      struct: nothing else bounds the copy. */
  lemma WrapperOverruns(buffer: Bytes, m: Memory)
    requires ValidMemory(m) && |buffer| < TWO_32
    ensures Parse(buffer, m) == Undefined <==>
              && |buffer| >= HEADER_SIZE
              && |buffer| == HEADER_SIZE + FromLe32(buffer[40..44])
              && (var code := FromLe16(buffer[36..38]);
                  || (code == REGISTRATION && |buffer| > HEADER_SIZE + REGISTRATION_SIZE)
                  || (code == GET_PUBLIC_KEY && |buffer| > HEADER_SIZE + ID_SIZE))
  {
    if |buffer| >= HEADER_SIZE {
      AcceptedLength(buffer, m);
    }
  }
}
