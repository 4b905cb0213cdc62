/** Response packets: the records the server concatenates and the client's walk
    over them, in the Win32 layout of the shared structs. */
module Responses {
  import opened Wrappers
  import opened Bytes

  const ID_SIZE := 32
  const NAME_SIZE := 255

  // Padding the compiler inserts.
  const PAD_AFTER_VERSION := 1
  const PAD_AFTER_TYPE := 3
  const ADDRESS_SIZE := 4

  const HEADER_SIZE := 8
  const RECORD_SIZE := 48
  const CLIENT_SIZE := 287

  function Header(version: byte, code: nat, payloadSize: nat): (h: Bytes)
    requires code < TWO_16 && payloadSize < TWO_32
    ensures |h| == HEADER_SIZE
  {
    [version] + Zeros(PAD_AFTER_VERSION) + Le16(code) + Le32(payloadSize)
  }

  /** A header's fields at the client's offsets, whatever follows. */
  lemma HeaderReadsBack(version: byte, code: nat, payloadSize: nat, rest: Bytes)
    requires code < TWO_16 && payloadSize < TWO_32
    ensures var wire := Header(version, code, payloadSize) + rest;
            && wire[0] == version
            && FromLe16(wire[2..4]) == code
            && FromLe32(wire[4..8]) == payloadSize
            && wire[HEADER_SIZE..] == rest
  {
    var wire := Header(version, code, payloadSize) + rest;
    assert wire[2..4] == Le16(code);
    assert wire[4..8] == Le32(payloadSize);
  }

  // ----- pending messages -----

  /** A message as the server sends it. */
  datatype Record = Record(from: Bytes, id: nat, kind: byte, content: Bytes)

  /** A message as the client takes it: the id in the record is not looked at. */
  datatype Received = Received(from: Bytes, kind: byte, content: Bytes)

  predicate ValidRecord(r: Record)
  {
    |r.from| == ID_SIZE && r.id < TWO_32 && |r.content| < TWO_32
  }

  function RecordHeader(r: Record): (h: Bytes)
    requires ValidRecord(r)
    ensures |h| == RECORD_SIZE
  {
    r.from + Le32(r.id) + [r.kind] + Zeros(PAD_AFTER_TYPE) + Le32(|r.content|) + Zeros(ADDRESS_SIZE)
  }

  function EncodeRecord(r: Record): (b: Bytes)
    requires ValidRecord(r)
    ensures |b| == RECORD_SIZE + |r.content|
  {
    RecordHeader(r) + r.content
  }

  predicate ValidRecords(rs: seq<Record>)
  {
    forall i :: 0 <= i < |rs| ==> ValidRecord(rs[i])
  }

  function EncodeBatch(rs: seq<Record>): (b: Bytes)
    requires ValidRecords(rs)
  {
    if rs == [] then []
    else EncodeRecord(rs[0]) + EncodeBatch(rs[1..])
  }

  function ToReceived(rs: seq<Record>): (ms: seq<Received>)
    ensures |ms| == |rs|
    ensures forall i :: 0 <= i < |rs| ==> ms[i] == Received(rs[i].from, rs[i].kind, rs[i].content)
  {
    seq(|rs|, i requires 0 <= i < |rs| => Received(rs[i].from, rs[i].kind, rs[i].content))
  }

  /** The record at an offset, if it lies inside the payload. */
  function RecordAt(payload: Bytes, p: nat): (m: Option<Received>)
    ensures m.Some? ==> p + RECORD_SIZE + |m.value.content| <= |payload|
  {
    if p + RECORD_SIZE > |payload| then None
    else
      var size := FromLe32(payload[p + 40..p + 44]);
      if p + RECORD_SIZE + size > |payload| then None
      else Some(Received(payload[p..p + 32], payload[p + 36], payload[p + RECORD_SIZE..p + RECORD_SIZE + size]))
  }

  /** A record's fields at the offsets of the shared struct. */
  lemma RecordReadsBack(r: Record)
    requires ValidRecord(r)
    ensures var b := EncodeRecord(r);
            && b[..32] == r.from && FromLe32(b[32..36]) == r.id && b[36] == r.kind
            && FromLe32(b[40..44]) == |r.content| && b[RECORD_SIZE..] == r.content
  {
    var b := EncodeRecord(r);
    assert b[32..36] == Le32(r.id);
    assert b[40..44] == Le32(|r.content|);
  }

  /** Where record i begins. */
  function OffsetOf(rs: seq<Record>, i: nat): nat
    requires i <= |rs|
  {
    if i == 0 then 0 else RECORD_SIZE + |rs[0].content| + OffsetOf(rs[1..], i - 1)
  }

  /** Record i of a batch lies at its offset. */
  lemma {:induction false} RecordLiesAt(rs: seq<Record>, i: nat, payload: Bytes, p: nat, n: nat)
    requires ValidRecords(rs) && i < |rs| && payload == EncodeBatch(rs)
    requires p == OffsetOf(rs, i) && n == RECORD_SIZE + |rs[i].content|
    ensures p + n <= |payload| && payload[p..p + n] == EncodeRecord(rs[i])
    decreases i
  {
    var first, rest := EncodeRecord(rs[0]), EncodeBatch(rs[1..]);
    if i == 0 {
      assert (first + rest)[..|first|] == first;
    } else {
      var q := OffsetOf(rs[1..], i - 1);
      RecordLiesAt(rs[1..], i - 1, rest, q, n);
      SliceAfter(first, rest, q, n);
    }
  }

  lemma SliceAfter(first: Bytes, rest: Bytes, q: nat, n: nat)
    requires q + n <= |rest|
    ensures (first + rest)[|first| + q..|first| + q + n] == rest[q..q + n]
  {
  }

  lemma SliceOfSlice(s: Bytes, p: nat, n: nat, a: nat, b: nat)
    requires p + n <= |s| && a <= b <= n
    ensures s[p..p + n][a..b] == s[p + a..p + b]
  {
    var slice := s[p..p + n];
    assert forall k :: a <= k < b ==> slice[k] == s[p + k];
  }

  lemma FieldsAt(payload: Bytes, p: nat, n: nat, r: Record)
    requires ValidRecord(r) && n == RECORD_SIZE + |r.content| && p + n <= |payload|
    requires payload[p..p + n] == EncodeRecord(r)
    ensures payload[p..p + 32] == r.from && FromLe32(payload[p + 32..p + 36]) == r.id
  {
    RecordReadsBack(r);
    SliceOfSlice(payload, p, n, 0, 32);
    SliceOfSlice(payload, p, n, 32, 36);
  }

  /** So its sender and id are read back from there, although the client's walk
      passes the id by. */
  lemma IdLiesAt(rs: seq<Record>, i: nat, payload: Bytes, p: nat)
    requires ValidRecords(rs) && i < |rs| && payload == EncodeBatch(rs) && p == OffsetOf(rs, i)
    ensures p + RECORD_SIZE <= |payload|
    ensures payload[p..p + 32] == rs[i].from && FromLe32(payload[p + 32..p + 36]) == rs[i].id
  {
    var n := RECORD_SIZE + |rs[i].content|;
    RecordLiesAt(rs, i, payload, p, n);
    FieldsAt(payload, p, n, rs[i]);
  }

  /** All records from an offset on; None when one runs past the payload. */
  function Walk(payload: Bytes, p: nat): (ms: Option<seq<Received>>)
    decreases |payload| - p
  {
    if p >= |payload| then Some([])
    else
      match RecordAt(payload, p)
      case None => None
      case Some(m) =>
        match Walk(payload, p + RECORD_SIZE + |m.content|)
        case None => None
        case Some(rest) => Some([m] + rest)
  }

  function Prepend(got: seq<Received>, rest: Option<seq<Received>>): Option<seq<Received>>
  {
    match rest
    case None => None
    case Some(ms) => Some(got + ms)
  }

  lemma PrependNothing(rest: Option<seq<Received>>)
    ensures Prepend([], rest) == rest
  {
    if rest.Some? {
      assert [] + rest.value == rest.value;
    }
  }

  lemma PrependTwice(a: seq<Received>, b: seq<Received>, rest: Option<seq<Received>>)
    ensures Prepend(a, Prepend(b, rest)) == Prepend(a + b, rest)
  {
    if rest.Some? {
      assert a + (b + rest.value) == a + b + rest.value;
    }
  }

  /** `mem_ptr += sizeof(MUPRespGotMessagePayload) + message_size` in 32 bits. */
  function Advance(memPtr: nat, size: nat): (next: nat)
    ensures memPtr + RECORD_SIZE + size < TWO_32 ==> next == memPtr + RECORD_SIZE + size
  {
    (memPtr + RECORD_SIZE + size) % TWO_32
  }

  /** The loop of `getMsgsClient`: an unsigned 32-bit offset walks the payload.
      The last result is where the offset ends. Reading past the payload is
      undefined and gives None. */
  method WalkBatch(payload: Bytes) returns (messages: Option<seq<Received>>, memPtr: nat)
    requires |payload| < TWO_32
    ensures messages == Walk(payload, 0)
    ensures messages.Some? ==> memPtr == |payload|
  {
    memPtr := 0;
    var got: seq<Received> := [];
    ghost var all := Walk(payload, 0);
    PrependNothing(all);
    while memPtr < |payload|
      invariant memPtr <= |payload|
      invariant all == Prepend(got, Walk(payload, memPtr))
      decreases |payload| - memPtr
    {
      var m := RecordAt(payload, memPtr);
      if m.None? {
        return None, memPtr;
      }
      WalkTurn(payload, memPtr, got, m.value);
      got := got + [m.value];
      memPtr := Advance(memPtr, |m.value.content|);
    }
    assert got + [] == got;
    messages := Some(got);
  }

  lemma WalkStep(payload: Bytes, p: nat, m: Received)
    requires p < |payload| && RecordAt(payload, p) == Some(m)
    ensures Walk(payload, p) == Prepend([m], Walk(payload, p + RECORD_SIZE + |m.content|))
  {
  }

  lemma WalkTurn(payload: Bytes, p: nat, got: seq<Received>, m: Received)
    requires p < |payload| && RecordAt(payload, p) == Some(m)
    ensures Prepend(got, Walk(payload, p)) == Prepend(got + [m], Walk(payload, p + RECORD_SIZE + |m.content|))
  {
    WalkStep(payload, p, m);
    PrependTwice(got, [m], Walk(payload, p + RECORD_SIZE + |m.content|));
  }

  lemma RecordFields(payload: Bytes, p: nat, r: Record, rest: Bytes)
    requires ValidRecord(r) && p <= |payload| && payload[p..] == EncodeRecord(r) + rest
    ensures RecordAt(payload, p) == Some(Received(r.from, r.kind, r.content))
    ensures p + RECORD_SIZE + |r.content| <= |payload|
    ensures payload[p + RECORD_SIZE + |r.content|..] == rest
  {
    var h := RecordHeader(r);
    var tail := payload[p..];
    assert tail[..RECORD_SIZE] == h;
    assert payload[p + 40..p + 44] == tail[40..44] == h[40..44] == Le32(|r.content|);
    assert payload[p..p + 32] == tail[..32] == h[..32] == r.from;
    assert payload[p + 36] == tail[36] == h[36] == r.kind;
    assert payload[p + RECORD_SIZE..p + RECORD_SIZE + |r.content|]
        == tail[RECORD_SIZE..RECORD_SIZE + |r.content|] == r.content;
    assert payload[p + RECORD_SIZE + |r.content|..] == tail[RECORD_SIZE + |r.content|..] == rest;
  }

  lemma OneRecord(r: Record)
    requires ValidRecord(r)
    ensures EncodeBatch([r]) == EncodeRecord(r)
  {
    assert [r][1..] == [];
    assert EncodeRecord(r) + [] == EncodeRecord(r);
  }

  lemma Associate(a: Bytes, b: Bytes, c: Bytes)
    ensures a + b + c == a + (b + c)
  {
  }

  /** How the server's loop grows the payload. */
  lemma {:induction false} BatchGrows(rs: seq<Record>, r: Record)
    requires ValidRecords(rs) && ValidRecord(r)
    ensures ValidRecords(rs + [r])
    ensures EncodeBatch(rs + [r]) == EncodeBatch(rs) + EncodeRecord(r)
    decreases |rs|
  {
    if rs == [] {
      OneRecord(r);
      assert rs + [r] == [r];
    } else {
      BatchGrows(rs[1..], r);
      assert (rs + [r])[1..] == rs[1..] + [r];
      Associate(EncodeRecord(rs[0]), EncodeBatch(rs[1..]), EncodeRecord(r));
    }
  }

  /** The first record of a batch, and what is left after it. */
  lemma FirstRecord(payload: Bytes, p: nat, rs: seq<Record>, next: nat)
    requires ValidRecords(rs) && rs != [] && p <= |payload| && payload[p..] == EncodeBatch(rs)
    requires next == p + RECORD_SIZE + |rs[0].content|
    ensures p < next <= |payload| && payload[next..] == EncodeBatch(rs[1..])
    ensures RecordAt(payload, p) == Some(Received(rs[0].from, rs[0].kind, rs[0].content))
  {
    RecordFields(payload, p, rs[0], EncodeBatch(rs[1..]));
  }

  lemma {:induction false} WalkFrom(payload: Bytes, p: nat, rs: seq<Record>)
    requires ValidRecords(rs) && p <= |payload| && payload[p..] == EncodeBatch(rs)
    ensures Walk(payload, p) == Some(ToReceived(rs))
    decreases |rs|
  {
    if rs == [] {
      WalkEnd(payload, p);
    } else {
      var m := Received(rs[0].from, rs[0].kind, rs[0].content);
      var next := p + RECORD_SIZE + |m.content|;
      FirstRecord(payload, p, rs, next);
      WalkFrom(payload, next, rs[1..]);
      WalkJoins(payload, p, next, rs);
    }
  }

  lemma WalkJoins(payload: Bytes, p: nat, next: nat, rs: seq<Record>)
    requires rs != [] && p < next <= |payload| && next == p + RECORD_SIZE + |rs[0].content|
    requires RecordAt(payload, p) == Some(Received(rs[0].from, rs[0].kind, rs[0].content))
    requires Walk(payload, next) == Some(ToReceived(rs[1..]))
    ensures Walk(payload, p) == Some(ToReceived(rs))
  {
    WalkStep(payload, p, Received(rs[0].from, rs[0].kind, rs[0].content));
    ReceivedSplits(rs);
  }

  lemma WalkEnd(payload: Bytes, p: nat)
    requires p <= |payload| && payload[p..] == []
    ensures Walk(payload, p) == Some(ToReceived([]))
  {
    assert p == |payload|;
  }

  lemma ReceivedSplits(rs: seq<Record>)
    requires rs != []
    ensures Prepend([Received(rs[0].from, rs[0].kind, rs[0].content)], Some(ToReceived(rs[1..])))
            == Some(ToReceived(rs))
  {
    assert [Received(rs[0].from, rs[0].kind, rs[0].content)] + ToReceived(rs[1..]) == ToReceived(rs);
  }

  /** The client's walk over the server's batch gives back the same senders,
      types and contents in order. */
  lemma BatchRoundTrip(rs: seq<Record>)
    requires ValidRecords(rs)
    ensures Walk(EncodeBatch(rs), 0) == Some(ToReceived(rs))
  {
    assert EncodeBatch(rs)[0..] == EncodeBatch(rs);
    WalkFrom(EncodeBatch(rs), 0, rs);
  }

  // ----- the client list -----

  /** A client as listed: `tail` is whatever memory follows the name's NUL. */
  datatype Listed = Listed(id: Bytes, name: Bytes, tail: Bytes)

  predicate ValidListed(c: Listed)
  {
    |c.id| == ID_SIZE && c.id[0] != 0 && |c.tail| >= NAME_SIZE
  }

  predicate ValidList(cs: seq<Listed>)
  {
    forall i :: 0 <= i < |cs| ==> ValidListed(cs[i])
  }

  function NameInField(c: Listed): (field: Bytes)
    requires ValidListed(c)
    ensures |field| == NAME_SIZE
  {
    (c.name + [0] + c.tail)[..NAME_SIZE]
  }

  function EncodeListed(c: Listed): (b: Bytes)
    requires ValidListed(c)
    ensures |b| == CLIENT_SIZE
  {
    c.id + NameInField(c)
  }

  function EncodeList(cs: seq<Listed>): (b: Bytes)
    requires ValidList(cs)
    ensures |b| == CLIENT_SIZE * |cs|
  {
    if cs == [] then []
    else EncodeList(cs[..|cs| - 1]) + EncodeListed(cs[|cs| - 1])
  }

  /** The bytes before the first NUL, or all of them. */
  function UpToNul(b: Bytes): (s: Bytes)
    ensures |s| <= |b| && s == b[..|s|] && 0 !in s
    ensures |s| < |b| ==> b[|s|] == 0
  {
    if b == [] || b[0] == 0 then [] else [b[0]] + UpToNul(b[1..])
  }

  /** The C string at the start of a buffer; None when it has no NUL. */
  function CString(b: Bytes): Option<Bytes>
  {
    if |UpToNul(b)| < |b| then Some(UpToNul(b)) else None
  }

  datatype Shown = Shown(id: Bytes, name: Option<Bytes>)

  /** What the client prints for its i-th record. A name without a NUL is read
      on into the bytes that follow. */
  function ShownAt(payload: Bytes, i: nat): Shown
    requires CLIENT_SIZE * (i + 1) <= |payload|
  {
    var p := CLIENT_SIZE * i;
    Shown(payload[p..p + ID_SIZE], CString(payload[p + ID_SIZE..]))
  }

  /** `recvClientsListResp`: as many records as fit. */
  method RecvClientsListResp(payload: Bytes) returns (shown: seq<Shown>)
    ensures |shown| == |payload| / CLIENT_SIZE
    ensures forall i :: 0 <= i < |shown| ==> shown[i] == ShownAt(payload, i)
  {
    var numOfClients := |payload| / CLIENT_SIZE;
    shown := [];
    var i := 0;
    while i < numOfClients
      invariant 0 <= i <= numOfClients && |shown| == i
      invariant forall k :: 0 <= k < i ==> shown[k] == ShownAt(payload, k)
    {
      shown := shown + [ShownAt(payload, i)];
      i := i + 1;
    }
  }

  lemma UpToNulIs(b: Bytes, s: Bytes)
    requires |s| < |b| && b[..|s|] == s && b[|s|] == 0 && 0 !in s
    ensures UpToNul(b) == s
  {
    assert forall k :: 0 <= k < |UpToNul(b)| ==> b[k] != 0;
    assert forall k :: 0 <= k < |s| ==> b[k] != 0;
  }

  lemma AllBeforeNul(b: Bytes)
    requires 0 !in b
    ensures UpToNul(b) == b
  {
    assert forall k :: 0 <= k < |b| ==> b[k] != 0;
  }

  lemma {:induction false} EncodeListSplits(cs: seq<Listed>, k: nat)
    requires k <= |cs| && ValidList(cs)
    ensures EncodeList(cs) == EncodeList(cs[..k]) + EncodeList(cs[k..])
    decreases |cs| - k
  {
    if k == |cs| {
      assert cs[..k] == cs && cs[k..] == [];
    } else {
      var front, last := cs[..|cs| - 1], cs[|cs| - 1];
      assert front[..k] == cs[..k] && front[k..] == cs[k..][..|cs[k..]| - 1];
      EncodeListSplits(front, k);
    }
  }

  lemma UpTo(cs: seq<Listed>, i: nat)
    requires i < |cs| && ValidList(cs)
    ensures EncodeList(cs[..i + 1]) == EncodeList(cs[..i]) + EncodeListed(cs[i])
  {
    assert cs[..i + 1][..i] == cs[..i];
  }

  lemma ListAround(cs: seq<Listed>, i: nat)
    requires i < |cs| && ValidList(cs)
    ensures |EncodeList(cs[..i])| == CLIENT_SIZE * i
    ensures EncodeList(cs) == EncodeList(cs[..i]) + (cs[i].id + NameInField(cs[i])) + EncodeList(cs[i + 1..])
  {
    EncodeListSplits(cs, i + 1);
    UpTo(cs, i);
  }

  lemma RecordParts(all: Bytes, before: Bytes, id: Bytes, name: Bytes, after: Bytes, p: nat)
    requires all == before + (id + name) + after
    requires |before| == p && |id| == ID_SIZE && |name| == NAME_SIZE
    ensures p + CLIENT_SIZE <= |all|
    ensures all[p..p + ID_SIZE] == id && all[p + ID_SIZE..] == name + after
  {
  }

  /** What the client reads the i-th name from: the field, then later records. */
  lemma NameField(cs: seq<Listed>, i: nat)
    requires i < |cs| && ValidList(cs)
    ensures CLIENT_SIZE * (i + 1) <= |EncodeList(cs)|
    ensures EncodeList(cs)[CLIENT_SIZE * i..CLIENT_SIZE * i + ID_SIZE] == cs[i].id
    ensures EncodeList(cs)[CLIENT_SIZE * i + ID_SIZE..] == NameInField(cs[i]) + EncodeList(cs[i + 1..])
  {
    ListAround(cs, i);
    RecordParts(EncodeList(cs), EncodeList(cs[..i]), cs[i].id, NameInField(cs[i]), EncodeList(cs[i + 1..]),
                CLIENT_SIZE * i);
  }

  /** A name whose text fits is cut at its first NUL or at the one added. */
  lemma ShortName(c: Listed, after: Bytes)
    requires ValidListed(c) && |UpToNul(c.name)| < NAME_SIZE
    ensures CString(NameInField(c) + after) == Some(UpToNul(c.name))
  {
    var s, b := UpToNul(c.name), NameInField(c) + after;
    assert b[|s|] == NameInField(c)[|s|] == (c.name + [0] + c.tail)[|s|] == 0;
    assert b[..|s|] == (c.name + [0] + c.tail)[..|s|] == s;
    UpToNulIs(b, s);
  }

  /** A name without a NUL that fills its field leaves none in it. */
  lemma LongName(c: Listed)
    requires ValidListed(c) && |UpToNul(c.name)| >= NAME_SIZE
    ensures NameInField(c) == c.name[..NAME_SIZE] && 0 !in c.name[..NAME_SIZE]
  {
    var t := UpToNul(c.name);
    assert c.name[..NAME_SIZE] == t[..NAME_SIZE];
    assert NameInField(c) == c.name[..NAME_SIZE];
  }

  /** A full field is read on into what follows it. */
  lemma RunsOn(field: Bytes, after: Bytes)
    requires 0 !in field
    ensures after == [] ==> CString(field + after) == None
    ensures after != [] && after[0] != 0 ==> CString(field + after) != Some(field)
  {
    if after == [] {
      assert field + after == field;
      AllBeforeNul(field);
    } else {
      assert (field + after)[|field|] == after[0];
    }
  }

  lemma FirstOfList(cs: seq<Listed>)
    requires ValidList(cs)
    ensures cs != [] ==> EncodeList(cs) != [] && EncodeList(cs)[0] != 0
  {
    if cs != [] {
      NameField(cs, 0);
    }
  }

  /** The client recovers every id. It shows a name up to its first NUL, whatever
      follows the terminator; a name whose 255 first bytes hold none it reads on
      into the later records, and past the last one into memory. So it shows a
      name of at most 255 bytes as it is exactly when the name is shorter than
      that and contains no NUL. */
  lemma ListRoundTrip(cs: seq<Listed>, i: nat)
    requires i < |cs| && ValidList(cs)
    ensures |EncodeList(cs)| / CLIENT_SIZE == |cs|
    ensures ShownAt(EncodeList(cs), i).id == cs[i].id
    ensures |UpToNul(cs[i].name)| < NAME_SIZE ==> ShownAt(EncodeList(cs), i).name == Some(UpToNul(cs[i].name))
    ensures |UpToNul(cs[i].name)| >= NAME_SIZE ==>
              && ShownAt(EncodeList(cs), i).name == CString(cs[i].name[..NAME_SIZE] + EncodeList(cs[i + 1..]))
              && (i == |cs| - 1 ==> ShownAt(EncodeList(cs), i).name == None)
    ensures |cs[i].name| <= NAME_SIZE ==>
              (ShownAt(EncodeList(cs), i).name == Some(cs[i].name)
               <==> |cs[i].name| < NAME_SIZE && 0 !in cs[i].name)
  {
    NameField(cs, i);
    var name, after := cs[i].name, EncodeList(cs[i + 1..]);
    if |UpToNul(name)| < NAME_SIZE {
      ShortName(cs[i], after);
      if 0 !in name {
        AllBeforeNul(name);
      }
    } else {
      LongName(cs[i]);
      FirstOfList(cs[i + 1..]);
      RunsOn(name[..NAME_SIZE], after);
      assert |name| == NAME_SIZE ==> name[..NAME_SIZE] == name;
    }
  }
}
