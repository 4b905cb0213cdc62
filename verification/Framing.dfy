/** How a response is delimited on the wire and measured by the client. */
module Framing {
  import opened Wrappers
  import opened Bytes
  import Responses

  /** "MEIR_END_OF_PACKET" */
  const MARKER: Bytes := [77, 69, 73, 82, 95, 69, 78, 68, 95, 79, 70, 95, 80, 65, 67, 75, 69, 84]
  const MARKER_LENGTH := 18

  /** The server's marker carries a NUL that the client does not search for. */
  const END_OF_PACKET: Bytes := MARKER + [0]

  /** sizeof the client's literal, which spells out one NUL and ends with another. */
  const SIZEOF_END_OF_PACKET := 20

  predicate MarkerAt(data: Bytes, i: nat)
  {
    i + MARKER_LENGTH <= |data| && data[i..i + MARKER_LENGTH] == MARKER
  }

  ghost predicate Occurs(data: Bytes)
  {
    exists i: nat :: MarkerAt(data, i)
  }

  /** Where `read_until` first finds the marker at or after i. */
  function FirstMatch(data: Bytes, i: nat): (at: Option<nat>)
    ensures at.Some? ==> i <= at.value && MarkerAt(data, at.value)
    ensures at.Some? ==> forall k: nat :: i <= k < at.value ==> !MarkerAt(data, k)
    ensures at.None? ==> forall k: nat :: i <= k ==> !MarkerAt(data, k)
    decreases |data| - i
  {
    if i + MARKER_LENGTH > |data| then None
    else if MarkerAt(data, i) then Some(i)
    else FirstMatch(data, i + 1)
  }

  class Connection {
    var bufLen: int

    constructor ()
    {
      bufLen := 0;
    }

    /** `getMsg` over one fresh buffer holding all that arrives. What is read ends
        with the marker; the length kept leaves the marker out. Without a marker
        the read fails and the length is -1. */
    method GetMsg(data: Bytes) returns (length: nat)
      modifies this
      ensures FirstMatch(data, 0).Some? ==> bufLen == FirstMatch(data, 0).value && length == FirstMatch(data, 0).value
      ensures FirstMatch(data, 0).None? ==> bufLen == -1 && length == 0
    {
      bufLen := -1;
      var found := FirstMatch(data, 0);
      if found.None? {
        return 0;
      }
      var readenLen := found.value + MARKER_LENGTH;
      bufLen := readenLen - (SIZEOF_END_OF_PACKET - 2);
      length := bufLen;
    }
  }

  /** The marker has no border: its first letter occurs in it only once, so no
      match can straddle the end of the body. */
  lemma NoStraddling(body: Bytes, rest: Bytes, i: nat)
    requires |body| < i + MARKER_LENGTH && i < |body|
    ensures !MarkerAt(body + MARKER + rest, i)
  {
    var data := body + MARKER + rest;
    var k := |body| - i;
    assert data[|body|] == MARKER[0];
    assert forall j :: 0 < j < MARKER_LENGTH ==> MARKER[j] != 77;
    if i + MARKER_LENGTH <= |data| {
      assert data[i..i + MARKER_LENGTH][k] == data[|body|];
    }
  }

  lemma MatchesInside(body: Bytes, rest: Bytes, i: nat)
    requires i < |body|
    ensures MarkerAt(body + MARKER + rest, i) <==> MarkerAt(body, i)
  {
    var data := body + MARKER + rest;
    if i + MARKER_LENGTH <= |body| {
      assert data[i..i + MARKER_LENGTH] == body[i..i + MARKER_LENGTH];
    } else {
      NoStraddling(body, rest, i);
    }
  }

  /** The length the client computes is the body's length exactly when the marker
      does not occur inside the body; otherwise it is shorter. */
  lemma LengthIsBody(body: Bytes)
    ensures FirstMatch(body + END_OF_PACKET, 0).Some?
    ensures FirstMatch(body + END_OF_PACKET, 0).value <= |body|
    ensures FirstMatch(body + END_OF_PACKET, 0) == Some(|body|) <==> !Occurs(body)
  {
    MarkerAfterBody(body);
    MatchesBeforeEnd(body);
    FirstMatchAt(body + END_OF_PACKET, |body|);
    OccursBefore(body, body + END_OF_PACKET);
  }

  lemma FirstMatchAt(data: Bytes, n: nat)
    requires MarkerAt(data, n)
    ensures FirstMatch(data, 0).Some? && FirstMatch(data, 0).value <= n
    ensures FirstMatch(data, 0) == Some(n) <==> forall i: nat :: i < n ==> !MarkerAt(data, i)
  {
    var first := FirstMatch(data, 0);
    if first.Some? && first.value < n {
      assert MarkerAt(data, first.value);
    }
  }

  lemma OccursBefore(body: Bytes, data: Bytes)
    requires forall i: nat :: i < |body| ==> (MarkerAt(data, i) <==> MarkerAt(body, i))
    ensures Occurs(body) <==> !(forall i: nat :: i < |body| ==> !MarkerAt(data, i))
  {
    if Occurs(body) {
      var i: nat :| MarkerAt(body, i);
      assert MarkerAt(data, i);
    }
    if !(forall i: nat :: i < |body| ==> !MarkerAt(data, i)) {
      var i: nat :| i < |body| && MarkerAt(data, i);
      assert MarkerAt(body, i);
    }
  }

  lemma MarkerAfterBody(body: Bytes)
    ensures MarkerAt(body + END_OF_PACKET, |body|)
  {
    var data := body + END_OF_PACKET;
    assert data[|body|..|body| + MARKER_LENGTH] == MARKER;
  }

  lemma MatchesBeforeEnd(body: Bytes)
    ensures forall i: nat :: i < |body| ==> (MarkerAt(body + END_OF_PACKET, i) <==> MarkerAt(body, i))
  {
    assert body + END_OF_PACKET == body + MARKER + [0];
    forall i: nat | i < |body|
      ensures MarkerAt(body + END_OF_PACKET, i) <==> MarkerAt(body, i)
    {
      MatchesInside(body, [0], i);
    }
  }

  /** The client's check of buf_len against the header of a response the server
      framed passes exactly when the marker is not inside header and payload. */
  lemma SizeCheckPasses(version: byte, code: nat, payload: Bytes)
    requires code < TWO_16 && |payload| < TWO_32
    ensures var header := Responses.Header(version, code, |payload|);
            var received := header + payload + END_OF_PACKET;
            && FromLe32(received[4..8]) == |payload|
            && (FirstMatch(received, 0) == Some(FromLe32(received[4..8]) + Responses.HEADER_SIZE)
                <==> !Occurs(header + payload))
  {
    var header := Responses.Header(version, code, |payload|);
    var received := header + payload + END_OF_PACKET;
    assert received[4..8] == header[4..8] == Le32(|payload|);
    LengthIsBody(header + payload);
  }
}
