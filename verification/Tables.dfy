/** The two SQL tables as values: rows under a primary key, and the order in
    which rows come back from a query. */
module Tables {
  import opened Bytes

  /** A row of `messages`, without its key. */
  datatype MessageRow = MessageRow(toClient: Bytes, fromClient: Bytes, kind: byte, content: Bytes)

  function LeastId(ids: set<nat>): (least: nat)
    requires ids != {}
    ensures least in ids && forall id :: id in ids ==> least <= id
  {
    LeastExists(ids);
    var least :| least in ids && forall id :: id in ids ==> least <= id;
    least
  }

  lemma {:induction false} LeastExists(ids: set<nat>)
    requires ids != {}
    ensures exists least :: least in ids && forall id :: id in ids ==> least <= id
  {
    var least := FindLeast(ids);
  }

  lemma {:induction false} FindLeast(ids: set<nat>) returns (least: nat)
    requires ids != {}
    ensures least in ids && forall id :: id in ids ==> least <= id
  {
    var some :| some in ids;
    least := some;
    var rest := ids - {some};
    if rest != {} {
      var other := FindLeast(rest);
      if other < some {
        least := other;
      }
    }
    forall id | id in ids
      ensures least <= id
    {
      assert id == some || id in rest;
    }
  }

  ghost predicate Increasing(s: seq<nat>)
  {
    forall i, j :: 0 <= i < j < |s| ==> s[i] < s[j]
  }

  /** Integer primary keys in the order a table scan visits them. */
  function SortedIds(ids: set<nat>): (s: seq<nat>)
    ensures Increasing(s)
    ensures forall id :: id in s <==> id in ids
  {
    if ids == {} then []
    else
      var least := LeastId(ids);
      var rest := SortedIds(ids - {least});
      assert forall i :: 0 <= i < |rest| ==> rest[i] in ids - {least};
      [least] + rest
  }

  /** The keys of `SELECT * FROM messages WHERE ToClient = ?`. */
  function IdsTo(messages: map<nat, MessageRow>, client: Bytes): (s: seq<nat>)
    ensures Increasing(s)
    ensures forall id :: id in s <==> id in messages && messages[id].toClient == client
  {
    SortedIds(set id | id in messages && messages[id].toClient == client)
  }

  /** A list in increasing order is determined by its elements. */
  lemma {:induction false} IncreasingIsUnique(s: seq<nat>, t: seq<nat>)
    requires Increasing(s) && Increasing(t)
    requires forall id :: id in s <==> id in t
    ensures s == t
  {
    if s == [] {
      HasMember(t);
    } else if t == [] {
      HasMember(s);
    } else {
      assert s[0] in t && t[0] in s;
      assert s[0] == t[0];
      forall id
        ensures id in s[1..] <==> id in t[1..]
      {
        TailMembers(s, id);
        TailMembers(t, id);
      }
      IncreasingIsUnique(s[1..], t[1..]);
      assert s == [s[0]] + s[1..] && t == [t[0]] + t[1..];
    }
  }

  lemma HasMember(s: seq<nat>)
    ensures s != [] ==> exists id :: id in s
  {
    if s != [] {
      assert s[0] in s;
    }
  }

  lemma TailMembers(s: seq<nat>, id: int)
    requires s != [] && Increasing(s)
    ensures id in s[1..] <==> id in s && id != s[0]
  {
    if id in s && id != s[0] {
      var i :| 0 <= i < |s| && s[i] == id;
      assert s[1..][i - 1] == id;
    }
  }

  function IdSet(ids: seq<nat>): set<nat>
  {
    set i | 0 <= i < |ids| :: ids[i]
  }

  lemma HeadId(ids: seq<nat>)
    requires ids != []
    ensures IdSet(ids) == {ids[0]} + IdSet(ids[1..])
  {
    forall id
      ensures id in IdSet(ids) <==> id == ids[0] || id in IdSet(ids[1..])
    {
      if id in IdSet(ids) {
        var i :| 0 <= i < |ids| && ids[i] == id;
        assert i > 0 ==> ids[1..][i - 1] == id;
      }
      if id in IdSet(ids[1..]) {
        var i :| 0 <= i < |ids| - 1 && ids[1..][i] == id;
        assert ids[i + 1] == id;
      }
    }
  }
}
