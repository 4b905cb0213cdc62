/** Registration: the accept loop's id counter, the client table it fills with
    "insert or replace", and what a restart restores the counter to. */
module Registry {
  import opened Bytes
  import opened ClientIds

  /** A row of the client table. Rows are listed in the order they were written. */
  datatype Registered = Registered(id: Bytes, name: Bytes, publicKey: Bytes)

  datatype Registry = Registry(rows: seq<Registered>, lastId: Bytes)

  /** The order in which the unordered id scan visits rows: as written, or by
      the index on the text primary key. */
  datatype ScanOrder = RowOrder | IndexOrder

  datatype Event = Register(name: Bytes, publicKey: Bytes) | Restart(order: ScanOrder)

  /** `name.strip('\0')` */
  function Strip(name: Bytes): (stripped: Bytes)
    ensures stripped != [] ==> stripped[0] != 0 && stripped[|stripped| - 1] != 0
    decreases |name|
  {
    if name != [] && name[0] == 0 then Strip(name[1..])
    else if name != [] && name[|name| - 1] == 0 then Strip(name[..|name| - 1])
    else name
  }

  /** Stripping takes off NULs at both ends and nothing else. */
  lemma {:induction false} StripTrims(name: Bytes) returns (before: nat, after: nat)
    ensures name == Zeros(before) + Strip(name) + Zeros(after)
    decreases |name|
  {
    if name != [] && name[0] == 0 {
      before, after := StripTrims(name[1..]);
      OneMoreBefore(name, Strip(name), before, after);
      before := before + 1;
    } else if name != [] && name[|name| - 1] == 0 {
      before, after := StripTrims(name[..|name| - 1]);
      OneMoreAfter(name, Strip(name), before, after);
      after := after + 1;
    } else {
      before, after := 0, 0;
    }
  }

  lemma OneMoreBefore(name: Bytes, core: Bytes, before: nat, after: nat)
    requires name != [] && name[0] == 0 && name[1..] == Zeros(before) + core + Zeros(after)
    ensures name == Zeros(before + 1) + core + Zeros(after)
  {
    assert name == [0] + name[1..];
  }

  lemma OneMoreAfter(name: Bytes, core: Bytes, before: nat, after: nat)
    requires name != [] && name[|name| - 1] == 0 && name[..|name| - 1] == Zeros(before) + core + Zeros(after)
    ensures name == Zeros(before) + core + Zeros(after + 1)
  {
    assert name == name[..|name| - 1] + [0];
  }

  predicate NameExists(rows: seq<Registered>, name: Bytes)
  {
    exists i :: 0 <= i < |rows| && rows[i].name == name
  }

  predicate IdExists(rows: seq<Registered>, id: Bytes)
  {
    exists i :: 0 <= i < |rows| && rows[i].id == id
  }

  function Without(rows: seq<Registered>, id: Bytes): (rest: seq<Registered>)
    ensures !IdExists(rows, id) ==> rest == rows
    ensures IdExists(rows, id) ==> |rest| < |rows|
    ensures !IdExists(rest, id)
  {
    if rows == [] then []
    else
      var front, last := rows[..|rows| - 1], rows[|rows| - 1];
      assert rows == front + [last];
      assert IdExists(rows, id) ==> last.id == id || IdExists(front, id) by {
        if i :| 0 <= i < |rows| && rows[i].id == id && i < |front| {
          assert front[i].id == id;
        }
      }
      assert IdExists(front, id) ==> IdExists(rows, id) by {
        if i :| 0 <= i < |front| && front[i].id == id {
          assert rows[i].id == id;
        }
      }
      assert last.id == id ==> IdExists(rows, id) by {
        assert rows[|rows| - 1] == last;
      }
      if last.id == id then Without(front, id) else Without(front, id) + [last]
  }

  /** `insert or replace`: a row with the same key is deleted first. */
  function InsertOrReplace(rows: seq<Registered>, row: Registered): seq<Registered>
  {
    Without(rows, row.id) + [row]
  }

  /** The registration branch of the accept loop. A taken name changes nothing. */
  function RegisterStep(r: Registry, name: Bytes, publicKey: Bytes): Registry
  {
    if NameExists(r.rows, Strip(name)) then r
    else
      var id := Add1(r.lastId);
      Registry(InsertOrReplace(r.rows, Registered(id, Strip(name), publicKey)), id)
  }

  predicate LexLe(a: Bytes, b: Bytes)
  {
    a == [] || (b != [] && (a[0] < b[0] || (a[0] == b[0] && LexLe(a[1..], b[1..]))))
  }

  /** The row an index scan visits last. */
  function LexLast(rows: seq<Registered>): (id: Bytes)
    requires rows != []
  {
    if |rows| == 1 then rows[0].id
    else
      var front, last := LexLast(rows[..|rows| - 1]), rows[|rows| - 1].id;
      if LexLe(front, last) then last else front
  }

  /** `get_last_id`, or the zero id on an empty table. */
  function Restored(rows: seq<Registered>, order: ScanOrder): (id: Bytes)
  {
    if rows == [] then ZeroId(ID_SIZE)
    else if order == RowOrder then rows[|rows| - 1].id
    else LexLast(rows)
  }

  // ----- the invariant -----

  const LIMIT := Pow16(ID_SIZE)

  /** The id of the n-th client, counting from 1. */
  function NthClientId(n: nat): (id: Bytes)
    ensures |id| == ID_SIZE
  {
    FromNat(n % LIMIT, ID_SIZE)
  }

  ghost predicate Inv(r: Registry)
  {
    && |r.rows| <= LIMIT
    && r.lastId == NthClientId(|r.rows|)
    && (forall i :: 0 <= i < |r.rows| ==> r.rows[i].id == NthClientId(i + 1))
    && (forall i, j :: 0 <= i < j < |r.rows| ==> r.rows[i].name != r.rows[j].name)
  }

  const EMPTY := Registry([], ZeroId(ID_SIZE))

  lemma EmptyInv()
    ensures Inv(EMPTY)
  {
    ZeroIdIsZero(ID_SIZE);
  }

  lemma NthClientIdNext(n: nat)
    ensures Add1(NthClientId(n)) == NthClientId(n + 1)
  {
    var limit := LIMIT;
    var r := n % limit;
    Add1FromNatWraps(r, ID_SIZE);
    ModStep(n, limit);
    assert (n + 1) % limit == if r + 1 == limit then 0 else r + 1;
  }

  lemma NthClientIdInjective(m: nat, n: nat)
    requires NthClientId(m) == NthClientId(n)
    ensures m % LIMIT == n % LIMIT
  {
    ValueFromNat(m % LIMIT, ID_SIZE);
    ValueFromNat(n % LIMIT, ID_SIZE);
  }

  lemma SmallMod(n: nat)
    requires n < LIMIT
    ensures n % LIMIT == n
  {
    ModUnique(n, LIMIT, 0, n);
  }

  lemma LimitMod()
    ensures LIMIT % LIMIT == 0
  {
    ModUnique(LIMIT, LIMIT, 1, 0);
  }

  /** The next id is taken exactly when 16^32 clients are registered. */
  lemma NextIdFresh(r: Registry)
    requires Inv(r)
    ensures IdExists(r.rows, Add1(r.lastId)) <==> |r.rows| == LIMIT
  {
    var n := |r.rows|;
    NthClientIdNext(n);
    if n == LIMIT {
      LimitPlusOne();
      assert r.rows[0].id == NthClientId(1);
    } else {
      forall i | 0 <= i < n
        ensures r.rows[i].id != NthClientId(n + 1)
      {
        NthIdsDiffer(i + 1, n + 1);
      }
    }
  }

  lemma LimitPlusOne()
    ensures LIMIT > 0 && NthClientId(LIMIT + 1) == NthClientId(1)
  {
    OneIsSmall();
    LimitMod();
    ModStep(LIMIT, LIMIT);
  }

  /** The first 16^32 ids are pairwise distinct. */
  lemma NthIdsDiffer(m: nat, n: nat)
    requires 0 < m < n <= LIMIT
    ensures NthClientId(m) != NthClientId(n)
  {
    if NthClientId(m) == NthClientId(n) {
      NthClientIdInjective(m, n);
      SmallMod(m);
      if n < LIMIT {
        SmallMod(n);
      } else {
        LimitMod();
      }
    }
  }

  lemma OneIsSmall()
    ensures LIMIT > 1 && 1 % LIMIT == 1
  {
    assert LIMIT == 16 * Pow16(31);
    SmallMod(1);
  }

  /** Registration keeps ids and names pairwise distinct and changes no earlier
      row: the replace half of "insert or replace" is never used. */
  lemma RegisterKeeps(r: Registry, name: Bytes, publicKey: Bytes)
    requires Inv(r) && |r.rows| < LIMIT
    ensures Inv(RegisterStep(r, name, publicKey))
    ensures r.rows <= RegisterStep(r, name, publicKey).rows
    ensures !NameExists(r.rows, Strip(name)) ==>
              RegisterStep(r, name, publicKey).rows
              == r.rows + [Registered(NthClientId(|r.rows| + 1), Strip(name), publicKey)]
    ensures NameExists(r.rows, Strip(name)) ==> RegisterStep(r, name, publicKey) == r
  {
    NextIdFresh(r);
    NthClientIdNext(|r.rows|);
    if !NameExists(r.rows, Strip(name)) {
      AppendKeeps(r, Registered(NthClientId(|r.rows| + 1), Strip(name), publicKey));
    }
  }

  lemma AppendKeeps(r: Registry, row: Registered)
    requires Inv(r) && |r.rows| < LIMIT
    requires row.id == NthClientId(|r.rows| + 1) && !NameExists(r.rows, row.name)
    ensures Inv(Registry(r.rows + [row], row.id))
  {
  }

  // ----- runs -----

  function Step(r: Registry, e: Event): Registry
  {
    match e
    case Register(name, publicKey) => RegisterStep(r, name, publicKey)
    case Restart(order) => Registry(r.rows, Restored(r.rows, order))
  }

  /** Registrations below the limit; index-order restarts only at safe counts. */
  ghost predicate Safe(r: Registry, e: Event)
  {
    match e
    case Register(_, _) => |r.rows| < LIMIT
    case Restart(order) => order == RowOrder || IndexOrderSafe(|r.rows|)
  }

  ghost predicate RunsTo(r: Registry, events: seq<Event>, end: Registry)
    decreases |events|
  {
    if events == [] then r == end
    else Safe(r, events[0]) && RunsTo(Step(r, events[0]), events[1..], end)
  }

  /** Every digit below the top one is f. */
  predicate TopDigitOnly(n: nat)
  {
    n < 16 || (n % 16 == 15 && TopDigitOnly(n / 16))
  }

  /** With n clients registered, an index scan ends at the newest one. */
  predicate IndexOrderSafe(n: nat)
  {
    n < LIMIT && TopDigitOnly(n)
  }

  // ----- lexicographic order of little-endian numbers -----

  predicate LexLeNat(m: nat, n: nat)
    decreases m + n
  {
    if m == 0 && n == 0 then true
    else m % 16 < n % 16 || (m % 16 == n % 16 && LexLeNat(m / 16, n / 16))
  }

  lemma {:induction false} LexOfNumbers(m: nat, n: nat, size: nat)
    requires m < Pow16(size) && n < Pow16(size)
    ensures LexLe(FromNat(m, size), FromNat(n, size)) <==> LexLeNat(m, n)
  {
    if size > 0 {
      LexOfNumbers(m / 16, n / 16, size - 1);
      assert FromNat(m, size)[1..] == FromNat(m / 16, size - 1);
      assert FromNat(n, size)[1..] == FromNat(n / 16, size - 1);
      if m == 0 && n == 0 {
        assert LexLe(FromNat(m / 16, size - 1), FromNat(n / 16, size - 1));
      }
    }
  }

  /** n comes last among 0..n exactly when all its digits below the top are f;
      otherwise some smaller number comes strictly after it. */
  lemma {:induction false} LastAmongSmaller(n: nat)
    ensures TopDigitOnly(n) ==> forall m: nat :: m <= n ==> LexLeNat(m, n)
    ensures !TopDigitOnly(n) ==> exists m: nat :: 0 < m < n && !LexLeNat(m, n)
  {
    if n < 16 {
      forall m: nat | m <= n
        ensures LexLeNat(m, n)
      {
      }
    } else {
      LastAmongSmaller(n / 16);
      if n % 16 < 15 {
        assert !LexLeNat(15, n);
      } else if TopDigitOnly(n / 16) {
        forall m: nat | m <= n
          ensures LexLeNat(m, n)
        {
          assert m / 16 <= n / 16;
        }
      } else {
        var q: nat :| 0 < q < n / 16 && !LexLeNat(q, n / 16);
        assert (16 * q + 15) / 16 == q && (16 * q + 15) % 16 == 15;
        assert !LexLeNat(16 * q + 15, n);
      }
    }
  }

  lemma {:induction false} LexLeReflexive(a: Bytes)
    ensures LexLe(a, a)
  {
    if a != [] {
      LexLeReflexive(a[1..]);
    }
  }

  lemma {:induction false} LexLeTransitive(a: Bytes, b: Bytes, c: Bytes)
    requires LexLe(a, b) && LexLe(b, c)
    ensures LexLe(a, c)
  {
    if a != [] && b != [] && c != [] && a[0] == b[0] == c[0] {
      LexLeTransitive(a[1..], b[1..], c[1..]);
    }
  }

  lemma {:induction false} LexLeTotal(a: Bytes, b: Bytes)
    ensures LexLe(a, b) || LexLe(b, a)
    ensures LexLe(a, b) && LexLe(b, a) ==> a == b
  {
    if a != [] && b != [] && a[0] == b[0] {
      LexLeTotal(a[1..], b[1..]);
      assert a == [a[0]] + a[1..] && b == [b[0]] + b[1..];
    }
  }

  lemma {:induction false} LexLastIsGreatest(rows: seq<Registered>)
    requires rows != []
    ensures exists i :: 0 <= i < |rows| && rows[i].id == LexLast(rows)
    ensures forall i :: 0 <= i < |rows| ==> LexLe(rows[i].id, LexLast(rows))
  {
    var last := rows[|rows| - 1].id;
    LexLeReflexive(last);
    if |rows| > 1 {
      var front := rows[..|rows| - 1];
      LexLastIsGreatest(front);
      LexLeTotal(LexLast(front), last);
      var k :| 0 <= k < |front| && front[k].id == LexLast(front);
      assert rows[k].id == LexLast(front);
      forall i | 0 <= i < |rows|
        ensures LexLe(rows[i].id, LexLast(rows))
      {
        if i < |front| {
          assert front[i] == rows[i];
          LexLeTransitive(rows[i].id, LexLast(front), LexLast(rows));
        }
      }
    }
  }

  // ----- restart -----

  lemma RowOrderRestores(r: Registry)
    requires Inv(r)
    ensures Restored(r.rows, RowOrder) == r.lastId
  {
    if r.rows == [] {
      ZeroIdIsZero(ID_SIZE);
      SmallMod(0);
    }
  }

  /** The id an index scan ends at is the newest one exactly at safe counts. */
  lemma IndexOrderRestores(r: Registry)
    requires Inv(r) && |r.rows| < LIMIT
    ensures Restored(r.rows, IndexOrder) == r.lastId <==> IndexOrderSafe(|r.rows|)
  {
    var n := |r.rows|;
    if n == 0 {
      ZeroIdIsZero(ID_SIZE);
      SmallMod(0);
    } else if TopDigitOnly(n) {
      ScanEndsAtNewest(r);
    } else {
      ScanEndsElsewhere(r);
    }
  }

  lemma ScanEndsAtNewest(r: Registry)
    requires Inv(r) && 0 < |r.rows| < LIMIT && TopDigitOnly(|r.rows|)
    ensures LexLast(r.rows) == r.lastId
  {
    var n := |r.rows|;
    LexLastIsGreatest(r.rows);
    LastAmongSmaller(n);
    assert r.rows[n - 1].id == r.lastId;
    var k :| 0 <= k < n && r.rows[k].id == LexLast(r.rows);
    LexOfIds(k + 1, n);
    LexLeTotal(LexLast(r.rows), r.lastId);
  }

  lemma ScanEndsElsewhere(r: Registry)
    requires Inv(r) && 0 < |r.rows| < LIMIT && !TopDigitOnly(|r.rows|)
    ensures LexLast(r.rows) != r.lastId
  {
    var n := |r.rows|;
    LexLastIsGreatest(r.rows);
    LastAmongSmaller(n);
    var m: nat :| 0 < m < n && !LexLeNat(m, n);
    LexOfIds(m, n);
    assert r.rows[m - 1].id == NthClientId(m);
  }

  lemma LexOfIds(m: nat, n: nat)
    requires m < LIMIT && n < LIMIT
    ensures LexLe(NthClientId(m), NthClientId(n)) <==> LexLeNat(m, n)
  {
    SmallMod(m);
    SmallMod(n);
    LexOfNumbers(m, n, ID_SIZE);
  }

  /** After a restart the next registration gets an unused id exactly when the
      scan restored the newest id. */
  lemma IndexOrderNextId(r: Registry)
    requires Inv(r) && |r.rows| < LIMIT
    ensures IdExists(r.rows, Add1(Restored(r.rows, IndexOrder))) <==> !IndexOrderSafe(|r.rows|)
  {
    var n := |r.rows|;
    IndexOrderRestores(r);
    if IndexOrderSafe(n) {
      NextIdFresh(r);
    } else {
      NextIsTaken(r);
    }
  }

  lemma NextIsTaken(r: Registry)
    requires Inv(r) && r.rows != [] && LexLast(r.rows) != r.lastId
    ensures IdExists(r.rows, Add1(LexLast(r.rows)))
  {
    LexLastIsGreatest(r.rows);
    var k :| 0 <= k < |r.rows| && r.rows[k].id == LexLast(r.rows);
    if k + 1 == |r.rows| {
      assert false;
    }
    FollowerIsNext(r.rows, k);
  }

  lemma FollowerIsNext(rows: seq<Registered>, k: nat)
    requires k + 1 < |rows|
    requires rows[k].id == NthClientId(k + 1) && rows[k + 1].id == NthClientId(k + 2)
    ensures IdExists(rows, Add1(rows[k].id))
  {
    NthClientIdNext(k + 1);
  }

  /** A row written for a new name keeps all earlier rows exactly when its id is
      not taken. */
  lemma TakenIdReplaces(rows: seq<Registered>, row: Registered)
    requires !NameExists(rows, row.name)
    ensures (exists i :: 0 <= i < |rows| && rows[i] !in InsertOrReplace(rows, row)) <==> IdExists(rows, row.id)
  {
    if IdExists(rows, row.id) {
      var i :| 0 <= i < |rows| && rows[i].id == row.id;
      assert rows[i].name != row.name;
      assert forall k :: 0 <= k < |Without(rows, row.id)| ==> Without(rows, row.id)[k].id != row.id;
      assert rows[i] !in InsertOrReplace(rows, row);
    }
  }

  /** After an index-order restart, registering a new name deletes a client's row
      exactly when the scan did not restore the newest id. */
  lemma IndexOrderReplaces(r: Registry, name: Bytes, publicKey: Bytes)
    requires Inv(r) && |r.rows| < LIMIT && !NameExists(r.rows, Strip(name))
    ensures var end := RegisterStep(Step(r, Restart(IndexOrder)), name, publicKey);
            (exists i :: 0 <= i < |r.rows| && r.rows[i] !in end.rows) <==> !IndexOrderSafe(|r.rows|)
  {
    IndexOrderNextId(r);
    TakenIdReplaces(r.rows, Registered(Add1(Restored(r.rows, IndexOrder)), Strip(name), publicKey));
  }

  /** Up to 15 clients every restart is safe; at 16 it is not. */
  lemma SmallCounts(n: nat)
    ensures n <= 15 ==> IndexOrderSafe(n)
    ensures !IndexOrderSafe(16)
  {
    assert LIMIT == 16 * Pow16(31) && Pow16(31) >= 1;
  }

  lemma StepKeeps(r: Registry, e: Event)
    requires Inv(r) && Safe(r, e)
    ensures Inv(Step(r, e)) && r.rows <= Step(r, e).rows
  {
    match e
    case Register(name, publicKey) => RegisterKeeps(r, name, publicKey);
    case Restart(order) =>
      RowOrderRestores(r);
      if order == IndexOrder {
        IndexOrderRestores(r);
      }
  }

  /** In every run, through any restarts that restore the newest id, client ids
      and names stay pairwise distinct and no registered row ever changes. */
  lemma {:induction false} RunKeeps(r: Registry, events: seq<Event>, end: Registry)
    requires Inv(r) && RunsTo(r, events, end)
    ensures Inv(end) && r.rows <= end.rows
    ensures forall i, j :: 0 <= i < j < |end.rows| ==>
              end.rows[i].id != end.rows[j].id && end.rows[i].name != end.rows[j].name
    decreases |events|
  {
    if events == [] {
      DistinctIds(end);
    } else {
      StepKeeps(r, events[0]);
      RunKeeps(Step(r, events[0]), events[1..], end);
    }
  }

  // ----- runs that register -----

  lemma {:induction false} RunsOn(r: Registry, events: seq<Event>, mid: Registry, e: Event)
    requires RunsTo(r, events, mid) && Safe(mid, e)
    ensures RunsTo(r, events + [e], Step(mid, e))
    decreases |events|
  {
    if events == [] {
      assert [e][1..] == [];
      assert events + [e] == [e];
    } else {
      RunsOn(Step(r, events[0]), events[1..], mid, e);
      assert (events + [e])[1..] == events[1..] + [e];
    }
  }

  /** An id is a name that stripping leaves alone. */
  lemma IdIsName(n: nat)
    ensures Strip(NthClientId(n)) == NthClientId(n)
  {
    var id := NthClientId(n);
    FromNatIsId(n % LIMIT, ID_SIZE);
    assert IsDigit(id[0]) && IsDigit(id[|id| - 1]);
  }

  /** Clients whose names are those of their ids. */
  ghost predicate NamedById(r: Registry)
  {
    forall i :: 0 <= i < |r.rows| ==> r.rows[i].name == NthClientId(i + 1)
  }

  lemma NextNameIsNew(r: Registry)
    requires NamedById(r) && |r.rows| < LIMIT
    ensures !NameExists(r.rows, NthClientId(|r.rows| + 1))
  {
    forall i | 0 <= i < |r.rows|
      ensures r.rows[i].name != NthClientId(|r.rows| + 1)
    {
      NthIdsDiffer(i + 1, |r.rows| + 1);
    }
  }

  lemma OneMoreClient(r: Registry, publicKey: Bytes) returns (e: Event)
    requires Inv(r) && NamedById(r) && |r.rows| < LIMIT
    ensures Safe(r, e) && Inv(Step(r, e)) && NamedById(Step(r, e)) && |Step(r, e).rows| == |r.rows| + 1
  {
    var name := NthClientId(|r.rows| + 1);
    e := Register(name, publicKey);
    IdIsName(|r.rows| + 1);
    NextNameIsNew(r);
    RegisterKeeps(r, name, publicKey);
  }

  /** Every number of clients up to the limit is reached by a run. */
  lemma {:induction false} CountIsReachable(n: nat, publicKey: Bytes) returns (events: seq<Event>, end: Registry)
    requires n <= LIMIT
    ensures RunsTo(EMPTY, events, end) && Inv(end) && |end.rows| == n && NamedById(end)
  {
    if n == 0 {
      EmptyInv();
      events, end := [], EMPTY;
    } else {
      var first, mid := CountIsReachable(n - 1, publicKey);
      var e := OneMoreClient(mid, publicKey);
      RunsOn(EMPTY, first, mid, e);
      events, end := first + [e], Step(mid, e);
    }
  }

  /** For every unsafe count there is a run to that many clients after which an
      index-order restart and one registration delete a client's row. */
  lemma UnsafeCountReplaces(n: nat, publicKey: Bytes)
    returns (events: seq<Event>, r: Registry, name: Bytes, lost: Registered)
    requires n < LIMIT && !IndexOrderSafe(n)
    ensures RunsTo(EMPTY, events, r) && |r.rows| == n && lost in r.rows
    ensures lost !in RegisterStep(Step(r, Restart(IndexOrder)), name, publicKey).rows
  {
    events, r := CountIsReachable(n, publicKey);
    name := NthClientId(n + 1);
    IdIsName(n + 1);
    NextNameIsNew(r);
    IndexOrderReplaces(r, name, publicKey);
    var end := RegisterStep(Step(r, Restart(IndexOrder)), name, publicKey);
    var i :| 0 <= i < n && r.rows[i] !in end.rows;
    lost := r.rows[i];
  }

  lemma RowsDiffer(rows: seq<Registered>, i: nat, j: nat)
    requires i < j < |rows| <= LIMIT
    requires rows[i].id == NthClientId(i + 1) && rows[j].id == NthClientId(j + 1)
    ensures rows[i].id != rows[j].id
  {
    NthIdsDiffer(i + 1, j + 1);
  }

  lemma DistinctIds(r: Registry)
    requires Inv(r)
    ensures forall i, j :: 0 <= i < j < |r.rows| ==> r.rows[i].id != r.rows[j].id
  {
    forall i, j | 0 <= i < j < |r.rows|
      ensures r.rows[i].id != r.rows[j].id
    {
      RowsDiffer(r.rows, i, j);
    }
  }
}
