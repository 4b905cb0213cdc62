/** The allocator of message ids: pages of free low halves, created on demand.
    An id is a page number in its high half and an entry of that page in its
    low half. */
module MessageIds {
  import opened Wrappers
  import opened Bytes

  const PAGE_COUNT := 0xffff
  const PAGE_SIZE := 0xffff

  type Pages = seq<Option<seq<nat>>>

  function Range(n: nat): (r: seq<nat>)
    ensures |r| == n && forall i :: 0 <= i < n ==> r[i] == i
    ensures forall x: nat :: x in r <==> x < n
  {
    var s: seq<nat> := seq(n, i => i);
    assert forall x: nat :: x in s <==> x < n by {
      forall x: nat
        ensures x in s <==> x < n
      {
        if x < n {
          assert s[x] == x;
        }
      }
    }
    s
  }

  /** Page 0 complete, the other pages not created yet. */
  function FirstPage(): (pages: Pages)
    ensures |pages| == PAGE_COUNT
  {
    seq(PAGE_COUNT, p => if p == 0 then Some(Range(PAGE_SIZE)) else None)
  }

  function CreatePage(pages: Pages, page: nat): (created: Pages)
    requires page < |pages|
    ensures |created| == |pages| && created[page].Some?
  {
    if pages[page].None? then pages[page := Some(Range(PAGE_SIZE))] else pages
  }

  /** `list.index` */
  function IndexOf(s: seq<nat>, x: nat): (at: Option<nat>)
    ensures at.None? <==> x !in s
    ensures at.Some? ==> at.value < |s| && s[at.value] == x && x !in s[..at.value]
  {
    if s == [] then None
    else if s[0] == x then Some(0)
    else
      match IndexOf(s[1..], x)
      case None => None
      case Some(i) => assert s[..i + 1] == [s[0]] + s[1..][..i]; Some(i + 1)
  }

  /** The loop body of the sync: the whole id is looked up among low halves. */
  function SyncOne(pages: Pages, id: nat): (synced: Result<Pages>)
    requires |pages| == PAGE_COUNT
    ensures synced.Ok? ==> |synced.value| == PAGE_COUNT
  {
    var page := id / TWO_32;
    if page < PAGE_COUNT then
      var created := CreatePage(pages, page);
      var low := created[page].value;
      match IndexOf(low, id)
      case None => Raised(ValueError)
      case Some(i) => Ok(created[page := Some(low[..i] + low[i + 1..])])
    else
      Ok(pages)
  }

  function Sync(pages: Pages, ids: seq<nat>): (synced: Result<Pages>)
    requires |pages| == PAGE_COUNT
    ensures synced.Ok? ==> |synced.value| == PAGE_COUNT
  {
    if ids == [] then Ok(pages)
    else
      match Sync(pages, ids[..|ids| - 1])
      case Raised(e) => Raised(e)
      case Ok(before) => SyncOne(before, ids[|ids| - 1])
  }

  /** The first page at or after `page` that is not exhausted. */
  function FirstUsable(pages: Pages, page: nat): (p: nat)
    requires page <= |pages|
    ensures page <= p <= |pages|
    ensures forall q :: page <= q < p ==> pages[q] == Some([])
    ensures p < |pages| ==> pages[p] != Some([])
    decreases |pages| - page
  {
    if page < |pages| && pages[page] == Some([]) then FirstUsable(pages, page + 1) else page
  }

  function Allocate(pages: Pages): (taken: Result<(nat, Pages)>)
    requires |pages| == PAGE_COUNT
    ensures taken.Ok? ==> |taken.value.1| == PAGE_COUNT
  {
    var page := FirstUsable(pages, 0);
    if page == PAGE_COUNT then Raised(IndexError)
    else
      var created := CreatePage(pages, page);
      var low := created[page].value;
      Ok((BitOr(page * TWO_32, low[0]), created[page := Some(low[1..])]))
  }

  /** The page lists of one session's allocator, updated in place. */
  class IdSync {
    const freeMessageIds: array<Option<seq<nat>>>

    ghost predicate Valid()
      reads this
    {
      freeMessageIds.Length == PAGE_COUNT
    }

    constructor ()
      ensures Valid() && fresh(freeMessageIds)
      ensures freeMessageIds[..] == FirstPage()
    {
      var pages := new Option<seq<nat>>[PAGE_COUNT](p => None);
      pages[0] := Some(Range(PAGE_SIZE));
      freeMessageIds := pages;
    }

    method CreateFreeMessageIdsPage(page: nat) returns (ok: bool)
      requires Valid()
      modifies freeMessageIds
      ensures ok <==> page < PAGE_COUNT
      ensures freeMessageIds[..] == if ok then CreatePage(old(freeMessageIds[..]), page) else old(freeMessageIds[..])
    {
      ok := page < PAGE_COUNT;
      if ok && freeMessageIds[page].None? {
        freeMessageIds[page] := Some(Range(PAGE_SIZE));
      }
    }

    method SyncFreeMessageIds(ids: seq<nat>) returns (done: Result<()>)
      requires Valid()
      modifies freeMessageIds
      ensures done.Ok? <==> Sync(old(freeMessageIds[..]), ids).Ok?
      ensures done.Ok? ==> freeMessageIds[..] == Sync(old(freeMessageIds[..]), ids).value
      ensures done.Raised? ==> done.error == ValueError
    {
      ghost var start := freeMessageIds[..];
      var i := 0;
      while i < |ids|
        invariant 0 <= i <= |ids|
        invariant Sync(start, ids[..i]) == Ok(freeMessageIds[..])
      {
        ghost var before := freeMessageIds[..];
        assert ids[..i + 1][..i] == ids[..i];
        assert Sync(start, ids[..i + 1]) == SyncOne(before, ids[i]);
        var page := ids[i] / TWO_32;
        var ok := CreateFreeMessageIdsPage(page);
        if ok {
          var low := freeMessageIds[page].value;
          var at := IndexOf(low, ids[i]);
          if at.None? {
            SyncStopsAtFailure(start, ids, i + 1);
            return Raised(ValueError);
          }
          freeMessageIds[page] := Some(low[..at.value] + low[at.value + 1..]);
        }
        i := i + 1;
      }
      assert ids[..i] == ids;
      done := Ok(());
    }

    /** Ok(None) is the source's "no ids left" answer. Running past the last
        page raises IndexError before that answer can be given. */
    method AllocateMessageId() returns (id: Result<Option<nat>>)
      requires Valid()
      modifies freeMessageIds
      ensures id != Ok(None)
      ensures id == (match Allocate(old(freeMessageIds[..]))
                     case Ok(taken) => Ok(Some(taken.0))
                     case Raised(e) => Raised(e))
      ensures freeMessageIds[..] == (match Allocate(old(freeMessageIds[..]))
                                     case Ok(taken) => taken.1
                                     case Raised(_) => old(freeMessageIds[..]))
    {
      ghost var pages := freeMessageIds[..];
      var page := 0;
      while page < PAGE_COUNT && freeMessageIds[page] == Some([])
        invariant 0 <= page <= PAGE_COUNT
        invariant FirstUsable(pages, 0) == FirstUsable(pages, page)
      {
        page := page + 1;
      }
      if page == PAGE_COUNT {
        return Raised(IndexError);
      }
      id := Ok(None);
      var ok := CreateFreeMessageIdsPage(page);
      if ok {
        var low := freeMessageIds[page].value;
        freeMessageIds[page] := Some(low[1..]);
        id := Ok(Some(BitOr(page * TWO_32, low[0])));
      }
    }
  }

  lemma {:induction false} SyncStopsAtFailure(pages: Pages, ids: seq<nat>, n: nat)
    requires |pages| == PAGE_COUNT && n <= |ids|
    requires Sync(pages, ids[..n]).Raised?
    ensures Sync(pages, ids).Raised?
  {
    if n == |ids| {
      assert ids[..n] == ids;
    } else {
      assert ids[..|ids| - 1][..n] == ids[..n];
      SyncStopsAtFailure(pages, ids[..|ids| - 1], n);
    }
  }

  // ----- what the free lists mean -----

  ghost predicate Ascending(s: seq<nat>)
  {
    && (forall i, j :: 0 <= i < j < |s| ==> s[i] < s[j])
    && (forall i :: 0 <= i < |s| ==> s[i] < PAGE_SIZE)
  }

  ghost predicate WellFormed(pages: Pages)
  {
    && |pages| == PAGE_COUNT
    && forall p :: 0 <= p < PAGE_COUNT && pages[p].Some? ==> Ascending(pages[p].value)
  }

  /** An id is free when its low half is on its page, or the page is still to be created. */
  ghost predicate IsFree(pages: Pages, id: nat)
    requires |pages| == PAGE_COUNT
  {
    && id / TWO_32 < PAGE_COUNT
    && id % TWO_32 < PAGE_SIZE
    && (pages[id / TWO_32].None? || id % TWO_32 in pages[id / TWO_32].value)
  }

  lemma CreatePageKeepsFree(pages: Pages, page: nat)
    requires WellFormed(pages) && page < PAGE_COUNT
    ensures WellFormed(CreatePage(pages, page))
    ensures forall id: nat :: IsFree(CreatePage(pages, page), id) <==> IsFree(pages, id)
  {
    assert Ascending(Range(PAGE_SIZE));
  }

  /** Taking one low half off a page takes exactly one id off the free ids. */
  lemma {:induction false} RemoveLow(pages: Pages, page: nat, i: nat)
    requires WellFormed(pages) && page < PAGE_COUNT && pages[page].Some?
    requires i < |pages[page].value|
    ensures var low := pages[page].value;
            var rest := pages[page := Some(low[..i] + low[i + 1..])];
            && WellFormed(rest)
            && forall other: nat :: IsFree(rest, other)
                                    <==> IsFree(pages, other) && other != page * TWO_32 + low[i]
  {
    var low := pages[page].value;
    var without := low[..i] + low[i + 1..];
    assert Ascending(low);
    assert Ascending(without);
    forall x: nat
      ensures x in without <==> x in low && x != low[i]
    {
      if x in low && x != low[i] {
        var j :| 0 <= j < |low| && low[j] == x;
        assert j < i ==> without[j] == x;
        assert j > i ==> without[j - 1] == x;
      }
    }
    var rest := pages[page := Some(without)];
    forall other: nat
      ensures IsFree(rest, other) <==> IsFree(pages, other) && other != page * TWO_32 + low[i]
    {
      if other / TWO_32 == page {
        assert other == page * TWO_32 + other % TWO_32;
      }
    }
  }

  /** `(page << 32) | low` decodes back to its halves. */
  lemma {:induction false} IdHalves(page: nat, low: nat)
    requires low < TWO_32
    ensures BitOr(page * TWO_32, low) == page * TWO_32 + low
    ensures BitOr(page * TWO_32, low) / TWO_32 == page
    ensures BitOr(page * TWO_32, low) % TWO_32 == low
  {
    Pow2Of32();
    BitOrAdds(page, low, 32);
  }

  /** Allocation takes the least free id, and fails only when there is none. */
  lemma {:induction false} AllocateTakesLeast(pages: Pages)
    requires WellFormed(pages)
    ensures match Allocate(pages)
            case Raised(_) => forall id: nat :: !IsFree(pages, id)
            case Ok((id, rest)) =>
              && WellFormed(rest)
              && IsFree(pages, id)
              && (forall other: nat :: IsFree(pages, other) ==> id <= other)
              && (forall other: nat :: IsFree(rest, other) <==> IsFree(pages, other) && other != id)
  {
    var page := FirstUsable(pages, 0);
    if page < PAGE_COUNT {
      var created := CreatePage(pages, page);
      CreatePageKeepsFree(pages, page);
      var low := created[page].value;
      assert Ascending(low);
      IdHalves(page, low[0]);
      RemoveLow(created, page, 0);
      assert low[..0] + low[1..] == low[1..];
      var id := Allocate(pages).value.0;
      assert low[0] in low && IsFree(created, id);
      forall other: nat | IsFree(pages, other)
        ensures id <= other
      {
        LeastOnPage(created, page, other);
      }
    }
  }

  lemma LeastOnPage(pages: Pages, page: nat, other: nat)
    requires WellFormed(pages) && page < PAGE_COUNT
    requires forall q :: 0 <= q < page ==> pages[q] == Some([])
    requires pages[page].Some? && pages[page].value != []
    requires IsFree(pages, other)
    ensures page * TWO_32 + pages[page].value[0] <= other
  {
    var q := other / TWO_32;
    assert other == q * TWO_32 + other % TWO_32;
    assert q >= page;
    assert Ascending(pages[page].value);
  }

  // ----- allocation from an empty table -----

  /** The k-th id handed out, counting from 0. */
  function NthId(k: nat): (id: nat)
  {
    (k / PAGE_SIZE) * TWO_32 + k % PAGE_SIZE
  }

  function NthIds(k: nat): (ids: seq<nat>)
    ensures |ids| == k && forall i :: 0 <= i < k ==> ids[i] == NthId(i)
  {
    if k == 0 then [] else NthIds(k - 1) + [NthId(k - 1)]
  }

  function PageAfter(k: nat, p: nat): Option<seq<nat>>
  {
    if p < k / PAGE_SIZE then Some([])
    else if p == k / PAGE_SIZE && (k == 0 || k % PAGE_SIZE > 0) then Some(Range(PAGE_SIZE)[k % PAGE_SIZE..])
    else None
  }

  function PagesAfter(k: nat): (pages: Pages)
    ensures |pages| == PAGE_COUNT
  {
    seq(PAGE_COUNT, p requires 0 <= p => PageAfter(k, p))
  }

  /** Allocates k ids in a row. */
  function AllocateMany(pages: Pages, k: nat): (run: Result<(seq<nat>, Pages)>)
    requires |pages| == PAGE_COUNT
    ensures run.Ok? ==> |run.value.0| == k && |run.value.1| == PAGE_COUNT
  {
    if k == 0 then Ok(([], pages))
    else
      match AllocateMany(pages, k - 1)
      case Raised(e) => Raised(e)
      case Ok((ids, rest)) =>
        match Allocate(rest)
        case Raised(e) => Raised(e)
        case Ok((id, last)) => Ok((ids + [id], last))
  }

  lemma {:induction false} FirstUsableIs(pages: Pages, from: nat, p: nat)
    requires from <= p <= |pages|
    requires forall q :: from <= q < p ==> pages[q] == Some([])
    requires p < |pages| ==> pages[p] != Some([])
    ensures FirstUsable(pages, from) == p
    decreases p - from
  {
    if from < p {
      FirstUsableIs(pages, from + 1, p);
    }
  }

  lemma {:induction false} AllocateAfter(k: nat)
    requires k < PAGE_COUNT * PAGE_SIZE
    ensures Allocate(PagesAfter(k)) == Ok((NthId(k), PagesAfter(k + 1)))
  {
    var pages := PagesAfter(k);
    var page, low := k / PAGE_SIZE, k % PAGE_SIZE;
    FirstUsableIs(pages, 0, page);
    var created := CreatePage(pages, page);
    assert created[page].value == Range(PAGE_SIZE)[low..];
    IdHalves(page, low);
    assert Range(PAGE_SIZE)[low..][0] == low;
    PagesAdvance(k);
  }

  /** Taking the head off the current page is what one more allocation does. */
  lemma PagesAdvance(k: nat)
    requires k < PAGE_COUNT * PAGE_SIZE
    ensures CreatePage(PagesAfter(k), k / PAGE_SIZE)[k / PAGE_SIZE := Some(Range(PAGE_SIZE)[k % PAGE_SIZE..][1..])]
            == PagesAfter(k + 1)
  {
    var page, low := k / PAGE_SIZE, k % PAGE_SIZE;
    var rest := CreatePage(PagesAfter(k), page)[page := Some(Range(PAGE_SIZE)[low..][1..])];
    assert Range(PAGE_SIZE)[low..][1..] == Range(PAGE_SIZE)[low + 1..];
    NextPlace(k);
    assert low + 1 == PAGE_SIZE ==> Range(PAGE_SIZE)[low + 1..] == [];
    assert rest == PagesAfter(k + 1);
  }

  lemma NextPlace(k: nat)
    ensures var page, low := k / PAGE_SIZE, k % PAGE_SIZE;
            && low < PAGE_SIZE
            && (low + 1 == PAGE_SIZE ==> (k + 1) / PAGE_SIZE == page + 1 && (k + 1) % PAGE_SIZE == 0)
            && (low + 1 < PAGE_SIZE ==> (k + 1) / PAGE_SIZE == page && (k + 1) % PAGE_SIZE == low + 1)
  {
  }

  lemma AllPagesExhausted()
    ensures Allocate(PagesAfter(PAGE_COUNT * PAGE_SIZE)) == Raised(IndexError)
  {
    FirstUsableIs(PagesAfter(PAGE_COUNT * PAGE_SIZE), 0, PAGE_COUNT);
  }

  /** From an empty table the ids are exactly NthId(0), NthId(1), ... until
      every page is exhausted; the next allocation raises IndexError. */
  lemma {:induction false} AllocationSequence(k: nat)
    ensures k <= PAGE_COUNT * PAGE_SIZE ==>
              AllocateMany(FirstPage(), k) == Ok((NthIds(k), PagesAfter(k)))
    ensures k > PAGE_COUNT * PAGE_SIZE ==> AllocateMany(FirstPage(), k) == Raised(IndexError)
  {
    if k == 0 {
      assert Range(PAGE_SIZE)[0..] == Range(PAGE_SIZE);
      assert FirstPage() == PagesAfter(0);
    } else {
      AllocationSequence(k - 1);
      if k <= PAGE_COUNT * PAGE_SIZE {
        AllocateAfter(k - 1);
      } else if k == PAGE_COUNT * PAGE_SIZE + 1 {
        AllPagesExhausted();
      }
    }
  }

  /** The ids of that sequence strictly increase, so none repeats, and each
      decodes to its page and its place on the page. */
  lemma NthIdAscends(j: nat, k: nat)
    requires j < k
    ensures NthId(j) < NthId(k)
    ensures NthId(k) / TWO_32 == k / PAGE_SIZE && NthId(k) % TWO_32 == k % PAGE_SIZE
    ensures NthId(k) == BitOr((k / PAGE_SIZE) * TWO_32, k % PAGE_SIZE)
  {
    IdHalves(k / PAGE_SIZE, k % PAGE_SIZE);
  }

  // ----- allocation after a sync -----

  ghost predicate Distinct(ids: seq<nat>)
  {
    forall i, j :: 0 <= i < j < |ids| ==> ids[i] != ids[j]
  }

  /** The ids the sync can digest: on page 0 (where the whole id is the low
      half), or beyond the last page (which it skips). */
  predicate Syncable(id: nat)
  {
    id < PAGE_SIZE || PAGE_COUNT * TWO_32 <= id
  }

  /** Allocation hands out ids that no later sync can digest: of the ids an
      allocator gives from an empty table, exactly the first 65535 can. */
  lemma UnsyncableIsGiven(k: nat)
    requires k < PAGE_COUNT * PAGE_SIZE
    ensures AllocateMany(FirstPage(), k + 1).Ok? && AllocateMany(FirstPage(), k + 1).value.0[k] == NthId(k)
    ensures Syncable(NthId(k)) <==> k < PAGE_SIZE
    ensures Sync(FirstPage(), [NthId(k)]).Ok? <==> k < PAGE_SIZE
  {
    AllocationSequence(k + 1);
    SyncableAt(k);
    SyncNewSession([NthId(k)]);
    assert NthId(k) in [NthId(k)];
  }

  lemma SyncableAt(k: nat)
    requires k < PAGE_COUNT * PAGE_SIZE
    ensures Syncable(NthId(k)) <==> k < PAGE_SIZE
  {
    var page := k / PAGE_SIZE;
    assert page < PAGE_COUNT;
  }

  lemma {:induction false} SyncOneRemoves(pages: Pages, id: nat)
    requires WellFormed(pages)
    requires id < PAGE_SIZE ==> IsFree(pages, id)
    ensures SyncOne(pages, id).Ok? <==> Syncable(id)
    ensures SyncOne(pages, id).Ok? ==>
              && WellFormed(SyncOne(pages, id).value)
              && forall other: nat :: IsFree(SyncOne(pages, id).value, other) <==> IsFree(pages, other) && other != id
  {
    var page := id / TWO_32;
    if page < PAGE_COUNT {
      var created := CreatePage(pages, page);
      CreatePageKeepsFree(pages, page);
      var low := created[page].value;
      assert Ascending(low);
      if id < PAGE_SIZE {
        assert page == 0 && id % TWO_32 == id;
        assert IsFree(created, id);
        RemoveLow(created, 0, IndexOf(low, id).value);
      } else {
        assert id !in low;
      }
    } else {
      assert PAGE_COUNT * TWO_32 <= id;
      forall other: nat | IsFree(pages, other)
        ensures other != id
      {
      }
    }
  }

  /** Sync succeeds exactly when every stored id is syncable, and then the free
      ids are exactly those not stored. */
  lemma {:induction false} SyncIsComplement(pages: Pages, ids: seq<nat>)
    requires WellFormed(pages) && Distinct(ids)
    requires forall id: nat :: id in ids && id < PAGE_SIZE ==> IsFree(pages, id)
    ensures Sync(pages, ids).Ok? <==> forall id: nat :: id in ids ==> Syncable(id)
    ensures Sync(pages, ids).Ok? ==>
              && WellFormed(Sync(pages, ids).value)
              && forall other: nat :: IsFree(Sync(pages, ids).value, other) <==> IsFree(pages, other) && other !in ids
  {
    if ids != [] {
      var front, last := ids[..|ids| - 1], ids[|ids| - 1];
      assert ids == front + [last];
      SyncIsComplement(pages, front);
      if Sync(pages, front).Ok? {
        SyncOneRemoves(Sync(pages, front).value, last);
      } else {
        var bad :| bad in front && !Syncable(bad);
        assert bad in ids;
      }
    }
  }

  lemma FirstPageIsAllFree()
    ensures WellFormed(FirstPage())
    ensures forall id: nat :: IsFree(FirstPage(), id) <==> id / TWO_32 < PAGE_COUNT && id % TWO_32 < PAGE_SIZE
  {
    assert Ascending(Range(PAGE_SIZE));
  }

  /** A new session's allocator over a table with these ids. */
  lemma {:induction false} SyncNewSession(ids: seq<nat>)
    requires Distinct(ids)
    ensures Sync(FirstPage(), ids).Ok? <==> forall id: nat :: id in ids ==> Syncable(id)
    ensures Sync(FirstPage(), ids).Ok? ==>
              && WellFormed(Sync(FirstPage(), ids).value)
              && forall id: nat :: IsFree(Sync(FirstPage(), ids).value, id)
                              <==> id / TWO_32 < PAGE_COUNT && id % TWO_32 < PAGE_SIZE && id !in ids
  {
    FirstPageIsAllFree();
    SyncIsComplement(FirstPage(), ids);
  }

  // ----- one inserting session, arbitrary deletes -----

  datatype TableEvent = InsertNext | Delete(id: nat)

  /** Runs inserts of this allocator and deletes of anybody against the primary key. */
  function RunEvents(pages: Pages, table: set<nat>, events: seq<TableEvent>): (end: Result<(Pages, set<nat>)>)
    requires |pages| == PAGE_COUNT
    decreases |events|
  {
    if events == [] then Ok((pages, table))
    else
      match events[0]
      case Delete(id) => RunEvents(pages, table - {id}, events[1..])
      case InsertNext =>
        match Allocate(pages)
        case Raised(e) => Raised(e)
        case Ok((id, rest)) =>
          if id in table then Raised(IntegrityError)
          else RunEvents(rest, table + {id}, events[1..])
  }

  /** Every id a sole inserter hands out is absent from the table: the primary
      key is never violated, whatever is deleted in between. */
  lemma {:induction false} SoleInserterNeverCollides(pages: Pages, table: set<nat>, events: seq<TableEvent>)
    requires WellFormed(pages)
    requires forall id: nat :: IsFree(pages, id) ==> id !in table
    ensures RunEvents(pages, table, events) != Raised(IntegrityError)
    ensures RunEvents(pages, table, events).Raised? ==> RunEvents(pages, table, events).error == IndexError
    decreases |events|
  {
    if events != [] {
      match events[0]
      case Delete(id) =>
        SoleInserterNeverCollides(pages, table - {id}, events[1..]);
      case InsertNext =>
        AllocateTakesLeast(pages);
        if Allocate(pages).Ok? {
          var (id, rest) := Allocate(pages).value;
          SoleInserterNeverCollides(rest, table + {id}, events[1..]);
        }
    }
  }
}
