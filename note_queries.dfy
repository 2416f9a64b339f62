/** The queries NoteService runs against the notes table, as functions over
    the table's rows in storage order, and what they are proved to return. */
module NoteQueries {
  import opened Wrappers
  import opened Notes

  // ---------------------------------------------------------------------
  // Lookup by primary key (DbSet.FindAsync)
  // ---------------------------------------------------------------------

  /** The keys present in the table. */
  function Ids(notes: seq<Note>): set<Guid> {
    set n | n in notes :: n.id
  }

  /** The primary-key constraint: no two rows share an id. */
  ghost predicate UniqueIds(notes: seq<Note>) {
    forall i, j :: 0 <= i < j < |notes| ==> notes[i].id != notes[j].id
  }

  /** Position of the first row stored under id. */
  function IndexOf(notes: seq<Note>, id: Guid): (r: Option<nat>)
    ensures r.Some? ==> r.value < |notes| && notes[r.value].id == id
    ensures r.Some? ==> forall j :: 0 <= j < r.value ==> notes[j].id != id
    ensures r.None? <==> id !in Ids(notes)
  {
    if notes == [] then None
    else if notes[0].id == id then Some(0)
    else
      assert Ids(notes) == {notes[0].id} + Ids(notes[1..]) by {
        assert notes == [notes[0]] + notes[1..];
      }
      match IndexOf(notes[1..], id)
      case None => None
      case Some(i) => Some(i + 1)
  }

  /** The row stored under id, if any. */
  function Find(notes: seq<Note>, id: Guid): (r: Option<Note>)
    ensures r.Some? ==> r.value in notes && r.value.id == id
    ensures r.None? <==> id !in Ids(notes)
  {
    match IndexOf(notes, id)
    case None => None
    case Some(i) => Some(notes[i])
  }

  /** The first row carrying id is the one IndexOf reports. */
  lemma IndexOfFirst(notes: seq<Note>, id: Guid, k: nat)
    requires k < |notes| && notes[k].id == id
    requires forall j :: 0 <= j < k ==> notes[j].id != id
    ensures IndexOf(notes, id) == Some(k)
  {
    assert notes[k] in notes;
  }

  /** With unique keys, every row is found under its own id. */
  lemma FindAt(notes: seq<Note>, i: nat)
    requires UniqueIds(notes) && i < |notes|
    ensures Find(notes, notes[i].id) == Some(notes[i])
  {
    IndexOfFirst(notes, notes[i].id, i);
  }

  lemma IdsAppend(notes: seq<Note>, n: Note)
    ensures Ids(notes + [n]) == Ids(notes) + {n.id}
  {
    assert forall m :: m in notes + [n] <==> m in notes || m == n;
  }

  /** Adding a row under a fresh key adds exactly that key and leaves every
      other lookup as it was. */
  lemma FindAppend(notes: seq<Note>, n: Note)
    requires UniqueIds(notes) && n.id !in Ids(notes)
    ensures UniqueIds(notes + [n])
    ensures forall id :: Find(notes + [n], id) == if id == n.id then Some(n) else Find(notes, id)
  {
    var t := notes + [n];
    forall i | 0 <= i < |notes| ensures notes[i].id != n.id {
      assert notes[i] in notes;
    }
    forall id ensures Find(t, id) == if id == n.id then Some(n) else Find(notes, id) {
      IdsAppend(notes, n);
      if id in Ids(notes) {
        var k := IndexOf(notes, id).value;
        IndexOfFirst(t, id, k);
      } else if id == n.id {
        IndexOfFirst(t, id, |notes|);
      }
    }
  }

  /** Overwriting a row with one under the same key changes the lookup of
      that key and no other. */
  lemma FindReplace(notes: seq<Note>, i: nat, m: Note)
    requires UniqueIds(notes) && i < |notes| && m.id == notes[i].id
    ensures UniqueIds(notes[i := m])
    ensures forall id :: Find(notes[i := m], id) == if id == m.id then Some(m) else Find(notes, id)
  {
    var t := notes[i := m];
    forall id ensures Find(t, id) == if id == m.id then Some(m) else Find(notes, id) {
      if id == m.id {
        FindAt(t, i);
      } else if id in Ids(notes) {
        var k := IndexOf(notes, id).value;
        IndexOfFirst(t, id, k);
      } else {
        assert id !in Ids(t) by {
          forall x | x in t ensures x.id != id {
            var j :| 0 <= j < |t| && t[j] == x;
            assert j != i ==> notes[j] in notes;
          }
        }
      }
    }
  }

  /** Removing the row at i removes its key and leaves every other lookup as
      it was. */
  lemma FindRemove(notes: seq<Note>, i: nat)
    requires UniqueIds(notes) && i < |notes|
    ensures UniqueIds(notes[..i] + notes[i + 1..])
    ensures forall id :: Find(notes[..i] + notes[i + 1..], id) ==
                         if id == notes[i].id then None else Find(notes, id)
  {
    RemovedRows(notes, i);
    forall id ensures Find(notes[..i] + notes[i + 1..], id) ==
                      if id == notes[i].id then None else Find(notes, id) {
      FindRemoveOne(notes, i, id);
    }
  }

  lemma RemovedRows(notes: seq<Note>, i: nat)
    requires i < |notes|
    ensures var t := notes[..i] + notes[i + 1..];
            && |t| == |notes| - 1
            && forall j :: 0 <= j < |t| ==> t[j] == if j < i then notes[j] else notes[j + 1]
  {
  }

  lemma FindRemoveOne(notes: seq<Note>, i: nat, id: Guid)
    requires UniqueIds(notes) && i < |notes|
    ensures Find(notes[..i] + notes[i + 1..], id) == if id == notes[i].id then None else Find(notes, id)
  {
    if id == notes[i].id {
      RemovedKeyAbsent(notes, i);
    } else if id in Ids(notes) {
      RemoveKeepsPresent(notes, i, id);
    } else {
      RemoveKeepsAbsent(notes, i, id);
    }
  }

  lemma RemovedKeyAbsent(notes: seq<Note>, i: nat)
    requires UniqueIds(notes) && i < |notes|
    ensures notes[i].id !in Ids(notes[..i] + notes[i + 1..])
  {
    var t := notes[..i] + notes[i + 1..];
    RemovedRows(notes, i);
    forall x | x in t ensures x.id != notes[i].id {
      var j :| 0 <= j < |t| && t[j] == x;
    }
  }

  lemma RemoveKeepsPresent(notes: seq<Note>, i: nat, id: Guid)
    requires i < |notes| && id != notes[i].id && id in Ids(notes)
    ensures Find(notes[..i] + notes[i + 1..], id) == Find(notes, id)
  {
    var t := notes[..i] + notes[i + 1..];
    RemovedRows(notes, i);
    var k := IndexOf(notes, id).value;
    IndexOfFirst(t, id, if k < i then k else k - 1);
  }

  lemma RemoveKeepsAbsent(notes: seq<Note>, i: nat, id: Guid)
    requires i < |notes| && id !in Ids(notes)
    ensures id !in Ids(notes[..i] + notes[i + 1..])
  {
    var t := notes[..i] + notes[i + 1..];
    RemovedRows(notes, i);
    forall x | x in t ensures x.id != id {
      var j :| 0 <= j < |t| && t[j] == x;
      assert (if j < i then notes[j] else notes[j + 1]) in notes;
    }
  }

  // ---------------------------------------------------------------------
  // Where, OrderByDescending(n => n.LastUpdated), Skip, Take
  // ---------------------------------------------------------------------

  /** Enumerable.Where: the rows satisfying p, in their original order. */
  function Filter(s: seq<Note>, p: Note -> bool): (r: seq<Note>)
    ensures forall n :: multiset(r)[n] == if p(n) then multiset(s)[n] else 0
  {
    if s == [] then []
    else
      assert s == [s[0]] + s[1..];
      var rest := Filter(s[1..], p);
      if p(s[0]) then [s[0]] + rest else rest
  }

  ghost predicate SortedByLastUpdatedDesc(s: seq<Note>) {
    forall i, j :: 0 <= i < j < |s| ==> s[i].lastUpdated >= s[j].lastUpdated
  }

  /** Places n before the first row that is not more recent than it. */
  function InsertByLastUpdatedDesc(n: Note, s: seq<Note>): (r: seq<Note>)
    ensures multiset(r) == multiset(s) + multiset{n}
  {
    if s == [] || s[0].lastUpdated <= n.lastUpdated then [n] + s
    else
      assert s == [s[0]] + s[1..];
      [s[0]] + InsertByLastUpdatedDesc(n, s[1..])
  }

  /** No row of s is more recent than bound. */
  ghost predicate NoneAfter(s: seq<Note>, bound: Timestamp) {
    forall k :: 0 <= k < |s| ==> s[k].lastUpdated <= bound
  }

  /** Inserting into a newest-first sequence keeps it newest first. */
  lemma {:induction false} InsertKeepsOrder(n: Note, s: seq<Note>)
    requires SortedByLastUpdatedDesc(s)
    ensures SortedByLastUpdatedDesc(InsertByLastUpdatedDesc(n, s))
  {
    if s != [] && s[0].lastUpdated > n.lastUpdated {
      assert NoneAfter(s[1..], s[0].lastUpdated);
      InsertKeepsOrder(n, s[1..]);
      InsertKeepsBound(n, s[1..], s[0].lastUpdated);
      ConsKeepsOrder(s[0], InsertByLastUpdatedDesc(n, s[1..]));
    }
  }

  lemma InsertKeepsBound(n: Note, s: seq<Note>, bound: Timestamp)
    requires NoneAfter(s, bound) && n.lastUpdated <= bound
    ensures NoneAfter(InsertByLastUpdatedDesc(n, s), bound)
  {
    var r := InsertByLastUpdatedDesc(n, s);
    forall k | 0 <= k < |r| ensures r[k].lastUpdated <= bound {
      assert r[k] in multiset(r);
      if r[k] != n {
        assert r[k] in s;
      }
    }
  }

  lemma ConsKeepsOrder(x: Note, s: seq<Note>)
    requires SortedByLastUpdatedDesc(s) && NoneAfter(s, x.lastUpdated)
    ensures SortedByLastUpdatedDesc([x] + s)
  {
    var r := [x] + s;
    forall i, j | 0 <= i < j < |r| ensures r[i].lastUpdated >= r[j].lastUpdated {
      assert r[j] == s[j - 1];
      if i > 0 {
        assert r[i] == s[i - 1];
      }
    }
  }

  /** OrderByDescending(n => n.LastUpdated): a stable insertion sort, so rows
      with equal timestamps keep their storage order. */
  function SortByLastUpdatedDesc(s: seq<Note>): (r: seq<Note>)
    ensures multiset(r) == multiset(s)
    ensures SortedByLastUpdatedDesc(r)
  {
    if s == [] then []
    else
      assert s == [s[0]] + s[1..];
      InsertKeepsOrder(s[0], SortByLastUpdatedDesc(s[1..]));
      InsertByLastUpdatedDesc(s[0], SortByLastUpdatedDesc(s[1..]))
  }

  /** Queryable.Skip as the in-memory provider evaluates it, with the
      meaning of Enumerable.Skip: a count of zero or less skips nothing. */
  function Skip(s: seq<Note>, count: int): seq<Note> {
    if count <= 0 then s else if count >= |s| then [] else s[count..]
  }

  /** Queryable.Take as the in-memory provider evaluates it, with the
      meaning of Enumerable.Take: a count of zero or less takes nothing. */
  function Take(s: seq<Note>, count: int): seq<Note> {
    if count <= 0 then [] else if count >= |s| then s else s[..count]
  }

  // ---------------------------------------------------------------------
  // GetAllAsync: scope, filter, count, order, page
  // ---------------------------------------------------------------------

  /** A row the listing of userId with this category filter selects: the
      user's own rows, and when the filter is neither null nor empty only
      those whose category equals it exactly. */
  predicate Selected(n: Note, userId: Guid, category: Option<string>) {
    n.userId == userId && (IsNullOrEmpty(category) || n.category == category)
  }

  /** The two Where clauses of GetAllAsync, in their order. */
  function Matching(notes: seq<Note>, userId: Guid, category: Option<string>): seq<Note> {
    var owned := Filter(notes, (n: Note) => n.userId == userId);
    if IsNullOrEmpty(category) then owned
    else Filter(owned, (n: Note) => n.category.Some? && n.category == category)
  }

  /** The selected rows, newest first: the sequence the listing pages. */
  function Newest(notes: seq<Note>, userId: Guid, category: Option<string>): seq<Note> {
    SortByLastUpdatedDesc(Matching(notes, userId, category))
  }

  /** C# unchecked int arithmetic: the int32 congruent to x modulo 2^32. */
  function Wrap32(x: int): (r: int32)
    ensures -0x8000_0000 <= x < 0x8000_0000 ==> r as int == x
  {
    var m := x % 0x1_0000_0000;
    if m < 0x8000_0000 then m as int32 else (m - 0x1_0000_0000) as int32
  }

  /** The Skip argument (PageNumber - 1) * PageSize, evaluated in unchecked
      int arithmetic. */
  function SkipOffset(pageNumber: int32, pageSize: int32): int32 {
    Wrap32(Wrap32(pageNumber as int - 1) as int * pageSize as int)
  }

  /** The result of the listing: the selected rows newest first, skipping
      offset of them and taking pageSize, the count of all selected rows,
      and the page parameters echoed. */
  function Page(notes: seq<Note>, userId: Guid, category: Option<string>,
                pageNumber: int32, pageSize: int32, offset: int): PagedResult
  {
    PagedResult(Take(Skip(Newest(notes, userId, category), offset), pageSize as int),
                |Matching(notes, userId, category)|, pageNumber, pageSize)
  }

  /** The page the listing as written returns for page parameters already
      normalised, with the offset wrapped. */
  function QueryPage(notes: seq<Note>, userId: Guid, category: Option<string>,
                     pageNumber: int32, pageSize: int32): PagedResult
  {
    Page(notes, userId, category, pageNumber, pageSize, SkipOffset(pageNumber, pageSize) as int)
  }

  /** Matching keeps, with their multiplicities, exactly the selected rows. */
  lemma MatchingCounts(notes: seq<Note>, userId: Guid, category: Option<string>)
    ensures forall n :: multiset(Matching(notes, userId, category))[n] ==
                        if Selected(n, userId, category) then multiset(notes)[n] else 0
  {
  }

  /** Skip then Take is the window of s starting at max(0, offset). */
  lemma {:induction false} WindowAt(s: seq<Note>, offset: int, size: int)
    ensures var w := Take(Skip(s, offset), size);
            var start := if offset <= 0 then 0 else offset;
            && |w| == (if size <= 0 || start >= |s| then 0
                       else if size < |s| - start then size else |s| - start)
            && forall k :: 0 <= k < |w| ==> w[k] == s[start + k]
  {
  }

  /** A window keeps only rows of s, keeps them in order, and holds at most
      size of them. */
  lemma WindowOf(s: seq<Note>, offset: int, size: int)
    ensures var w := Take(Skip(s, offset), size);
            && (forall x :: x in w ==> x in s)
            && (SortedByLastUpdatedDesc(s) ==> SortedByLastUpdatedDesc(w))
            && |w| <= (if size <= 0 then 0 else size)
  {
    WindowAt(s, offset, size);
  }

  /** The rows Matching keeps are exactly the selected rows of the table. */
  lemma MatchingMembers(notes: seq<Note>, userId: Guid, category: Option<string>)
    ensures forall n :: n in Matching(notes, userId, category) <==> n in notes && Selected(n, userId, category)
  {
    MatchingCounts(notes, userId, category);
    forall n ensures n in Matching(notes, userId, category) <==> n in notes && Selected(n, userId, category) {
      assert n in Matching(notes, userId, category) <==> multiset(Matching(notes, userId, category))[n] > 0;
      assert n in notes <==> multiset(notes)[n] > 0;
    }
  }

  /** Every item of a page is a row of the table that the listing selects,
      the items are newest first, there are at most PageSize of them, and
      the page parameters are echoed, whatever the offset. */
  lemma PageItems(notes: seq<Note>, userId: Guid, category: Option<string>,
                  pageNumber: int32, pageSize: int32, offset: int)
    ensures var r := Page(notes, userId, category, pageNumber, pageSize, offset);
            && (forall n :: n in r.items ==> n in notes && Selected(n, userId, category))
            && SortedByLastUpdatedDesc(r.items)
            && |r.items| <= (if pageSize <= 0 then 0 else pageSize as int)
            && r.pageNumber == pageNumber && r.pageSize == pageSize
  {
    var filtered := Matching(notes, userId, category);
    var ordered := SortByLastUpdatedDesc(filtered);
    WindowOf(ordered, offset, pageSize as int);
    MatchingMembers(notes, userId, category);
    forall n | n in ordered ensures n in filtered {
      assert n in multiset(ordered);
    }
  }

  /** TotalCount is the number of rows the listing selects, before paging:
      with unique keys, the size of the set of selected rows. */
  lemma PageTotalCount(notes: seq<Note>, userId: Guid, category: Option<string>,
                       pageNumber: int32, pageSize: int32, offset: int)
    requires UniqueIds(notes)
    ensures Page(notes, userId, category, pageNumber, pageSize, offset).totalCount ==
            |set n | n in notes && Selected(n, userId, category)|
  {
    var filtered := Matching(notes, userId, category);
    var sel := set n | n in notes && Selected(n, userId, category);
    MatchingCounts(notes, userId, category);
    DistinctRows(notes);
    assert forall n :: multiset(filtered)[n] == if n in sel then 1 else 0;
    MultisetOfSet(filtered, sel);
  }

  /** With unique keys, every row occurs once. */
  lemma DistinctRows(notes: seq<Note>)
    requires UniqueIds(notes)
    ensures forall n :: n in notes ==> multiset(notes)[n] == 1
  {
    forall n | n in notes ensures multiset(notes)[n] == 1 {
      var i :| 0 <= i < |notes| && notes[i] == n;
      OccursOnce(notes, i);
    }
  }

  lemma {:induction false} OccursOnce(notes: seq<Note>, i: nat)
    requires UniqueIds(notes) && i < |notes|
    ensures multiset(notes)[notes[i]] == 1
  {
    assert notes == [notes[0]] + notes[1..];
    if i == 0 {
      assert notes[0] !in notes[1..] by {
        forall j | 0 <= j < |notes| - 1 ensures notes[1..][j] != notes[0] {
          assert notes[j + 1].id != notes[0].id;
        }
      }
    } else {
      OccursOnce(notes[1..], i - 1);
      assert notes[0].id != notes[i].id;
    }
  }

  /** A sequence in which each member of a set occurs once and nothing else
      occurs is as long as the set is large. */
  lemma {:induction false} MultisetOfSet(s: seq<Note>, u: set<Note>)
    requires forall n :: multiset(s)[n] == if n in u then 1 else 0
    ensures |s| == |u|
    decreases |s|
  {
    if s != [] {
      var x := s[|s| - 1];
      var init := s[..|s| - 1];
      assert s == init + [x];
      assert multiset(s) == multiset(init) + multiset{x};
      MultisetOfSet(init, u - {x});
    } else {
      assert forall n :: n !in u by {
        forall n ensures n !in u {
          assert multiset(s)[n] == 0;
        }
      }
      assert u == {};
    }
  }

  /** The page size GetAllAsync queries with after its two guards: a size of
      zero or less becomes 10, and then a page number of zero or less sets
      the SIZE to 1. The page number itself is never changed. */
  function NormalizedPageSize(pageNumber: int32, pageSize: int32): int32 {
    if pageNumber <= 0 then 1 else if pageSize <= 0 then 10 else pageSize
  }

  /** Whatever the request, the listing queries with a positive page size,
      and a valid page size of a valid page is kept. */
  lemma NormalizedPageSizeBounds(pageNumber: int32, pageSize: int32)
    ensures 1 <= NormalizedPageSize(pageNumber, pageSize)
    ensures pageNumber >= 1 && pageSize >= 1 ==> NormalizedPageSize(pageNumber, pageSize) == pageSize
    ensures pageNumber >= 1 && pageSize <= 0 ==> NormalizedPageSize(pageNumber, pageSize) == 10
    ensures pageNumber <= 0 ==> NormalizedPageSize(pageNumber, pageSize) == 1
  {
  }

  /** GetAllAsync as written, from the request's raw page parameters: the
      two guards, then the listing with the wrapped offset. The result
      echoes the request as the guards leave it, the page number unchanged
      and the size normalised. */
  function AsWrittenQueryPage(notes: seq<Note>, userId: Guid, category: Option<string>,
                              pageNumber: int32, pageSize: int32): (r: PagedResult)
    ensures r.pageNumber == pageNumber && r.pageSize == NormalizedPageSize(pageNumber, pageSize)
  {
    QueryPage(notes, userId, category, pageNumber, NormalizedPageSize(pageNumber, pageSize))
  }

  /** For page 1 and up, and an offset that fits an int, the page is the
      window of the newest-first rows that starts at (pageNumber - 1) *
      pageSize and holds up to pageSize rows. */
  lemma QueryPageWindow(notes: seq<Note>, userId: Guid, category: Option<string>,
                        pageNumber: int32, pageSize: int32, start: nat)
    requires pageNumber >= 1 && pageSize >= 1
    requires start == (pageNumber as int - 1) * pageSize as int <= Int32Max as int
    ensures var r := QueryPage(notes, userId, category, pageNumber, pageSize);
            var ordered := Newest(notes, userId, category);
            && |r.items| == (if start >= |ordered| then 0
                             else if pageSize as int < |ordered| - start then pageSize as int
                             else |ordered| - start)
            && forall k :: 0 <= k < |r.items| ==> start + k < |ordered| && r.items[k] == ordered[start + k]
  {
    var ordered := Newest(notes, userId, category);
    OffsetWithoutWrap(pageNumber, pageSize);
    WindowAt(ordered, start, pageSize as int);
  }

  /** An offset that fits an int is not wrapped. */
  lemma OffsetWithoutWrap(pageNumber: int32, pageSize: int32)
    requires pageNumber >= 1 && pageSize >= 1
    requires (pageNumber as int - 1) * pageSize as int <= Int32Max as int
    ensures 0 <= (pageNumber as int - 1) * pageSize as int
    ensures SkipOffset(pageNumber, pageSize) as int == (pageNumber as int - 1) * pageSize as int
  {
    var a := pageNumber as int - 1;
    var b := pageSize as int;
    MulNonNegative(a, b);
    assert Wrap32(a) as int == a;
  }

  lemma MulNonNegative(a: int, b: int)
    requires 0 <= a && 0 <= b
    ensures 0 <= a * b
  {
  }

  /** As written, page 0 with page size -5 (the request of
      NoteServiceTests.cs:446-478) is queried with page size 1, not 10, and
      reports page number 0: a table holding one of the user's rows still
      gives that one row. */
  lemma InvalidPagingAsWritten(notes: seq<Note>, userId: Guid, category: Option<string>)
    requires |Matching(notes, userId, category)| == 1
    ensures var r := AsWrittenQueryPage(notes, userId, category, 0, -5);
            && r.pageNumber == 0 && r.pageSize == 1 && r.pageSize != 10
            && r.items == Newest(notes, userId, category)
  {
    var ordered := Newest(notes, userId, category);
    assert |ordered| == |multiset(ordered)|;
    MinPageOffset();
    WindowAt(ordered, SkipOffset(0, 1) as int, 1);
  }

  /** As written, the offset wraps: page 1073741825 of size 4 skips
      (2^30 * 4) mod 2^32 = 0 rows and repeats page 1. */
  lemma FarPageRepeatsFirstPage(notes: seq<Note>, userId: Guid, category: Option<string>)
    ensures AsWrittenQueryPage(notes, userId, category, 0x4000_0001, 4).items ==
            AsWrittenQueryPage(notes, userId, category, 1, 4).items
  {
    assert SkipOffset(0x4000_0001, 4) == 0;
    assert SkipOffset(1, 4) == 0;
  }

  /** As written, page int.MinValue (its size normalised to 1) wraps to an
      offset of int.MaxValue and comes back empty, while page 0 gives the
      newest row. */
  lemma MinPageNumberSkipsEverything(notes: seq<Note>, userId: Guid, category: Option<string>)
    requires 0 < |Matching(notes, userId, category)| <= Int32Max as int
    ensures AsWrittenQueryPage(notes, userId, category, Int32Min, 10).items == []
    ensures AsWrittenQueryPage(notes, userId, category, 0, 10).items == [Newest(notes, userId, category)[0]]
  {
    var ordered := Newest(notes, userId, category);
    assert |ordered| == |multiset(ordered)|;
    MinPageOffset();
    WindowAt(ordered, SkipOffset(0, 1) as int, 1);
  }

  /** The wrapped offsets of page int.MinValue and of page 0, size 1. */
  lemma MinPageOffset()
    ensures SkipOffset(Int32Min, 1) == Int32Max
    ensures SkipOffset(0, 1) == -1
  {
    assert Wrap32(Int32Min as int - 1) == Int32Max;
  }

  /** The normalisation the two guards evidently intend: a page number of
      zero or less becomes 1, a page size of zero or less becomes 10. */
  function IntendedPaging(pageNumber: int32, pageSize: int32): (r: (int32, int32))
    ensures r.0 >= 1 && r.1 >= 1
    ensures pageNumber >= 1 ==> r.0 == pageNumber
    ensures pageSize >= 1 ==> r.1 == pageSize
    ensures pageNumber <= 0 ==> r.0 == 1
    ensures pageSize <= 0 ==> r.1 == 10
  {
    (if pageNumber <= 0 then 1 else pageNumber, if pageSize <= 0 then 10 else pageSize)
  }

  /** The number of rows before page pageNumber, computed without overflow. */
  function PageStart(pageNumber: int32, pageSize: int32): int {
    (pageNumber as int - 1) * pageSize as int
  }

  /** The listing as evidently intended: normalised by IntendedPaging, with
      the offset computed without overflow. */
  function IntendedQueryPage(notes: seq<Note>, userId: Guid, category: Option<string>,
                             pageNumber: int32, pageSize: int32): PagedResult
  {
    var pn := IntendedPaging(pageNumber, pageSize).0;
    var ps := IntendedPaging(pageNumber, pageSize).1;
    Page(notes, userId, category, pn, ps, PageStart(pn, ps))
  }

  /** The intended listing answers the request of NoteServiceTests.cs:446-478
      as that test expects: page size 10, and the user's one row. */
  lemma IntendedPagingMatchesTest(notes: seq<Note>, userId: Guid, category: Option<string>)
    requires |Matching(notes, userId, category)| == 1
    ensures var r := IntendedQueryPage(notes, userId, category, 0, -5);
            r.pageNumber == 1 && r.pageSize == 10 && |r.items| == 1
    ensures IntendedQueryPage(notes, userId, category, 0, -5).items == Newest(notes, userId, category)
  {
    var ordered := Newest(notes, userId, category);
    assert |ordered| == |multiset(ordered)|;
    WindowAt(ordered, 0, 10);
  }

  /** The intended pages tile the newest-first rows: the row at position k
      of that order is item pos of page pageNumber whenever k ==
      (pageNumber - 1) * pageSize + pos with pos < pageSize. */
  lemma IntendedPagesTile(notes: seq<Note>, userId: Guid, category: Option<string>,
                          pageNumber: int32, pageSize: int32, pos: nat, k: nat)
    requires pageNumber >= 1 && pageSize >= 1 && pos < pageSize as int
    requires k == PageStart(pageNumber, pageSize) + pos
    requires k < |Newest(notes, userId, category)|
    ensures var ordered := Newest(notes, userId, category);
            var r := IntendedQueryPage(notes, userId, category, pageNumber, pageSize);
            pos < |r.items| && r.items[pos] == ordered[k]
  {
    PageStartNonNegative(pageNumber, pageSize);
    WindowPosition(Newest(notes, userId, category), PageStart(pageNumber, pageSize), pageSize as int, pos);
  }

  lemma WindowPosition(s: seq<Note>, start: int, size: int, pos: nat)
    requires 0 <= start && pos < size && start + pos < |s|
    ensures pos < |Take(Skip(s, start), size)| && Take(Skip(s, start), size)[pos] == s[start + pos]
  {
  }

  lemma PageStartNonNegative(pageNumber: int32, pageSize: int32)
    requires pageNumber >= 1 && pageSize >= 1
    ensures PageStart(pageNumber, pageSize) >= 0
  {
    MulNonNegative(pageNumber as int - 1, pageSize as int);
  }

  // ---------------------------------------------------------------------
  // GetCategoriesAsync: Where, Select(n => n.Category!), Distinct
  // ---------------------------------------------------------------------

  /** The categories of the rows of userId whose category is neither null
      nor empty, in storage order, repeats included. */
  function CategoryValues(notes: seq<Note>, userId: Guid): seq<string> {
    if notes == [] then []
    else
      var rest := CategoryValues(notes[1..], userId);
      if !IsNullOrEmpty(notes[0].category) && notes[0].userId == userId
      then [notes[0].category.value] + rest
      else rest
  }

  /** Enumerable.Distinct: the first occurrence of each value, in order. */
  function Distinct(s: seq<string>): (r: seq<string>)
    ensures forall c :: c in r <==> c in s
    ensures forall i, j :: 0 <= i < j < |r| ==> r[i] != r[j]
  {
    if s == [] then []
    else
      var last := s[|s| - 1];
      assert s == s[..|s| - 1] + [last];
      var d := Distinct(s[..|s| - 1]);
      if last in d then d else d + [last]
  }

  /** The category list GetCategoriesAsync returns for userId. */
  function CategoriesOf(notes: seq<Note>, userId: Guid): seq<string> {
    Distinct(CategoryValues(notes, userId))
  }

  /** userId owns a row whose category is exactly c, and c is not empty. */
  ghost predicate UsesCategory(notes: seq<Note>, userId: Guid, c: string) {
    c != "" && exists n :: n in notes && n.userId == userId && n.category == Some(c)
  }

  lemma {:induction false} CategoryValuesExact(notes: seq<Note>, userId: Guid, c: string)
    ensures c in CategoryValues(notes, userId) <==> UsesCategory(notes, userId, c)
  {
    if notes != [] {
      CategoryValuesExact(notes[1..], userId, c);
      assert notes == [notes[0]] + notes[1..];
      assert forall n :: n in notes <==> n == notes[0] || n in notes[1..];
    }
  }

  /** GetCategoriesAsync lists every non-empty category the user has used,
      exactly once, and nothing else: no other user's category, no empty
      string. */
  lemma CategoriesOfExact(notes: seq<Note>, userId: Guid)
    ensures var r := CategoriesOf(notes, userId);
            && (forall c :: c in r <==> UsesCategory(notes, userId, c))
            && (forall i, j :: 0 <= i < j < |r| ==> r[i] != r[j])
  {
    forall c ensures c in CategoriesOf(notes, userId) <==> UsesCategory(notes, userId, c) {
      CategoryValuesExact(notes, userId, c);
    }
  }

  /** A user without rows, or whose rows have only null or empty categories,
      has no categories. */
  lemma {:induction false} CategoriesOfEmpty(notes: seq<Note>, userId: Guid)
    requires forall n :: n in notes && n.userId == userId ==> IsNullOrEmpty(n.category)
    ensures CategoryValues(notes, userId) == []
    ensures CategoriesOf(notes, userId) == []
  {
    if notes != [] {
      assert notes[0] in notes;
      CategoriesOfEmpty(notes[1..], userId);
    }
  }
}
