/** The local database the repository writes through: the bookmarks table with its
    DAO operations, and the manga and tag tables that `addBookmark` upserts into.
    Each DAO call is one step on the tables; the functions below say what a sequence
    of those steps does, and the lemmas state the undo guarantees. */
module BookmarkTables {
  import opened Wrappers
  import opened BookmarkData

  /** The bookmarks table, keyed by row id. */
  type Table = map<RowId, BookmarkEntity>

  /** Every row is stored under its own row id. */
  ghost predicate RowsKeyed(t: Table) {
    forall id :: id in t ==> t[id].pageId == id
  }

  /** The row stands for the bookmark at this composite key. */
  predicate AtKey(e: BookmarkEntity, mangaId: MangaId, chapterId: int, page: int) {
    e.mangaId == mangaId && e.chapterId == chapterId && e.page == page
  }

  /** Ids of the rows a delete by composite key removes. */
  function KeyedRows(t: Table, mangaId: MangaId, chapterId: int, page: int): set<RowId> {
    set id | id in t && AtKey(t[id], mangaId, chapterId, page)
  }

  /** A delete by composite key matches nothing exactly when no row is at that key. */
  lemma KeyedRowsEmpty(t: Table, mangaId: MangaId, chapterId: int, page: int)
    ensures KeyedRows(t, mangaId, chapterId, page) == {} <==>
      forall id :: id in t ==> !AtKey(t[id], mangaId, chapterId, page)
  {
    var matched := KeyedRows(t, mangaId, chapterId, page);
    if forall id :: id in t ==> !AtKey(t[id], mangaId, chapterId, page) {
      assert forall id :: id !in matched;
    } else {
      var id :| id in t && AtKey(t[id], mangaId, chapterId, page);
      assert id in matched;
    }
  }

  /** The rows of `t` whose ids are in `ids`. */
  function Restrict(t: Table, ids: set<RowId>): Table {
    map id | id in t && id in ids :: t[id]
  }

  /** One DAO insert. The insert-conflict rule is that of an insert that aborts: a row id
      already present makes the insert fail (`SQLException` in the source), and the
      table is left as it was. */
  function Insert(t: Table, e: BookmarkEntity): Option<Table> {
    if e.pageId in t then None else Some(t[e.pageId := e])
  }

  /** The table after inserting `es` one by one, a failed insert being skipped. Rows
      already in the table are never overwritten; a new row id ends up holding the first
      attempted row with that id, and no id outside the table and `es` appears. */
  function InsertAll(t: Table, es: seq<BookmarkEntity>): (r: Table)
    ensures forall id :: id in t ==> id in r && r[id] == t[id]
    ensures r.Keys == t.Keys + PageIds(es)
    ensures forall id :: id in r && id !in t ==> FirstAttempt(es, id, r[id])
    ensures RowsKeyed(t) ==> RowsKeyed(r)
    decreases |es|
  {
    if es == [] then t
    else
      var pre := es[..|es| - 1];
      var last := es[|es| - 1];
      assert es == pre + [last];
      var before := InsertAll(t, pre);
      InsertStep(t, pre, last, before);
      match Insert(before, last)
      case Some(after) => after
      case None => before
  }

  /** The row ids of `es`. */
  function PageIds(es: seq<BookmarkEntity>): set<RowId> {
    set e | e in es :: e.pageId
  }

  /** `e` is the first row of `es` whose row id is `id`. */
  ghost predicate FirstAttempt(es: seq<BookmarkEntity>, id: RowId, e: BookmarkEntity) {
    exists i :: 0 <= i < |es| && es[i] == e && e.pageId == id &&
      forall j :: 0 <= j < i ==> es[j].pageId != id
  }

  /** One more insert keeps what `InsertAll` promises. */
  lemma InsertStep(t: Table, pre: seq<BookmarkEntity>, last: BookmarkEntity, before: Table)
    requires forall id :: id in t ==> id in before && before[id] == t[id]
    requires before.Keys == t.Keys + PageIds(pre)
    requires forall id :: id in before && id !in t ==> FirstAttempt(pre, id, before[id])
    requires RowsKeyed(t) ==> RowsKeyed(before)
    ensures var r := if last.pageId in before then before else before[last.pageId := last];
      && (forall id :: id in t ==> id in r && r[id] == t[id])
      && r.Keys == t.Keys + PageIds(pre + [last])
      && (forall id :: id in r && id !in t ==> FirstAttempt(pre + [last], id, r[id]))
      && (RowsKeyed(t) ==> RowsKeyed(r))
  {
    var es := pre + [last];
    assert PageIds(es) == PageIds(pre) + {last.pageId};
    forall id, e | FirstAttempt(pre, id, e)
      ensures FirstAttempt(es, id, e)
    {
      var i :| 0 <= i < |pre| && pre[i] == e && e.pageId == id &&
        forall j :: 0 <= j < i ==> pre[j].pageId != id;
      assert es[i] == e;
    }
    if last.pageId !in before {
      forall j | 0 <= j < |pre|
        ensures es[j].pageId != last.pageId
      {
        assert pre[j] in pre;
      }
      assert FirstAttempt(es, last.pageId, last) by {
        assert es[|pre|] == last;
      }
    }
  }

  /** The rows `removeBookmarks` collects while it deletes `ids` from `t`, in the order of
      `ids`; an id with no row contributes nothing. In a table whose rows are keyed by
      their ids, the captured rows are exactly the present rows of the listed ids. */
  function Captured(t: Table, ids: seq<RowId>): (r: seq<BookmarkEntity>)
    ensures |r| <= |ids|
    ensures forall id :: id in ids && id in t ==> t[id] in r
    ensures RowsKeyed(t) ==> forall e :: e in r ==> e.pageId in ids && e.pageId in t && t[e.pageId] == e
    decreases |ids|
  {
    if ids == [] then []
    else
      var pre := ids[..|ids| - 1];
      var last := ids[|ids| - 1];
      assert ids == pre + [last];
      var before := Captured(t, pre);
      var after := before + (if last in t then [t[last]] else []);
      assert forall e :: e in after ==> e in before || (last in t && e == t[last]);
      after
  }

  /** Tag rows after upserting `ts` in order; a later row replaces an earlier one with the same key. */
  function UpsertTags(table: map<TagKey, TagEntity>, ts: seq<TagEntity>): (r: map<TagKey, TagEntity>)
    ensures r.Keys == table.Keys + TagKeys(ts)
    ensures forall k :: k in table && k !in TagKeys(ts) ==> r[k] == table[k]
    ensures forall i :: 0 <= i < |ts| && LastWithKey(ts, i) ==> r[KeyOf(ts[i])] == ts[i]
    decreases |ts|
  {
    if ts == [] then table
    else
      var rest := ts[1..];
      assert TagKeys(ts) == {KeyOf(ts[0])} + TagKeys(rest);
      assert forall i :: 1 <= i < |ts| && LastWithKey(ts, i) ==> LastWithKey(rest, i - 1);
      assert LastWithKey(ts, 0) ==> KeyOf(ts[0]) !in TagKeys(rest);
      UpsertTags(table[KeyOf(ts[0]) := ts[0]], rest)
  }

  /** No row after position `i` of `ts` has the key of row `i`. */
  predicate LastWithKey(ts: seq<TagEntity>, i: int)
    requires 0 <= i < |ts|
  {
    forall j :: i < j < |ts| ==> KeyOf(ts[j]) != KeyOf(ts[i])
  }

  function TagKeys(ts: seq<TagEntity>): set<TagKey> {
    set t | t in ts :: KeyOf(t)
  }

  /** When every attempted row id is already taken, reinsertion changes nothing. */
  lemma {:induction false} InsertAllTaken(t: Table, es: seq<BookmarkEntity>)
    requires forall e :: e in es ==> e.pageId in t
    ensures InsertAll(t, es) == t
    decreases |es|
  {
    if es != [] {
      InsertAllTaken(t, es[..|es| - 1]);
      assert es[|es| - 1] in es;
    }
  }

  /** Reversing the same capture twice adds nothing beyond the first reversal: every row
      of the second pass hits an existing row id. */
  lemma ReverseTwiceIsReverseOnce(t: Table, es: seq<BookmarkEntity>)
    ensures InsertAll(InsertAll(t, es), es) == InsertAll(t, es)
  {
    InsertAllTaken(InsertAll(t, es), es);
  }

  lemma InsertAllSnoc(u: Table, es: seq<BookmarkEntity>, e: BookmarkEntity)
    ensures InsertAll(u, es + [e]) ==
      if e.pageId in InsertAll(u, es) then InsertAll(u, es) else InsertAll(u, es)[e.pageId := e]
  {
    assert (es + [e])[..|es|] == es;
  }

  /** One insert of the reinsertion loop, on the tables before and after it. */
  lemma InsertAllStep(u: Table, es: seq<BookmarkEntity>, e: BookmarkEntity, before: Table, after: Table)
    requires before == InsertAll(u, es)
    requires after == if e.pageId in before then before else before[e.pageId := e]
    ensures after == InsertAll(u, es + [e])
  {
    InsertAllSnoc(u, es, e);
  }

  lemma CapturedSnoc(t: Table, ids: seq<RowId>, x: RowId)
    ensures Captured(t, ids + [x]) == Captured(t, ids) + (if x in t then [t[x]] else [])
  {
    assert (ids + [x])[..|ids|] == ids;
  }

  /** The positions in `ids` of the ids that have a row in `t`, in increasing order. */
  function PresentPositions(t: Table, ids: seq<RowId>): seq<int>
    decreases |ids|
  {
    if ids == [] then []
    else
      var last := |ids| - 1;
      PresentPositions(t, ids[..last]) + (if ids[last] in t then [last] else [])
  }

  /** The captured rows follow the order of `ids`: the `i`-th captured row is the row of
      the `i`-th listed id that has one, and those positions strictly increase. */
  lemma {:induction false} CapturedOrdered(t: Table, ids: seq<RowId>)
    ensures |PresentPositions(t, ids)| == |Captured(t, ids)|
    ensures forall i :: 0 <= i < |Captured(t, ids)| ==>
      0 <= PresentPositions(t, ids)[i] < |ids| && ids[PresentPositions(t, ids)[i]] in t &&
      Captured(t, ids)[i] == t[ids[PresentPositions(t, ids)[i]]]
    ensures forall i, j :: 0 <= i < j < |Captured(t, ids)| ==>
      PresentPositions(t, ids)[i] < PresentPositions(t, ids)[j]
    decreases |ids|
  {
    if ids != [] {
      var pre := ids[..|ids| - 1];
      var x := ids[|ids| - 1];
      assert ids == pre + [x];
      CapturedOrdered(t, pre);
      CapturedSnoc(t, pre, x);
      var p := PresentPositions(t, ids);
      var r := Captured(t, ids);
      var c := Captured(t, pre);
      assert p == PresentPositions(t, pre) + (if x in t then [|pre|] else []);
      assert r == c + (if x in t then [t[x]] else []);
      forall i | 0 <= i < |c|
        ensures p[i] == PresentPositions(t, pre)[i] && r[i] == c[i] && ids[p[i]] == pre[p[i]]
      {
      }
    }
  }

  /** For distinct ids in a table keyed by row id, no row is captured twice: the bulk delete
      collects at most one row per id. */
  lemma CapturedNoDuplicates(t: Table, ids: seq<RowId>)
    requires RowsKeyed(t) && Distinct(ids)
    ensures Distinct(Captured(t, ids))
  {
    CapturedOrdered(t, ids);
    var r := Captured(t, ids);
    var p := PresentPositions(t, ids);
    forall i, j | 0 <= i < j < |r|
      ensures r[i] != r[j]
    {
      assert r[i].pageId == ids[p[i]] && r[j].pageId == ids[p[j]];
    }
  }

  /** One more captured id, reinserted into the table built so far. */
  lemma ReinsertStep(u: Table, t: Table, s: set<RowId>, x: RowId, built: Table)
    requires RowsKeyed(t) && x !in u && x !in s
    requires built == u + Restrict(t, s)
    ensures x in t ==> t[x].pageId !in built && built[t[x].pageId := t[x]] == u + Restrict(t, s + {x})
    ensures x !in t ==> built == u + Restrict(t, s + {x})
  {
  }

  /** Reinserting what was captured for `ids` into a table that holds none of those ids
      adds back exactly the captured rows. */
  lemma {:induction false} ReinsertCaptured(u: Table, t: Table, ids: seq<RowId>)
    requires RowsKeyed(t) && Distinct(ids)
    requires forall id :: id in ids ==> id !in u
    ensures InsertAll(u, Captured(t, ids)) == u + Restrict(t, Elements(ids))
    decreases |ids|
  {
    if ids == [] {
      assert Restrict(t, Elements(ids)) == map[];
    } else {
      var pre := ids[..|ids| - 1];
      var x := ids[|ids| - 1];
      assert ids == pre + [x];
      assert Elements(ids) == Elements(pre) + {x};
      assert x !in pre;
      ReinsertCaptured(u, t, pre);
      CapturedSnoc(t, pre, x);
      var captured := Captured(t, pre);
      var built := InsertAll(u, captured);
      ReinsertStep(u, t, Elements(pre), x, built);
      if x in t {
        InsertAllSnoc(u, captured, t[x]);
        assert Captured(t, ids) == captured + [t[x]];
        assert InsertAll(u, Captured(t, ids)) == built[t[x].pageId := t[x]];
      } else {
        assert Captured(t, ids) == captured;
      }
    }
  }

  lemma SplitRestrict(t: Table, s: set<RowId>)
    ensures (t - s) + Restrict(t, s) == t
  {
  }

  /** Undo after a bulk delete: deleting `ids` and reinserting what was captured gives
      back the table as it was. */
  lemma RemoveThenReverseRestores(t: Table, ids: seq<RowId>)
    requires RowsKeyed(t) && Distinct(ids)
    ensures InsertAll(t - Elements(ids), Captured(t, ids)) == t
  {
    ReinsertCaptured(t - Elements(ids), t, ids);
    SplitRestrict(t, Elements(ids));
  }

  /** A snapshot of every table, taken when a transaction starts. */
  datatype Tables = Tables(
    bookmarks: Table,
    manga: map<MangaId, MangaEntity>,
    mangaTags: map<MangaId, set<TagKey>>,
    tags: map<TagKey, TagEntity>)

  /** The database: its tables are fields that the DAO operations below update in place. */
  class MangaDatabase {
    var bookmarks: Table
    var manga: map<MangaId, MangaEntity>
    var mangaTags: map<MangaId, set<TagKey>>
    var tags: map<TagKey, TagEntity>

    ghost predicate Valid()
      reads this
    {
      RowsKeyed(bookmarks)
    }

    constructor ()
      ensures Valid()
      ensures bookmarks == map[] && manga == map[] && mangaTags == map[] && tags == map[]
    {
      bookmarks, manga, mangaTags, tags := map[], map[], map[], map[];
    }

    function Snapshot(): Tables
      reads this
    {
      Tables(bookmarks, manga, mangaTags, tags)
    }

    /** Rolls the tables back to a snapshot (an aborted transaction). */
    method Restore(s: Tables)
      modifies this
      ensures Snapshot() == s
    {
      bookmarks, manga, mangaTags, tags := s.bookmarks, s.manga, s.mangaTags, s.tags;
    }

    /** `bookmarksDao.find(pageId)`. */
    function Find(pageId: RowId): Option<BookmarkEntity>
      reads this
    {
      if pageId in bookmarks then Some(bookmarks[pageId]) else None
    }

    /** `bookmarksDao.insert(e)`; `ok` is false where the source throws `SQLException`. */
    method InsertBookmark(e: BookmarkEntity) returns (ok: bool)
      requires Valid()
      modifies this`bookmarks
      ensures Valid()
      ensures ok <==> e.pageId !in old(bookmarks)
      ensures Insert(old(bookmarks), e) == (if ok then Some(bookmarks) else None)
      ensures !ok ==> bookmarks == old(bookmarks)
    {
      ok := e.pageId !in bookmarks;
      if ok {
        bookmarks := bookmarks[e.pageId := e];
      }
    }

    /** `bookmarksDao.delete(pageId)`: an id with no row is not an error. */
    method DeleteBookmark(pageId: RowId)
      requires Valid()
      modifies this`bookmarks
      ensures Valid()
      ensures bookmarks == old(bookmarks) - {pageId}
    {
      bookmarks := bookmarks - {pageId};
    }

    /** `bookmarksDao.delete(mangaId, chapterId, page)`: returns the number of rows deleted. */
    method DeleteBookmarksAt(mangaId: MangaId, chapterId: int, page: int) returns (count: nat)
      requires Valid()
      modifies this`bookmarks
      ensures Valid()
      ensures bookmarks == old(bookmarks) - KeyedRows(old(bookmarks), mangaId, chapterId, page)
      ensures count == |KeyedRows(old(bookmarks), mangaId, chapterId, page)|
    {
      var matched := KeyedRows(bookmarks, mangaId, chapterId, page);
      count := |matched|;
      bookmarks := bookmarks - matched;
    }

    /** `tagsDao.upsert(tags)`. */
    method UpsertTagRows(ts: seq<TagEntity>)
      modifies this`tags
      ensures tags == UpsertTags(old(tags), ts)
    {
      tags := UpsertTags(tags, ts);
    }

    /** `mangaDao.upsert(manga, tags)`: replaces the manga row and its tag links. */
    method UpsertMangaRow(m: MangaEntity, ts: seq<TagEntity>)
      modifies this`manga, this`mangaTags
      ensures manga == old(manga)[m.id := m]
      ensures mangaTags == old(mangaTags)[m.id := TagKeys(ts)]
    {
      manga := manga[m.id := m];
      mangaTags := mangaTags[m.id := TagKeys(ts)];
    }
  }
}
