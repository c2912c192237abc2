/** `BookmarksRepository`: the bookmark operations the UI calls. Every
    `db.withTransaction { … }` block is one method that either commits all its writes
    or, when a write fails, leaves every table as it was. */
module BookmarksRepo {
  import opened Wrappers
  import opened BookmarkData
  import opened BookmarkTables

  /** How an operation fails: `removeBookmark`'s `check` throws when nothing matched, and
      a bookmark insert whose row id is taken throws from the DAO. */
  datatype StoreError = NotFound(message: string) | ConstraintViolation

  const BOOKMARK_NOT_FOUND := "Bookmark not found"

  /** `observeBookmark(manga, chapterId, page)`: converts the row the DAO yields at that key. */
  function ObserveBookmark(manga: Manga, row: Option<BookmarkEntity>): (r: Option<Bookmark>)
    ensures r.Some? <==> row.Some?
    ensures r.Some? ==> r.value.manga == manga && r.value.pageId == row.value.pageId
    ensures r.Some? && manga.id == row.value.mangaId ==> BookmarkToEntity(r.value) == row.value
  {
    match row
    case None => None
    case Some(e) => Some(ToBookmark(e, manga))
  }

  /** `observeBookmarks(manga)`: converts the manga's rows one by one, keeping their order. */
  function ObserveMangaBookmarks(manga: Manga, rows: seq<BookmarkEntity>): (r: seq<Bookmark>)
    ensures |r| == |rows|
    ensures forall i :: 0 <= i < |r| ==> r[i].manga == manga && r[i].pageId == rows[i].pageId
    ensures forall i :: 0 <= i < |r| && rows[i].mangaId == manga.id ==> BookmarkToEntity(r[i]) == rows[i]
  {
    ToBookmarks(rows, manga)
  }

  /** `LinkedHashMap.set`: an existing key keeps its place and gets the new value, and every
      other entry is left as it was; a new key goes at the end. */
  function Put<K(==), V>(entries: seq<(K, V)>, k: K, v: V): (r: seq<(K, V)>)
    ensures k in Keys(entries) ==> Keys(r) == Keys(entries)
    ensures Distinct(Keys(entries)) && k in Keys(entries) ==>
      |r| == |entries| &&
      forall i :: 0 <= i < |r| ==> r[i] == (if entries[i].0 == k then (k, v) else entries[i])
    ensures k !in Keys(entries) ==> r == entries + [(k, v)]
  {
    if entries == [] then [(k, v)]
    else if entries[0].0 == k then
      assert Keys(entries)[0] == k;
      assert Keys([(k, v)] + entries[1..]) == Keys(entries);
      var r := [(k, v)] + entries[1..];
      assert forall i :: 0 < i < |entries| ==> r[i] == entries[i] && Keys(entries)[i] == entries[i].0;
      r
    else
      assert Keys(entries) == [entries[0].0] + Keys(entries[1..]);
      var rest := Put(entries[1..], k, v);
      assert Keys([entries[0]] + rest) == [entries[0].0] + Keys(rest);
      assert Keys(entries[1..]) == Keys(entries)[1..];
      [entries[0]] + rest
  }

  /** `observeBookmarks()`: one pass over the DAO's grouped result (manga row with its tags,
      mapped to that manga's bookmark rows), building a `LinkedHashMap` from domain manga to
      domain bookmarks. The result has one entry per DAO key, in the DAO's order. */
  method ObserveAllBookmarks(grouped: seq<(MangaWithTags, seq<BookmarkEntity>)>)
    returns (res: seq<(Manga, seq<Bookmark>)>)
    requires Distinct(Keys(grouped))
    ensures |res| == |grouped|
    ensures Distinct(Keys(res))
    ensures forall i :: 0 <= i < |res| ==> res[i].0 == ToManga(grouped[i].0)
    ensures forall i :: 0 <= i < |res| ==> res[i].1 == ToBookmarks(grouped[i].1, res[i].0)
  {
    res := [];
    var i := 0;
    while i < |grouped|
      invariant 0 <= i <= |grouped|
      invariant |res| == i
      invariant forall j :: 0 <= j < i ==> res[j].0 == ToManga(grouped[j].0)
      invariant forall j :: 0 <= j < i ==> res[j].1 == ToBookmarks(grouped[j].1, res[j].0)
      invariant Distinct(Keys(res))
    {
      var (k, v) := grouped[i];
      var manga := ToManga(k);
      forall j | 0 <= j < i
        ensures res[j].0 != manga
      {
        ToMangaInjective(grouped[j].0, k);
        assert Keys(grouped)[j] != Keys(grouped)[i];
      }
      assert manga !in Keys(res);
      res := Put(res, manga, ToBookmarks(v, manga));
      assert Keys(res) == Keys(res[..i]) + [manga];
      i := i + 1;
    }
  }

  class BookmarksRepository {
    const db: MangaDatabase

    constructor (db: MangaDatabase)
      ensures this.db == db
    {
      this.db := db;
    }

    /** `addBookmark`: upserts the manga's tags, then the manga, then inserts the bookmark,
        in one transaction. A taken row id makes the insert throw and the transaction roll back. */
    method AddBookmark(bookmark: Bookmark) returns (r: Outcome<StoreError>)
      requires db.Valid()
      modifies db
      ensures db.Valid()
      ensures r.Fail? <==> bookmark.pageId in old(db.bookmarks)
      ensures r.Fail? ==> r.error == ConstraintViolation && db.Snapshot() == old(db.Snapshot())
      ensures r.Pass? ==>
        var tags := TagsToEntities(bookmark.manga.tags);
        && db.bookmarks == old(db.bookmarks)[bookmark.pageId := BookmarkToEntity(bookmark)]
        && db.manga == old(db.manga)[bookmark.manga.id := MangaToEntity(bookmark.manga)]
        && db.mangaTags == old(db.mangaTags)[bookmark.manga.id := TagKeys(tags)]
        && db.tags == UpsertTags(old(db.tags), tags)
    {
      var saved := db.Snapshot();
      var tags := TagsToEntities(bookmark.manga.tags);
      db.UpsertTagRows(tags);
      db.UpsertMangaRow(MangaToEntity(bookmark.manga), tags);
      var ok := db.InsertBookmark(BookmarkToEntity(bookmark));
      if ok {
        r := Pass;
      } else {
        db.Restore(saved);
        r := Fail(ConstraintViolation);
      }
    }

    /** `removeBookmark(mangaId, chapterId, page)`: deletes the rows at that composite key and
        fails with "Bookmark not found" exactly when there were none. */
    method RemoveBookmarkAt(mangaId: MangaId, chapterId: int, page: int) returns (r: Outcome<StoreError>)
      requires db.Valid()
      modifies db`bookmarks
      ensures db.Valid()
      ensures db.bookmarks == old(db.bookmarks) - KeyedRows(old(db.bookmarks), mangaId, chapterId, page)
      ensures forall id :: id in db.bookmarks ==> !AtKey(db.bookmarks[id], mangaId, chapterId, page)
      ensures r.Fail? <==> forall id :: id in old(db.bookmarks) ==> !AtKey(old(db.bookmarks)[id], mangaId, chapterId, page)
      ensures r.Fail? ==> r.error == NotFound(BOOKMARK_NOT_FOUND)
    {
      ghost var matched := KeyedRows(db.bookmarks, mangaId, chapterId, page);
      var count := db.DeleteBookmarksAt(mangaId, chapterId, page);
      KeyedRowsEmpty(old(db.bookmarks), mangaId, chapterId, page);
      if count != 0 {
        r := Pass;
      } else {
        r := Fail(NotFound(BOOKMARK_NOT_FOUND));
      }
    }

    /** `removeBookmark(bookmark)`: the same as removing at the bookmark's composite key. */
    method RemoveBookmark(bookmark: Bookmark) returns (r: Outcome<StoreError>)
      requires db.Valid()
      modifies db`bookmarks
      ensures db.Valid()
      ensures db.bookmarks == old(db.bookmarks) - KeyedRows(old(db.bookmarks), bookmark.manga.id, bookmark.chapterId, bookmark.page)
      ensures r.Fail? <==> KeyedRows(old(db.bookmarks), bookmark.manga.id, bookmark.chapterId, bookmark.page) == {}
      ensures r.Fail? ==> r.error == NotFound(BOOKMARK_NOT_FOUND)
    {
      r := RemoveBookmarkAt(bookmark.manga.id, bookmark.chapterId, bookmark.page);
      KeyedRowsEmpty(old(db.bookmarks), bookmark.manga.id, bookmark.chapterId, bookmark.page);
    }

    /** `removeBookmarks(ids)`: in one transaction, captures the row of each id that has one
        and deletes every id; returns the handle that puts the captured rows back. */
    method RemoveBookmarks(ids: seq<RowId>) returns (handle: BookmarksRestorer)
      requires db.Valid() && Distinct(ids)
      modifies db`bookmarks
      ensures db.Valid()
      ensures db.bookmarks == old(db.bookmarks) - Elements(ids)
      ensures fresh(handle) && handle.db == db
      ensures handle.entities == Captured(old(db.bookmarks), ids)
    {
      var entities: seq<BookmarkEntity> := [];
      var i := 0;
      while i < |ids|
        invariant 0 <= i <= |ids|
        invariant db.Valid()
        invariant db.bookmarks == old(db.bookmarks) - Elements(ids[..i])
        invariant entities == Captured(old(db.bookmarks), ids[..i])
      {
        var pageId := ids[i];
        assert pageId !in ids[..i];
        assert ids[..i + 1] == ids[..i] + [pageId];
        assert Elements(ids[..i + 1]) == Elements(ids[..i]) + {pageId};
        CapturedSnoc(old(db.bookmarks), ids[..i], pageId);
        var e := db.Find(pageId);
        if e.Some? {
          entities := entities + [e.value];
        }
        db.DeleteBookmark(pageId);
        i := i + 1;
      }
      assert ids[..i] == ids;
      handle := new BookmarksRestorer(db, entities);
    }
  }

  /** The undo handle `removeBookmarks` returns. It shares the repository's database. */
  class BookmarksRestorer {
    const db: MangaDatabase
    const entities: seq<BookmarkEntity>

    constructor (db: MangaDatabase, entities: seq<BookmarkEntity>)
      ensures this.db == db && this.entities == entities
    {
      this.db := db;
      this.entities := entities;
    }

    /** `reverse()`: inserts every captured row in turn, in one transaction; an insert that
        fails on a taken row id is swallowed and the remaining rows are still inserted. */
    method Reverse()
      requires db.Valid()
      modifies db`bookmarks
      ensures db.Valid()
      ensures db.bookmarks == InsertAll(old(db.bookmarks), entities)
      ensures forall id :: id in old(db.bookmarks) ==> id in db.bookmarks && db.bookmarks[id] == old(db.bookmarks)[id]
      ensures forall e :: e in entities ==> e.pageId in db.bookmarks
    {
      var i := 0;
      while i < |entities|
        invariant 0 <= i <= |entities|
        invariant db.Valid()
        invariant db.bookmarks == InsertAll(old(db.bookmarks), entities[..i])
      {
        ghost var before := db.bookmarks;
        var ok := db.InsertBookmark(entities[i]);
        InsertAllStep(old(db.bookmarks), entities[..i], entities[i], before, db.bookmarks);
        assert entities[..i + 1] == entities[..i] + [entities[i]];
        i := i + 1;
      }
      assert entities[..i] == entities;
      ReinsertedKeepsAndAdds(old(db.bookmarks), entities, db.bookmarks);
    }
  }

  /** What reinsertion promises the caller, read off the table it produced. */
  lemma ReinsertedKeepsAndAdds(t: Table, es: seq<BookmarkEntity>, r: Table)
    requires r == InsertAll(t, es)
    ensures forall id :: id in t ==> id in r && r[id] == t[id]
    ensures forall e :: e in es ==> e.pageId in r
  {
    forall e | e in es
      ensures e.pageId in r
    {
      assert e.pageId in PageIds(es);
    }
  }

  /** The undo action a caller runs: bulk delete, then reverse the returned handle. With no
      other write in between, the bookmarks table is back to what it was. */
  method RemoveThenUndo(repository: BookmarksRepository, ids: seq<RowId>)
    requires repository.db.Valid() && Distinct(ids)
    modifies repository.db`bookmarks
    ensures repository.db.Valid()
    ensures repository.db.bookmarks == old(repository.db.bookmarks)
  {
    var handle := repository.RemoveBookmarks(ids);
    handle.Reverse();
    RemoveThenReverseRestores(old(repository.db.bookmarks), ids);
  }
}
