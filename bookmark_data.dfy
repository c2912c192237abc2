/** The values the bookmarks repository works with: the domain objects the UI sees
    (`Manga`, `MangaTag`, `Bookmark`) and the rows of the local database
    (`MangaEntity`, `TagEntity`, `MangaWithTags`, `BookmarkEntity`), with the
    conversions between them. */
module BookmarkData {

  /** Manga ids and bookmark row ids are Kotlin `Long`s; no arithmetic is done on them. */
  type MangaId = int
  type RowId = int

  datatype MangaTag = MangaTag(key: string, title: string, source: string)

  datatype Manga = Manga(id: MangaId, title: string, tags: seq<MangaTag>)

  /** A saved reading position. `pageId` identifies the bookmark's row in the table. */
  datatype Bookmark = Bookmark(
    manga: Manga,
    pageId: RowId,
    chapterId: int,
    page: int,
    scroll: int,
    imageUrl: string,
    createdAt: int)

  datatype TagEntity = TagEntity(key: string, title: string, source: string)

  /** A tag row is identified by its source and key. */
  datatype TagKey = TagKey(source: string, key: string)

  datatype MangaEntity = MangaEntity(id: MangaId, title: string)

  /** A manga row joined with its tag rows, as the grouped bookmarks query returns it. */
  datatype MangaWithTags = MangaWithTags(manga: MangaEntity, tags: seq<TagEntity>)

  /** One row of the bookmarks table. */
  datatype BookmarkEntity = BookmarkEntity(
    mangaId: MangaId,
    pageId: RowId,
    chapterId: int,
    page: int,
    scroll: int,
    imageUrl: string,
    createdAt: int)

  function KeyOf(t: TagEntity): TagKey {
    TagKey(t.source, t.key)
  }

  function TagToEntity(t: MangaTag): TagEntity {
    TagEntity(t.key, t.title, t.source)
  }

  function TagFromEntity(e: TagEntity): (t: MangaTag)
    ensures TagToEntity(t) == e
  {
    MangaTag(e.key, e.title, e.source)
  }

  /** `toEntities()` on a manga's tags: one row per tag, in order, from which the tag is
      read back unchanged. */
  function TagsToEntities(tags: seq<MangaTag>): (es: seq<TagEntity>)
    ensures |es| == |tags|
    ensures forall i :: 0 <= i < |tags| ==> TagFromEntity(es[i]) == tags[i]
  {
    seq(|tags|, i requires 0 <= i < |tags| => TagToEntity(tags[i]))
  }

  function MangaToEntity(m: Manga): MangaEntity {
    MangaEntity(m.id, m.title)
  }

  /** Rebuilds the domain manga from its row and tag rows; converting back gives the rows. */
  function ToManga(k: MangaWithTags): (m: Manga)
    ensures MangaToEntity(m) == k.manga
    ensures TagsToEntities(m.tags) == k.tags
  {
    var tags := seq(|k.tags|, i requires 0 <= i < |k.tags| => TagFromEntity(k.tags[i]));
    assert TagsToEntities(tags) == k.tags;
    Manga(k.manga.id, k.manga.title, tags)
  }

  function BookmarkToEntity(b: Bookmark): BookmarkEntity {
    BookmarkEntity(b.manga.id, b.pageId, b.chapterId, b.page, b.scroll, b.imageUrl, b.createdAt)
  }

  /** Attaches a bookmark row to the manga it belongs to; for the row's own manga the
      conversion loses nothing. */
  function ToBookmark(e: BookmarkEntity, manga: Manga): (b: Bookmark)
    ensures b.manga == manga && b.pageId == e.pageId
    ensures manga.id == e.mangaId ==> BookmarkToEntity(b) == e
  {
    Bookmark(manga, e.pageId, e.chapterId, e.page, e.scroll, e.imageUrl, e.createdAt)
  }

  /** `toBookmarks(manga)`: one bookmark per row, in row order, each attached to `manga`;
      a row of that manga converts back to itself. */
  function ToBookmarks(es: seq<BookmarkEntity>, manga: Manga): (bs: seq<Bookmark>)
    ensures |bs| == |es|
    ensures forall i :: 0 <= i < |bs| ==> bs[i].manga == manga && bs[i].pageId == es[i].pageId
    ensures forall i :: 0 <= i < |bs| && es[i].mangaId == manga.id ==> BookmarkToEntity(bs[i]) == es[i]
  {
    seq(|es|, i requires 0 <= i < |es| => ToBookmark(es[i], manga))
  }

  /** `Manga.toEntity()` with `toEntities()` loses nothing: rebuilding the manga from the
      rows it is written as gives the manga back. */
  lemma MangaRowsRoundTrip(m: Manga)
    ensures ToManga(MangaWithTags(MangaToEntity(m), TagsToEntities(m.tags))) == m
  {
    var k := MangaWithTags(MangaToEntity(m), TagsToEntities(m.tags));
    assert ToManga(k).tags == m.tags;
  }

  /** `Bookmark.toEntity()` loses nothing: the row read back for the bookmark's own manga
      is the bookmark. */
  lemma BookmarkRowRoundTrip(b: Bookmark)
    ensures ToBookmark(BookmarkToEntity(b), b.manga) == b
  {
  }

  /** Distinct joined rows give distinct domain manga, so a map keyed by `Manga` keeps
      one entry per row of the grouped query. */
  lemma ToMangaInjective(a: MangaWithTags, b: MangaWithTags)
    ensures ToManga(a) == ToManga(b) ==> a == b
  {
  }
}
