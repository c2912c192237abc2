# Kotatsu bookmarks, list sections and view helpers — a Dafny model

This project models the parts of the Kotatsu manga reader that hold sequential logic:

- **The bookmarks repository** (`BookmarksRepository`). The local database is a class
  `MangaDatabase` whose tables are maps: bookmark rows by row id (`pageId`), manga rows,
  manga-to-tag links and tag rows. Each DAO write is a method on it that updates its tables,
  and the row lookup `find` is a function of its state. The DAO's queries behind the three
  `observe` operations are not modelled: their results are inputs to the observe members. Each
  `db.withTransaction { … }` block is one method of `BookmarksRepository` or
  `BookmarksRestorer` that commits all its writes or none. Adding a bookmark upserts the
  tags, then the manga, then inserts the bookmark. Removing by composite key
  `(mangaId, chapterId, page)` fails with "Bookmark not found" when nothing matched. A bulk
  delete captures the rows it finds, deletes every listed id and returns an undo handle whose
  `reverse()` reinserts the captured rows one by one. A failing insert is swallowed and the
  loop goes on. The undo guarantees are lemmas over two functions: `Captured` (what the bulk
  delete collects) and `InsertAll` (what reinsertion does). Deleting and then reversing gives
  the table back. Reversing twice is the same as reversing once. The grouped view
  `observeBookmarks()` is a loop that fills a `LinkedHashMap`. It is modelled as a list of
  entries in insertion order, and the proof shows it keeps one entry per DAO key in the DAO's order.
- **Section headers of the fast scroller** (`getSectionText` of the feed adapter and of the
  bookmarks-sheet adapter). Each is a backward index loop from `position` to 0. It skips
  indices past the end and returns the text of the nearest header at or before the position,
  or nothing when there is none. Each adapter's `init` fills a delegate registry. The model
  records the `addDelegate` calls and proves which item types get registered.
- **View helpers** (`View.kt`):
  - the measure-spec rule of `measureDimension`;
  - `findViewsByType` over a rose tree of views. It yields exactly the matching views that
    the search reaches without passing through a matching view, in child order;
  - the `parents` walk over the parent links of an acyclic hierarchy;
  - the `isRtl` property;
  - `setTabsEnabled`;
  - the `ViewPager2.recyclerView` lookup.

The DAO's insert is not part of this model, and its conflict rule is not stated in the
code modelled here. The model chooses an insert that fails when the row id is already taken, the
rule of an insert that aborts. Under this choice the catch branch of `reverse()` can be
reached. `SQLException` also covers other failures, such as a broken constraint or a disk
error, which the model does not produce. Under an insert-or-replace rule, reinsertion would
overwrite rows already present, and the property stated by `InsertAll` that such rows are
kept would not hold.

Files: `wrappers.dfy` (Option, Outcome, distinctness), `bookmark_data.dfy` (domain values,
rows, conversions), `bookmark_tables.dfy` (tables, DAO operations, undo lemmas),
`bookmarks_repository.dfy` (repository, restorer, observation), `list_models.dfy` (list
items, item types, delegate registry), `feed_adapter.dfy`, `bookmarks_sheet_adapter.dfy`,
`views.dfy`.

## Model

| member | source | states |
|---|---|---|
| BookmarkData.ToManga | app/src/main/kotlin/org/koitharu/kotatsu/bookmarks/domain/BookmarksRepository.kt:39 | converting the rebuilt manga back to its row and tag rows gives the DAO key it came from |
| BookmarkData.ToMangaInjective | app/src/main/kotlin/org/koitharu/kotatsu/bookmarks/domain/BookmarksRepository.kt:37-41 | distinct DAO keys give distinct domain manga, so the map keyed by manga cannot merge two groups |
| BookmarkData.TagsToEntities | app/src/main/kotlin/org/koitharu/kotatsu/bookmarks/domain/BookmarksRepository.kt:48 | one tag row per tag, in order, from which each tag is read back unchanged |
| BookmarkData.MangaRowsRoundTrip | app/src/main/kotlin/org/koitharu/kotatsu/bookmarks/domain/BookmarksRepository.kt:48-50 | rebuilding the manga from the manga row and tag rows it is written as gives the manga back |
| BookmarkData.BookmarkRowRoundTrip | app/src/main/kotlin/org/koitharu/kotatsu/bookmarks/domain/BookmarksRepository.kt:51 | the bookmark row converts back to the bookmark for the bookmark's own manga |
| BookmarkData.ToBookmarks | app/src/main/kotlin/org/koitharu/kotatsu/bookmarks/domain/BookmarksRepository.kt:40 | one bookmark per row, in row order, each attached to the manga; a row of that manga converts back to itself |
| BookmarkData.ToBookmark | app/src/main/kotlin/org/koitharu/kotatsu/bookmarks/domain/BookmarksRepository.kt:28 | the bookmark carries the given manga and the row's page id; for the row's own manga, converting back gives the row unchanged |
| BookmarkTables.UpsertTags | app/src/main/kotlin/org/koitharu/kotatsu/bookmarks/domain/BookmarksRepository.kt:48-49 | the tag table afterwards has exactly the earlier keys plus the written tags' keys; a key not written keeps its row; a written key holds the last row written with it |
| BookmarkTables.Captured | app/src/main/kotlin/org/koitharu/kotatsu/bookmarks/domain/BookmarksRepository.kt:66-73 | the rows the bulk delete collects: no more rows than ids, every present row of a listed id is collected, and in a table keyed by row id every collected row is the present row of a listed id |
| BookmarkTables.CapturedOrdered | app/src/main/kotlin/org/koitharu/kotatsu/bookmarks/domain/BookmarksRepository.kt:69-73 | the collected rows are the rows of the listed ids that have one, taken in the iteration order of the ids |
| BookmarkTables.CapturedNoDuplicates | app/src/main/kotlin/org/koitharu/kotatsu/bookmarks/domain/BookmarksRepository.kt:66-73 | for distinct ids in a table keyed by row id, no row is collected twice |
| BookmarkTables.InsertAll | app/src/main/kotlin/org/koitharu/kotatsu/bookmarks/domain/BookmarksRepository.kt:84-93 | the effect of the reinsertion loop: an existing row is never overwritten, the keys are exactly the old ones plus the attempted row ids, a new id holds the first attempted row with that id, and rows stay keyed by their ids |
| BookmarkTables.InsertAllTaken | app/src/main/kotlin/org/koitharu/kotatsu/bookmarks/domain/BookmarksRepository.kt:86-91 | when every row id to reinsert is already taken, every insert fails and the table is unchanged |
| BookmarkTables.ReverseTwiceIsReverseOnce | app/src/main/kotlin/org/koitharu/kotatsu/bookmarks/domain/BookmarksRepository.kt:84-93 | reversing the same capture a second time adds no rows |
| BookmarkTables.ReinsertCaptured | app/src/main/kotlin/org/koitharu/kotatsu/bookmarks/domain/BookmarksRepository.kt:65-94 | reinserting the rows captured for distinct ids into a table without those ids adds back exactly those ids' rows |
| BookmarkTables.RemoveThenReverseRestores | app/src/main/kotlin/org/koitharu/kotatsu/bookmarks/domain/BookmarksRepository.kt:65-94 | deleting distinct ids and reinserting what was captured gives back the original table |
| BookmarkTables.MangaDatabase.Restore | app/src/main/kotlin/org/koitharu/kotatsu/bookmarks/domain/BookmarksRepository.kt:47-52 | a rolled-back transaction puts every table back to the snapshot |
| BookmarkTables.MangaDatabase.InsertBookmark | app/src/main/kotlin/org/koitharu/kotatsu/bookmarks/domain/BookmarksRepository.kt:51 | the insert reports failure exactly when the id is taken; the table grows by the row on success and is unchanged on failure |
| BookmarkTables.MangaDatabase.DeleteBookmark | app/src/main/kotlin/org/koitharu/kotatsu/bookmarks/domain/BookmarksRepository.kt:74 | deleting an id removes that row if any; a missing id is not an error |
| BookmarkTables.MangaDatabase.DeleteBookmarksAt | app/src/main/kotlin/org/koitharu/kotatsu/bookmarks/domain/BookmarksRepository.kt:56 | deletes exactly the rows at the composite key and returns how many there were |
| BookmarkTables.MangaDatabase.UpsertTagRows | app/src/main/kotlin/org/koitharu/kotatsu/bookmarks/domain/BookmarksRepository.kt:49 | the tag table becomes the upsert of the manga's tag rows |
| BookmarkTables.MangaDatabase.UpsertMangaRow | app/src/main/kotlin/org/koitharu/kotatsu/bookmarks/domain/BookmarksRepository.kt:50 | the manga row and its tag links are replaced; other manga are untouched |
| BookmarksRepo.ObserveBookmark | app/src/main/kotlin/org/koitharu/kotatsu/bookmarks/domain/BookmarksRepository.kt:27-29 | the keyed observation yields a bookmark exactly when the DAO yields a row, attached to the given manga and converting back to that row |
| BookmarksRepo.ObserveMangaBookmarks | app/src/main/kotlin/org/koitharu/kotatsu/bookmarks/domain/BookmarksRepository.kt:31-33 | one bookmark per row, in row order, each carrying the manga and converting back to its row |
| BookmarksRepo.Put | app/src/main/kotlin/org/koitharu/kotatsu/bookmarks/domain/BookmarksRepository.kt:40 | writing an existing key to the linked map keeps the key order, gives that key the new value and leaves every other entry as it was; writing a new key appends it at the end |
| BookmarksRepo.ObserveAllBookmarks | app/src/main/kotlin/org/koitharu/kotatsu/bookmarks/domain/BookmarksRepository.kt:35-44 | the grouped view has one entry per DAO key, in the DAO's order, with distinct keys, each mapping the converted manga to that key's converted rows |
| BookmarksRepo.BookmarksRepository.constructor | app/src/main/kotlin/org/koitharu/kotatsu/bookmarks/domain/BookmarksRepository.kt:23-25 | the repository works on the database it is given |
| BookmarksRepo.BookmarksRepository.AddBookmark | app/src/main/kotlin/org/koitharu/kotatsu/bookmarks/domain/BookmarksRepository.kt:46-53 | on success the tags, the manga with its tag links and the bookmark are all written; when the bookmark's row id is taken the add fails and every table is as before |
| BookmarksRepo.BookmarksRepository.RemoveBookmarkAt | app/src/main/kotlin/org/koitharu/kotatsu/bookmarks/domain/BookmarksRepository.kt:55-59 | removes every row at the composite key and leaves the rest; fails with "Bookmark not found" exactly when no row was at that key |
| BookmarksRepo.BookmarksRepository.RemoveBookmark | app/src/main/kotlin/org/koitharu/kotatsu/bookmarks/domain/BookmarksRepository.kt:61-63 | behaves as removal at the bookmark's manga id, chapter id and page |
| BookmarksRepo.BookmarksRepository.RemoveBookmarks | app/src/main/kotlin/org/koitharu/kotatsu/bookmarks/domain/BookmarksRepository.kt:65-78 | afterwards no listed id has a row and every other row is unchanged; the returned handle shares the database and holds the captured rows in id order |
| BookmarksRepo.BookmarksRestorer.constructor | app/src/main/kotlin/org/koitharu/kotatsu/bookmarks/domain/BookmarksRepository.kt:80-82 | the handle keeps the database and the captured rows |
| BookmarksRepo.BookmarksRestorer.Reverse | app/src/main/kotlin/org/koitharu/kotatsu/bookmarks/domain/BookmarksRepository.kt:84-94 | every captured row is attempted in order; a failed insert is skipped and the loop continues; existing rows are kept and every captured id is present afterwards |
| BookmarksRepo.RemoveThenUndo | app/src/main/kotlin/org/koitharu/kotatsu/bookmarks/domain/BookmarksRepository.kt:65-94 | a bulk delete followed by the handle's reverse, with nothing in between, leaves the bookmarks table as it was |
| ListModels.SectionStartUnique | app/src/main/kotlin/org/koitharu/kotatsu/tracker/ui/feed/adapter/FeedAdapter.kt:37-40 | a position has at most one nearest header, so the section text is determined |
| ListModels.DelegateRegistry.AddDelegate | app/src/main/kotlin/org/koitharu/kotatsu/tracker/ui/feed/adapter/FeedAdapter.kt:26-32 | each registration is appended to the registry in call order |
| Feed.FeedAdapter.constructor | app/src/main/kotlin/org/koitharu/kotatsu/tracker/ui/feed/adapter/FeedAdapter.kt:25-33 | init registers seven delegates under the seven distinct types FEED, FOOTER_LOADING, STATE_LOADING, FOOTER_ERROR, STATE_ERROR, HEADER, STATE_EMPTY |
| Feed.FeedAdapter.GetSectionText | app/src/main/kotlin/org/koitharu/kotatsu/tracker/ui/feed/adapter/FeedAdapter.kt:35-44 | returns nothing exactly when no index in 0..position holds a header (so for a negative position); otherwise the text of the header at the largest such index, which may be the position itself; indices past the end are skipped; items are not changed |
| BookmarksSheet.BookmarksAdapter.constructor | app/src/main/kotlin/org/koitharu/kotatsu/bookmarks/ui/sheet/BookmarksAdapter.kt:25-30 | init registers four delegates under the four distinct types PAGE_THUMB, HEADER, FOOTER_LOADING, STATE_LOADING |
| BookmarksSheet.BookmarksAdapter.GetSectionText | app/src/main/kotlin/org/koitharu/kotatsu/bookmarks/ui/sheet/BookmarksAdapter.kt:32-41 | the same nearest-header result as the feed adapter: nothing exactly when no header is in 0..position, else the text of the header at the largest such index |
| Views.MeasureSpecRoundTrip | app/src/main/kotlin/org/koitharu/kotatsu/core/util/ext/View.kt:125-126 | the mode and size read from a spec are the ones it was built from, and every spec is rebuilt from its mode and size |
| Views.MeasureDimension | app/src/main/kotlin/org/koitharu/kotatsu/core/util/ext/View.kt:123-136 | EXACTLY gives the spec size; AT_MOST gives the smaller of desired and spec size, never above the spec size; any other mode gives the desired size |
| Views.FindViewsByType | app/src/main/kotlin/org/koitharu/kotatsu/core/util/ext/View.kt:90-103 | a group without children yields nothing; every yielded view is an instance of the class |
| Views.FromChild | app/src/main/kotlin/org/koitharu/kotatsu/core/util/ext/View.kt:96-100 | a child contributes only instances of the class |
| Views.FindInChildren | app/src/main/kotlin/org/koitharu/kotatsu/core/util/ext/View.kt:94-102 | the loop over the children yields only instances of the class |
| Views.FindInChildrenAppend | app/src/main/kotlin/org/koitharu/kotatsu/core/util/ext/View.kt:94-102 | the results of earlier children come before those of later children |
| Views.FoundIsReachable | app/src/main/kotlin/org/koitharu/kotatsu/core/util/ext/View.kt:96-100 | every yielded view lies below the roots on a path through no matching view |
| Views.ReachableIsFound | app/src/main/kotlin/org/koitharu/kotatsu/core/util/ext/View.kt:96-100 | every matching view below the roots on a path through no matching view is yielded |
| Views.FindViewsByTypeExactly | app/src/main/kotlin/org/koitharu/kotatsu/core/util/ext/View.kt:90-103 | a view is yielded exactly when it is of the class and reachable from the group's children without passing through a view of the class |
| Views.FirstChildOfType | app/src/main/kotlin/org/koitharu/kotatsu/core/util/ext/View.kt:65-66 | the first child of the class, or nothing exactly when no child is of it |
| Views.Parents | app/src/main/kotlin/org/koitharu/kotatsu/core/util/ext/View.kt:114-121 | the chain starts at the direct parent, each next element is the parent of the previous, it ends at the first node without a parent, it is empty exactly when the view has no parent, and no node repeats |
| Views.View.SetRtl | app/src/main/kotlin/org/koitharu/kotatsu/core/util/ext/View.kt:146-150 | the setter stores RTL for true and LTR for false, and reading isRtl back gives the value set |
| Views.TabLayout.SetTabsEnabled | app/src/main/kotlin/org/koitharu/kotatsu/core/util/ext/View.kt:152-156 | every tab that exists and has a view ends with isEnabled equal to the argument |

## Left out

- Change observation: the `Flow` streams, their re-emission on every commit, coroutine suspension and cancellation. Each observe operation is modelled as one conversion of the DAO result.
- The DAO's queries are not part of this model: which row the keyed observation yields, the row order of a manga's bookmarks, and the grouping and order of `observe()`. Their results are inputs to the observe members.
- BookmarksRepo.ObserveAllBookmarks: the conversions are field copies that keep the tag order, so distinct DAO keys always give distinct manga and the map keeps one entry per key. In the app, `res[manga] = …` would merge two keys whose converted manga are equal. The grouped query yields one key per manga row and `toManga` keeps the id, but the unseen conversions and `Manga` equality are not part of this model, so that merge is not shown.
- BookmarkData.ToMangaInjective, BookmarkData.MangaRowsRoundTrip and BookmarkData.BookmarkRowRoundTrip are facts about the field-copy conversions of this model, not about the app's own `toManga`, `toEntity` and `toBookmark`, which are not part of this model.
- The DAO's insert-conflict rule is not part of this model either. Bookmark inserts fail on a taken row id. Whether a second bookmark may share a composite key is not enforced, so a delete by key removes every row at that key and counts them.
- Conversions between rows and domain objects (`toBookmark`, `toEntity`, `toEntities`, `toManga`) are written as plain field copies over trimmed records. Fields such as the manga's URL, cover, rating and the bookmark's percent are not modelled.
- Engine failures other than the insert conflict, such as disk or constraint errors in the upserts, are not modelled. The upserts and deletes always succeed.
- `printStackTraceDebug` in `reverse()`: logging only.
- Feed.FeedAdapter.GetSectionText: a header carries its text already resolved. `ListHeader.getText(context)` (string resources looked up through the Android `Context`) is not modelled. The same holds for BookmarksSheet.BookmarksAdapter.GetSectionText.
- `BaseListAdapter` is not part of this model. What `addDelegate` does with a type registered twice is unknown, and both adapters register distinct types. The delegate factories and their view binding and image requests appear only as names. The listener, image-loader and lifecycle arguments are left out.
- Views.MeasureDimension: the 32-bit measure spec is read as an unsigned number, two mode bits over thirty size bits. Kotlin's signed reading of the same bits is not modelled.
- Views.Parents: views are node ids and the hierarchy is a map of parent links. The `ViewParent` objects and their identity are not modelled. The loop's termination relies on the hierarchy having no cycle, which a `rank` argument witnesses.
- Views.FindViewsByType: the source returns a lazy `Sequence` that is computed as it is iterated, and a consumer may stop early. The model computes the whole result at once. The same holds for Views.Parents.
- Views.View.SetRtl: the getter reads the stored direction. Android's resolution of inherited and locale directions, and apps without RTL support, are not modelled.
- Views.FirstChildOfType: models `ViewPager2.recyclerView` with the `RecyclerView` class as a parameter.
- The rest of `View.kt` is not modelled: keyboard helpers, `hasGlobalPoint`, `measureHeight`/`measureWidth`, `resetTransformations`, `doOnPageChanged`, `invalidateNestedItemDecorations`, `setChecked`, `parentView` and `setValueRounded`. These are framework side effects, casts or float rounding.
- Fragments, list adapter delegates, the other list adapters, the captcha notifier and the history presenter are UI and lifecycle glue with no stateable logic.
