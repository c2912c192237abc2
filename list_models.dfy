/** What the list adapters show: the list items, the item types a delegate can be
    registered under, and the delegate registry each adapter fills when it is built. */
module ListModels {

  /** The list item types used by the feed and the bookmarks sheet. */
  datatype ListItemType =
    | Feed | FooterLoading | StateLoading | FooterError | StateError | Header | StateEmpty | PageThumb

  /** The delegate factories the adapters register (one per `…AD` function). */
  datatype AdapterDelegate =
    | FeedItemAD | LoadingFooterAD | LoadingStateAD | ErrorFooterAD | ErrorStateListAD
    | ListHeaderAD | EmptyStateListAD | BookmarkLargeAD

  /** List items; a `ListHeader` carries the text it shows. */
  datatype ListModel =
    | ListHeader(text: string)
    | FeedItem(id: int)
    | BookmarkItem(pageId: int)
    | LoadingFooter
    | LoadingState
    | ErrorFooter
    | ErrorState
    | EmptyState

  /** `items.getOrNull(i) is ListHeader`: index `i` exists and holds a header. */
  predicate HeaderAt(items: seq<ListModel>, i: int) {
    0 <= i < |items| && items[i].ListHeader?
  }

  /** The section that `position` belongs to is headed at `i`: the header at the largest
      index in `0..position`. */
  predicate SectionStart(items: seq<ListModel>, position: int, i: int) {
    0 <= i <= position && HeaderAt(items, i) &&
    forall j :: i < j <= position ==> !HeaderAt(items, j)
  }

  /** A position belongs to at most one section, so the header text it reports is determined. */
  lemma SectionStartUnique(items: seq<ListModel>, position: int, i: int, k: int)
    requires SectionStart(items, position, i) && SectionStart(items, position, k)
    ensures i == k
  {
  }

  /** The adapter's delegate registry: the `addDelegate` calls made so far, in order. */
  class DelegateRegistry {
    var entries: seq<(ListItemType, AdapterDelegate)>

    constructor ()
      ensures entries == []
    {
      entries := [];
    }

    method AddDelegate(itemType: ListItemType, delegate: AdapterDelegate)
      modifies this
      ensures entries == old(entries) + [(itemType, delegate)]
    {
      entries := entries + [(itemType, delegate)];
    }
  }
}
