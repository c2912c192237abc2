/** `BookmarksAdapter` of the bookmarks sheet: bookmarked page thumbnails grouped under
    headers, with a fast-scroller section index. */
module BookmarksSheet {
  import opened Wrappers
  import opened ListModels

  /** The `addDelegate` calls of the sheet adapter's `init`, in order. */
  const SHEET_DELEGATES: seq<(ListItemType, AdapterDelegate)> := [
    (PageThumb, BookmarkLargeAD),
    (Header, ListHeaderAD),
    (FooterLoading, LoadingFooterAD),
    (StateLoading, LoadingStateAD)
  ]

  class BookmarksAdapter {
    const registry: DelegateRegistry
    var items: seq<ListModel>

    /** `init`: four delegates under four distinct item types. */
    constructor ()
      ensures fresh(registry) && items == []
      ensures registry.entries == SHEET_DELEGATES
      ensures |registry.entries| == 4 && Distinct(Keys(registry.entries))
      ensures Keys(registry.entries) == [PageThumb, Header, FooterLoading, StateLoading]
    {
      items := [];
      var r := new DelegateRegistry();
      r.AddDelegate(PageThumb, BookmarkLargeAD);
      r.AddDelegate(Header, ListHeaderAD);
      r.AddDelegate(FooterLoading, LoadingFooterAD);
      r.AddDelegate(StateLoading, LoadingStateAD);
      registry := r;
    }

    /** `getSectionText`: scans from `position` down to 0, skipping indices past the end,
        and returns the text of the first header met. */
    method GetSectionText(position: int) returns (text: Option<string>)
      ensures text.None? <==> forall i :: 0 <= i <= position ==> !HeaderAt(items, i)
      ensures text.Some? ==> exists i :: SectionStart(items, position, i) && text.value == items[i].text
    {
      var i := position;
      while i >= 0
        invariant i <= position
        invariant forall j :: i < j <= position ==> !HeaderAt(items, j)
      {
        if i < |items| {
          var item := items[i];
          if item.ListHeader? {
            assert SectionStart(items, position, i);
            return Some(item.text);
          }
        }
        i := i - 1;
      }
      return None;
    }
  }
}
