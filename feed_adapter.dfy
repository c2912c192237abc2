/** `FeedAdapter`: the tracker feed list, with a fast-scroller section index. */
module Feed {
  import opened Wrappers
  import opened ListModels

  /** The `addDelegate` calls of the feed adapter's `init`, in order. */
  const FEED_DELEGATES: seq<(ListItemType, AdapterDelegate)> := [
    (ListItemType.Feed, FeedItemAD),
    (FooterLoading, LoadingFooterAD),
    (StateLoading, LoadingStateAD),
    (FooterError, ErrorFooterAD),
    (StateError, ErrorStateListAD),
    (Header, ListHeaderAD),
    (StateEmpty, EmptyStateListAD)
  ]

  class FeedAdapter {
    const registry: DelegateRegistry
    var items: seq<ListModel>

    /** `init`: seven delegates under seven distinct item types. */
    constructor ()
      ensures fresh(registry) && items == []
      ensures registry.entries == FEED_DELEGATES
      ensures |registry.entries| == 7 && Distinct(Keys(registry.entries))
      ensures Keys(registry.entries) ==
        [ListItemType.Feed, FooterLoading, StateLoading, FooterError, StateError, Header, StateEmpty]
    {
      items := [];
      var r := new DelegateRegistry();
      r.AddDelegate(ListItemType.Feed, FeedItemAD);
      r.AddDelegate(FooterLoading, LoadingFooterAD);
      r.AddDelegate(StateLoading, LoadingStateAD);
      r.AddDelegate(FooterError, ErrorFooterAD);
      r.AddDelegate(StateError, ErrorStateListAD);
      r.AddDelegate(Header, ListHeaderAD);
      r.AddDelegate(StateEmpty, EmptyStateListAD);
      registry := r;
    }

    /** `getSectionText`: scans from `position` down to 0, skipping indices past the end,
        and returns the text of the first header met. */
    method GetSectionText(position: int) returns (text: Option<string>)
      ensures text.None? <==> forall i :: 0 <= i <= position ==> !HeaderAt(items, i)
      ensures text.Some? ==> exists i :: SectionStart(items, position, i) && text.value == items[i].text
    {
      var i := position;
      while i >= 0
        invariant i <= position
        invariant forall j :: i < j <= position ==> !HeaderAt(items, j)
      {
        if i < |items| {
          var item := items[i];
          if item.ListHeader? {
            assert SectionStart(items, position, i);
            return Some(item.text);
          }
        }
        i := i - 1;
      }
      return None;
    }
  }
}
