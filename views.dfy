/** The view helpers of `View.kt` that compute something: the measure-spec rule, the
    search of a view tree by type, the walk up the parent chain, the layout-direction
    property and enabling the tabs of a tab layout. */
module Views {
  import opened Wrappers

  // ---------------------------------------------------------------------------
  // Measure specs: a 32-bit value whose two top bits are the mode and whose other
  // thirty bits are the size (Android's `View.MeasureSpec`). The value is read here as
  // an unsigned number, so the two bit fields are a quotient and a remainder.

  type Spec32 = x: int | 0 <= x < 0x1_0000_0000

  const MODE_UNIT := 0x4000_0000
  const UNSPECIFIED: Spec32 := 0x0000_0000
  const EXACTLY: Spec32 := 0x4000_0000
  const AT_MOST: Spec32 := 0x8000_0000

  /** `MeasureSpec.getMode`: the spec with its size bits cleared. */
  function GetMode(measureSpec: Spec32): Spec32 {
    (measureSpec / MODE_UNIT) * MODE_UNIT
  }

  /** `MeasureSpec.getSize`: the spec with its mode bits cleared. */
  function GetSize(measureSpec: Spec32): int {
    measureSpec % MODE_UNIT
  }

  /** `MeasureSpec.makeMeasureSpec` for a size in range: the size bits of `size` and the
      mode bits of `mode`. */
  function MakeMeasureSpec(size: int, mode: Spec32): (spec: Spec32)
    requires 0 <= size < MODE_UNIT
  {
    GetMode(mode) + size
  }

  /** A spec built from a size and a mode gives them back, and every spec is built that way. */
  lemma MeasureSpecRoundTrip(size: int, mode: Spec32, spec: Spec32)
    requires 0 <= size < MODE_UNIT
    requires mode == UNSPECIFIED || mode == EXACTLY || mode == AT_MOST
    ensures GetMode(MakeMeasureSpec(size, mode)) == mode
    ensures GetSize(MakeMeasureSpec(size, mode)) == size
    ensures MakeMeasureSpec(GetSize(spec), GetMode(spec)) == spec
  {
  }

  /** `measureDimension`: EXACTLY imposes the spec's size, AT_MOST caps the desired size at
      it, and any other mode leaves the desired size as it is. */
  method MeasureDimension(desiredSize: int, measureSpec: Spec32) returns (result: int)
    ensures GetMode(measureSpec) == EXACTLY ==> result == GetSize(measureSpec)
    ensures GetMode(measureSpec) == AT_MOST ==>
      && result <= GetSize(measureSpec) && result <= desiredSize
      && (result == GetSize(measureSpec) || result == desiredSize)
    ensures GetMode(measureSpec) != EXACTLY && GetMode(measureSpec) != AT_MOST ==> result == desiredSize
  {
    var specMode := GetMode(measureSpec);
    var specSize := GetSize(measureSpec);
    if specMode == EXACTLY {
      result := specSize;
    } else {
      result := desiredSize;
      if specMode == AT_MOST {
        if result > specSize {
          result := specSize;
        }
      }
    }
  }

  // ---------------------------------------------------------------------------
  // View trees. A view is an instance of every class in `classes` (its class and its
  // supertypes); only a `ViewGroup` has children. `classes` is free: the search below
  // descends by the constructor, never by whether `classes` names the ViewGroup class,
  // so a group node is searched even when its class set leaves that class out.

  datatype ViewTree =
    | Widget(classes: set<string>)
    | ViewGroup(classes: set<string>, children: seq<ViewTree>)

  /** `clazz.isInstance(view)`. */
  predicate IsInstance(view: ViewTree, clazz: string) {
    clazz in view.classes
  }

  function Children(view: ViewTree): seq<ViewTree> {
    if view.ViewGroup? then view.children else []
  }

  /** The number of views in the forest `roots`; the search below terminates on it. */
  function CountViews(roots: seq<ViewTree>): nat
    decreases roots
  {
    if roots == [] then 0
    else (if roots[0].ViewGroup? then 1 + CountViews(roots[0].children) else 1) + CountViews(roots[1..])
  }

  /** `ViewGroup.findViewsByType(clazz)`. */
  function FindViewsByType(group: ViewTree, clazz: string): (found: seq<ViewTree>)
    requires group.ViewGroup?
    ensures |group.children| == 0 ==> found == []
    ensures forall v :: v in found ==> IsInstance(v, clazz)
    decreases CountViews(group.children), 1
  {
    if |group.children| == 0 then [] else FindInChildren(group.children, clazz)
  }

  /** What one child contributes: itself when it matches (its own children are not
      searched), the matches inside it when it is a non-matching group with children,
      and nothing otherwise. */
  function FromChild(view: ViewTree, clazz: string): (found: seq<ViewTree>)
    ensures forall v :: v in found ==> IsInstance(v, clazz)
    decreases CountViews(Children(view)), 2
  {
    if IsInstance(view, clazz) then [view]
    else if view.ViewGroup? && |view.children| != 0 then FindViewsByType(view, clazz)
    else []
  }

  /** The loop of `findViewsByType` over `children`, in child order. */
  function FindInChildren(children: seq<ViewTree>, clazz: string): (found: seq<ViewTree>)
    ensures forall v :: v in found ==> IsInstance(v, clazz)
    decreases CountViews(children), 0
  {
    if children == [] then []
    else FromChild(children[0], clazz) + FindInChildren(children[1..], clazz)
  }

  /** The search yields the results of the earlier children before those of the later ones. */
  lemma {:induction false} FindInChildrenAppend(a: seq<ViewTree>, b: seq<ViewTree>, clazz: string)
    ensures FindInChildren(a + b, clazz) == FindInChildren(a, clazz) + FindInChildren(b, clazz)
    decreases |a|
  {
    if a != [] {
      assert (a + b)[0] == a[0];
      assert (a + b)[1..] == a[1..] + b;
      FindInChildrenAppend(a[1..], b, clazz);
    } else {
      assert a + b == b;
    }
  }

  /** The view reached from the forest `roots` by following the child indices in `path`. */
  function ViewAt(roots: seq<ViewTree>, path: seq<int>): Option<ViewTree>
    decreases |path|
  {
    if path == [] || !(0 <= path[0] < |roots|) then None
    else if |path| == 1 then Some(roots[path[0]])
    else ViewAt(Children(roots[path[0]]), path[1..])
  }

  /** No view strictly above the end of `path` is an instance of `clazz`: the search
      reaches the end of the path without stopping at a match on the way. */
  ghost predicate Unshadowed(roots: seq<ViewTree>, path: seq<int>, clazz: string) {
    forall k :: 1 <= k < |path| ==>
      ViewAt(roots, path[..k]).Some? && !IsInstance(ViewAt(roots, path[..k]).value, clazz)
  }

  lemma ViewAtFirst(roots: seq<ViewTree>, rest: seq<int>)
    requires |roots| > 0
    ensures ViewAt(roots, [0] + rest) == if rest == [] then Some(roots[0]) else ViewAt(Children(roots[0]), rest)
  {
    assert ([0] + rest)[1..] == rest;
  }

  lemma ViewAtLater(roots: seq<ViewTree>, path: seq<int>)
    requires |roots| > 0 && |path| > 0 && path[0] >= 1
    ensures ViewAt(roots, path) == ViewAt(roots[1..], [path[0] - 1] + path[1..])
  {
    assert ([path[0] - 1] + path[1..])[1..] == path[1..];
  }

  /** Every view the search yields sits somewhere below the roots, on a path that passes
      through no matching view. */
  lemma {:induction false} FoundIsReachable(roots: seq<ViewTree>, clazz: string, v: ViewTree)
    returns (path: seq<int>)
    requires v in FindInChildren(roots, clazz)
    ensures ViewAt(roots, path) == Some(v) && Unshadowed(roots, path, clazz)
    decreases CountViews(roots)
  {
    var first := roots[0];
    if v in FromChild(first, clazz) {
      if IsInstance(first, clazz) {
        path := [0];
      } else {
        assert first.ViewGroup? && |first.children| != 0;
        assert v in FindViewsByType(first, clazz);
        var p := FoundIsReachable(first.children, clazz, v);
        path := [0] + p;
        ViewAtFirst(roots, p);
        forall k | 1 <= k < |path|
          ensures ViewAt(roots, path[..k]).Some? && !IsInstance(ViewAt(roots, path[..k]).value, clazz)
        {
          assert path[..k] == [0] + p[..k - 1];
          ViewAtFirst(roots, p[..k - 1]);
        }
      }
    } else {
      var p := FoundIsReachable(roots[1..], clazz, v);
      path := [p[0] + 1] + p[1..];
      ViewAtLater(roots, path);
      assert [p[0]] + p[1..] == p;
      forall k | 1 <= k < |path|
        ensures ViewAt(roots, path[..k]).Some? && !IsInstance(ViewAt(roots, path[..k]).value, clazz)
      {
        ViewAtLater(roots, path[..k]);
        assert [p[0]] + path[..k][1..] == p[..k];
      }
    }
  }

  /** Every matching view below the roots whose path passes through no matching view is
      yielded by the search. */
  lemma {:induction false} ReachableIsFound(roots: seq<ViewTree>, clazz: string, path: seq<int>)
    requires ViewAt(roots, path).Some? && IsInstance(ViewAt(roots, path).value, clazz)
    requires Unshadowed(roots, path, clazz)
    ensures ViewAt(roots, path).value in FindInChildren(roots, clazz)
    decreases CountViews(roots)
  {
    var v := ViewAt(roots, path).value;
    var first := roots[0];
    if path[0] == 0 {
      if |path| == 1 {
        assert v == first;
      } else {
        var rest := path[1..];
        assert path == [0] + rest;
        ViewAtFirst(roots, rest);
        ViewAtFirst(roots, []);
        assert path[..1] == [0];
        assert !IsInstance(first, clazz);
        forall k | 1 <= k < |rest|
          ensures ViewAt(Children(first), rest[..k]).Some? && !IsInstance(ViewAt(Children(first), rest[..k]).value, clazz)
        {
          assert path[..k + 1] == [0] + rest[..k];
          ViewAtFirst(roots, rest[..k]);
        }
        ReachableIsFound(Children(first), clazz, rest);
        assert v in FromChild(first, clazz);
      }
    } else {
      var shifted := [path[0] - 1] + path[1..];
      ViewAtLater(roots, path);
      forall k | 1 <= k < |shifted|
        ensures ViewAt(roots[1..], shifted[..k]).Some? && !IsInstance(ViewAt(roots[1..], shifted[..k]).value, clazz)
      {
        ViewAtLater(roots, path[..k]);
        assert [path[0] - 1] + path[..k][1..] == shifted[..k];
      }
      ReachableIsFound(roots[1..], clazz, shifted);
    }
  }

  /** `findViewsByType` yields exactly the views of type `clazz` below the group that the
      search can reach without first meeting a view of that type. */
  lemma FindViewsByTypeExactly(group: ViewTree, clazz: string, v: ViewTree)
    requires group.ViewGroup?
    ensures v in FindViewsByType(group, clazz) <==>
      IsInstance(v, clazz) &&
      exists path :: ViewAt(group.children, path) == Some(v) && Unshadowed(group.children, path, clazz)
  {
    if v in FindViewsByType(group, clazz) {
      var path := FoundIsReachable(group.children, clazz, v);
    }
    if IsInstance(v, clazz) &&
      exists path :: ViewAt(group.children, path) == Some(v) && Unshadowed(group.children, path, clazz)
    {
      var path :| ViewAt(group.children, path) == Some(v) && Unshadowed(group.children, path, clazz);
      ReachableIsFound(group.children, clazz, path);
    }
  }

  /** `children[i]` is the first child of type `clazz`. */
  predicate FirstOfTypeAt(children: seq<ViewTree>, clazz: string, i: int) {
    0 <= i < |children| && IsInstance(children[i], clazz) &&
    forall j :: 0 <= j < i ==> !IsInstance(children[j], clazz)
  }

  /** `ViewPager2.recyclerView`: the first child that is a `RecyclerView` (here: of class
      `clazz`), or none. */
  function FirstChildOfType(children: seq<ViewTree>, clazz: string): (r: Option<ViewTree>)
    ensures r.None? <==> forall i :: 0 <= i < |children| ==> !IsInstance(children[i], clazz)
    ensures r.Some? ==> exists i :: FirstOfTypeAt(children, clazz, i) && children[i] == r.value
  {
    if children == [] then None
    else if IsInstance(children[0], clazz) then
      assert FirstOfTypeAt(children, clazz, 0);
      Some(children[0])
    else
      var r := FirstChildOfType(children[1..], clazz);
      if r.Some? then
        var i :| FirstOfTypeAt(children[1..], clazz, i) && children[1..][i] == r.value;
        assert FirstOfTypeAt(children, clazz, i + 1);
        r
      else
        r
  }

  // ---------------------------------------------------------------------------
  // The parent chain. The hierarchy is given by its parent links: a node absent from
  // `parentOf` has a null parent. Android's view hierarchy has no cycles; `rank` (a
  // height that strictly drops from a node to its parent) witnesses that.

  type NodeId = int

  ghost predicate Ranked(parentOf: map<NodeId, NodeId>, rank: map<NodeId, nat>) {
    forall x :: x in parentOf ==> x in rank && parentOf[x] in rank && rank[parentOf[x]] < rank[x]
  }

  /** `View.parents`: the direct parent, its parent, and so on up to the first node without
      a parent. */
  method Parents(parentOf: map<NodeId, NodeId>, view: NodeId, ghost rank: map<NodeId, nat>)
    returns (chain: seq<NodeId>)
    requires Ranked(parentOf, rank)
    ensures |chain| == 0 <==> view !in parentOf
    ensures |chain| > 0 ==> chain[0] == parentOf[view]
    ensures forall k :: 0 <= k < |chain| - 1 ==> chain[k] in parentOf && parentOf[chain[k]] == chain[k + 1]
    ensures |chain| > 0 ==> chain[|chain| - 1] !in parentOf
    ensures Distinct(chain)
  {
    chain := [];
    var p: Option<NodeId> := if view in parentOf then Some(parentOf[view]) else None;
    while p.Some?
      invariant p.Some? ==> p.value in rank
      invariant |chain| == 0 ==> p == (if view in parentOf then Some(parentOf[view]) else None)
      invariant |chain| > 0 ==> view in parentOf && chain[0] == parentOf[view]
      invariant |chain| > 0 ==> p == (if chain[|chain| - 1] in parentOf then Some(parentOf[chain[|chain| - 1]]) else None)
      invariant forall k :: 0 <= k < |chain| - 1 ==> chain[k] in parentOf && parentOf[chain[k]] == chain[k + 1]
      invariant forall k :: 0 <= k < |chain| ==> chain[k] in rank
      invariant forall i, j :: 0 <= i < j < |chain| ==> rank[chain[i]] > rank[chain[j]]
      invariant p.Some? ==> forall k :: 0 <= k < |chain| ==> rank[chain[k]] > rank[p.value]
      decreases if p.Some? then rank[p.value] + 1 else 0
    {
      var node := p.value;
      chain := chain + [node];
      p := if node in parentOf then Some(parentOf[node]) else None;
    }
  }

  // ---------------------------------------------------------------------------
  // Layout direction and tabs: framework objects whose properties the helpers set.

  const LAYOUT_DIRECTION_LTR := 0
  const LAYOUT_DIRECTION_RTL := 1
  const LAYOUT_DIRECTION_INHERIT := 2

  class View {
    var layoutDirection: int

    constructor ()
      ensures layoutDirection == LAYOUT_DIRECTION_INHERIT
    {
      layoutDirection := LAYOUT_DIRECTION_INHERIT;
    }

    /** The `isRtl` getter. */
    function IsRtl(): bool
      reads this
    {
      layoutDirection == LAYOUT_DIRECTION_RTL
    }

    /** The `isRtl` setter: RTL for true, LTR for false; reading `isRtl` back gives `value`. */
    method SetRtl(value: bool)
      modifies this
      ensures layoutDirection == if value then LAYOUT_DIRECTION_RTL else LAYOUT_DIRECTION_LTR
      ensures IsRtl() == value
    {
      layoutDirection := if value then LAYOUT_DIRECTION_RTL else LAYOUT_DIRECTION_LTR;
    }
  }

  class TabView {
    var isEnabled: bool
  }

  /** `TabLayout.Tab`, whose view may be absent. */
  class Tab {
    var view: TabView?
  }

  class TabLayout {
    /** `getTabAt(i)` for `i` in `0 until tabCount`; a tab may be absent. */
    var tabs: seq<Tab?>

    /** `setTabsEnabled`: every tab that has a view gets `isEnabled = enabled`. */
    method SetTabsEnabled(enabled: bool)
      modifies set i | 0 <= i < |tabs| && tabs[i] != null && tabs[i].view != null :: tabs[i].view
      ensures forall i :: 0 <= i < |tabs| && tabs[i] != null && tabs[i].view != null ==> tabs[i].view.isEnabled == enabled
    {
      var i := 0;
      while i < |tabs|
        invariant 0 <= i <= |tabs|
        invariant forall j :: 0 <= j < i && tabs[j] != null && tabs[j].view != null ==> tabs[j].view.isEnabled == enabled
      {
        var tab := tabs[i];
        if tab != null && tab.view != null {
          tab.view.isEnabled := enabled;
        }
        i := i + 1;
      }
    }
  }
}
