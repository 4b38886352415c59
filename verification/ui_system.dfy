/** The bookkeeping half of the UI system (UISystem.cs): per sorting layer, the
    list of sorting orders handed to the panels shown on that layer; the list
    of active panels; the stack of stacked panels; and the focused panel. */
module UISorting {
  import opened Wrappers

  datatype UIPanelType = Normal | Stack

  /** What the UI system reads from a loaded UIPanel: its sorting layer, its
      panel type and its current sorting order (UIPanel.SetSortingOrder and
      GetSortingOrder write and read that order). */
  datatype Panel = Panel(sortingLayer: string, panelType: UIPanelType, sortingOrder: int)

  const ShortMinValue := -32768
  const ShortMaxValue := 32767

  /** List<T>.IndexOf: the position of the first occurrence, -1 when absent. */
  function IndexOf<T(==)>(xs: seq<T>, v: T): (r: int)
    ensures -1 <= r < |xs|
    ensures r == -1 <==> v !in xs
    ensures 0 <= r ==> xs[r] == v && v !in xs[..r]
  {
    if xs == [] then -1
    else if xs[0] == v then 0
    else
      var r := IndexOf(xs[1..], v);
      assert r >= 0 ==> xs[..r + 1] == [xs[0]] + xs[1..][..r];
      if r == -1 then -1 else r + 1
  }

  /** List<T>.Remove: deletes the first occurrence of v, if any. */
  function RemoveFirst<T(==)>(xs: seq<T>, v: T): (r: seq<T>)
    ensures v !in xs ==> r == xs
    ensures v in xs ==> |r| == |xs| - 1 && multiset(r) == multiset(xs) - multiset{v}
  {
    if xs == [] then []
    else
      assert xs == [xs[0]] + xs[1..];
      if xs[0] == v then xs[1..]
      else [xs[0]] + RemoveFirst(xs[1..], v)
  }

  /** What RemoveFirst deletes is exactly the element at the first occurrence. */
  lemma {:induction false} RemoveFirstAtIndexOf<T>(xs: seq<T>, v: T)
    requires v in xs
    ensures RemoveFirst(xs, v) == xs[..IndexOf(xs, v)] + xs[IndexOf(xs, v) + 1..]
  {
    if xs[0] != v {
      var t := xs[1..];
      assert xs == [xs[0]] + t;
      RemoveFirstAtIndexOf(t, v);
      var k := IndexOf(t, v);
      assert IndexOf(xs, v) == k + 1;
      assert RemoveFirst(xs, v) == [xs[0]] + (t[..k] + t[k + 1..]);
      ConsAroundGap(xs[0], t, k);
    }
  }

  lemma ConsAroundGap<T>(x: T, t: seq<T>, k: nat)
    requires k < |t|
    ensures [x] + (t[..k] + t[k + 1..]) == ([x] + t)[..k + 1] + ([x] + t)[k + 2..]
  {
    assert ([x] + t)[..k + 1] == [x] + t[..k];
    assert ([x] + t)[k + 2..] == t[k + 1..];
  }

  /** Sorting orders on one layer are strictly increasing, later panels on top. */
  ghost predicate Increasing(s: seq<int>) {
    forall i, j :: 0 <= i < j < |s| ==> s[i] < s[j]
  }

  lemma RemoveFirstKeepsIncreasing(xs: seq<int>, v: int)
    requires Increasing(xs)
    ensures Increasing(RemoveFirst(xs, v))
  {
    if v in xs {
      RemoveFirstAtIndexOf(xs, v);
      DeleteKeepsIncreasing(xs, IndexOf(xs, v));
    }
  }

  lemma DeleteKeepsIncreasing(xs: seq<int>, k: nat)
    requires Increasing(xs) && k < |xs|
    ensures Increasing(xs[..k] + xs[k + 1..])
  {
    var r := xs[..k] + xs[k + 1..];
    forall i, j | 0 <= i < j < |r|
      ensures r[i] < r[j]
    {
      DeletedAt(xs, k, i);
      DeletedAt(xs, k, j);
    }
  }

  lemma DeletedAt(xs: seq<int>, k: nat, i: nat)
    requires k < |xs| && i < |xs| - 1
    ensures (xs[..k] + xs[k + 1..])[i] == xs[if i < k then i else i + 1]
  {
  }

  ghost predicate Distinct<T>(s: seq<T>) {
    forall i, j :: 0 <= i < j < |s| ==> s[i] != s[j]
  }

  /** The first sorting order of a layer: the 16-bit order range split into
      equal slices, one per configured layer, in configuration order. */
  function BaseOrder(sortingLayers: seq<string>, layer: string): (r: int)
    requires layer in sortingLayers
    ensures ShortMinValue <= r <= ShortMaxValue
  {
    var division := (ShortMaxValue - ShortMinValue) / |sortingLayers|;
    SliceFits(division, IndexOf(sortingLayers, layer), |sortingLayers|);
    division * IndexOf(sortingLayers, layer) + ShortMinValue
  }

  lemma SliceFits(division: int, index: int, count: int)
    requires 0 <= index < count && division == (ShortMaxValue - ShortMinValue) / count
    ensures 0 <= division * index <= ShortMaxValue - ShortMinValue
  {
    assert division * count <= ShortMaxValue - ShortMinValue;
    assert division >= 0;
    assert division * (count - index) >= 0;
    assert division * count == division * index + division * (count - index);
  }

  /** A layer configured later never starts below one configured earlier, and
      the start of a layer is the slice size times its position. */
  lemma {:induction false} BaseOrderMonotone(sortingLayers: seq<string>, low: string, high: string)
    requires low in sortingLayers && high in sortingLayers
    requires IndexOf(sortingLayers, low) <= IndexOf(sortingLayers, high)
    ensures BaseOrder(sortingLayers, low) <= BaseOrder(sortingLayers, high)
    ensures BaseOrder(sortingLayers, high) - BaseOrder(sortingLayers, low)
         == (ShortMaxValue - ShortMinValue) / |sortingLayers|
            * (IndexOf(sortingLayers, high) - IndexOf(sortingLayers, low))
  {
    var division := (ShortMaxValue - ShortMinValue) / |sortingLayers|;
    ScaledGap(division, IndexOf(sortingLayers, low), IndexOf(sortingLayers, high));
  }

  lemma ScaledGap(d: int, a: int, b: int)
    requires d >= 0 && a <= b
    ensures (d * b + ShortMinValue) - (d * a + ShortMinValue) == d * (b - a) >= 0
  {
    assert d * b - d * a == d * (b - a);
  }

  /** The foreach over a Stack<T>: from the top down. */
  function TopFirst<T>(stack: seq<T>): (r: seq<T>)
    ensures |r| == |stack|
    ensures forall i :: 0 <= i < |stack| ==> r[i] == stack[|stack| - 1 - i]
  {
    seq(|stack|, i requires 0 <= i < |stack| => stack[|stack| - 1 - i])
  }

  /** Pushing onto a stack puts the new element first in the enumeration. */
  lemma TopFirstPush<T>(stack: seq<T>, x: T)
    ensures TopFirst(stack + [x]) == [x] + TopFirst(stack)
  {
  }

  /** Enumerating top first twice gives the stack back, bottom first. */
  lemma TopFirstTwice<T>(stack: seq<T>)
    ensures TopFirst(TopFirst(stack)) == stack
  {
  }

  /** The position the enumeration loop leaves in `index`: the last position
      at which the id is seen, 0 when it is never seen. */
  function LastSeenAt<T(==)>(items: seq<T>, v: T): (r: nat)
    ensures v in items ==> r < |items| && items[r] == v && v !in items[r + 1..]
    ensures v !in items ==> r == 0
  {
    if items == [] then 0
    else if items[|items| - 1] == v then |items| - 1
    else
      var r := LastSeenAt(items[..|items| - 1], v);
      assert v in items ==> v in items[..|items| - 1];
      assert v in items ==> items[r + 1..] == items[..|items| - 1][r + 1..] + [items[|items| - 1]];
      r
  }

  /** PopPanelsAbove's pop count as written: the index comes from the
      top-down enumeration but is used as if it counted from the bottom. */
  function PopCountAsWritten(stack: seq<string>, panelId: string): (r: int)
    ensures |stack| > 0 ==> 0 <= r < |stack|
    ensures panelId !in stack ==> r == |stack| - 1
  {
    var t := TopFirst(stack);
    assert panelId in t ==> panelId in stack by {
      if panelId in t {
        var j :| 0 <= j < |t| && t[j] == panelId;
        assert stack[|stack| - 1 - j] == panelId;
      }
    }
    (|stack| - 1) - LastSeenAt(t, panelId)
  }

  /** The number of panels above panelId's (only) entry in the stack. */
  function PopCount(stack: seq<string>, panelId: string): (r: int)
    requires panelId in stack
    ensures 0 <= r < |stack|
    ensures stack[|stack| - 1 - r] == panelId
  {
    (|stack| - 1) - IndexOf(stack, panelId)
  }

  /** As written, the count is the number of panels BELOW the target, not
      above it. */
  lemma PopCountAsWrittenCountsBelow(stack: seq<string>, panelId: string)
    requires Distinct(stack) && panelId in stack
    ensures PopCountAsWritten(stack, panelId) == IndexOf(stack, panelId)
    ensures PopCount(stack, panelId) == |stack| - 1 - IndexOf(stack, panelId)
  {
    var k := IndexOf(stack, panelId);
    var t := TopFirst(stack);
    assert t[|stack| - 1 - k] == panelId;
    var r := LastSeenAt(t, panelId);
    assert stack[|stack| - 1 - r] == panelId;
  }

  /** Showing again the bottom panel A of the stack A, B, C (C on top): as
      written the loop pops nothing and C stays on top, where the two panels
      above A should have been popped. */
  lemma PopCountAsWrittenExample()
    ensures PopCountAsWritten(["A", "B", "C"], "A") == 0
    ensures PopCount(["A", "B", "C"], "A") == 2
  {
    var s := ["A", "B", "C"];
    assert Distinct(s);
    assert IndexOf(s, "A") == 0;
    PopCountAsWrittenCountsBelow(s, "A");
  }

  class UISystem {
    /** The configured layer names (UISettings.SortingLayers), in order. */
    const sortingLayers: seq<string>
    var focusPanelId: Option<string>
    var panelsLoaded: map<string, Panel>
    /** The panel stack, bottom first. */
    var panelStack: seq<string>
    var activePanels: seq<string>
    var sortingOrders: map<string, seq<int>>

    ghost predicate Valid()
      reads this
    {
      && (forall l :: l in sortingOrders <==> l in sortingLayers)
      && (forall l :: l in sortingOrders ==> Increasing(sortingOrders[l]))
      && (forall id :: id in panelsLoaded ==> panelsLoaded[id].sortingLayer in sortingLayers)
      && Distinct(panelStack)
    }

    /** The field initialisers followed by Init's InitSortingLayers call. */
    constructor (sortingLayers: seq<string>)
      ensures Valid()
      ensures this.sortingLayers == sortingLayers
      ensures focusPanelId == None && panelsLoaded == map[] && panelStack == [] && activePanels == []
      ensures forall l :: l in sortingLayers ==> l in sortingOrders && sortingOrders[l] == []
    {
      this.sortingLayers := sortingLayers;
      focusPanelId := None;
      panelsLoaded := map[];
      panelStack := [];
      activePanels := [];
      sortingOrders := map[];
      new;
      InitSortingLayers();
    }

    /** Gives every configured layer a fresh, empty order list; other entries
        are kept. */
    method InitSortingLayers()
      modifies this`sortingOrders
      ensures sortingOrders.Keys == old(sortingOrders).Keys + set l | l in sortingLayers
      ensures forall l :: l in sortingLayers ==> sortingOrders[l] == []
      ensures forall l :: l in old(sortingOrders) && l !in sortingLayers ==> sortingOrders[l] == old(sortingOrders)[l]
    {
      for i := 0 to |sortingLayers|
        invariant sortingOrders.Keys == old(sortingOrders).Keys + set l | l in sortingLayers[..i]
        invariant forall l :: l in sortingLayers[..i] ==> sortingOrders[l] == []
        invariant forall l :: l in old(sortingOrders) && l !in sortingLayers[..i] ==> sortingOrders[l] == old(sortingOrders)[l]
      {
        assert sortingLayers[..i + 1] == sortingLayers[..i] + [sortingLayers[i]];
        var sortingLayer := sortingLayers[i];
        sortingOrders := sortingOrders[sortingLayer := []];
      }
      assert sortingLayers[..|sortingLayers|] == sortingLayers;
    }

    predicate IsPanelActive(panelId: string)
      reads this
    {
      panelId in activePanels
    }

    /** The order list of panelId's layer once panelId's own order has been
        taken out of it, which happens only while the panel is active. */
    function OrdersWithout(panelId: string): (r: seq<int>)
      reads this
      requires Valid() && panelId in panelsLoaded
      ensures Increasing(r)
      ensures var panel := panelsLoaded[panelId];
              IsPanelActive(panelId) ==> r == RemoveFirst(sortingOrders[panel.sortingLayer], panel.sortingOrder)
      ensures var panel := panelsLoaded[panelId];
              !IsPanelActive(panelId) ==> r == sortingOrders[panel.sortingLayer]
    {
      var panel := panelsLoaded[panelId];
      var sortingOrdersList := sortingOrders[panel.sortingLayer];
      if IsPanelActive(panelId) then
        RemoveFirstKeepsIncreasing(sortingOrdersList, panel.sortingOrder);
        RemoveFirst(sortingOrdersList, panel.sortingOrder)
      else sortingOrdersList
    }

    /** Allocates the panel's new order: the start of its layer's slice when
        the layer has no orders (after dropping the panel's own order if it is
        active), otherwise one above the layer's topmost order. */
    method GetNewSortingOrder(panelId: string) returns (newSortingOrder: int)
      requires Valid() && panelId in panelsLoaded
      modifies this`sortingOrders
      ensures Valid()
      ensures var layer := panelsLoaded[panelId].sortingLayer;
              var remaining := old(OrdersWithout(panelId));
              && (remaining == [] ==> newSortingOrder == BaseOrder(sortingLayers, layer))
              && (remaining != [] ==> newSortingOrder == remaining[|remaining| - 1] + 1)
              && (forall o :: o in remaining ==> o < newSortingOrder)
              && sortingOrders == old(sortingOrders)[layer := remaining + [newSortingOrder]]
    {
      var panel := panelsLoaded[panelId];
      var sortingOrdersList := OrdersWithout(panelId);
      if |sortingOrdersList| == 0 {
        var division := (ShortMaxValue - ShortMinValue) / |sortingLayers|;
        newSortingOrder := division * IndexOf(sortingLayers, panel.sortingLayer) + ShortMinValue;
      } else {
        var currentTopOrder := sortingOrdersList[|sortingOrdersList| - 1];
        newSortingOrder := currentTopOrder + 1;
      }
      sortingOrders := sortingOrders[panel.sortingLayer := sortingOrdersList + [newSortingOrder]];
    }

    /** Takes an active panel's order out of its layer's list; a panel that is
        not active leaves every list as it is. */
    method RemoveSortingOrder(panelId: string)
      requires Valid() && panelId in panelsLoaded
      modifies this`sortingOrders
      ensures Valid()
      ensures sortingOrders == old(sortingOrders)[panelsLoaded[panelId].sortingLayer := old(OrdersWithout(panelId))]
      ensures !IsPanelActive(panelId) ==> sortingOrders == old(sortingOrders)
    {
      var panel := panelsLoaded[panelId];
      sortingOrders := sortingOrders[panel.sortingLayer := OrdersWithout(panelId)];
    }

    /** None clears the focus; an id takes the focus only if it is loaded. */
    method SetPanelFocus(panelId: Option<string>)
      modifies this`focusPanelId
      ensures panelId.None? ==> focusPanelId == None
      ensures panelId.Some? && panelId.value in panelsLoaded ==> focusPanelId == panelId
      ensures panelId.Some? && panelId.value !in panelsLoaded ==> focusPanelId == old(focusPanelId)
    {
      if panelId.None? {
        focusPanelId := None;
        return;
      }
      if panelId.value in panelsLoaded {
        focusPanelId := panelId;
      }
    }

    /** The bookkeeping of hiding a loaded panel once its hide animation has
        finished: its order leaves its layer's list while it is still active,
        then it leaves the active list. */
    method HidePanel(panelId: string)
      requires Valid()
      modifies this`sortingOrders, this`activePanels
      ensures Valid()
      ensures panelId in panelsLoaded ==>
        sortingOrders == old(sortingOrders)[panelsLoaded[panelId].sortingLayer := old(OrdersWithout(panelId))]
        && activePanels == RemoveFirst(old(activePanels), panelId)
      ensures panelId !in panelsLoaded ==> sortingOrders == old(sortingOrders) && activePanels == old(activePanels)
    {
      if panelId in panelsLoaded {
        RemoveSortingOrder(panelId);
        activePanels := RemoveFirst(activePanels, panelId);
      }
    }

    /** HidePeekPanel without animation: pops and hides the top panel unless it
        is the only one, then focuses the new top panel (or nothing when the
        stack is empty). */
    method HidePeekPanel()
      requires Valid()
      modifies this`panelStack, this`sortingOrders, this`activePanels, this`focusPanelId
      ensures Valid()
      ensures |old(panelStack)| > 1 ==> panelStack == old(panelStack)[..|old(panelStack)| - 1]
      ensures |old(panelStack)| <= 1 ==> panelStack == old(panelStack)
      ensures panelStack == [] ==> focusPanelId == None
      ensures panelStack != [] && panelStack[|panelStack| - 1] in panelsLoaded ==>
        focusPanelId == Some(panelStack[|panelStack| - 1])
      ensures panelStack != [] && panelStack[|panelStack| - 1] !in panelsLoaded ==>
        focusPanelId == old(focusPanelId)
      ensures |old(panelStack)| > 1 && old(panelStack)[|old(panelStack)| - 1] in panelsLoaded ==>
        var p := old(panelStack)[|old(panelStack)| - 1];
        && sortingOrders == old(sortingOrders)[panelsLoaded[p].sortingLayer := old(OrdersWithout(p))]
        && activePanels == RemoveFirst(old(activePanels), p)
      ensures |old(panelStack)| > 1 && old(panelStack)[|old(panelStack)| - 1] !in panelsLoaded ==>
        sortingOrders == old(sortingOrders) && activePanels == old(activePanels)
      ensures |old(panelStack)| <= 1 ==> sortingOrders == old(sortingOrders) && activePanels == old(activePanels)
    {
      if |panelStack| > 1 {
        var panelId := panelStack[|panelStack| - 1];
        panelStack := panelStack[..|panelStack| - 1];
        assert Valid();
        HidePanel(panelId);
      }
      if |panelStack| > 0 {
        var currentPeekPanelId := panelStack[|panelStack| - 1];
        if currentPeekPanelId in panelsLoaded {
          SetPanelFocus(Some(currentPeekPanelId));
        }
      } else {
        SetPanelFocus(None);
      }
    }

    /** Pops, one HidePeekPanel at a time, every panel above panelId, which is
        then the top of the stack. */
    method PopPanelsAbove(panelId: string)
      requires Valid() && panelId in panelStack
      modifies this`panelStack, this`sortingOrders, this`activePanels, this`focusPanelId
      ensures Valid()
      ensures panelStack == old(panelStack)[..IndexOf(old(panelStack), panelId) + 1]
      ensures panelStack[|panelStack| - 1] == panelId
    {
      var popCount := PopCount(panelStack, panelId);
      ghost var stack0 := panelStack;
      for j := 0 to popCount
        invariant Valid()
        invariant panelStack == stack0[..|stack0| - j]
      {
        HidePeekPanel();
        assert stack0[..|stack0| - j][..|stack0| - j - 1] == stack0[..|stack0| - (j + 1)];
      }
    }

    /** The stack half of PushToStack: an id already in the stack has every
        panel above it popped, any other id is pushed. */
    method PushToStack(panelId: string)
      requires Valid()
      modifies this`panelStack, this`sortingOrders, this`activePanels, this`focusPanelId
      ensures Valid()
      ensures panelId in old(panelStack) ==> panelStack == old(panelStack)[..IndexOf(old(panelStack), panelId) + 1]
      ensures panelId !in old(panelStack) ==> panelStack == old(panelStack) + [panelId]
      ensures panelStack != [] && panelStack[|panelStack| - 1] == panelId
      ensures |panelStack| <= |old(panelStack)| + 1
    {
      if panelId in panelStack {
        PopPanelsAbove(panelId);
        return;
      }
      panelStack := panelStack + [panelId];
    }
  }
}
