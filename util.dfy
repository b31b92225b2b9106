/** The cursors of the terminal user interface (src/util/mod.rs): a circular
    index over the wizard's screen titles and an optional selection over a
    list. `tui`'s `ListState` is modelled by the selected index alone. */
module Util {
  import opened Wrappers

  // ---------------------------------------------------------------------------
  // Tab index arithmetic

  /** The index `TabsState::next` moves to: one further, wrapping past the
      last title to the first. */
  function NextTab(index: nat, count: nat): (r: nat)
    requires count > 0
    ensures r < count
    ensures index < count ==> r == if index == count - 1 then 0 else index + 1
  {
    (index + 1) % count
  }

  /** The index `TabsState::previous` moves to: one back, wrapping from the
      first title to the last. With no titles only a positive index can move
      (otherwise `len() - 1` underflows). */
  function PreviousTab(index: nat, count: nat): (r: nat)
    requires index > 0 || count > 0
    ensures index <= count && count > 0 ==> r < count
  {
    if index > 0 then index - 1 else count - 1
  }

  /** `next` and `previous` undo each other on every valid index. */
  lemma TabStepsAreInverse(index: nat, count: nat)
    requires index < count
    ensures PreviousTab(NextTab(index, count), count) == index
    ensures NextTab(PreviousTab(index, count), count) == index
  {
  }

  /** The index after `n` calls of `next`. */
  function NextTabTimes(index: nat, count: nat, n: nat): (r: nat)
    requires index < count
    ensures r < count
  {
    if n == 0 then index else NextTab(NextTabTimes(index, count, n - 1), count)
  }

  /** Before the wrap, `n` calls of `next` advance the index by `n`. */
  lemma {:induction false} NextTabTimesAdvances(index: nat, count: nat, n: nat)
    requires index + n < count
    ensures NextTabTimes(index, count, n) == index + n
  {
    if n > 0 {
      NextTabTimesAdvances(index, count, n - 1);
    }
  }

  /** `a` calls of `next` followed by `b` more are `a + b` calls. */
  lemma {:induction false} NextTabTimesCompose(index: nat, count: nat, a: nat, b: nat)
    requires index < count
    ensures NextTabTimes(index, count, a + b) == NextTabTimes(NextTabTimes(index, count, a), count, b)
  {
    if b > 0 {
      NextTabTimesCompose(index, count, a, b - 1);
    }
  }

  /** As many calls of `next` as there are titles come back to the start. */
  lemma NextTabTimesCycles(index: nat, count: nat)
    requires index < count
    ensures NextTabTimes(index, count, count) == index
  {
    var toWrap := count - 1 - index;
    NextTabTimesAdvances(index, count, toWrap);
    NextTabTimesCompose(index, count, toWrap, 1);
    assert NextTabTimes(index, count, toWrap + 1) == 0;
    NextTabTimesCompose(index, count, toWrap + 1, index);
    if index > 0 {
      NextTabTimesAdvances(0, count, index);
    }
  }

  // ---------------------------------------------------------------------------
  // List selection arithmetic

  /** The selection `StatefulList::next` makes: nothing selected goes to the
      first item, the last item (or anything past it) wraps to the first,
      anything else moves one down. With a selection the list must be
      non-empty (otherwise `len() - 1` underflows). */
  function NextSelection(selected: Option<nat>, count: nat): (r: Option<nat>)
    requires selected.Some? ==> count > 0
    ensures r.Some?
    ensures selected.Some? && selected.value < count ==> r.value < count
    ensures selected.None? ==> r == Some(0)
  {
    match selected
    case Some(i) => if i >= count - 1 then Some(0) else Some(i + 1)
    case None => Some(0)
  }

  /** The selection `StatefulList::previous` makes: nothing selected goes to
      the FIRST item (not the last), the first item wraps to the last,
      anything else moves one up. */
  function PreviousSelection(selected: Option<nat>, count: nat): (r: Option<nat>)
    requires selected == Some(0) ==> count > 0
    ensures r.Some?
    ensures selected.Some? && selected.value < count ==> r.value < count
    ensures selected.None? ==> r == Some(0)
  {
    match selected
    case Some(i) => if i == 0 then Some(count - 1) else Some(i - 1)
    case None => Some(0)
  }

  /** On a selected item the list moves exactly like the tab index. */
  lemma SelectionMovesLikeTabs(i: nat, count: nat)
    requires i < count
    ensures NextSelection(Some(i), count) == Some(NextTab(i, count))
    ensures PreviousSelection(Some(i), count) == Some(PreviousTab(i, count))
  {
  }

  /** `next` and `previous` undo each other on a selected item; from no
      selection, `previous` after `next` selects the last item, not nothing. */
  lemma SelectionStepsAreInverse(i: nat, count: nat)
    requires i < count
    ensures PreviousSelection(NextSelection(Some(i), count), count) == Some(i)
    ensures NextSelection(PreviousSelection(Some(i), count), count) == Some(i)
    ensures PreviousSelection(NextSelection(None, count), count) == Some(count - 1)
  {
  }

  // ---------------------------------------------------------------------------
  // The cursor objects

  /** `TabsState`: the wizard's screen titles and the index of the one shown. */
  class TabsState {
    var titles: seq<string>
    var index: nat

    /** `TabsState::new`: starts at the first title. */
    constructor (titles: seq<string>)
      ensures this.titles == titles && index == 0
    {
      this.titles := titles;
      index := 0;
    }

    /** `TabsState::next` (divides by the number of titles, so there must be
      one). */
    method Next()
      requires |titles| > 0
      modifies this
      ensures titles == old(titles)
      ensures index == NextTab(old(index), |titles|)
    {
      index := (index + 1) % |titles|;
    }

    /** `TabsState::previous`. */
    method Previous()
      requires index > 0 || |titles| > 0
      modifies this
      ensures titles == old(titles)
      ensures index == PreviousTab(old(index), |titles|)
    {
      if index > 0 {
        index := index - 1;
      } else {
        index := |titles| - 1;
      }
    }
  }

  /** `StatefulList<T>`: the items of a list widget and which one is selected
      (`state.selected()`). */
  class StatefulList<T> {
    var items: seq<T>
    var selected: Option<nat>

    /** `StatefulList::new`: no items, nothing selected. */
    constructor Empty()
      ensures items == [] && selected == None
    {
      items := [];
      selected := None;
    }

    /** `StatefulList::with_items`: exactly the given items, nothing selected. */
    constructor WithItems(items: seq<T>)
      ensures this.items == items && selected == None
    {
      this.items := items;
      selected := None;
    }

    /** `StatefulList::next`. */
    method Next()
      requires selected.Some? ==> |items| > 0
      modifies this
      ensures items == old(items)
      ensures selected == NextSelection(old(selected), |items|)
    {
      var i := match selected
        case Some(i) => if i >= |items| - 1 then 0 else i + 1
        case None => 0;
      selected := Some(i);
    }

    /** `StatefulList::previous`. */
    method Previous()
      requires selected == Some(0) ==> |items| > 0
      modifies this
      ensures items == old(items)
      ensures selected == PreviousSelection(old(selected), |items|)
    {
      var i := match selected
        case Some(i) => if i == 0 then |items| - 1 else i - 1
        case None => 0;
      selected := Some(i);
    }

    /** `StatefulList::unselect`. */
    method Unselect()
      modifies this
      ensures items == old(items) && selected == None
    {
      selected := None;
    }
  }
}
