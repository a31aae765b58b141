/** The activity bar (src/components/ActivityBar.tsx): four tab buttons and a bottom
    button that together decide which side panel is shown and whether the side bar is
    visible. The bar holds no state; it fires `onTabChange` and `onToggleSidebar`, which
    the host (src/App.tsx) wires to "set the active tab" and "flip the visibility". */
module ActivityBar {

  /** The side panels, in the order of the buttons. */
  datatype Tab = Files | Search | Git | Extensions

  /** A callback the bar fires. */
  datatype BarAction = TabChange(tab: Tab) | ToggleSidebar

  /** What the host keeps: the active tab and whether the side bar is shown. */
  datatype Layout = Layout(activeTab: Tab, sidebarVisible: bool)

  /** `isActive`: the button is highlighted. */
  predicate IsActive(s: Layout, tab: Tab) {
    s.activeTab == tab && s.sidebarVisible
  }

  /** The click rule of a tab button: the callbacks it fires, in order. */
  function Click(s: Layout, tab: Tab): (r: seq<BarAction>)
    ensures IsActive(s, tab) <==> r == [ToggleSidebar]
    ensures !IsActive(s, tab) ==> |r| >= 1 && r[0] == TabChange(tab)
    ensures ToggleSidebar in r <==> IsActive(s, tab) || !s.sidebarVisible
  {
    if IsActive(s, tab) then [ToggleSidebar]
    else
      var r := [TabChange(tab)] + (if !s.sidebarVisible then [ToggleSidebar] else []);
      assert r[0] == TabChange(tab);
      r
  }

  /** The bottom button fires the toggle alone. */
  const BottomClick: seq<BarAction> := [ToggleSidebar]

  /** The host's handlers applied in order: `setActiveTab` and a flip of the visibility. */
  function Apply(s: Layout, actions: seq<BarAction>): Layout
    decreases |actions|
  {
    if actions == [] then s
    else
      var s' := match actions[0]
        case TabChange(t) => Layout(t, s.sidebarVisible)
        case ToggleSidebar => Layout(s.activeTab, !s.sidebarVisible);
      Apply(s', actions[1..])
  }

  /** Clicking the highlighted tab hides the side bar and keeps the tab. */
  lemma ClickActiveHides(s: Layout, tab: Tab)
    requires IsActive(s, tab)
    ensures Apply(s, Click(s, tab)) == Layout(s.activeTab, false)
  {
    assert Click(s, tab)[1..] == [];
  }

  /** Any other click shows the side bar on the clicked tab, which is then highlighted. */
  lemma ClickOtherShows(s: Layout, tab: Tab)
    requires !IsActive(s, tab)
    ensures Apply(s, Click(s, tab)) == Layout(tab, true)
    ensures IsActive(Apply(s, Click(s, tab)), tab)
  {
    var a := Click(s, tab);
    if s.sidebarVisible {
      assert a[1..] == [];
    } else {
      assert a[1..] == [ToggleSidebar] && a[1..][1..] == [];
      assert Apply(s, a) == Apply(Layout(tab, false), [ToggleSidebar]);
      assert Apply(Layout(tab, false), [ToggleSidebar]) == Apply(Layout(tab, true), []);
    }
  }

  /** After a click the clicked tab is highlighted exactly when it was not before, and no
      other tab is. */
  lemma ClickFlipsHighlight(s: Layout, tab: Tab, other: Tab)
    requires other != tab
    ensures IsActive(Apply(s, Click(s, tab)), tab) <==> !IsActive(s, tab)
    ensures !IsActive(Apply(s, Click(s, tab)), other)
  {
    if IsActive(s, tab) {
      ClickActiveHides(s, tab);
    } else {
      ClickOtherShows(s, tab);
    }
  }

  /** Clicking the highlighted tab twice gives back the layout it started from. */
  lemma ClickTwiceRestores(s: Layout, tab: Tab)
    requires IsActive(s, tab)
    ensures Apply(Apply(s, Click(s, tab)), Click(Apply(s, Click(s, tab)), tab)) == s
  {
    ClickActiveHides(s, tab);
    var hidden := Apply(s, Click(s, tab));
    ClickOtherShows(hidden, tab);
  }

  /** The bottom button flips the visibility, keeps the tab, and undoes itself. */
  lemma BottomFlips(s: Layout)
    ensures Apply(s, BottomClick) == Layout(s.activeTab, !s.sidebarVisible)
    ensures Apply(Apply(s, BottomClick), BottomClick) == s
  {
    assert BottomClick[1..] == [];
  }
}
