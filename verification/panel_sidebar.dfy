/** The collapsible navigation sidebar of the admin panel: which items have their
    sub-items expanded, and whether the whole sidebar is collapsed. */
module PanelSidebar {
  import opened Wrappers
  import opened Sequences

  datatype SubItem = SubItem(name: string, href: string)

  /** A navigation entry; `subItems` is absent (not merely empty) for plain links. */
  datatype NavItem = NavItem(name: string, href: string, subItems: Option<seq<SubItem>>)

  datatype Sidebar = Sidebar(collapsed: bool, expanded: seq<string>)

  /** The sidebar as it mounts: open, nothing expanded. */
  const Initial: Sidebar := Sidebar(false, [])

  function NotName(name: string): string -> bool {
    (x: string) => x != name
  }

  /** `toggleSubItems`: remove the name if it is expanded, otherwise append it. */
  function ToggleSubItems(expanded: seq<string>, name: string): (r: seq<string>)
    ensures name in r <==> name !in expanded
    ensures forall x :: x != name ==> (x in r <==> x in expanded)
    ensures name !in expanded ==> r == expanded + [name]
    ensures name in expanded ==> IsSubsequence(r, expanded) && |r| < |expanded|
    ensures NoDup(expanded) ==> NoDup(r)
  {
    if name in expanded then
      FilterIsSubsequence(NotName(name), expanded);
      FilterMembers(NotName(name), expanded);
      var r := Filter(NotName(name), expanded);
      assert |r| < |expanded| by {
        var i :| 0 <= i < |expanded| && expanded[i] == name;
        assert expanded == expanded[..i] + [name] + expanded[i + 1..];
        FilterConcat(NotName(name), expanded[..i] + [name], expanded[i + 1..]);
        FilterConcat(NotName(name), expanded[..i], [name]);
      }
      if NoDup(expanded) then FilterNoDup(NotName(name), expanded); r else r
    else
      var r := expanded + [name];
      assert NoDup(expanded) ==> NoDup(r) by {
        if NoDup(expanded) {
          forall i, j | 0 <= i < j < |r| ensures Differ(r[i], r[j]) {
            if j < |expanded| {
              assert Differ(expanded[i], expanded[j]);
            } else {
              assert r[i] in expanded;
            }
          }
        }
      }
      r
  }

  /** Toggling the same name twice restores which labels are expanded, and when
      the name started collapsed it restores the list exactly. */
  lemma ToggleTwice(expanded: seq<string>, name: string)
    ensures forall x :: x in ToggleSubItems(ToggleSubItems(expanded, name), name) <==> x in expanded
    ensures name !in expanded ==> ToggleSubItems(ToggleSubItems(expanded, name), name) == expanded
  {
    if name !in expanded {
      forall i | 0 <= i < |expanded| ensures NotName(name)(expanded[i]) {
        assert expanded[i] in expanded;
      }
      FilterOutAppended(NotName(name), expanded, name);
    }
  }

  /** `toggleSidebar`: flip the collapsed flag and collapse every item. */
  function ToggleSidebar(s: Sidebar): (r: Sidebar)
    ensures r.collapsed == !s.collapsed
    ensures r.expanded == []
  {
    Sidebar(!s.collapsed, [])
  }

  /** A click on an item: items with sub-items toggle their expansion (even while
      the sidebar is collapsed); plain links change nothing here. */
  function ClickItem(s: Sidebar, item: NavItem): (r: Sidebar)
    ensures item.subItems.None? ==> r == s
    ensures r.collapsed == s.collapsed
    ensures item.subItems.Some? ==> r.expanded == ToggleSubItems(s.expanded, item.name)
  {
    if item.subItems.Some? then s.(expanded := ToggleSubItems(s.expanded, item.name)) else s
  }

  /** Whether an item's sub-items are on screen. */
  predicate SubItemsVisible(s: Sidebar, item: NavItem) {
    !s.collapsed && item.subItems.Some? && item.name in s.expanded
  }

  /** In an open sidebar, clicking an item with sub-items shows them exactly when
      they were hidden, and leaves every item with a different name as it was. */
  lemma ClickFlipsVisibility(s: Sidebar, item: NavItem, other: NavItem)
    requires !s.collapsed && item.subItems.Some?
    ensures SubItemsVisible(ClickItem(s, item), item) <==> !SubItemsVisible(s, item)
    ensures other.name != item.name ==>
      (SubItemsVisible(ClickItem(s, item), other) <==> SubItemsVisible(s, other))
  {
  }

  /** Collapsing or reopening the sidebar hides every item's sub-items. */
  lemma ToggleSidebarHidesAll(s: Sidebar, item: NavItem)
    ensures !SubItemsVisible(ToggleSidebar(s), item)
  {
  }

  datatype Event = Click(item: NavItem) | ToggleCollapse

  function Step(s: Sidebar, ev: Event): Sidebar {
    match ev
    case Click(item) => ClickItem(s, item)
    case ToggleCollapse => ToggleSidebar(s)
  }

  function Run(s: Sidebar, events: seq<Event>): Sidebar
    decreases |events|
  {
    if events == [] then s else Run(Step(s, events[0]), events[1..])
  }

  /** Whatever the user clicks, no name is ever listed twice as expanded. */
  lemma {:induction false} RunKeepsNoDup(s: Sidebar, events: seq<Event>)
    requires NoDup(s.expanded)
    ensures NoDup(Run(s, events).expanded)
    decreases |events|
  {
    if events != [] {
      var next := Step(s, events[0]);
      assert NoDup(next.expanded);
      RunKeepsNoDup(next, events[1..]);
    }
  }
}
