/** Tabs: one per viewable grid, in the grids object's key order. */
module Tabs {
  import opened Basics
  import opened OrderedMaps
  import opened GridTypes

  /** The tab `switchTab` moves to from `current`: the one after it, wrapping
      round, or the first when `current` is not a tab (its index is -1).
      None when there is at most one tab, and nothing happens. */
  function NextTab(tabs: seq<string>, current: string): (r: Option<string>)
    ensures r.None? <==> |tabs| <= 1
    ensures r.Some? ==> r.value in tabs
    ensures r.Some? && current !in tabs ==> r.value == tabs[0]
  {
    if |tabs| <= 1 then None else Some(tabs[(IndexOf(tabs, current) + 1) % |tabs|])
  }

  /** In a duplicate-free key list, the index `indexOf` finds is the only one. */
  lemma IndexOfUnique(tabs: seq<string>, i: int)
    requires NoDup(tabs) && 0 <= i < |tabs|
    ensures IndexOf(tabs, tabs[i]) == i
  {
  }

  /** From tab `i` the next tab is tab `i + 1`, and from the last tab it is
      the first; the tab always changes. */
  lemma NextTabSuccessor(tabs: seq<string>, i: int)
    requires NoDup(tabs) && |tabs| > 1 && 0 <= i < |tabs|
    ensures NextTab(tabs, tabs[i]) == Some(if i + 1 < |tabs| then tabs[i + 1] else tabs[0])
    ensures NextTab(tabs, tabs[i]).value != tabs[i]
  {
    var n := |tabs|;
    IndexOfUnique(tabs, i);
    var j := (i + 1) % n;
    if i + 1 < n {
      ModSmall(i + 1, n);
      assert tabs[j] != tabs[i];
    } else {
      ModSmall(0, n);
      ModSelf(n);
      assert j == 0;
      assert tabs[0] != tabs[n - 1];
    }
  }

  lemma ModSmall(a: int, n: int)
    requires 0 <= a < n
    ensures a % n == a
  {
  }

  lemma ModSelf(n: int)
    requires 0 < n
    ensures n % n == 0
  {
  }

  /** The tab reached from `current` after `k` presses of the switch key. */
  function Cycle(tabs: seq<string>, current: string, k: nat): string
    requires |tabs| > 1
    decreases k
  {
    if k == 0 then current else Cycle(tabs, NextTab(tabs, current).value, k - 1)
  }

  lemma {:induction false} CycleCompose(tabs: seq<string>, current: string, a: nat, b: nat)
    requires |tabs| > 1
    ensures Cycle(tabs, current, a + b) == Cycle(tabs, Cycle(tabs, current, a), b)
    decreases a
  {
    if a > 0 {
      CycleCompose(tabs, NextTab(tabs, current).value, a - 1, b);
    }
  }

  /** Pressing `k` times from tab `i` visits the following tabs in order. */
  lemma {:induction false} CycleVisits(tabs: seq<string>, i: nat, k: nat)
    requires NoDup(tabs) && |tabs| > 1 && i + k < |tabs|
    ensures Cycle(tabs, tabs[i], k) == tabs[i + k]
    decreases k
  {
    if k > 0 {
      NextTabSuccessor(tabs, i);
      CycleVisits(tabs, i + 1, k - 1);
    }
  }

  /** From tab `i`, pressing until past the last tab and then `b` more
      times lands on tab `b`. */
  lemma {:induction false} CycleWraps(tabs: seq<string>, i: nat, b: nat)
    requires NoDup(tabs) && |tabs| > 1 && i < |tabs| && b < |tabs|
    ensures Cycle(tabs, tabs[i], |tabs| - i + b) == tabs[b]
    decreases |tabs| - i
  {
    NextTabSuccessor(tabs, i);
    if i + 1 < |tabs| {
      CycleWraps(tabs, i + 1, b);
    } else {
      CycleVisits(tabs, 0, b);
    }
  }

  /** Pressing the switch key once per tab visits every tab and comes back
      to the starting one. */
  lemma FullCycle(tabs: seq<string>, i: nat)
    requires NoDup(tabs) && |tabs| > 1 && i < |tabs|
    ensures Cycle(tabs, tabs[i], |tabs|) == tabs[i]
    ensures forall k :: 0 <= k < |tabs| - i ==> Cycle(tabs, tabs[i], k) == tabs[i + k]
  {
    CycleWraps(tabs, i, i);
    forall k | 0 <= k < |tabs| - i ensures Cycle(tabs, tabs[i], k) == tabs[i + k] {
      CycleVisits(tabs, i, k);
    }
  }

  /** The active tab `_prepareContext` selects among `keys`: the active grid
      when it has a tab, otherwise the first tab (undefined when there is none). */
  function SelectTab(keys: seq<string>, active: string): (r: Option<string>)
    ensures active in keys ==> r == Some(active)
    ensures active !in keys && |keys| > 0 ==> r == Some(keys[0])
    ensures r.None? <==> |keys| == 0
    ensures r.Some? ==> r.value in keys
  {
    if IndexOf(keys, active) != -1 then Some(active) else if |keys| > 0 then Some(keys[0]) else None
  }

  /** One turn of the `cssClass` loop of `_prepareContext`: a grid is
      `'active'` when the selected tab is its own id, `''` otherwise. */
  function Marked(g: Grid, selected: Option<string>): Grid {
    g.(cssClass := Some(if selected == Some(g.id) then "active" else ""))
  }

  /** The keys among `keys` whose grid the hydrated object keeps: for each
      grid id, the last key whose grid has that id, since a later grid
      replaces an earlier one under `acc[grid.id]`. */
  function KeptKeys(grids: map<string, Grid>, keys: seq<string>): set<string> {
    set i | 0 <= i < |keys| && keys[i] in grids &&
      (forall j :: i < j < |keys| && keys[j] in grids ==> grids[keys[j]].id != grids[keys[i]].id) :: keys[i]
  }

  /** When every key holds a grid with that key as its id, the hydrated
      object keeps every key's grid. */
  lemma KeptKeysOwnIds(grids: map<string, Grid>, keys: seq<string>)
    requires NoDup(keys)
    requires forall k :: k in keys ==> k in grids && grids[k].id == k
    ensures forall k :: k in KeptKeys(grids, keys) <==> k in keys
  {
    forall k | k in keys ensures k in KeptKeys(grids, keys) {
      var i :| 0 <= i < |keys| && keys[i] == k;
      forall j | i < j < |keys| && keys[j] in grids ensures grids[keys[j]].id != grids[keys[i]].id {
        assert keys[i] != keys[j];
      }
    }
  }

  /** The marks `_prepareContext` writes through to the stored grids: the
      grids under the keys in `kept` are marked, every other grid is left
      as it was. */
  function MarkTabs(grids: OMap<Grid>, kept: set<string>, selected: Option<string>): (r: OMap<Grid>)
    ensures r.keys == grids.keys && r.vals.Keys == grids.vals.Keys
  {
    Assoc(grids.keys, map k | k in grids.vals :: if k in kept then Marked(grids.vals[k], selected) else grids.vals[k])
  }

  /** Marking changes nothing but `cssClass`, and afterwards a marked grid is
      `'active'` exactly when the selected tab is its id. */
  lemma MarkTabsResult(grids: OMap<Grid>, kept: set<string>, selected: Option<string>)
    ensures var r := MarkTabs(grids, kept, selected);
      forall k :: k in grids.vals ==>
        && r.vals[k].(cssClass := grids.vals[k].cssClass) == grids.vals[k]
        && (k !in kept ==> r.vals[k] == grids.vals[k])
        && (k in kept ==> (r.vals[k].cssClass == Some("active") <==> selected == Some(grids.vals[k].id)))
  {
  }

  /** Marking keeps every grid under its own id with its entries. */
  lemma MarkTabsKeepsWf(c: Config, kept: set<string>, selected: Option<string>)
    requires ConfigWf(c)
    ensures ConfigWf(c.(grids := MarkTabs(c.grids, kept, selected)))
  {
    MarkTabsResult(c.grids, kept, selected);
  }
}
