/**
 * The userscript's mutable state and its three operations on it:
 * `filterEdits`, `updateButtons` with the button click handler, and the
 * child-list observer that runs them in turn.
 */
module EditsPanel {
  import opened Wrappers
  import opened Titles
  import opened Reconciler

  /**
   * The filter panel attached to the edits container. `items` holds each
   * edit's `.fontTitleSmall` text (`None` when the element has none) and
   * `visible` its `style.display` (true for `''`, false for `'none'`).
   * A button is represented by its id; `buttons` is the button container.
   */
  class EditsFilter {
    var currentFilter: Option<string>
    var shownStatuses: map<string, nat>
    var buttons: seq<nat>
    var nextId: nat
    var items: array<Option<string>>
    var visible: array<bool>

    /** The panel state the reconciliation acts on. */
    function State(): Panel
      reads this
    {
      Panel(currentFilter, shownStatuses, buttons, nextId)
    }

    ghost predicate Valid()
      reads this
    {
      WellFormed(State()) && items.Length == visible.Length
    }

    /**
     * `init` once the container is found: an empty button container and
     * no filter, then the first `updateButtons` (the `if (currentFilter)`
     * that follows never fires, the filter being unset).
     */
    constructor (titles: array<Option<string>>, display: array<bool>)
      requires titles.Length == display.Length
      modifies display
      ensures Valid() && items == titles && visible == display
      ensures State() == Reconcile(Panel(None, map[], [], 0), Statuses, TitlePrefixes(titles[..]))
      ensures currentFilter == None
      ensures forall s :: s in shownStatuses <==> s in Statuses && Present(s, TitlePrefixes(titles[..]))
      ensures display[..] == old(display[..])
    {
      currentFilter := None;
      shownStatuses := map[];
      buttons := [];
      nextId := 0;
      items := titles;
      visible := display;
      new;
      UpdateButtons();
      ButtonsMatchPresentStatuses(Panel(None, map[], [], 0), TitlePrefixes(titles[..]));
    }

    /**
     * `filterEdits`: sets the display of every titled item from the
     * current filter and leaves untitled items alone.
     */
    method FilterEdits()
      requires items.Length == visible.Length
      modifies visible
      ensures forall i :: 0 <= i < visible.Length ==>
                visible[i] == Displayed(items[i], old(visible[i]), FilterPrefix(currentFilter))
      ensures forall i :: 0 <= i < visible.Length && items[i].None? ==> visible[i] == old(visible[i])
      ensures currentFilter.None? ==> forall i :: 0 <= i < visible.Length && items[i].Some? ==> visible[i]
      ensures currentFilter.Some? && currentFilter.value != "" ==>
                forall i :: 0 <= i < visible.Length && items[i].Some? ==>
                  (visible[i] <==> StartsWith(Trim(items[i].value), StatusPrefix(currentFilter.value)))
    {
      var prefix := FilterPrefix(currentFilter);
      var i := 0;
      while i < items.Length
        invariant 0 <= i <= items.Length
        invariant forall j :: 0 <= j < i ==> visible[j] == Displayed(items[j], old(visible[j]), prefix)
        invariant forall j :: i <= j < visible.Length ==> visible[j] == old(visible[j])
      {
        var title := items[i];
        if title.Some? {
          visible[i] := prefix.None? || StartsWith(Trim(title.value), prefix.value);
        }
        i := i + 1;
      }
    }

    /**
     * `updateButtons`: for each status in turn, creates and appends a
     * button when the status is present and has none, or removes its
     * button when it is absent, clearing the filter and re-filtering if it
     * was the active one.
     */
    method UpdateButtons()
      requires Valid()
      modifies this, visible
      ensures Valid() && items == old(items) && visible == old(visible)
      ensures State() == Reconcile(old(State()), Statuses, TitlePrefixes(items[..]))
      ensures forall s :: s in shownStatuses <==> s in Statuses && Present(s, TitlePrefixes(items[..]))
      ensures forall s :: s in old(shownStatuses) && s in shownStatuses ==> shownStatuses[s] == old(shownStatuses[s])
      ensures forall s :: s in shownStatuses && s !in old(shownStatuses) ==> old(nextId) <= shownStatuses[s]
      ensures AppendsAfter(old(State()), State())
      ensures old(currentFilter).Some? && !Present(old(currentFilter).value, TitlePrefixes(items[..])) ==> currentFilter.None?
      ensures old(currentFilter).None? || Present(old(currentFilter).value, TitlePrefixes(items[..])) ==>
                currentFilter == old(currentFilter)
      ensures forall i :: 0 <= i < visible.Length ==>
                visible[i] == if old(currentFilter).Some? && currentFilter.None?
                              then Displayed(items[i], old(visible[i]), None) else old(visible[i])
    {
      var prefixes := TitlePrefixes(items[..]);
      ghost var p := State();
      var k := 0;
      while k < |Statuses|
        invariant 0 <= k <= |Statuses|
        invariant items == old(items) && visible == old(visible)
        invariant State() == Reconcile(p, Statuses[..k], prefixes)
        invariant currentFilter == old(currentFilter) || currentFilter.None?
        invariant forall i :: 0 <= i < visible.Length ==>
                    visible[i] == if old(currentFilter).Some? && currentFilter.None?
                                  then Displayed(items[i], old(visible[i]), None) else old(visible[i])
      {
        var name := Statuses[k];
        ReconcileStatus(name, StatusPrefix(name) in prefixes);
        assert Statuses[..k + 1][..k] == Statuses[..k];
        k := k + 1;
      }
      assert Statuses[..k] == Statuses;
      UpdateOutcome(p, prefixes);
    }

    /**
     * The body of the `STATUSES.forEach` callback for the status `name`:
     * creates and appends its button when it is present and has none, or
     * removes its button when it is absent, and then, if it was the active
     * filter, clears the filter and re-filters.
     */
    method ReconcileStatus(name: string, present: bool)
      requires items.Length == visible.Length
      modifies this`currentFilter, this`shownStatuses, this`buttons, this`nextId, visible
      ensures State() == Step(old(State()), name, present)
      ensures forall i :: 0 <= i < visible.Length ==>
                visible[i] == if old(currentFilter).Some? && currentFilter.None?
                              then Displayed(items[i], old(visible[i]), None) else old(visible[i])
    {
      if present && name !in shownStatuses {
        shownStatuses := shownStatuses[name := nextId];
        buttons := buttons + [nextId];
        nextId := nextId + 1;
      }
      if !present && name in shownStatuses {
        var btn := shownStatuses[name];
        buttons := Without(buttons, btn);
        shownStatuses := shownStatuses - {name};
        if currentFilter == Some(name) {
          currentFilter := None;
          FilterEdits();
        }
      }
    }

    /**
     * The click handler of a status's button: sets the filter to that
     * status (clicking the active status again keeps it) and re-filters.
     */
    method Click(name: string)
      requires Valid() && name in shownStatuses
      modifies this`currentFilter, visible
      ensures Valid() && currentFilter == Some(name)
      ensures State() == old(State()).(filter := Some(name))
      ensures forall i :: 0 <= i < visible.Length ==>
                visible[i] == Displayed(items[i], old(visible[i]), Some(StatusPrefix(name)))
    {
      currentFilter := Some(name);
      StatusPrefixesDistinct();
      FilterEdits();
    }

    /**
     * The body the container's observer runs on every child-list change:
     * `updateButtons`, then `filterEdits` when a filter is still set.
     */
    method Sync()
      requires Valid()
      modifies this, visible
      ensures Valid() && items == old(items) && visible == old(visible)
      ensures State() == Reconcile(old(State()), Statuses, TitlePrefixes(items[..]))
      ensures forall i :: 0 <= i < visible.Length ==>
                visible[i] == if old(currentFilter).None? then old(visible[i])
                              else Displayed(items[i], old(visible[i]), FilterPrefix(currentFilter))
    {
      UpdateButtons();
      if currentFilter.Some? {
        FilterEdits();
      }
    }

    /**
     * A child-list mutation of the edits container: the items and their
     * display flags are now `titles` and `display`; the observer then runs.
     */
    method ChildListChanged(titles: array<Option<string>>, display: array<bool>)
      requires Valid() && titles.Length == display.Length
      modifies this, display
      ensures Valid() && items == titles && visible == display
      ensures State() == Reconcile(old(State()), Statuses, TitlePrefixes(titles[..]))
      ensures forall i :: 0 <= i < display.Length ==>
                display[i] == if old(currentFilter).None? then old(display[i])
                              else Displayed(titles[i], old(display[i]), FilterPrefix(currentFilter))
    {
      items := titles;
      visible := display;
      Sync();
    }
  }
}
