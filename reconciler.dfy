/**
 * What `updateButtons` does to the panel, stated on values: one `Step` per
 * status, folded over the status list, and the properties of the result.
 */
module Reconciler {
  import opened Wrappers
  import opened Titles

  /**
   * The panel's state: the active status filter (`currentFilter`), the
   * button id of each shown status (`shownStatuses`), the buttons in the
   * order the button container holds them, and the id the next created
   * button gets (a button's identity).
   */
  datatype Panel = Panel(filter: Option<string>, shown: map<string, nat>, buttons: seq<nat>, nextId: nat)

  /** Button ids in strictly increasing order, i.e. in creation order. */
  predicate Increasing(bs: seq<nat>)
  {
    forall i, j :: 0 <= i < j < |bs| ==> bs[i] < bs[j]
  }

  predicate Distinct(bs: seq<nat>)
  {
    forall i, j :: 0 <= i < j < |bs| ==> bs[i] != bs[j]
  }

  /**
   * The panel's invariant: only known statuses have buttons, each has its
   * own button, the container holds exactly those buttons once each, every
   * id was handed out already, and the filter is unset or a shown status.
   */
  ghost predicate WellFormed(p: Panel)
  {
    && (forall s :: s in p.shown ==> s in Statuses)
    && Injective(p.shown)
    && Distinct(p.buttons)
    && (forall b :: b in p.buttons <==> b in p.shown.Values)
    && (forall s :: s in p.shown ==> p.shown[s] < p.nextId)
    && (p.filter.Some? ==> p.filter.value in p.shown)
  }

  /** No two statuses share a button. */
  ghost predicate Injective(m: map<string, nat>)
  {
    forall s, t :: s in m && t in m && s != t ==> m[s] != m[t]
  }

  /** `btnContainer.removeChild(btn)`: the buttons without `x`, in the same order. */
  function Without(bs: seq<nat>, x: nat): (r: seq<nat>)
    ensures forall y :: y in r <==> y in bs && y != x
  {
    if bs == [] then []
    else Without(bs[..|bs| - 1], x) + (if bs[|bs| - 1] == x then [] else [bs[|bs| - 1]])
  }

  /** The elements of `bs` that are in `keep`, in the same order. */
  function Keep(bs: seq<nat>, keep: set<nat>): (r: seq<nat>)
    ensures forall y :: y in r <==> y in bs && y in keep
  {
    if bs == [] then []
    else Keep(bs[..|bs| - 1], keep) + (if bs[|bs| - 1] in keep then [bs[|bs| - 1]] else [])
  }

  /** One iteration of the `STATUSES.forEach` body in `updateButtons`. */
  function Step(p: Panel, name: string, present: bool): (r: Panel)
    ensures forall s :: s in r.shown <==> (if s == name then present else s in p.shown)
    ensures forall s :: s in p.shown && s in r.shown ==> r.shown[s] == p.shown[s]
    ensures r.filter.Some? ==> r.filter == p.filter
    ensures p.nextId <= r.nextId
  {
    if present && name !in p.shown then
      Panel(p.filter, p.shown[name := p.nextId], p.buttons + [p.nextId], p.nextId + 1)
    else if !present && name in p.shown then
      Panel(if p.filter == Some(name) then None else p.filter,
            p.shown - {name}, Without(p.buttons, p.shown[name]), p.nextId)
    else
      p
  }

  /** The panel after reconciling `names`, in order, against the title prefixes `prefixes`. */
  function Reconcile(p: Panel, names: seq<string>, prefixes: set<string>): (r: Panel)
    ensures p.nextId <= r.nextId
    ensures r.filter.Some? ==> r.filter == p.filter
  {
    if names == [] then p
    else
      var last := names[|names| - 1];
      Step(Reconcile(p, names[..|names| - 1], prefixes), last, Present(last, prefixes))
  }

  // ---------------------------------------------------------------------------
  // Sequence facts about removing and keeping buttons

  lemma {:induction false} WithoutDistinct(bs: seq<nat>, x: nat)
    requires Distinct(bs)
    ensures Distinct(Without(bs, x))
  {
    if bs != [] {
      var init := bs[..|bs| - 1];
      assert Distinct(init);
      WithoutDistinct(init, x);
      assert bs[|bs| - 1] !in init;
    }
  }

  lemma {:induction false} WithoutIncreasing(bs: seq<nat>, x: nat)
    requires Increasing(bs)
    ensures Increasing(Without(bs, x))
  {
    if bs != [] {
      var init := bs[..|bs| - 1];
      var last := bs[|bs| - 1];
      assert Increasing(init);
      WithoutIncreasing(init, x);
      var w := Without(init, x);
      assert forall y :: y in w ==> y < last by {
        forall y | y in w ensures y < last {
          var i :| 0 <= i < |init| && init[i] == y;
          assert bs[i] == y;
        }
      }
      if last != x {
        IncreasingSnoc(w, last);
      }
    }
  }

  lemma IncreasingSnoc(a: seq<nat>, last: nat)
    requires Increasing(a) && forall y :: y in a ==> y < last
    ensures Increasing(a + [last])
  {
    forall i, j | 0 <= i < j < |a| + 1
      ensures (a + [last])[i] < (a + [last])[j]
    {
      assert (a + [last])[i] == a[i];
      if j == |a| {
        assert a[i] in a;
      }
    }
  }

  lemma {:induction false} WithoutConcat(a: seq<nat>, b: seq<nat>, x: nat)
    ensures Without(a + b, x) == Without(a, x) + Without(b, x)
    decreases |b|
  {
    if b == [] {
      assert a + b == a;
    } else {
      var init := b[..|b| - 1];
      assert (a + b)[..|a + b| - 1] == a + init;
      WithoutConcat(a, init, x);
    }
  }

  lemma {:induction false} WithoutKeep(bs: seq<nat>, keep: set<nat>, x: nat)
    ensures Without(Keep(bs, keep), x) == Keep(bs, keep - {x})
  {
    if bs != [] {
      var init := bs[..|bs| - 1];
      var last := bs[|bs| - 1];
      WithoutKeep(init, keep, x);
      WithoutConcat(Keep(init, keep), if last in keep then [last] else [], x);
      if last in keep {
        assert Without([last], x) == Without([], x) + (if last == x then [] else [last]);
      }
    }
  }

  lemma {:induction false} KeepCongruent(bs: seq<nat>, a: set<nat>, b: set<nat>)
    requires forall y :: y in bs ==> (y in a <==> y in b)
    ensures Keep(bs, a) == Keep(bs, b)
  {
    if bs != [] {
      KeepCongruent(bs[..|bs| - 1], a, b);
    }
  }

  // ---------------------------------------------------------------------------
  // Properties of one step and of the whole reconciliation

  /** One step keeps the panel invariant. */
  lemma StepWellFormed(p: Panel, name: string, present: bool)
    requires WellFormed(p) && name in Statuses
    ensures WellFormed(Step(p, name, present))
  {
    var q := Step(p, name, present);
    if present && name !in p.shown {
      assert p.nextId !in p.buttons;
      forall b | b in q.buttons
        ensures b in q.shown.Values
      {
        if b == p.nextId {
          assert q.shown[name] == b;
        } else {
          var s :| s in p.shown && p.shown[s] == b;
          assert q.shown[s] == b;
        }
      }
    } else if !present && name in p.shown {
      var x := p.shown[name];
      WithoutDistinct(p.buttons, x);
      forall b | b in q.buttons
        ensures b in q.shown.Values
      {
        var s :| s in p.shown && p.shown[s] == b;
        assert s != name;
        assert q.shown[s] == b;
      }
    }
  }

  /** Reconciling known statuses keeps the panel invariant. */
  lemma {:induction false} ReconcileWellFormed(p: Panel, names: seq<string>, prefixes: set<string>)
    requires WellFormed(p)
    requires forall n :: n in names ==> n in Statuses
    ensures WellFormed(Reconcile(p, names, prefixes))
  {
    if names != [] {
      var init := names[..|names| - 1];
      var last := names[|names| - 1];
      assert forall n :: n in init ==> n in names;
      ReconcileWellFormed(p, init, prefixes);
      StepWellFormed(Reconcile(p, init, prefixes), last, Present(last, prefixes));
    }
  }

  /**
   * After reconciling, a listed status has a button exactly when it is
   * present; an unlisted one has a button exactly when it had one.
   */
  lemma {:induction false} ReconcileKeys(p: Panel, names: seq<string>, prefixes: set<string>)
    ensures forall s :: (s in Reconcile(p, names, prefixes).shown
                         <==> if s in names then Present(s, prefixes) else s in p.shown)
  {
    if names != [] {
      var init := names[..|names| - 1];
      ReconcileKeys(p, init, prefixes);
      assert forall s :: s in names <==> s in init || s == names[|names| - 1];
    }
  }

  /**
   * A status that keeps its button keeps the same button; a button created
   * during reconciliation has an id no earlier button had.
   */
  lemma {:induction false} ReconcileKeepsIds(p: Panel, names: seq<string>, prefixes: set<string>)
    ensures var r := Reconcile(p, names, prefixes);
      && p.nextId <= r.nextId
      && (forall s :: s in p.shown && s in r.shown ==> r.shown[s] == p.shown[s])
      && (forall s :: s in r.shown && s !in p.shown ==> p.nextId <= r.shown[s] < r.nextId)
  {
    if names != [] {
      var init := names[..|names| - 1];
      var last := names[|names| - 1];
      var q := Reconcile(p, init, prefixes);
      var r := Reconcile(p, names, prefixes);
      ReconcileKeepsIds(p, init, prefixes);
      ReconcileKeys(p, init, prefixes);
      forall s | s in p.shown && s in r.shown
        ensures r.shown[s] == p.shown[s]
      {
        assert s in q.shown;
      }
    }
  }

  /**
   * The active filter is cleared exactly when its status had a button, is
   * reconciled, and is no longer present; otherwise it is kept.
   */
  lemma {:induction false} ReconcileFilter(p: Panel, names: seq<string>, prefixes: set<string>)
    ensures Reconcile(p, names, prefixes).filter
      == if p.filter.Some? && p.filter.value in p.shown && p.filter.value in names
            && !Present(p.filter.value, prefixes)
         then None else p.filter
  {
    if names != [] {
      var init := names[..|names| - 1];
      ReconcileFilter(p, init, prefixes);
      ReconcileKeys(p, init, prefixes);
      assert forall s :: s in names <==> s in init || s == names[|names| - 1];
    }
  }

  /**
   * `r`'s buttons are those of `p` that still belong to a shown status, in
   * their old order, followed only by buttons created after `p`, in the
   * order they were created.
   */
  ghost predicate AppendsAfter(p: Panel, r: Panel)
  {
    var kept := Keep(p.buttons, r.shown.Values);
    && |kept| <= |r.buttons|
    && r.buttons[..|kept|] == kept
    && (forall i :: |kept| <= i < |r.buttons| ==> p.nextId <= r.buttons[i])
    && Increasing(r.buttons[|kept|..])
  }

  lemma StepCreateValues(q: Panel, name: string)
    requires name !in q.shown
    ensures Step(q, name, true).shown.Values == q.shown.Values + {q.nextId}
  {
    var r := Step(q, name, true);
    forall y | y in r.shown.Values
      ensures y in q.shown.Values || y == q.nextId
    {
      var s :| s in r.shown && r.shown[s] == y;
      if s != name {
        assert q.shown[s] == y;
      }
    }
    forall y | y in q.shown.Values
      ensures y in r.shown.Values
    {
      var s :| s in q.shown && q.shown[s] == y;
      assert r.shown[s] == y;
    }
    assert r.shown[name] == q.nextId;
  }

  lemma StepRemoveValues(q: Panel, name: string)
    requires Injective(q.shown) && name in q.shown
    ensures Step(q, name, false).shown.Values == q.shown.Values - {q.shown[name]}
  {
    var r := Step(q, name, false);
    forall y | y in q.shown.Values
      ensures y in r.shown.Values <==> y != q.shown[name]
    {
      var s :| s in q.shown && q.shown[s] == y;
      if s != name {
        assert r.shown[s] == y;
      }
    }
  }

  lemma CreateAppendsAfter(p: Panel, q: Panel, name: string)
    requires AppendsAfter(p, q) && p.nextId <= q.nextId && name !in q.shown
    requires forall y :: y in p.buttons ==> y < p.nextId
    requires forall y :: y in q.buttons ==> y < q.nextId
    ensures AppendsAfter(p, Step(q, name, true))
  {
    var r := Step(q, name, true);
    var keptQ := Keep(p.buttons, q.shown.Values);
    var added := q.buttons[|keptQ|..];
    assert q.buttons == keptQ + added;
    StepCreateValues(q, name);
    KeepCongruent(p.buttons, q.shown.Values, r.shown.Values);
    assert r.buttons == keptQ + (added + [q.nextId]);
    assert forall i :: 0 <= i < |added| ==> added[i] in q.buttons;
    assert r.buttons[|keptQ|..] == added + [q.nextId];
  }

  lemma RemoveAppendsAfter(p: Panel, q: Panel, name: string)
    requires AppendsAfter(p, q) && Injective(q.shown) && name in q.shown
    ensures AppendsAfter(p, Step(q, name, false))
  {
    var r := Step(q, name, false);
    var x := q.shown[name];
    var keptQ := Keep(p.buttons, q.shown.Values);
    var added := q.buttons[|keptQ|..];
    assert q.buttons == keptQ + added;
    assert forall y :: y in added ==> p.nextId <= y;
    StepRemoveValues(q, name);
    WithoutConcat(keptQ, added, x);
    WithoutKeep(p.buttons, q.shown.Values, x);
    var kept := Keep(p.buttons, r.shown.Values);
    var addedR := Without(added, x);
    assert r.buttons == kept + addedR;
    assert r.buttons[..|kept|] == kept;
    forall i | |kept| <= i < |r.buttons|
      ensures p.nextId <= r.buttons[i]
    {
      assert r.buttons[i] == addedR[i - |kept|];
      assert addedR[i - |kept|] in added;
    }
    WithoutIncreasing(added, x);
    assert r.buttons[|kept|..] == addedR;
  }

  /** One step keeps the surviving buttons in front and appends new ones. */
  lemma StepAppendsAfter(p: Panel, q: Panel, name: string, present: bool)
    requires WellFormed(q) && AppendsAfter(p, q) && p.nextId <= q.nextId
    requires forall y :: y in p.buttons ==> y < p.nextId
    ensures AppendsAfter(p, Step(q, name, present))
  {
    if present && name !in q.shown {
      forall y | y in q.buttons
        ensures y < q.nextId
      {
        var s :| s in q.shown && q.shown[s] == y;
      }
      CreateAppendsAfter(p, q, name);
    } else if !present && name in q.shown {
      RemoveAppendsAfter(p, q, name);
    }
  }

  /**
   * The buttons that survive keep their relative order at the front of the
   * container, and every button after them is newly created.
   */
  lemma {:induction false} ReconcileButtonOrder(p: Panel, names: seq<string>, prefixes: set<string>)
    requires WellFormed(p)
    requires forall n :: n in names ==> n in Statuses
    ensures AppendsAfter(p, Reconcile(p, names, prefixes))
  {
    if names == [] {
      KeepAll(p.buttons, p.shown.Values);
    } else {
      var init := names[..|names| - 1];
      assert forall n :: n in init ==> n in names;
      ReconcileButtonOrder(p, init, prefixes);
      ReconcileWellFormed(p, init, prefixes);
      ReconcileKeepsIds(p, init, prefixes);
      var last := names[|names| - 1];
      StepAppendsAfter(p, Reconcile(p, init, prefixes), last, Present(last, prefixes));
    }
  }

  lemma {:induction false} KeepAll(bs: seq<nat>, keep: set<nat>)
    requires forall i :: 0 <= i < |bs| ==> bs[i] in keep
    ensures Keep(bs, keep) == bs
  {
    if bs != [] {
      var init := bs[..|bs| - 1];
      KeepAll(init, keep);
      assert bs == init + [bs[|bs| - 1]];
    }
  }

  /** Reconciling a panel that already agrees with the items changes nothing. */
  lemma {:induction false} ReconcileStable(p: Panel, names: seq<string>, prefixes: set<string>)
    requires forall s :: s in names ==> (s in p.shown <==> Present(s, prefixes))
    ensures Reconcile(p, names, prefixes) == p
  {
    if names != [] {
      var init := names[..|names| - 1];
      assert forall n :: n in init ==> n in names;
      ReconcileStable(p, init, prefixes);
    }
  }

  /** Reconciling twice against the same items is the same as reconciling once. */
  lemma ReconcileIdempotent(p: Panel, names: seq<string>, prefixes: set<string>)
    ensures Reconcile(Reconcile(p, names, prefixes), names, prefixes) == Reconcile(p, names, prefixes)
  {
    ReconcileKeys(p, names, prefixes);
    ReconcileStable(Reconcile(p, names, prefixes), names, prefixes);
  }

  /**
   * After reconciling the status list, exactly the statuses present among
   * the titles have buttons: an unknown prefix never creates one.
   */
  lemma ButtonsMatchPresentStatuses(p: Panel, prefixes: set<string>)
    requires WellFormed(p)
    ensures forall s :: (s in Reconcile(p, Statuses, prefixes).shown
                         <==> s in Statuses && Present(s, prefixes))
  {
    ReconcileKeys(p, Statuses, prefixes);
  }

  /**
   * Everything one `updateButtons` pass over STATUSES guarantees, for a
   * panel that satisfies the invariant.
   */
  lemma UpdateOutcome(p: Panel, prefixes: set<string>)
    requires WellFormed(p)
    ensures var r := Reconcile(p, Statuses, prefixes);
      && WellFormed(r)
      && (forall s :: s in r.shown <==> s in Statuses && Present(s, prefixes))
      && (forall s :: s in p.shown && s in r.shown ==> r.shown[s] == p.shown[s])
      && (forall s :: s in r.shown && s !in p.shown ==> p.nextId <= r.shown[s])
      && AppendsAfter(p, r)
      && (p.filter.Some? && !Present(p.filter.value, prefixes) ==> r.filter.None?)
      && (p.filter.None? || Present(p.filter.value, prefixes) ==> r.filter == p.filter)
  {
    ReconcileWellFormed(p, Statuses, prefixes);
    ButtonsMatchPresentStatuses(p, prefixes);
    ReconcileKeepsIds(p, Statuses, prefixes);
    ReconcileButtonOrder(p, Statuses, prefixes);
    ReconcileFilter(p, Statuses, prefixes);
  }
}
