/** The objects of robot_monitor.py that change in place: the inspector an
    item forwards its records to, the tree item StatusItem, and the
    RobotMonitor that owns the roots and the warning and error lists. Each
    class keeps a ghost view tied to the value model of modules Tree,
    Forest and Severity. */
module Monitor {
  import opened Diagnostics
  import opened Paths
  import opened Tree
  import Forest
  import Severity

  /** InspectorWidget, reduced to the records it has been shown. */
  class Inspector {
    var log: seq<Record>

    /** InspectorWidget(status) shows `status` once when it is built. */
    constructor (s: Record)
      ensures log == [s]
    {
      log := [s];
    }

    /** InspectorWidget.update(status) */
    method Update(s: Record)
      modifies this
      ensures log == old(log) + [s]
    {
      log := log + [s];
    }
  }

  /** The values of a list of items, position by position. */
  ghost function ModelsOf(xs: seq<StatusItem>): (r: seq<Node>)
    reads xs
    ensures |r| == |xs| && forall j :: 0 <= j < |xs| ==> r[j] == xs[j].model
  {
    if xs == [] then [] else ModelsOf(xs[..|xs| - 1]) + [xs[|xs| - 1].model]
  }

  /** Regrouping a concatenation, proved apart from any heap: asserted inside
      RobotMonitor.VisitRoots, the same fact costs the solver far more. */
  lemma AppendAssoc<T>(a: seq<T>, b: seq<T>, c: seq<T>)
    ensures a + (b + c) == a + b + c
  {
  }

  /** No item of `s` is in `outside`: with `outside` an old footprint, the
      items are new objects. */
  ghost predicate NoneIn(s: seq<StatusItem>, outside: set<object>) {
    forall k :: 0 <= k < |s| ==> s[k] !in outside
  }

  lemma NoneInAppend(a: seq<StatusItem>, b: seq<StatusItem>, outside: set<object>)
    requires NoneIn(a, outside) && NoneIn(b, outside)
    ensures NoneIn(a + b, outside)
  {
  }

  /** `[s.name for s in items]`, read from the objects. Tree.NamesOf is the
      same list read from their values; NamesAgree proves the two equal. */
  function NamesOfItems(xs: seq<StatusItem>): (r: seq<string>)
    ensures |r| == |xs| && forall j :: 0 <= j < |xs| ==> r[j] == xs[j].name
  {
    seq(|xs|, j requires 0 <= j < |xs| => xs[j].name)
  }

  /** `[get_nice_name(k.name) for k in top_items]`, read from the objects.
      Forest.NiceNames is the same list read from their values; RootNames
      proves the two equal. */
  function NiceNamesOfItems(xs: seq<StatusItem>): (r: seq<string>)
    ensures |r| == |xs| && forall j :: 0 <= j < |xs| ==> r[j] == NiceName(xs[j].name)
  {
    seq(|xs|, j requires 0 <= j < |xs| => NiceName(xs[j].name))
  }

  /** One node of the component tree. `name` and `level` are fixed when the
      item is built; `status`, the child list and the inspector change. */
  class StatusItem {
    const name: string
    const level: Level
    var status: Record
    var items: seq<StatusItem>
    var inspector: Inspector?

    /** The value of this subtree. */
    ghost var model: Node
    ghost var Repr: set<object>

    /** Every item owns its inspector and its children's footprints, which
        are disjoint, and its `model` is the value of its fields. */
    ghost predicate Valid()
      reads this, Repr
      decreases Repr, 2
    {
      Shape() && model == Abstract()
    }

    /** Valid() except that `model` may lag behind the fields of this item. */
    ghost predicate Shape()
      reads this`Repr, this`items, this`inspector, Repr - {this}
      decreases Repr, 0
    {
      && this in Repr
      && (inspector != null ==> inspector in Repr)
      && (forall j :: 0 <= j < |items| ==>
            && items[j] in Repr && items[j] != this
            && items[j].Repr <= Repr
            && this !in items[j].Repr
            && (inspector != null ==> inspector !in items[j].Repr)
            && items[j].Valid())
      && (forall j, k :: 0 <= j < k < |items| ==> items[j].Repr !! items[k].Repr)
    }

    /** The children from position `n` on are not in `outside`: with `n`
        the old number of children and `outside` the old footprint, the
        appended children are new objects. */
    ghost predicate Outside(n: nat, outside: set<object>)
      reads this`items
    {
      forall k :: n <= k < |items| ==> items[k] !in outside
    }

    /** The value of this item's fields, with the children's models. */
    ghost function Abstract(): Node
      reads this`Repr, this`items, this`inspector, this`status, Repr - {this}
      requires Shape()
      decreases Repr, 1
    {
      Node(name, level, status,
           if inspector == null then None else Some(inspector.log),
           ModelsOf(items))
    }

    /** StatusItem(status): no children and no inspector yet. The record is
        bound here as well: every caller updates the new item with the same
        record straight away. */
    constructor (s: Record)
      ensures Valid() && fresh(Repr)
      ensures name == s.name && level == s.level && status == s
      ensures items == [] && inspector == null
      ensures model == Leaf(s)
    {
      name := s.name;
      level := s.level;
      status := s;
      items := [];
      inspector := null;
      Repr := {this};
      model := Leaf(s);
    }

    /** update(status, msg): bind `s`, forward it to the inspector, then walk
        the descendants of this item in `msg`: update the first child named
        like one, or append a new child for it when its stripped name has at
        most two pieces. Old children keep their identity and order. */
    method Update(s: Record, msg: Snapshot)
      requires Valid()
      modifies Repr
      decreases MaxNameLength(msg) - |name|, 4
      ensures Valid() && fresh(Repr - old(Repr))
      ensures model == Tree.Update(old(model), s, msg)
      ensures status == s && inspector == old(inspector)
      ensures inspector != null ==> inspector.log == old(inspector.log) + [s]
      ensures old(items) <= items
      ensures forall k :: |old(items)| <= k < |items| ==> fresh(items[k])
    {
      Bind(s);
      var names := NamesOfItems(items);
      NamesAgree(this);
      VisitAll(Children(name, msg), names, msg);
    }

    /** The first two steps of update: keep `s` as the status and show it
        in the inspector, if there is one. */
    method Bind(s: Record)
      requires Valid()
      modifies this`status, this`model, inspector
      ensures Valid()
      ensures model == old(model).(status := s, inspector := Forward(old(model).inspector, s))
      ensures status == s && inspector == old(inspector)
      ensures inspector != null ==> inspector.log == old(inspector.log) + [s]
    {
      assert model.children == ModelsOf(items);
      status := s;
      Show(s);
      model := Abstract();
      assert model.children == old(model.children);
    }

    /** `if self.inspector: self.inspector.update(status)` */
    method Show(s: Record)
      requires Shape()
      modifies inspector
      ensures Shape()
      ensures ModelsOf(items) == old(ModelsOf(items))
      ensures inspector != null ==> inspector.log == old(inspector.log) + [s]
    {
      if inspector != null {
        inspector.Update(s);
        InspectorShown(this, inspector);
      }
    }

    /** update's loop over the descendants `ds` of this item, followed by
        rebuilding the value of the item. */
    method VisitAll(ds: seq<Record>, names: seq<string>, msg: Snapshot)
      requires Valid() && names == NamesOf(model.children)
      requires AreDescendants(name, ds, msg)
      modifies Repr
      decreases MaxNameLength(msg) - |name|, 3
      ensures Valid() && fresh(Repr - old(Repr))
      ensures model == old(model).(children := Reconcile(name, old(model).children, names, ds, msg))
      ensures status == old(status) && inspector == old(inspector)
      ensures inspector != null ==> inspector.log == old(inspector.log)
      ensures old(items) <= items
      ensures forall k :: |old(items)| <= k < |items| ==> fresh(items[k])
    {
      NamesAgree(this);
      Walk(ds, names, msg);
      model := Abstract();
      forall k | |old(items)| <= k < |items| ensures fresh(items[k]) {
        assert items[k] in Repr - old(Repr);
      }
    }

    /** update's loop over the descendants `ds` of this item, in order. The
        children it appends lie outside the footprint it started with. */
    method Walk(ds: seq<Record>, names: seq<string>, msg: Snapshot)
      requires Shape() && NamesPrefix(ModelsOf(items), names)
      requires AreDescendants(name, ds, msg)
      modifies this`items, this`Repr, Repr - {this}
      decreases MaxNameLength(msg) - |name|, 2
      ensures Shape() && fresh(Repr - old(Repr))
      ensures old(items) <= items
      ensures Outside(|old(items)|, old(Repr))
      ensures inspector != null ==> inspector.log == old(inspector.log)
      ensures ModelsOf(items) == Reconcile(name, old(ModelsOf(items)), names, ds, msg)
    {
      ghost var models0 := ModelsOf(items);
      var k := 0;
      assert ds[k..] == ds;
      while k < |ds|
        invariant 0 <= k <= |ds|
        invariant Shape()
        invariant fresh(Repr - old(Repr))
        invariant old(items) <= items
        invariant Outside(|old(items)|, old(Repr))
        invariant inspector != null ==> inspector.log == old(inspector.log)
        invariant NamesPrefix(ModelsOf(items), names)
        invariant AreDescendants(name, ds[k..], msg)
        invariant Reconcile(name, ModelsOf(items), names, ds[k..], msg)
               == Reconcile(name, models0, names, ds, msg)
      {
        ReconcileUnroll(name, ModelsOf(items), names, ds, k, msg);
        var d := ds[k];
        label Before:
        ghost var before := Repr;
        Visit(d, names, msg, |old(items)|, old(Repr));
        forall o | o in Repr - old(Repr) ensures fresh(o) {
          if o !in before {
            assert fresh@Before(o);
          }
        }
        k := k + 1;
      }
    }

    /** One iteration of update's loop, for descendant `d`: update the first
        child whose name (as listed in `names` before the loop) is `d`'s, or
        else append a new child for `d` when its stripped name has at most
        two pieces. A child it appends is new, so it lies outside any set
        `outside` the caller already holds. */
    method Visit(d: Record, names: seq<string>, msg: Snapshot, ghost n0: nat, ghost outside: set<object>)
      requires Shape() && NamesPrefix(ModelsOf(items), names)
      requires d in msg && |d.name| > |name|
      requires Outside(n0, outside)
      modifies this`items, this`Repr, Repr - {this}
      decreases MaxNameLength(msg) - |name|, 1
      ensures Shape() && fresh(Repr - old(Repr))
      ensures old(items) <= items
      ensures Outside(n0, outside)
      ensures inspector != null ==> inspector.log == old(inspector.log)
      ensures ModelsOf(items) == Step(name, old(ModelsOf(items)), names, d, msg)
    {
      if d.name in names {
        var j := IndexOf(names, d.name);
        ModelNames(this);
        UpdateChild(j, d, msg);
      } else if |Split(StripChild(name, d.name))| <= 2 {
        AppendChild(d, msg);
      }
    }

    /** The matched branch of update's loop: the child at position `j`,
        named like `d`, is updated with `d`; no other item changes. */
    method UpdateChild(j: nat, d: Record, msg: Snapshot)
      requires Shape() && j < |items|
      requires d in msg && items[j].name == d.name && |d.name| > |name|
      modifies this`Repr, Repr - {this}
      decreases MaxNameLength(msg) - |name|, 0
      ensures Shape() && fresh(Repr - old(Repr))
      ensures inspector != null ==> inspector.log == old(inspector.log)
      ensures ModelsOf(items) == old(ModelsOf(items))[j := Tree.Update(old(items[j].model), d, msg)]
    {
      var w := items[j];
      w.Update(d, msg);
      Repr := Repr + w.Repr;
      ChildReplaced(this, j);
    }

    /** The creating branch of update's loop: a new item for `d`, updated
        with `d`, is appended to the children. */
    method AppendChild(d: Record, msg: Snapshot)
      requires Shape()
      requires d in msg && |d.name| > |name|
      modifies this`items, this`Repr
      decreases MaxNameLength(msg) - |name|, 0
      ensures Shape() && fresh(Repr - old(Repr))
      ensures |items| == |old(items)| + 1 && old(items) <= items && fresh(items[|old(items)|])
      ensures ModelsOf(items) == old(ModelsOf(items)) + [Tree.Update(Leaf(d), d, msg)]
    {
      var sti := new StatusItem(d);
      sti.Update(d, msg);
      items := items + [sti];
      Repr := Repr + sti.Repr;
      ChildAppended(this, sti);
    }

    /** on_click: attach an inspector showing the current status, unless one
        is attached already. */
    method OnClick()
      requires Valid()
      modifies this
      ensures Valid() && fresh(Repr - old(Repr))
      ensures model == Click(old(model))
      ensures inspector != null && items == old(items) && status == old(status)
      ensures old(inspector) == null ==> fresh(inspector) && inspector.log == [status]
      ensures old(inspector) != null ==> inspector == old(inspector) && inspector.log == old(inspector.log)
    {
      if inspector == null {
        inspector := new Inspector(status);
        Repr := Repr + {inspector};
        model := Abstract();
      }
    }
  }

  /** RobotMonitor: the roots of the component tree, the lines of the
      "Warnings" and "Errors" lists, and whether the diagnostics
      subscription is live. The signals that carry lines to the lists are
      modelled as direct appends. */
  class RobotMonitor {
    var topItems: seq<StatusItem>
    var warnings: seq<string>
    var errors: seq<string>
    var subscribed: bool
    ghost var Repr: set<object>

    /** Every root is valid, owns a footprint inside Repr that does not
        hold the monitor, and the roots' footprints are disjoint. */
    ghost predicate Valid()
      reads this`Repr, this`topItems, Repr - {this}
    {
      && (forall j :: 0 <= j < |topItems| ==>
            && topItems[j] in Repr
            && topItems[j].Repr <= Repr
            && this !in topItems[j].Repr
            && topItems[j].Valid())
      && (forall j, k :: 0 <= j < k < |topItems| ==> topItems[j].Repr !! topItems[k].Repr)
    }

    /** RobotMonitor(topic): no roots, empty lists, subscribed. */
    constructor ()
      ensures Valid() && fresh(Repr)
      ensures topItems == [] && warnings == [] && errors == [] && subscribed
    {
      topItems := [];
      warnings := [];
      errors := [];
      subscribed := true;
      Repr := {this};
    }

    /** cb(msg): clear both lists, update the tree, then refill the lists.
        Afterwards the lists show exactly this snapshot's warnings and
        errors. */
    method Cb(msg: Snapshot) returns (added: seq<StatusItem>)
      requires Valid()
      modifies this`topItems, this`Repr, this`warnings, this`errors, Repr - {this}
      ensures Valid()
      ensures warnings == Severity.Warnings(msg) && errors == Severity.Errors(msg)
      ensures ModelsOf(topItems) == Forest.UpdateTree(old(ModelsOf(topItems)), msg)
      ensures topItems == old(topItems) + added
      ensures fresh(Repr - old(Repr))
      ensures forall k :: 0 <= k < |added| ==> fresh(added[k])
    {
      Clear();
      RootsKept(this);
      added := UpdateTree(msg);
      label Updated:
      UpdateWe(msg);
      RootsKept@Updated(this);
    }

    /** tree_clicked(item) for a root: its on_click. */
    method TreeClicked(j: nat)
      requires Valid() && j < |topItems|
      modifies this`Repr, topItems[j]
      ensures Valid() && fresh(Repr - old(Repr))
      ensures ModelsOf(topItems) == old(ModelsOf(topItems))[j := Click(old(topItems[j].model))]
    {
      var w := topItems[j];
      w.OnClick();
      Repr := Repr + w.Repr;
      RootReplaced(this, j);
    }

    /** update_tree(msg): match each root candidate, by last segment, against
        the roots as they were before the loop; update the match, or build,
        update and append a new root. The new roots are returned, in order:
        they are what update_tree hands to the "All" tree widget. */
    method UpdateTree(msg: Snapshot) returns (added: seq<StatusItem>)
      requires Valid()
      modifies this`topItems, this`Repr, Repr - {this}
      ensures Valid()
      ensures ModelsOf(topItems) == Forest.UpdateTree(old(ModelsOf(topItems)), msg)
      ensures topItems == old(topItems) + added
      ensures fresh(Repr - old(Repr))
      ensures forall k :: 0 <= k < |added| ==> fresh(added[k])
    {
      var names := NiceNamesOfItems(topItems);
      RootNames(this);
      var cands := TopLevel(msg);
      added := VisitRoots(cands, names, msg);
      AddedFresh(this, added);
    }

    /** update_tree's loop over the root candidates `cands`, in order. */
    method VisitRoots(cands: seq<Record>, names: seq<string>, msg: Snapshot) returns (added: seq<StatusItem>)
      requires Valid() && Forest.NiceNamesPrefix(ModelsOf(topItems), names)
      modifies this`topItems, this`Repr, Repr - {this}
      ensures Valid() && fresh(Repr - old(Repr))
      ensures topItems == old(topItems) + added && NoneIn(added, old(Repr))
      ensures ModelsOf(topItems) == Forest.ReconcileRoots(old(ModelsOf(topItems)), names, cands, msg)
    {
      ghost var roots0 := ModelsOf(topItems);
      added := [];
      var k := 0;
      assert cands[k..] == cands;
      while k < |cands|
        invariant 0 <= k <= |cands|
        invariant Valid()
        invariant forall o :: o in Repr && o !in old(Repr) ==> fresh(o)
        invariant topItems == old(topItems) + added && NoneIn(added, old(Repr))
        invariant Forest.NiceNamesPrefix(ModelsOf(topItems), names)
        invariant Forest.ReconcileRoots(ModelsOf(topItems), names, cands[k..], msg)
               == Forest.ReconcileRoots(roots0, names, cands, msg)
      {
        Forest.ReconcileRootsUnroll(ModelsOf(topItems), names, cands, k, msg);
        label Before:
        ghost var before, added0 := Repr, added;
        var nw := VisitRoot(cands[k], names, msg, old(Repr));
        added := added + nw;
        AppendAssoc(old(topItems), added0, nw);
        NoneInAppend(added0, nw, old(Repr));
        forall o | o in Repr && o !in old(Repr) ensures fresh(o) {
          if o !in before {
            assert fresh@Before(o);
          }
        }
        k := k + 1;
      }
    }

    /** One iteration of update_tree's loop, for candidate `d`: update the
        first root whose last segment (by `names`) is `d`'s, or append a new
        root for `d`, returned in `nw`. A root it appends is new, so it lies
        outside any set `outside` the caller already holds. */
    method VisitRoot(d: Record, names: seq<string>, msg: Snapshot, ghost outside: set<object>)
      returns (nw: seq<StatusItem>)
      requires Valid() && Forest.NiceNamesPrefix(ModelsOf(topItems), names)
      modifies this`topItems, this`Repr, Repr - {this}
      ensures Valid() && fresh(Repr - old(Repr))
      ensures topItems == old(topItems) + nw && NoneIn(nw, outside)
      ensures ModelsOf(topItems) == Forest.RootStep(old(ModelsOf(topItems)), names, d, msg)
    {
      var name := NiceName(d.name);
      if name in names {
        UpdateRoot(IndexOf(names, name), d, msg);
        nw := [];
      } else {
        var r := AppendRoot(d, msg);
        nw := [r];
      }
    }

    /** The matched branch of update_tree's loop: root `j` is updated with
        `d`; no other root changes. */
    method UpdateRoot(j: nat, d: Record, msg: Snapshot)
      requires Valid() && j < |topItems|
      modifies this`Repr, Repr - {this}
      ensures Valid() && fresh(Repr - old(Repr))
      ensures ModelsOf(topItems) == old(ModelsOf(topItems))[j := Tree.Update(old(topItems[j].model), d, msg)]
    {
      var w := topItems[j];
      w.Update(d, msg);
      Repr := Repr + w.Repr;
      RootReplaced(this, j);
    }

    /** The creating branch of update_tree's loop: a new item for `d`,
        updated with `d`, becomes the last root. */
    method AppendRoot(d: Record, msg: Snapshot) returns (nw: StatusItem)
      requires Valid()
      modifies this`topItems, this`Repr
      ensures Valid() && fresh(Repr - old(Repr))
      ensures fresh(nw) && topItems == old(topItems) + [nw]
      ensures ModelsOf(topItems) == old(ModelsOf(topItems)) + [Tree.Update(Leaf(d), d, msg)]
    {
      nw := new StatusItem(d);
      nw.Update(d, msg);
      topItems := topItems + [nw];
      Repr := Repr + nw.Repr;
      RootAppended(this, nw);
    }

    /** _top_level(msg): the records whose name splits into two pieces. */
    method TopLevel(msg: Snapshot) returns (ret: Snapshot)
      ensures ret == Forest.TopLevel(msg)
    {
      ret := [];
      for k := 0 to |msg|
        invariant ret == Forest.TopLevel(msg[..k])
      {
        var d := msg[k];
        assert msg[..k + 1] == msg[..k] + [d];
        Forest.TopLevelAppend(msg[..k], [d]);
        Forest.TopLevelCons(d, []);
        assert [d] + [] == [d];
        if |Split(d.name)| == 2 {
          ret := ret + [d];
        }
      }
      assert msg[..|msg|] == msg;
    }

    /** update_we(msg): every WARN record adds its line to the warnings,
        every ERROR record to the errors, in snapshot order. */
    method UpdateWe(msg: Snapshot)
      modifies this`warnings, this`errors
      ensures warnings == old(warnings) + Severity.Warnings(msg)
      ensures errors == old(errors) + Severity.Errors(msg)
    {
      for k := 0 to |msg|
        invariant warnings == old(warnings) + Severity.Bucket(msg[..k], WARN)
        invariant errors == old(errors) + Severity.Bucket(msg[..k], ERROR)
      {
        var status := msg[k];
        assert msg[..k + 1][..k] == msg[..k] && msg[..k + 1][k] == status;
        if status.level == WARN {
          warnings := warnings + [Severity.Line(status)];
        } else if status.level == ERROR {
          errors := errors + [Severity.Line(status)];
        }
      }
      assert msg[..|msg|] == msg;
    }

    /** clear(): empty both lists. */
    method Clear()
      modifies this`warnings, this`errors
      ensures warnings == [] && errors == []
    {
      warnings := [];
      errors := [];
    }

    /** close(): unregister the subscription if it is live; reports whether
        it unregistered. */
    method Close() returns (unregistered: bool)
      modifies this`subscribed
      ensures unregistered == old(subscribed) && !subscribed
    {
      unregistered := subscribed;
      if subscribed {
        subscribed := false;
      }
    }
  }

  /** A change to `m`'s own list fields, which leaves the footprint of the
      roots alone, keeps `m` valid and the roots' values as they were. */
  /** Roots appended to a valid monitor outside its old footprint, while the
      footprint gained only fresh objects, are fresh objects. */
  twostate lemma AddedFresh(m: RobotMonitor, new added: seq<StatusItem>)
    requires m.Valid() && fresh(m.Repr - old(m.Repr))
    requires m.topItems == old(m.topItems) + added && NoneIn(added, old(m.Repr))
    ensures forall k :: 0 <= k < |added| ==> fresh(added[k])
  {
    forall k | 0 <= k < |added| ensures fresh(added[k]) {
      assert added[k] == m.topItems[|old(m.topItems)| + k];
    }
  }

  twostate lemma RootsKept(m: RobotMonitor)
    requires old(m.Valid())
    requires m.topItems == old(m.topItems) && m.Repr == old(m.Repr)
    requires unchanged(old(m.Repr) - {m})
    ensures m.Valid()
    ensures ModelsOf(m.topItems) == old(ModelsOf(m.topItems))
  {
  }

  /** Replacing root `j` of `m` in place, which changes only objects that
      root owns and adds only fresh ones, keeps `m` valid; the values of the
      other roots are untouched. */
  twostate lemma RootReplaced(m: RobotMonitor, new j: nat)
    requires old(m.Valid()) && j < |old(m.topItems)|
    requires m.topItems == old(m.topItems)
    requires unchanged(old(m.Repr) - old(m.topItems[j].Repr) - {m})
    requires m.topItems[j].Valid() && fresh(m.topItems[j].Repr - old(m.topItems[j].Repr))
    requires m.Repr == old(m.Repr) + m.topItems[j].Repr
    ensures m.Valid()
    ensures ModelsOf(m.topItems) == old(ModelsOf(m.topItems))[j := m.topItems[j].model]
  {
    var w := m.topItems[j];
    forall i | 0 <= i < |m.topItems|
      ensures m.topItems[i].Repr <= m.Repr && m !in m.topItems[i].Repr
      ensures m.topItems[i].Valid()
      ensures ModelsOf(m.topItems)[i] == old(ModelsOf(m.topItems))[j := w.model][i]
      ensures i != j ==> m.topItems[i].Repr == old(m.topItems[i].Repr)
    {
      if i != j {
        assert old(m.topItems[i].Valid());
        assert old(m.topItems[i].Shape());
        assert old(m.topItems[i] in m.topItems[i].Repr);
        assert old(m.topItems[i].Repr !! w.Repr);
        assert m.topItems[i].Repr == old(m.topItems[i].Repr);
        assert m.topItems[i].Valid();
      }
    }
    forall i, k | 0 <= i < k < |m.topItems| ensures m.topItems[i].Repr !! m.topItems[k].Repr {
      assert old(m.topItems[i].Repr !! m.topItems[k].Repr);
    }
  }

  /** Appending a valid root built entirely from fresh objects keeps `m`
      valid and appends the root's value to the roots' values. */
  twostate lemma RootAppended(m: RobotMonitor, new c: StatusItem)
    requires old(m.Valid())
    requires m.topItems == old(m.topItems) + [c]
    requires unchanged(old(m.Repr) - {m})
    requires c.Valid() && fresh(c.Repr)
    requires m.Repr == old(m.Repr) + c.Repr
    ensures m.Valid()
    ensures ModelsOf(m.topItems) == old(ModelsOf(m.topItems)) + [c.model]
  {
    var n := |old(m.topItems)|;
    forall i | 0 <= i < |m.topItems|
      ensures m.topItems[i].Repr <= m.Repr && m !in m.topItems[i].Repr
      ensures m.topItems[i].Valid()
      ensures ModelsOf(m.topItems)[i] == (old(ModelsOf(m.topItems)) + [c.model])[i]
      ensures i < n ==> m.topItems[i].Repr == old(m.topItems[i].Repr)
    {
      if i < n {
        assert old(m.topItems[i].Valid());
        assert old(m.topItems[i].Shape());
        assert old(m.topItems[i] in m.topItems[i].Repr);
        assert m.topItems[i].Repr == old(m.topItems[i].Repr);
        assert m.topItems[i].Valid();
      }
    }
    forall i, k | 0 <= i < k < |m.topItems| ensures m.topItems[i].Repr !! m.topItems[k].Repr {
      if k < n {
        assert old(m.topItems[i].Repr !! m.topItems[k].Repr);
      }
    }
  }

  /** The last segments of the roots' names are those of their values. */
  lemma RootNames(m: RobotMonitor)
    requires m.Valid()
    ensures NiceNamesOfItems(m.topItems) == Forest.NiceNames(ModelsOf(m.topItems))
    ensures Forest.NiceNamesPrefix(ModelsOf(m.topItems), NiceNamesOfItems(m.topItems))
  {
    forall j | 0 <= j < |m.topItems| ensures ModelsOf(m.topItems)[j].name == m.topItems[j].name {
      var c := m.topItems[j];
      assert c.Valid();
      assert c.model == c.Abstract();
    }
  }

  /** Showing a record in `p`'s inspector changes nothing the children own:
      `p` keeps its shape and its children their values. */
  twostate lemma InspectorShown(p: StatusItem, new i: Inspector)
    requires old(p.Shape()) && old(p.inspector) == i
    requires p.items == old(p.items) && p.inspector == i && p.Repr == old(p.Repr)
    requires unchanged(old(p.Repr) - {p, i})
    ensures p.Shape()
    ensures ModelsOf(p.items) == old(ModelsOf(p.items))
  {
    forall j | 0 <= j < |p.items|
      ensures p.items[j].Valid() && p.items[j].model == old(p.items[j].model)
    {
      var c := p.items[j];
      assert old(c.Valid());
      assert old(c.Shape()) && old(c in c.Repr);
      assert old(c.Repr) <= old(p.Repr) - {p, i};
      assert c.Repr == old(c.Repr);
    }
  }

  /** Updating child `j` of `p` in place, which changes only objects that
      child owns and adds only fresh ones, keeps `p`'s shape; the values of
      the other children are untouched. */
  twostate lemma ChildReplaced(p: StatusItem, new j: nat)
    requires old(p.Shape()) && j < |old(p.items)|
    requires p.items == old(p.items) && p.inspector == old(p.inspector)
    requires unchanged(old(p.Repr) - old(p.items[j].Repr) - {p})
    requires p.items[j].Valid() && fresh(p.items[j].Repr - old(p.items[j].Repr))
    requires p.Repr == old(p.Repr) + p.items[j].Repr
    ensures p.Shape()
    ensures ModelsOf(p.items) == old(ModelsOf(p.items))[j := p.items[j].model]
  {
    var w := p.items[j];
    forall i | 0 <= i < |p.items|
      ensures p.items[i] in p.Repr && p.items[i].Repr <= p.Repr && p !in p.items[i].Repr
      ensures p.inspector != null ==> p.inspector !in p.items[i].Repr
      ensures p.items[i].Valid()
      ensures ModelsOf(p.items)[i] == old(ModelsOf(p.items))[j := w.model][i]
      ensures i != j ==> p.items[i].Repr == old(p.items[i].Repr)
    {
      if i != j {
        assert old(p.items[i].Valid());
        assert old(p.items[i].Shape());
        assert old(p.items[i] in p.items[i].Repr);
        assert old(p.items[i].Repr !! w.Repr);
        assert p.items[i].Repr == old(p.items[i].Repr);
        assert p.items[i].Valid();
      }
    }
    forall i, k | 0 <= i < k < |p.items| ensures p.items[i].Repr !! p.items[k].Repr {
      assert old(p.items[i].Repr !! p.items[k].Repr);
    }
  }

  /** Appending a valid child built entirely from fresh objects keeps `p`'s
      shape and appends the child's value to the children's values. */
  twostate lemma ChildAppended(p: StatusItem, new c: StatusItem)
    requires old(p.Shape())
    requires p.items == old(p.items) + [c] && p.inspector == old(p.inspector)
    requires unchanged(old(p.Repr) - {p})
    requires c.Valid() && fresh(c.Repr)
    requires p.Repr == old(p.Repr) + c.Repr
    ensures p.Shape()
    ensures ModelsOf(p.items) == old(ModelsOf(p.items)) + [c.model]
  {
    var n := |old(p.items)|;
    forall i | 0 <= i < |p.items|
      ensures p.items[i] in p.Repr && p.items[i].Repr <= p.Repr && p !in p.items[i].Repr
      ensures p.inspector != null ==> p.inspector !in p.items[i].Repr
      ensures p.items[i].Valid()
      ensures ModelsOf(p.items)[i] == (old(ModelsOf(p.items)) + [c.model])[i]
      ensures i < n ==> p.items[i].Repr == old(p.items[i].Repr)
    {
      if i < n {
        assert old(p.items[i].Valid());
        assert old(p.items[i].Shape());
        assert old(p.items[i] in p.items[i].Repr);
        assert p.items[i].Repr == old(p.items[i].Repr);
        assert p.items[i].Valid();
      }
    }
    forall i, k | 0 <= i < k < |p.items| ensures p.items[i].Repr !! p.items[k].Repr {
      if k < n {
        assert old(p.items[i].Repr !! p.items[k].Repr);
      }
    }
  }

  /** Every child's value carries the child's name. */
  lemma ModelNames(p: StatusItem)
    requires p.Shape()
    ensures forall j :: 0 <= j < |p.items| ==> p.items[j].model.name == p.items[j].name
  {
    forall j | 0 <= j < |p.items| ensures p.items[j].model.name == p.items[j].name {
      var c := p.items[j];
      assert c.Valid();
      assert c.model == c.Abstract();
    }
  }

  /** The names of `p`'s children are the names of their values. */
  lemma NamesAgree(p: StatusItem)
    requires p.Valid()
    ensures NamesOfItems(p.items) == NamesOf(p.model.children)
    ensures p.model.children == ModelsOf(p.items)
  {
    ModelNames(p);
  }
}
