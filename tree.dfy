/** The observable state of a StatusItem subtree as a value, and
    StatusItem.update as a function on it: the specification the class
    StatusItem in module Monitor is proved against. */
module Tree {
  import opened Paths
  import opened Diagnostics

  /** One StatusItem: its fixed `name` and `level`, its current `status`,
      the log of records its inspector has been forwarded (None when no
      inspector is attached) and its children in discovery order. */
  datatype Node = Node(
    name: string,
    level: Level,
    status: Record,
    inspector: Option<seq<Record>>,
    children: seq<Node>)

  /** StatusItem(record): a fresh node without inspector or children. */
  function Leaf(d: Record): Node {
    Node(d.name, d.level, d, None, [])
  }

  /** The inspector's log after it is forwarded `s`, if there is one. */
  function Forward(insp: Option<seq<Record>>, s: Record): (r: Option<seq<Record>>)
    ensures r.None? <==> insp.None?
    ensures insp.Some? ==> r.value == insp.value + [s]
  {
    match insp
    case None => None
    case Some(log) => Some(log + [s])
  }

  /** `name.startswith(parent) and not name == parent` */
  predicate IsDescendantName(parent: string, name: string) {
    StartsWith(name, parent) && name != parent
  }

  /** get_children: the records of `msg` whose name has `parent` as a proper
      prefix, in snapshot order. */
  function Children(parent: string, msg: Snapshot): (r: Snapshot)
    ensures forall d :: d in r <==> d in msg && IsDescendantName(parent, d.name)
    ensures forall d :: d in r ==> |d.name| > |parent|
  {
    if msg == [] then []
    else
      var rest := Children(parent, msg[1..]);
      assert forall d :: d in msg <==> d == msg[0] || d in msg[1..];
      if IsDescendantName(parent, msg[0].name) then [msg[0]] + rest else rest
  }

  /** strip_child: the child name with every occurrence of the parent name removed. */
  function StripChild(parent: string, name: string): string {
    RemoveAll(name, parent)
  }

  /** The creation test of update: the stripped name splits into at most two pieces. */
  predicate IsImmediate(parent: string, name: string) {
    |Split(StripChild(parent, name))| <= 2
  }

  /** `[s.name for s in items]` */
  function NamesOf(nodes: seq<Node>): (r: seq<string>)
    ensures |r| == |nodes| && forall j :: 0 <= j < |nodes| ==> r[j] == nodes[j].name
  {
    seq(|nodes|, j requires 0 <= j < |nodes| => nodes[j].name)
  }

  /** `xs.index(x)`: the first position of `x`. */
  function IndexOf(xs: seq<string>, x: string): (i: nat)
    requires x in xs
    ensures i < |xs| && xs[i] == x
    ensures forall k :: 0 <= k < i ==> xs[k] != x
  {
    if xs[0] == x then 0 else 1 + IndexOf(xs[1..], x)
  }

  /** StatusItem.update(s, msg) on the value of a node. The recursion ends
      because every descendant's name is longer than its parent's and no
      name in `msg` is longer than MaxNameLength(msg). */
  function Update(n: Node, s: Record, msg: Snapshot): (r: Node)
    decreases MaxNameLength(msg) - |n.name|, 1
    ensures r.name == n.name && r.level == n.level && r.status == s
    ensures r.inspector == Forward(n.inspector, s)
    ensures |n.children| <= |r.children|
    ensures forall j :: 0 <= j < |n.children| ==> r.children[j].name == n.children[j].name
  {
    var kids := Reconcile(n.name, n.children, NamesOf(n.children), Children(n.name, msg), msg);
    Node(n.name, n.level, s, Forward(n.inspector, s), kids)
  }

  /** StatusItem.on_click on the value of a node: an inspector showing the
      current status is attached, unless the node has one already; nothing
      else changes. */
  function Click(n: Node): (r: Node)
    ensures r.inspector.Some? && r.(inspector := n.inspector) == n
    ensures n.inspector.Some? ==> r == n
    ensures n.inspector.None? ==> r.inspector == Some([n.status])
  {
    if n.inspector.None? then n.(inspector := Some([n.status])) else n
  }

  /** Whether `ds` satisfies what update's loop knows of its descendants. */
  ghost predicate AreDescendants(parent: string, ds: seq<Record>, msg: Snapshot) {
    forall d :: d in ds ==> d in msg && |d.name| > |parent|
  }

  /** Whether `names` lists the names of the first |names| entries of `items`. */
  predicate NamesPrefix(items: seq<Node>, names: seq<string>) {
    |names| <= |items| && forall j :: 0 <= j < |names| ==> items[j].name == names[j]
  }

  /** One iteration of update's loop, for descendant `d`: a descendant named
      like an existing child (by `names`, taken before the loop) updates the
      first such child; otherwise, when immediate, it becomes a new child,
      appended; otherwise nothing happens. */
  function Step(parent: string, items: seq<Node>, names: seq<string>, d: Record, msg: Snapshot): (r: seq<Node>)
    requires NamesPrefix(items, names)
    requires d in msg && |d.name| > |parent|
    decreases MaxNameLength(msg) - |parent|, 0, 0
    ensures |items| <= |r|
    ensures forall j :: 0 <= j < |items| ==> r[j].name == items[j].name
  {
    if d.name in names then
      var j := IndexOf(names, d.name);
      items[j := Update(items[j], d, msg)]
    else if IsImmediate(parent, d.name) then
      items + [Update(Leaf(d), d, msg)]
    else
      items
  }

  /** The loop of update over the descendants `ds`, in order. */
  function Reconcile(parent: string, items: seq<Node>, names: seq<string>,
                     ds: seq<Record>, msg: Snapshot): (r: seq<Node>)
    requires NamesPrefix(items, names)
    requires AreDescendants(parent, ds, msg)
    decreases MaxNameLength(msg) - |parent|, 0, |ds|
    ensures |items| <= |r|
    ensures forall j :: 0 <= j < |items| ==> r[j].name == items[j].name
  {
    if ds == [] then items
    else Reconcile(parent, Step(parent, items, names, ds[0], msg), names, ds[1..], msg)
  }

  /** The descendants of `ds` for which update creates a new child. */
  function Spawned(parent: string, names: seq<string>, ds: seq<Record>): (r: seq<Record>)
    ensures forall d :: d in r <==> d in ds && d.name !in names && IsImmediate(parent, d.name)
    ensures |r| <= |ds|
  {
    if ds == [] then []
    else
      var rest := Spawned(parent, names, ds[1..]);
      assert forall d :: d in ds <==> d == ds[0] || d in ds[1..];
      if ds[0].name !in names && IsImmediate(parent, ds[0].name) then [ds[0]] + rest else rest
  }

  /** `r` continues, after its first `m` entries, with one fresh node per
      record of `nr`, each updated with its record, and nothing else. */
  ghost predicate EndsWithSpawned(r: seq<Node>, m: nat, nr: seq<Record>, msg: Snapshot) {
    |r| == m + |nr| &&
    forall k :: 0 <= k < |nr| ==> r[m + k] == Update(Leaf(nr[k]), nr[k], msg)
  }

  /** The records of `ds` named `x`, in order. */
  function Named(ds: seq<Record>, x: string): (r: seq<Record>)
    ensures forall d :: d in r <==> d in ds && d.name == x
  {
    if ds == [] then []
    else
      var rest := Named(ds[1..], x);
      assert forall d :: d in ds <==> d == ds[0] || d in ds[1..];
      if ds[0].name == x then [ds[0]] + rest else rest
  }

  /** `n` updated with each record of `ds` in turn. */
  function UpdateAll(n: Node, ds: seq<Record>, msg: Snapshot): (r: Node)
    ensures r.name == n.name && r.level == n.level
    ensures ds != [] ==> r.status == ds[|ds| - 1]
    decreases |ds|
  {
    if ds == [] then n else UpdateAll(Update(n, ds[0], msg), ds[1..], msg)
  }

  // ---------------------------------------------------------------------
  // get_children

  /** get_children keeps snapshot order: it distributes over concatenation. */
  lemma {:induction false} ChildrenAppend(parent: string, a: Snapshot, b: Snapshot)
    ensures Children(parent, a + b) == Children(parent, a) + Children(parent, b)
  {
    if a != [] {
      ChildrenAppend(parent, a[1..], b);
      assert (a + b)[0] == a[0] && (a + b)[1..] == a[1..] + b;
      if IsDescendantName(parent, a[0].name) {
        assert Children(parent, a + b) == [a[0]] + Children(parent, a[1..] + b);
        assert Children(parent, a) == [a[0]] + Children(parent, a[1..]);
      } else {
        assert Children(parent, a + b) == Children(parent, a[1..] + b);
      }
    } else {
      assert a + b == b;
    }
  }

  // ---------------------------------------------------------------------
  // What the loop of update does to the child list

  /** One iteration: an existing child is rewritten only when it is the
      first one named like `d`, and then it is updated with `d`; every other
      child, a later one of the same name included, is unchanged; a child is
      appended exactly when `d` is named like no existing child and is
      immediate, and it is a fresh node updated with `d`. */
  lemma StepEffect(parent: string, items: seq<Node>, names: seq<string>, d: Record, msg: Snapshot)
    requires NamesPrefix(items, names)
    requires d in msg && |d.name| > |parent|
    ensures var r := Step(parent, items, names, d, msg);
            var spawn := d.name !in names && IsImmediate(parent, d.name);
            && |r| == |items| + (if spawn then 1 else 0)
            && (spawn ==> r[|items|] == Update(Leaf(d), d, msg))
            && (d.name in names ==>
                  r[IndexOf(names, d.name)] == Update(items[IndexOf(names, d.name)], d, msg))
            && (forall j :: 0 <= j < |items| && !(d.name in names && j == IndexOf(names, d.name)) ==> r[j] == items[j])
  {
  }

  lemma AreDescendantsTail(parent: string, ds: seq<Record>, msg: Snapshot)
    requires ds != [] && AreDescendants(parent, ds, msg)
    ensures ds[0] in msg && |ds[0].name| > |parent|
    ensures AreDescendants(parent, ds[1..], msg)
  {
    assert ds[0] in ds;
    assert forall d :: d in ds[1..] ==> d in ds;
  }

  /** One turn of update's loop, on values: the descendant at position `k`
      is a valid argument of Step, the rest stay descendants, Step keeps the
      pre-loop names, and the loop over `ds[k..]` is Step followed by the
      loop over `ds[k + 1..]`. */
  lemma ReconcileUnroll(parent: string, items: seq<Node>, names: seq<string>,
                        ds: seq<Record>, k: nat, msg: Snapshot)
    requires NamesPrefix(items, names)
    requires k < |ds| && AreDescendants(parent, ds[k..], msg)
    ensures ds[k] in msg && |ds[k].name| > |parent|
    ensures AreDescendants(parent, ds[k + 1..], msg)
    ensures NamesPrefix(Step(parent, items, names, ds[k], msg), names)
    ensures Reconcile(parent, items, names, ds[k..], msg)
         == Reconcile(parent, Step(parent, items, names, ds[k], msg), names, ds[k + 1..], msg)
  {
    assert ds[k..][0] == ds[k] && ds[k..][1..] == ds[k + 1..];
    AreDescendantsTail(parent, ds[k..], msg);
  }

  /** Entries past the pre-loop names are never rewritten. */
  lemma {:induction false} ReconcileKeepsTail(parent: string, items: seq<Node>, names: seq<string>,
                                              ds: seq<Record>, msg: Snapshot, j: nat)
    requires NamesPrefix(items, names) && AreDescendants(parent, ds, msg)
    requires |names| <= j < |items|
    ensures Reconcile(parent, items, names, ds, msg)[j] == items[j]
    decreases |ds|
  {
    if ds != [] {
      AreDescendantsTail(parent, ds, msg);
      StepEffect(parent, items, names, ds[0], msg);
      ReconcileKeepsTail(parent, Step(parent, items, names, ds[0], msg), names, ds[1..], msg, j);
    }
  }

  /** New children are appended, in snapshot order, exactly for the
      descendants Spawned selects, each as a fresh node updated with its
      record; nothing else is added. */
  lemma {:induction false} ReconcileAppendsSpawned(parent: string, items: seq<Node>, names: seq<string>,
                                                   ds: seq<Record>, msg: Snapshot)
    requires NamesPrefix(items, names) && AreDescendants(parent, ds, msg)
    ensures EndsWithSpawned(Reconcile(parent, items, names, ds, msg), |items|, Spawned(parent, names, ds), msg)
    decreases |ds|
  {
    if ds != [] {
      var d := ds[0];
      AreDescendantsTail(parent, ds, msg);
      StepEffect(parent, items, names, d, msg);
      var items' := Step(parent, items, names, d, msg);
      ReconcileAppendsSpawned(parent, items', names, ds[1..], msg);
      if d.name !in names && IsImmediate(parent, d.name) {
        ReconcileKeepsTail(parent, items', names, ds[1..], msg, |items|);
        SpawnedStep(Reconcile(parent, items', names, ds[1..], msg), items, d, Spawned(parent, names, ds[1..]), msg);
      }
    }
  }

  lemma SpawnedStep(r: seq<Node>, items: seq<Node>, d: Record, nr: seq<Record>, msg: Snapshot)
    requires EndsWithSpawned(r, |items| + 1, nr, msg)
    requires r[|items|] == Update(Leaf(d), d, msg)
    ensures EndsWithSpawned(r, |items|, [d] + nr, msg)
  {
    forall k | 0 <= k < 1 + |nr| ensures r[|items| + k] == Update(Leaf(([d] + nr)[k]), ([d] + nr)[k], msg) {
      if k > 0 {
        assert ([d] + nr)[k] == nr[k - 1];
        assert |items| + k == |items| + 1 + (k - 1);
      }
    }
  }

  /** A child that no descendant names keeps its whole subtree unchanged:
      nothing is pruned or reset. */
  lemma {:induction false} ReconcileKeepsUnnamed(parent: string, items: seq<Node>, names: seq<string>,
                                                 ds: seq<Record>, msg: Snapshot, j: nat)
    requires NamesPrefix(items, names) && AreDescendants(parent, ds, msg)
    requires j < |items|
    requires forall d :: d in ds ==> d.name != items[j].name
    ensures Reconcile(parent, items, names, ds, msg)[j] == items[j]
    decreases |ds|
  {
    if ds != [] {
      AreDescendantsTail(parent, ds, msg);
      assert ds[0] in ds;
      assert forall d :: d in ds[1..] ==> d in ds;
      StepEffect(parent, items, names, ds[0], msg);
      ReconcileKeepsUnnamed(parent, Step(parent, items, names, ds[0], msg), names, ds[1..], msg, j);
    }
  }

  /** A descendant whose name is unique in `ds` and equals an existing
      child's name updates the first child of that name with its record. */
  lemma {:induction false} ReconcileUpdatesMatch(parent: string, items: seq<Node>, names: seq<string>,
                                                 ds: seq<Record>, msg: Snapshot, i: nat)
    requires NamesPrefix(items, names) && AreDescendants(parent, ds, msg)
    requires i < |ds| && ds[i].name in names
    requires forall k :: 0 <= k < |ds| && k != i ==> ds[k].name != ds[i].name
    ensures var j := IndexOf(names, ds[i].name);
            Reconcile(parent, items, names, ds, msg)[j] == Update(items[j], ds[i], msg)
    decreases |ds|
  {
    var j := IndexOf(names, ds[i].name);
    AreDescendantsTail(parent, ds, msg);
    StepEffect(parent, items, names, ds[0], msg);
    var items' := Step(parent, items, names, ds[0], msg);
    if i == 0 {
      forall d' | d' in ds[1..] ensures d'.name != items'[j].name {
        var k :| 0 <= k < |ds[1..]| && ds[1..][k] == d';
        assert ds[k + 1] == d';
      }
      ReconcileKeepsUnnamed(parent, items', names, ds[1..], msg, j);
    } else {
      assert ds[0].name != ds[i].name;
      ReconcileUpdatesMatch(parent, items', names, ds[1..], msg, i - 1);
    }
  }

  /** A child named like an earlier child is never matched (index() finds
      the earlier one), so the loop leaves it as it was. */
  lemma {:induction false} ReconcileKeepsShadowed(parent: string, items: seq<Node>, names: seq<string>,
                                                  ds: seq<Record>, msg: Snapshot, j: nat)
    requires NamesPrefix(items, names) && AreDescendants(parent, ds, msg)
    requires j < |names| && IndexOf(names, names[j]) < j
    ensures Reconcile(parent, items, names, ds, msg)[j] == items[j]
    decreases |ds|
  {
    if ds != [] {
      AreDescendantsTail(parent, ds, msg);
      StepEffect(parent, items, names, ds[0], msg);
      ReconcileKeepsShadowed(parent, Step(parent, items, names, ds[0], msg), names, ds[1..], msg, j);
    }
  }

  /** The first child of each name is updated with every descendant of that
      name, in snapshot order, and nothing else happens to it. */
  lemma {:induction false} ReconcileUpdatesNamed(parent: string, items: seq<Node>, names: seq<string>,
                                                 ds: seq<Record>, msg: Snapshot, j: nat)
    requires NamesPrefix(items, names) && AreDescendants(parent, ds, msg)
    requires j < |names| && IndexOf(names, names[j]) == j
    ensures Reconcile(parent, items, names, ds, msg)[j] == UpdateAll(items[j], Named(ds, names[j]), msg)
    decreases |ds|
  {
    if ds != [] {
      var d := ds[0];
      AreDescendantsTail(parent, ds, msg);
      StepEffect(parent, items, names, d, msg);
      var items' := Step(parent, items, names, d, msg);
      ReconcileUpdatesNamed(parent, items', names, ds[1..], msg, j);
      if d.name == names[j] {
        assert items'[j] == Update(items[j], d, msg);
        assert Named(ds, names[j]) == [d] + Named(ds[1..], names[j]);
        assert ([d] + Named(ds[1..], names[j]))[1..] == Named(ds[1..], names[j]);
      } else {
        assert items'[j] == items[j];
      }
    }
  }

  // ---------------------------------------------------------------------
  // Monotonic growth: a name once in the tree stays in it

  /** The names of a node and of all its descendants. */
  function AllNames(n: Node): set<string>
    decreases n
  {
    {n.name} + AllNamesOf(n.children)
  }

  function AllNamesOf(ns: seq<Node>): set<string>
    decreases ns
  {
    if ns == [] then {} else AllNames(ns[0]) + AllNamesOf(ns[1..])
  }

  /** `r` extends `items` position by position, each subtree keeping its names. */
  ghost predicate Covers(items: seq<Node>, r: seq<Node>) {
    |items| <= |r| && forall j :: 0 <= j < |items| ==> AllNames(items[j]) <= AllNames(r[j])
  }

  lemma {:induction false} CoversNames(items: seq<Node>, r: seq<Node>)
    requires Covers(items, r)
    ensures AllNamesOf(items) <= AllNamesOf(r)
  {
    if items != [] {
      assert Covers(items[1..], r[1..]) by {
        forall j | 0 <= j < |items[1..]| ensures AllNames(items[1..][j]) <= AllNames(r[1..][j]) {
          assert items[1..][j] == items[j + 1] && r[1..][j] == r[j + 1];
        }
      }
      CoversNames(items[1..], r[1..]);
    } else if r != [] {
      assert AllNamesOf(r) == AllNames(r[0]) + AllNamesOf(r[1..]);
    }
  }

  /** update never loses a name from the subtree it is applied to. */
  lemma {:induction false} UpdateGrows(n: Node, s: Record, msg: Snapshot)
    ensures AllNames(n) <= AllNames(Update(n, s, msg))
    decreases MaxNameLength(msg) - |n.name|, 1
  {
    var ds := Children(n.name, msg);
    ReconcileGrows(n.name, n.children, NamesOf(n.children), ds, msg);
    CoversNames(n.children, Reconcile(n.name, n.children, NamesOf(n.children), ds, msg));
  }

  lemma {:induction false} StepGrows(parent: string, items: seq<Node>, names: seq<string>, d: Record, msg: Snapshot)
    requires NamesPrefix(items, names)
    requires d in msg && |d.name| > |parent|
    ensures Covers(items, Step(parent, items, names, d, msg))
    decreases MaxNameLength(msg) - |parent|, 0, 0
  {
    StepEffect(parent, items, names, d, msg);
    if d.name in names {
      var j := IndexOf(names, d.name);
      UpdateGrows(items[j], d, msg);
    }
  }

  lemma {:induction false} ReconcileGrows(parent: string, items: seq<Node>, names: seq<string>,
                                          ds: seq<Record>, msg: Snapshot)
    requires NamesPrefix(items, names) && AreDescendants(parent, ds, msg)
    ensures Covers(items, Reconcile(parent, items, names, ds, msg))
    decreases MaxNameLength(msg) - |parent|, 0, |ds|
  {
    if ds != [] {
      AreDescendantsTail(parent, ds, msg);
      var items' := Step(parent, items, names, ds[0], msg);
      StepGrows(parent, items, names, ds[0], msg);
      ReconcileGrows(parent, items', names, ds[1..], msg);
    }
  }

  // ---------------------------------------------------------------------
  // update, stated on the node

  /** After update(s, msg): the node holds `s`; its old children are still
      its first children, in order; the children it gained are exactly the
      records of `msg` below it, not named like an existing child, whose
      stripped name has at most two pieces, in snapshot order. */
  lemma UpdateChildList(n: Node, s: Record, msg: Snapshot)
    ensures var r := Update(n, s, msg);
            var nr := Spawned(n.name, NamesOf(n.children), Children(n.name, msg));
            && r.status == s
            && |r.children| == |n.children| + |nr|
            && (forall k :: 0 <= k < |nr| ==> r.children[|n.children| + k] == Update(Leaf(nr[k]), nr[k], msg))
            && (forall d :: d in nr <==>
                  d in msg && IsDescendantName(n.name, d.name) &&
                  d.name !in NamesOf(n.children) && IsImmediate(n.name, d.name))
  {
    ReconcileAppendsSpawned(n.name, n.children, NamesOf(n.children), Children(n.name, msg), msg);
  }

  // ---------------------------------------------------------------------
  // Two consequences of matching as written

  /** startswith has no separator boundary, and strip_child removes the
      parent's name wherever it occurs: a node named "/a" treats "/ab/x" as
      a descendant, and as one it would create a child for. */
  lemma PrefixWithoutBoundary()
    ensures IsDescendantName("/a", "/ab/x")
    ensures StripChild("/a", "/ab/x") == "b/x"
    ensures IsImmediate("/a", "/ab/x")
  {
    assert "/ab/x" == "/a" + "b/x";
    RemoveAllPrefix("/a", "b/x");
    assert RemoveAll("b/x", "/a") == "b/x" by {
      assert !("/a" <= "b/x") && "b/x"[1..] == "/x";
      assert !("/a" <= "/x") && "/x"[1..] == "x";
      assert !("/a" <= "x") && "x"[1..] == "";
    }
    assert "b/x" == "b" + [Sep] + "x";
    SplitPrefix("b", "x");
    SplitNoSep("x");
  }

  /** strip_child removes every occurrence of the parent's name, not only
      the leading one: under "/a", the record "/a/b/a", two levels down,
      strips to "/b" and passes the creation test, so it would become a
      direct child of "/a". */
  lemma RecurringParentName()
    ensures IsDescendantName("/a", "/a/b/a")
    ensures StripChild("/a", "/a/b/a") == "/b"
    ensures IsImmediate("/a", "/a/b/a")
  {
    assert "/a/b/a" == "/a" + "/b/a";
    RemoveAllPrefix("/a", "/b/a");
    assert RemoveAll("/b/a", "/a") == "/b" by {
      assert !("/a" <= "/b/a") && "/b/a"[1..] == "b/a";
      assert !("/a" <= "b/a") && "b/a"[1..] == "/a";
      assert "/a" <= "/a" && "/a"[2..] == "";
    }
    assert "/b" == "" + [Sep] + "b";
    SplitPrefix("", "b");
    SplitNoSep("b");
  }

  /** For a descendant named `parent + rest`, where `rest` does not contain
      the parent's name again, strip_child gives back `rest`, and update's
      creation test holds exactly when `rest` has at most one separator. */
  lemma StripChildOfDescendant(parent: string, rest: string)
    requires |parent| > 0 && !Occurs(rest, parent)
    ensures StripChild(parent, parent + rest) == rest
    ensures IsImmediate(parent, parent + rest) <==> SepCount(rest) <= 1
  {
    RemoveAllPrefix(parent, rest);
    RemoveAllAbsent(rest, parent);
    SplitCount(rest);
  }

  /** The names are taken before the loop, so a child created in this call is
      never matched later in it: a new immediate descendant listed twice
      creates two children, both updated with it. */
  lemma RepeatedNameSpawnsTwice(parent: string, items: seq<Node>, names: seq<string>,
                                d: Record, msg: Snapshot)
    requires NamesPrefix(items, names)
    requires d in msg && |d.name| > |parent|
    requires d.name !in names && IsImmediate(parent, d.name)
    ensures var r := Reconcile(parent, items, names, [d, d], msg);
            |r| == |items| + 2 && r[|items|] == r[|items| + 1] == Update(Leaf(d), d, msg)
  {
    assert AreDescendants(parent, [d, d], msg);
    ReconcileAppendsSpawned(parent, items, names, [d, d], msg);
    assert [d, d][1..] == [d];
    assert [d][1..] == [];
    assert Spawned(parent, names, [d, d]) == [d, d];
  }
}
