/** RobotMonitor.update_tree and _top_level as functions on the values of
    the root nodes: the specification RobotMonitor.UpdateTree is proved
    against. */
module Forest {
  import opened Paths
  import opened Diagnostics
  import opened Tree

  /** _top_level: the records whose name splits into exactly two pieces, in
      snapshot order. */
  function TopLevel(msg: Snapshot): (r: Snapshot)
    ensures forall d :: d in r <==> d in msg && |Split(d.name)| == 2
    ensures |r| <= |msg|
  {
    if msg == [] then []
    else
      var rest := TopLevel(msg[1..]);
      assert forall d :: d in msg <==> d == msg[0] || d in msg[1..];
      if |Split(msg[0].name)| == 2 then [msg[0]] + rest else rest
  }

  /** `[get_nice_name(k.name) for k in top_items]` */
  function NiceNames(roots: seq<Node>): (r: seq<string>)
    ensures |r| == |roots| && forall j :: 0 <= j < |roots| ==> r[j] == NiceName(roots[j].name)
  {
    seq(|roots|, j requires 0 <= j < |roots| => NiceName(roots[j].name))
  }

  /** Whether `names` lists the last segments of the first |names| roots. */
  predicate NiceNamesPrefix(roots: seq<Node>, names: seq<string>) {
    |names| <= |roots| && forall j :: 0 <= j < |names| ==> NiceName(roots[j].name) == names[j]
  }

  /** One iteration of update_tree's loop: a candidate whose last segment is
      an existing root's (by `names`, taken before the loop) updates the first
      such root; any other candidate becomes a new root, appended. */
  function RootStep(roots: seq<Node>, names: seq<string>, d: Record, msg: Snapshot): (r: seq<Node>)
    requires NiceNamesPrefix(roots, names)
    ensures |roots| <= |r|
    ensures forall j :: 0 <= j < |roots| ==> r[j].name == roots[j].name
  {
    var nice := NiceName(d.name);
    if nice in names then
      var j := IndexOf(names, nice);
      roots[j := Update(roots[j], d, msg)]
    else
      roots + [Update(Leaf(d), d, msg)]
  }

  /** The loop of update_tree over the root candidates, in order. */
  function ReconcileRoots(roots: seq<Node>, names: seq<string>, cands: seq<Record>, msg: Snapshot): (r: seq<Node>)
    requires NiceNamesPrefix(roots, names)
    decreases |cands|
    ensures |roots| <= |r|
    ensures forall j :: 0 <= j < |roots| ==> r[j].name == roots[j].name
  {
    if cands == [] then roots
    else ReconcileRoots(RootStep(roots, names, cands[0], msg), names, cands[1..], msg)
  }

  /** update_tree(msg) on the values of `top_items`. */
  function UpdateTree(roots: seq<Node>, msg: Snapshot): seq<Node> {
    ReconcileRoots(roots, NiceNames(roots), TopLevel(msg), msg)
  }

  /** The candidates for which update_tree creates a new root. */
  function NewRoots(names: seq<string>, cands: seq<Record>): (r: seq<Record>)
    ensures forall d :: d in r <==> d in cands && NiceName(d.name) !in names
    ensures |r| <= |cands|
  {
    if cands == [] then []
    else
      var rest := NewRoots(names, cands[1..]);
      assert forall d :: d in cands <==> d == cands[0] || d in cands[1..];
      if NiceName(cands[0].name) !in names then [cands[0]] + rest else rest
  }

  /** The candidates of `cands` whose last segment is `x`, in order. */
  function Matching(cands: seq<Record>, x: string): (r: seq<Record>)
    ensures forall d :: d in r <==> d in cands && NiceName(d.name) == x
  {
    if cands == [] then []
    else
      var rest := Matching(cands[1..], x);
      assert forall d :: d in cands <==> d == cands[0] || d in cands[1..];
      if NiceName(cands[0].name) == x then [cands[0]] + rest else rest
  }

  // ---------------------------------------------------------------------

  /** A root candidate is a record whose name holds exactly one separator. */
  lemma TopLevelOneSeparator(msg: Snapshot)
    ensures forall d :: d in TopLevel(msg) <==> d in msg && SepCount(d.name) == 1
  {
    forall d | d in msg {
      SplitCount(d.name);
    }
  }

  /** _top_level keeps snapshot order: it distributes over concatenation. */
  lemma {:induction false} TopLevelAppend(a: Snapshot, b: Snapshot)
    ensures TopLevel(a + b) == TopLevel(a) + TopLevel(b)
  {
    if a != [] {
      var d, a' := a[0], a[1..];
      assert a == [d] + a' && a + b == [d] + (a' + b);
      TopLevelAppend(a', b);
      TopLevelCons(d, a');
      TopLevelCons(d, a' + b);
    } else {
      assert a + b == b;
    }
  }

  lemma TopLevelCons(d: Record, rest: Snapshot)
    ensures TopLevel([d] + rest) == (if |Split(d.name)| == 2 then [d] else []) + TopLevel(rest)
  {
    assert ([d] + rest)[0] == d && ([d] + rest)[1..] == rest;
  }

  /** One iteration: an existing root is rewritten only when it is the first
      one whose last segment is `d`'s, and then it is updated with `d`; every
      other root, a later one with the same last segment included, is
      unchanged; a root is appended exactly when no existing root has `d`'s
      last segment. */
  lemma RootStepEffect(roots: seq<Node>, names: seq<string>, d: Record, msg: Snapshot)
    requires NiceNamesPrefix(roots, names)
    ensures var r := RootStep(roots, names, d, msg);
            var nice := NiceName(d.name);
            && |r| == |roots| + (if nice in names then 0 else 1)
            && (nice !in names ==> r[|roots|] == Update(Leaf(d), d, msg))
            && (nice in names ==> r[IndexOf(names, nice)] == Update(roots[IndexOf(names, nice)], d, msg))
            && (forall j :: 0 <= j < |roots| && !(nice in names && j == IndexOf(names, nice)) ==> r[j] == roots[j])
  {
  }

  /** One turn of update_tree's loop, on values: RootStep keeps the
      pre-loop last segments, and the loop over `cands[k..]` is RootStep
      followed by the loop over `cands[k + 1..]`. */
  lemma ReconcileRootsUnroll(roots: seq<Node>, names: seq<string>, cands: seq<Record>, k: nat, msg: Snapshot)
    requires NiceNamesPrefix(roots, names) && k < |cands|
    ensures NiceNamesPrefix(RootStep(roots, names, cands[k], msg), names)
    ensures ReconcileRoots(roots, names, cands[k..], msg)
         == ReconcileRoots(RootStep(roots, names, cands[k], msg), names, cands[k + 1..], msg)
  {
    assert cands[k..][0] == cands[k] && cands[k..][1..] == cands[k + 1..];
  }

  lemma {:induction false} ReconcileRootsKeepsTail(roots: seq<Node>, names: seq<string>, cands: seq<Record>,
                                                   msg: Snapshot, j: nat)
    requires NiceNamesPrefix(roots, names)
    requires |names| <= j < |roots|
    ensures ReconcileRoots(roots, names, cands, msg)[j] == roots[j]
    decreases |cands|
  {
    if cands != [] {
      RootStepEffect(roots, names, cands[0], msg);
      ReconcileRootsKeepsTail(RootStep(roots, names, cands[0], msg), names, cands[1..], msg, j);
    }
  }

  /** New roots are appended, in snapshot order, exactly for the candidates
      whose last segment no existing root has, each a fresh node updated with
      its record; nothing else is added. */
  lemma {:induction false} ReconcileRootsAppendsNew(roots: seq<Node>, names: seq<string>, cands: seq<Record>,
                                                    msg: Snapshot)
    requires NiceNamesPrefix(roots, names)
    ensures EndsWithSpawned(ReconcileRoots(roots, names, cands, msg), |roots|, NewRoots(names, cands), msg)
    decreases |cands|
  {
    if cands != [] {
      var d := cands[0];
      RootStepEffect(roots, names, d, msg);
      var roots' := RootStep(roots, names, d, msg);
      ReconcileRootsAppendsNew(roots', names, cands[1..], msg);
      if NiceName(d.name) !in names {
        ReconcileRootsKeepsTail(roots', names, cands[1..], msg, |roots|);
        SpawnedStep(ReconcileRoots(roots', names, cands[1..], msg), roots, d, NewRoots(names, cands[1..]), msg);
      }
    }
  }

  /** A root whose last segment no candidate has keeps its whole subtree. */
  lemma {:induction false} ReconcileRootsKeepsUnnamed(roots: seq<Node>, names: seq<string>, cands: seq<Record>,
                                                      msg: Snapshot, j: nat)
    requires NiceNamesPrefix(roots, names)
    requires j < |roots|
    requires forall d :: d in cands ==> NiceName(d.name) != NiceName(roots[j].name)
    ensures ReconcileRoots(roots, names, cands, msg)[j] == roots[j]
    decreases |cands|
  {
    if cands != [] {
      assert cands[0] in cands;
      assert forall d :: d in cands[1..] ==> d in cands;
      RootStepEffect(roots, names, cands[0], msg);
      ReconcileRootsKeepsUnnamed(RootStep(roots, names, cands[0], msg), names, cands[1..], msg, j);
    }
  }

  /** A candidate whose last segment is unique among the candidates and is
      an existing root's updates the first root with that last segment, even
      when the root's full name differs from the candidate's. */
  lemma {:induction false} ReconcileRootsUpdatesMatch(roots: seq<Node>, names: seq<string>, cands: seq<Record>,
                                                      msg: Snapshot, i: nat)
    requires NiceNamesPrefix(roots, names)
    requires i < |cands| && NiceName(cands[i].name) in names
    requires forall k :: 0 <= k < |cands| && k != i ==> NiceName(cands[k].name) != NiceName(cands[i].name)
    ensures var j := IndexOf(names, NiceName(cands[i].name));
            ReconcileRoots(roots, names, cands, msg)[j] == Update(roots[j], cands[i], msg)
    decreases |cands|
  {
    var j := IndexOf(names, NiceName(cands[i].name));
    RootStepEffect(roots, names, cands[0], msg);
    var roots' := RootStep(roots, names, cands[0], msg);
    if i == 0 {
      forall d' | d' in cands[1..] ensures NiceName(d'.name) != NiceName(roots'[j].name) {
        var k :| 0 <= k < |cands[1..]| && cands[1..][k] == d';
        assert cands[k + 1] == d';
      }
      ReconcileRootsKeepsUnnamed(roots', names, cands[1..], msg, j);
    } else {
      ReconcileRootsUpdatesMatch(roots', names, cands[1..], msg, i - 1);
    }
  }

  /** A root whose last segment an earlier root has is never matched
      (index() finds the earlier one), so the loop leaves it as it was. */
  lemma {:induction false} ReconcileRootsKeepsShadowed(roots: seq<Node>, names: seq<string>, cands: seq<Record>,
                                                       msg: Snapshot, j: nat)
    requires NiceNamesPrefix(roots, names)
    requires j < |names| && IndexOf(names, names[j]) < j
    ensures ReconcileRoots(roots, names, cands, msg)[j] == roots[j]
    decreases |cands|
  {
    if cands != [] {
      RootStepEffect(roots, names, cands[0], msg);
      ReconcileRootsKeepsShadowed(RootStep(roots, names, cands[0], msg), names, cands[1..], msg, j);
    }
  }

  /** The first root with each last segment is updated with every candidate
      of that last segment, in snapshot order, whatever their full names,
      and nothing else happens to it. */
  lemma {:induction false} ReconcileRootsUpdatesMatching(roots: seq<Node>, names: seq<string>, cands: seq<Record>,
                                                         msg: Snapshot, j: nat)
    requires NiceNamesPrefix(roots, names)
    requires j < |names| && IndexOf(names, names[j]) == j
    ensures ReconcileRoots(roots, names, cands, msg)[j] == UpdateAll(roots[j], Matching(cands, names[j]), msg)
    decreases |cands|
  {
    if cands != [] {
      var d := cands[0];
      RootStepEffect(roots, names, d, msg);
      var roots' := RootStep(roots, names, d, msg);
      ReconcileRootsUpdatesMatching(roots', names, cands[1..], msg, j);
      if NiceName(d.name) == names[j] {
        assert roots'[j] == Update(roots[j], d, msg);
        assert Matching(cands, names[j]) == [d] + Matching(cands[1..], names[j]);
        assert ([d] + Matching(cands[1..], names[j]))[1..] == Matching(cands[1..], names[j]);
      } else {
        assert roots'[j] == roots[j];
      }
    }
  }

  lemma {:induction false} ReconcileRootsGrows(roots: seq<Node>, names: seq<string>, cands: seq<Record>, msg: Snapshot)
    requires NiceNamesPrefix(roots, names)
    ensures Covers(roots, ReconcileRoots(roots, names, cands, msg))
    decreases |cands|
  {
    if cands != [] {
      var d := cands[0];
      RootStepEffect(roots, names, d, msg);
      if NiceName(d.name) in names {
        UpdateGrows(roots[IndexOf(names, NiceName(d.name))], d, msg);
      }
      ReconcileRootsGrows(RootStep(roots, names, d, msg), names, cands[1..], msg);
    }
  }

  // ---------------------------------------------------------------------
  // update_tree, stated on the forest

  /** After update_tree(msg): the old roots are still the first roots, in
      order, each with its name; the roots it added are exactly the records
      of `msg` whose name has one separator and whose last segment no old
      root has, in snapshot order, each a fresh node updated with its record;
      and no name ever leaves the forest. */
  lemma UpdateTreeRoots(roots: seq<Node>, msg: Snapshot)
    ensures var r := UpdateTree(roots, msg);
            var added := NewRoots(NiceNames(roots), TopLevel(msg));
            && EndsWithSpawned(r, |roots|, added, msg)
            && (forall j :: 0 <= j < |roots| ==> r[j].name == roots[j].name)
            && (forall d :: d in added <==>
                  d in msg && SepCount(d.name) == 1 && NiceName(d.name) !in NiceNames(roots))
            && AllNamesOf(roots) <= AllNamesOf(r)
  {
    var names := NiceNames(roots);
    ReconcileRootsAppendsNew(roots, names, TopLevel(msg), msg);
    TopLevelOneSeparator(msg);
    ReconcileRootsGrows(roots, names, TopLevel(msg), msg);
    CoversNames(roots, UpdateTree(roots, msg));
  }

  /** update_tree on roots: a root whose last segment an earlier root
      has is never updated again, and the first root with a last segment
      is updated with every root candidate of that last segment. */
  lemma UpdateTreeMatchesByLastSegment(roots: seq<Node>, msg: Snapshot, i: nat, j: nat)
    requires i < j < |roots| && NiceName(roots[i].name) == NiceName(roots[j].name)
    ensures UpdateTree(roots, msg)[j] == roots[j]
    ensures var f := IndexOf(NiceNames(roots), NiceName(roots[j].name));
            f <= i && UpdateTree(roots, msg)[f] == UpdateAll(roots[f], Matching(TopLevel(msg), NiceName(roots[j].name)), msg)
  {
    var names := NiceNames(roots);
    var f := IndexOf(names, names[j]);
    assert names[i] == names[j];
    ReconcileRootsKeepsShadowed(roots, names, TopLevel(msg), msg, j);
    assert IndexOf(names, names[f]) == f;
    ReconcileRootsUpdatesMatching(roots, names, TopLevel(msg), msg, f);
  }

  /** Two roots can share a last segment although no two records share a
      name: one cycle on "/b" and "x/b" makes a root of each. */
  lemma TwoRootsShareLastSegment()
    ensures var msg := [Record("/b", OK, "", "", []), Record("x/b", OK, "", "", [])];
            var r := UpdateTree([], msg);
            |r| == 2 && r[0].name == "/b" && r[1].name == "x/b"
            && NiceName(r[0].name) == NiceName(r[1].name) == "b"
  {
    var d0, d1 := Record("/b", OK, "", "", []), Record("x/b", OK, "", "", []);
    var msg := [d0, d1];
    assert "/b" == "" + [Sep] + "b" && "x/b" == "x" + [Sep] + "b";
    SplitPrefix("", "b");
    SplitPrefix("x", "b");
    SplitNoSep("b");
    assert TopLevel(msg) == msg by {
      assert msg[1..] == [d1] && [d1][1..] == [];
    }
    assert NewRoots([], msg) == msg by {
      assert msg[1..] == [d1] && [d1][1..] == [];
    }
    assert NiceNames([]) == [];
    ReconcileRootsAppendsNew([], [], msg, msg);
  }

  /** Replaying a snapshot is not idempotent once two roots share a last
      segment: the first cycle on "/b" then "x/b" leaves the root "/b" with
      its own record, and a second cycle on the same snapshot gives the root
      "/b" the record of "x/b", which is the last one matching "b". */
  lemma ReplayNotIdempotent()
    ensures var d0, d1 := Record("/b", OK, "", "", []), Record("x/b", WARN, "m", "", []);
            var msg := [d0, d1];
            var r1 := UpdateTree([], msg);
            var r2 := UpdateTree(r1, msg);
            && |r1| == 2 == |r2|
            && r1[0].name == r2[0].name == "/b" && r1[1].name == r2[1].name == "x/b"
            && r1[0].status == d0 && r2[0].status == d1 && r2[1] == r1[1]
            && r2 != r1
  {
    var d0, d1 := Record("/b", OK, "", "", []), Record("x/b", WARN, "m", "", []);
    var msg := [d0, d1];
    assert "/b" == "" + [Sep] + "b" && "x/b" == "x" + [Sep] + "b";
    SplitPrefix("", "b");
    SplitPrefix("x", "b");
    SplitNoSep("b");
    assert TopLevel(msg) == msg by {
      assert msg[1..] == [d1] && [d1][1..] == [];
    }
    assert NewRoots([], msg) == msg by {
      assert msg[1..] == [d1] && [d1][1..] == [];
    }
    assert NiceNames([]) == [];
    ReconcileRootsAppendsNew([], [], msg, msg);
    var r1 := UpdateTree([], msg);
    assert r1[0] == Update(Leaf(d0), d0, msg) && r1[1] == Update(Leaf(d1), d1, msg);
    UpdateTreeRoots(r1, msg);
    UpdateTreeMatchesByLastSegment(r1, msg, 0, 1);
    assert Matching(msg, "b") == msg by {
      assert msg[1..] == [d1] && [d1][1..] == [];
    }
  }
}
