/** The severity pass of RobotMonitor.update_we: the lines a snapshot puts
    into the warning list and the error list. */
module Severity {
  import opened Diagnostics

  /** `"%s : %s" % (name, message)` */
  function Line(r: Record): string {
    r.name + " : " + r.message
  }

  /** The lines of the records of `msg` at level `lvl`, in snapshot order.
      It peels the last record so that a loop over `msg` extends it one
      record at a time. */
  function Bucket(msg: Snapshot, lvl: Level): (r: seq<string>)
    ensures |r| <= |msg|
  {
    if msg == [] then []
    else
      var init := Bucket(msg[..|msg| - 1], lvl);
      var last := msg[|msg| - 1];
      if last.level == lvl then init + [Line(last)] else init
  }

  /** The warning list a snapshot produces. */
  function Warnings(msg: Snapshot): seq<string> {
    Bucket(msg, WARN)
  }

  /** The error list a snapshot produces. */
  function Errors(msg: Snapshot): seq<string> {
    Bucket(msg, ERROR)
  }

  /** The records of `msg` at level `lvl`, in snapshot order. */
  function AtLevel(msg: Snapshot, lvl: Level): (r: Snapshot)
    ensures forall d :: d in r <==> d in msg && d.level == lvl
  {
    if msg == [] then []
    else
      var init := AtLevel(msg[..|msg| - 1], lvl);
      var last := msg[|msg| - 1];
      assert msg == msg[..|msg| - 1] + [last];
      assert forall d :: d in msg <==> d in msg[..|msg| - 1] || d == last;
      if last.level == lvl then init + [last] else init
  }

  // ---------------------------------------------------------------------

  /** A bucket is the line of every record at its level, in snapshot order,
      and nothing else. */
  lemma {:induction false} BucketIsLinesAtLevel(msg: Snapshot, lvl: Level)
    ensures |Bucket(msg, lvl)| == |AtLevel(msg, lvl)|
    ensures forall k :: 0 <= k < |AtLevel(msg, lvl)| ==> Bucket(msg, lvl)[k] == Line(AtLevel(msg, lvl)[k])
  {
    if msg != [] {
      BucketIsLinesAtLevel(msg[..|msg| - 1], lvl);
    }
  }

  /** Bucketing keeps snapshot order: it distributes over concatenation. */
  lemma {:induction false} BucketAppend(a: Snapshot, b: Snapshot, lvl: Level)
    ensures Bucket(a + b, lvl) == Bucket(a, lvl) + Bucket(b, lvl)
    decreases |b|
  {
    if b == [] {
      assert a + b == a;
    } else {
      var b', last := b[..|b| - 1], b[|b| - 1];
      var ab := a + b;
      assert ab[..|ab| - 1] == a + b' && ab[|ab| - 1] == last;
      BucketAppend(a, b', lvl);
      var x, y := Bucket(a, lvl), Bucket(b', lvl);
      assert Bucket(ab, lvl) == x + y + (if last.level == lvl then [Line(last)] else []);
      assert Bucket(b, lvl) == y + (if last.level == lvl then [Line(last)] else []);
    }
  }

  /** A record at any level other than `lvl` contributes nothing to its
      bucket: a snapshot without such records leaves the bucket empty. */
  lemma {:induction false} BucketEmptyWithoutLevel(msg: Snapshot, lvl: Level)
    requires forall d :: d in msg ==> d.level != lvl
    ensures Bucket(msg, lvl) == []
  {
    if msg != [] {
      assert forall d :: d in msg[..|msg| - 1] ==> d in msg;
      assert msg[|msg| - 1] in msg;
      BucketEmptyWithoutLevel(msg[..|msg| - 1], lvl);
    }
  }

  /** No record lands in both lists, and OK and STALE records in neither:
      together the two lists hold one line per record at WARN or ERROR. */
  lemma {:induction false} BucketsSplitRecords(msg: Snapshot)
    ensures |Warnings(msg)| + |Errors(msg)| == |msg| - |AtLevel(msg, OK)| - |AtLevel(msg, STALE)|
  {
    if msg != [] {
      BucketsSplitRecords(msg[..|msg| - 1]);
    }
  }
}
