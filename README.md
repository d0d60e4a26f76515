# robot_monitor, modelled and verified in Dafny

`robot_monitor.py` is a ROS/Qt panel that watches a diagnostics topic. Every
message is a flat snapshot of status records whose names are `/`-separated
paths. For each snapshot the panel:

- reconciles a persistent tree of `StatusItem` nodes, one per component, with
  the snapshot. A child is matched by its full name, a root by the last
  segment of its name only. Matched nodes are updated in place. New nodes are
  appended and no node is ever removed, so per-node state survives across
  cycles (an open inspector, for example).
- rebuilds two transient lists, "Warnings" and "Errors", with one
  `"name : message"` line per WARN or ERROR record.

The model has six modules:

- `Diagnostics`: the record and snapshot values.
- `Paths`: Python's `split('/')`, `'/'.join`, `strip()`, `startswith` and
  `replace(pat, '')` on strings, and the helpers `get_nice_name`,
  `remove_parent_name` and `get_parent_name` built from them.
- `Tree`: the value of a `StatusItem` subtree (`Node`) and
  `StatusItem.update` as a recursive function on it, with the lemmas stating
  what update does to a node's child list.
- `Forest`: `RobotMonitor._top_level` and `update_tree` as functions on the
  values of the roots, with their lemmas.
- `Severity`: the warning and error lines a snapshot produces.
- `Monitor`: the classes. `Inspector` stands for the inspector window.
  `StatusItem` keeps its child list in place. `RobotMonitor` owns the roots,
  the two lists and the subscription flag.
  - Each `StatusItem` keeps a ghost `model: Node` that equals the value of
    its fields. Each method is proved to move that model exactly as the
    functions of `Tree` and `Forest` say.
  - The methods also state identity: old children and roots stay at their
    positions, as the same objects, and new ones are appended as fresh
    objects.

The recursion of `update` terminates because every descendant's name is
strictly longer than its parent's. No name in a snapshot is longer than
`Diagnostics.MaxNameLength` of it. The measure is that bound minus the length
of the node's name.

`cb` (lines 187-190) runs `clear`, then `update_tree`, then `update_we`, and
the model does the same. The tree and the lists share no state, so the order
of the last two does not matter.

A diagnostics snapshot normally has no two records with the same name. The
model does not assume this. Distinct names can still share a last segment
(`/b` and `x/b`), and then two roots share it
(`Forest.TwoRootsShareLastSegment`). Matching is proved for every case:

- The first child of a name is updated with every descendant of that name,
  in snapshot order (`Tree.ReconcileUpdatesNamed`).
- The first root with a last segment is updated with every candidate of that
  segment, in snapshot order (`Forest.ReconcileRootsUpdatesMatching`).
- A later child or root with the same name or segment is never matched again
  (`Tree.ReconcileKeepsShadowed`, `Forest.ReconcileRootsKeepsShadowed`,
  `Forest.UpdateTreeMatchesByLastSegment`).
- `Tree.ReconcileUpdatesMatch` and `Forest.ReconcileRootsUpdatesMatch` state
  the common case of one matching record directly.

As a consequence, handling the same snapshot twice is not idempotent once
two roots share a last segment. The first cycle on `/b` (OK) then `x/b`
(WARN) leaves root `/b` holding its own record. The second cycle on the same
snapshot matches both records against root `/b`, so it ends holding the WARN
record of `x/b` (`Forest.ReplayNotIdempotent`).

## Model

| member | source | states |
|---|---|---|
| Paths.NiceName | src/robot_monitor/robot_monitor.py:8-9 | get_nice_name is the last piece of split('/'); what that means is stated by Paths.NiceNameIsLastSegment: no `/`, a suffix of the name, shorter exactly when the name has a `/` |
| Paths.RemoveParentName | src/robot_monitor/robot_monitor.py:11-12 | remove_parent_name drops the first two pieces and strips the rest; Paths.RemoveParentNameSegments states that the name is those two pieces, two `/`, and that rest |
| Paths.ParentName | src/robot_monitor/robot_monitor.py:14-15 | get_parent_name is every piece but the last, re-joined and stripped; Paths.ParentNiceRoundTrip states it puts the name back together with get_nice_name, and Paths.ParentNiceRoundTripNeedsInnerCondition where it does not |
| Paths.NiceNameIsLastSegment | src/robot_monitor/robot_monitor.py:8-9 | get_nice_name(n) has no `/`, is a suffix of `n`, is shorter than `n` exactly when `n` has a `/`, and is then preceded by a `/` |
| Paths.RemoveParentNameSegments | src/robot_monitor/robot_monitor.py:11-12 | with at most two pieces remove_parent_name gives ""; otherwise `n` is piece 0, `/`, piece 1, `/`, and the rest re-joined, and the result is that rest stripped |
| Paths.ParentNiceRoundTrip | src/robot_monitor/robot_monitor.py:8-15 | for a name with a `/` whose part before the last `/` has no surrounding whitespace, get_parent_name(n) + "/" + get_nice_name(n) == n |
| Paths.ParentNiceRoundTripNeedsInnerCondition | src/robot_monitor/robot_monitor.py:14-15 | the round trip fails for "/a /b", a name with no surrounding whitespace, because strip() eats the space before its last `/` |
| Paths.StripIsTrimmedSlice | src/robot_monitor/robot_monitor.py:12 | strip() returns a slice s[i..j] with only whitespace before `i` and from `j` on, and non-whitespace at both ends of a non-empty result |
| Paths.SplitCount | src/robot_monitor/robot_monitor.py:215 | a name splits into one more piece than it has separators |
| Paths.JoinSplit | src/robot_monitor/robot_monitor.py:12 | joining the pieces of split('/') gives the name back |
| Paths.SplitJoin | src/robot_monitor/robot_monitor.py:15 | splitting a join of `/`-free pieces gives the pieces back |
| Paths.SplitPiecesHaveNoSep | src/robot_monitor/robot_monitor.py:9 | no piece of split('/') holds a `/` |
| Paths.RemoveAllAbsent | src/robot_monitor/robot_monitor.py:67-68 | str.replace(pat, '') leaves a string without `pat` unchanged |
| Tree.StripChild | src/robot_monitor/robot_monitor.py:67-68 | strip_child deletes every occurrence of the parent's name; Tree.StripChildOfDescendant states the result for a descendant, Tree.RecurringParentName and Tree.PrefixWithoutBoundary the cases where that is not the relative name |
| Tree.IsImmediate | src/robot_monitor/robot_monitor.py:54 | the creation test, at most two pieces after strip_child; Tree.StripChildOfDescendant states it holds exactly when the relative name has at most one `/` |
| Tree.Step | src/robot_monitor/robot_monitor.py:50-58 | one iteration keeps every old child at its position under its name; Tree.StepEffect states its whole effect |
| Tree.Reconcile | src/robot_monitor/robot_monitor.py:49-58 | the loop keeps every old child at its position under its name; Tree.ReconcileUpdatesNamed, Tree.ReconcileKeepsShadowed, Tree.ReconcileKeepsUnnamed and Tree.ReconcileAppendsSpawned state its whole effect |
| Tree.Children | src/robot_monitor/robot_monitor.py:28-36 | get_children returns exactly the records whose name starts with the node's name and differs from it; each is strictly longer than the node's name |
| Tree.ChildrenAppend | src/robot_monitor/robot_monitor.py:28-36 | get_children keeps snapshot order: it distributes over concatenation of snapshots |
| Tree.Forward | src/robot_monitor/robot_monitor.py:41-42 | the record is forwarded exactly when an inspector is attached and is then appended to what it has shown |
| Tree.IndexOf | src/robot_monitor/robot_monitor.py:52 | `names.index(name)` is the first position holding the name |
| Tree.Update | src/robot_monitor/robot_monitor.py:38-59 | update keeps `name` and `level`, binds `status`, forwards to the inspector exactly when there is one, and keeps every old child at its position under its name |
| Tree.Spawned | src/robot_monitor/robot_monitor.py:49-58 | the descendants that create a child are exactly those named like no pre-loop child whose stripped name has at most two pieces |
| Tree.StepEffect | src/robot_monitor/robot_monitor.py:49-58 | one iteration updates only the first child named like the descendant, or appends one fresh updated child exactly when no child is named like it and it is immediate; every other child, a later one of the same name included, is unchanged |
| Tree.ReconcileKeepsTail | src/robot_monitor/robot_monitor.py:46-58 | children created during the loop are never matched again, because `names` is taken before the loop |
| Tree.ReconcileAppendsSpawned | src/robot_monitor/robot_monitor.py:46-58 | the loop appends, in snapshot order, one fresh child updated with its record for each spawned descendant, and nothing else |
| Tree.ReconcileKeepsUnnamed | src/robot_monitor/robot_monitor.py:49-58 | a child that no descendant names keeps its whole subtree: nothing is removed or reset |
| Tree.ReconcileUpdatesMatch | src/robot_monitor/robot_monitor.py:51-53 | a descendant with a unique name that matches a child updates the first child of that name with its record |
| Tree.ReconcileUpdatesNamed | src/robot_monitor/robot_monitor.py:46-53 | the first child of each name ends updated with every descendant of that name, in snapshot order, and with nothing else |
| Tree.ReconcileKeepsShadowed | src/robot_monitor/robot_monitor.py:46-53 | a child named like an earlier child is never matched, because `index` finds the earlier one, so the loop leaves it as it was |
| Tree.StripChildOfDescendant | src/robot_monitor/robot_monitor.py:54-68 | for a descendant `parent + rest` whose `rest` does not contain the parent's name, strip_child gives `rest`, and a child is created exactly when `rest` has at most one `/` |
| Tree.UpdateGrows | src/robot_monitor/robot_monitor.py:38-59 | update never loses a name anywhere in the subtree |
| Tree.UpdateChildList | src/robot_monitor/robot_monitor.py:38-59 | after update the node holds the record, keeps its old children first, and gains exactly the spawned descendants, in snapshot order |
| Tree.Click | src/robot_monitor/robot_monitor.py:61-65 | on_click attaches an inspector showing the current status when none is attached and otherwise changes nothing; nothing else about the node changes |
| Tree.PrefixWithoutBoundary | src/robot_monitor/robot_monitor.py:32-54 | a node "/a" treats "/ab/x" as a descendant, strips it to "b/x", and would create a child for it (no `/` boundary) |
| Tree.RecurringParentName | src/robot_monitor/robot_monitor.py:54-68 | strip_child removes every occurrence of the parent's name: under "/a", "/a/b/a" strips to "/b" and passes the creation test, so a record two levels down would become a direct child |
| Tree.RepeatedNameSpawnsTwice | src/robot_monitor/robot_monitor.py:46-58 | a new immediate descendant listed twice creates two children, both updated with it |
| Forest.TopLevel | src/robot_monitor/robot_monitor.py:212-218 | _top_level returns exactly the records whose name splits into two pieces |
| Forest.TopLevelOneSeparator | src/robot_monitor/robot_monitor.py:215 | a root candidate is exactly a record whose name holds one `/` |
| Forest.TopLevelAppend | src/robot_monitor/robot_monitor.py:212-218 | _top_level keeps snapshot order: it distributes over concatenation |
| Forest.RootStep | src/robot_monitor/robot_monitor.py:201-208 | one iteration keeps every old root at its position under its name; Forest.RootStepEffect states its whole effect |
| Forest.ReconcileRoots | src/robot_monitor/robot_monitor.py:198-208 | the loop keeps every old root at its position under its name; Forest.ReconcileRootsUpdatesMatching, Forest.ReconcileRootsKeepsShadowed, Forest.ReconcileRootsKeepsUnnamed and Forest.ReconcileRootsAppendsNew state its whole effect |
| Forest.UpdateTree | src/robot_monitor/robot_monitor.py:195-210 | update_tree on the roots' values; Forest.UpdateTreeRoots states which roots it appends and Forest.UpdateTreeMatchesByLastSegment which it updates |
| Forest.NewRoots | src/robot_monitor/robot_monitor.py:200-208 | the candidates that create a root are exactly those whose last segment no pre-loop root has |
| Forest.RootStepEffect | src/robot_monitor/robot_monitor.py:200-208 | one iteration updates only the first root with the candidate's last segment, or appends one fresh updated root exactly when no root has it; every other root, a later one with the same last segment included, is unchanged |
| Forest.ReconcileRootsKeepsTail | src/robot_monitor/robot_monitor.py:198-208 | roots created during the loop are never matched again, because `names` is taken before the loop |
| Forest.ReconcileRootsAppendsNew | src/robot_monitor/robot_monitor.py:198-208 | the loop appends, in snapshot order, one fresh root per new candidate, and nothing else |
| Forest.ReconcileRootsKeepsUnnamed | src/robot_monitor/robot_monitor.py:198-208 | a root whose last segment no candidate has keeps its whole subtree |
| Forest.ReconcileRootsUpdatesMatch | src/robot_monitor/robot_monitor.py:201-203 | a candidate matches by last segment only: when it is the only candidate with that segment, it updates the first root with that segment, even when full names differ |
| Forest.ReconcileRootsUpdatesMatching | src/robot_monitor/robot_monitor.py:198-203 | the first root with each last segment ends updated with every candidate of that segment, in snapshot order, whatever their full names, and with nothing else |
| Forest.ReconcileRootsKeepsShadowed | src/robot_monitor/robot_monitor.py:198-203 | a root whose last segment an earlier root has is never matched, so the loop leaves it as it was |
| Forest.UpdateTreeMatchesByLastSegment | src/robot_monitor/robot_monitor.py:195-210 | when two roots share a last segment, update_tree never updates the later one again, and updates the first root with that segment with every candidate of that segment |
| Forest.TwoRootsShareLastSegment | src/robot_monitor/robot_monitor.py:195-218 | one cycle on the distinct names "/b" and "x/b" makes a root of each, and the two share the last segment "b" |
| Forest.ReplayNotIdempotent | src/robot_monitor/robot_monitor.py:195-210 | handling the snapshot ["/b" at OK, "x/b" at WARN] twice leaves root "/b" with the WARN record of "x/b", where once left it with its own record, so the two cycles end in different trees |
| Forest.ReconcileRootsGrows | src/robot_monitor/robot_monitor.py:198-208 | the loop never loses a name from any root's subtree |
| Forest.UpdateTreeRoots | src/robot_monitor/robot_monitor.py:195-210 | update_tree keeps the old roots first, appends exactly the one-separator records with an unseen last segment in snapshot order, and loses no name |
| Severity.Line | src/robot_monitor/robot_monitor.py:222-226 | the line of a record is `name + " : " + message`; Severity.BucketIsLinesAtLevel states that the lists hold exactly these lines |
| Severity.Warnings | src/robot_monitor/robot_monitor.py:220-227 | the warning list of a snapshot; Severity.BucketIsLinesAtLevel states it is the WARN records' lines in order, Severity.BucketsSplitRecords that it shares no record with the error list |
| Severity.Errors | src/robot_monitor/robot_monitor.py:220-227 | the error list of a snapshot; Severity.BucketIsLinesAtLevel states it is the ERROR records' lines in order, Severity.BucketsSplitRecords that it shares no record with the warning list |
| Severity.Bucket | src/robot_monitor/robot_monitor.py:220-227 | a bucket holds at most one line per record |
| Severity.AtLevel | src/robot_monitor/robot_monitor.py:222-225 | selects exactly the records at the level |
| Severity.BucketIsLinesAtLevel | src/robot_monitor/robot_monitor.py:220-227 | the warning (error) list is `name + " : " + message` for each WARN (ERROR) record, in snapshot order, and nothing else |
| Severity.BucketAppend | src/robot_monitor/robot_monitor.py:220-227 | bucketing keeps snapshot order: it distributes over concatenation |
| Severity.BucketEmptyWithoutLevel | src/robot_monitor/robot_monitor.py:220-227 | records at other levels contribute nothing |
| Severity.BucketsSplitRecords | src/robot_monitor/robot_monitor.py:220-227 | no record lands in both lists and OK and STALE records in neither |
| Monitor.Inspector.constructor | src/robot_monitor/robot_monitor.py:101-124 | a new inspector has shown its status once |
| Monitor.Inspector.Update | src/robot_monitor/robot_monitor.py:135-147 | the inspector shows one more record |
| Monitor.StatusItem.constructor | src/robot_monitor/robot_monitor.py:18-26 | a new item is valid, owns only fresh objects, has no children and no inspector, and its value is a leaf |
| Monitor.StatusItem.Update | src/robot_monitor/robot_monitor.py:38-59 | the item's value moves as Tree.Update says; its old children stay its first children, as the same objects, and every child it appends is a fresh object; the inspector is the same object and has shown the record |
| Monitor.StatusItem.Bind | src/robot_monitor/robot_monitor.py:39-42 | binds the status and forwards it to the inspector, if any; the children are untouched |
| Monitor.StatusItem.Show | src/robot_monitor/robot_monitor.py:41-42 | forwarding to the inspector changes no child's value |
| Monitor.StatusItem.VisitAll | src/robot_monitor/robot_monitor.py:44-58 | the children's values move as Tree.Reconcile says over the descendants; every child appended is a fresh object; status and inspector are kept |
| Monitor.StatusItem.Walk | src/robot_monitor/robot_monitor.py:49-58 | the loop over the descendants keeps the old children as a prefix, moves their values as Tree.Reconcile says, and appends only children outside the footprint it started with |
| Monitor.StatusItem.Visit | src/robot_monitor/robot_monitor.py:50-58 | one iteration moves the children's values as Tree.Step says; a child it appends lies outside any set the caller already holds |
| Monitor.StatusItem.UpdateChild | src/robot_monitor/robot_monitor.py:51-53 | the matched child is updated in place; the other children's values are unchanged |
| Monitor.StatusItem.AppendChild | src/robot_monitor/robot_monitor.py:54-58 | one fresh child, updated with its record, is appended |
| Monitor.StatusItem.OnClick | src/robot_monitor/robot_monitor.py:61-65 | the value moves as Tree.Click says; a fresh inspector showing the status is attached only when none was, and an existing one is kept as it was |
| Monitor.RobotMonitor.constructor | src/robot_monitor/robot_monitor.py:158-185 | no roots, empty lists, subscribed |
| Monitor.RobotMonitor.Cb | src/robot_monitor/robot_monitor.py:187-190 | after a cycle the lists hold exactly this snapshot's warning and error lines, and the roots have moved as Forest.UpdateTree says, with the added roots appended; each added root and every object the footprint gained is fresh |
| Monitor.RobotMonitor.TreeClicked | src/robot_monitor/robot_monitor.py:192-193 | clicking root `j` moves its value as Tree.Click says and leaves the other roots' values alone |
| Monitor.RobotMonitor.UpdateTree | src/robot_monitor/robot_monitor.py:195-210 | the roots' values move as Forest.UpdateTree says; old roots stay first, as the same objects, and `added` is exactly the suffix appended; each root in `added` and every object the footprint gained is fresh |
| Monitor.RobotMonitor.VisitRoots | src/robot_monitor/robot_monitor.py:200-208 | the loop over the candidates moves the roots' values as Forest.ReconcileRoots says; every object the footprint gained is fresh, and the roots it appends lie outside the footprint it started with |
| Monitor.RobotMonitor.VisitRoot | src/robot_monitor/robot_monitor.py:201-208 | one iteration moves the roots' values as Forest.RootStep says; a root it appends lies outside any set the caller already holds |
| Monitor.RobotMonitor.UpdateRoot | src/robot_monitor/robot_monitor.py:202-203 | the matched root is updated in place; the other roots' values are unchanged |
| Monitor.RobotMonitor.AppendRoot | src/robot_monitor/robot_monitor.py:204-208 | one fresh root, updated with its record, is appended |
| Monitor.RobotMonitor.TopLevel | src/robot_monitor/robot_monitor.py:212-218 | the loop returns Forest.TopLevel of the snapshot |
| Monitor.RobotMonitor.UpdateWe | src/robot_monitor/robot_monitor.py:220-227 | the loop appends the snapshot's warning lines to the warnings and its error lines to the errors |
| Monitor.RobotMonitor.Clear | src/robot_monitor/robot_monitor.py:229-231 | both lists are empty |
| Monitor.RobotMonitor.Close | src/robot_monitor/robot_monitor.py:243-246 | the subscription is dropped, and is unregistered only when it was live |

## Left out

- Qt rendering is not modelled. This covers `setText`, `addChildren`, `addTopLevelItems`, the widgets and their layout. `update_tree`'s `add` list is returned by `Monitor.RobotMonitor.UpdateTree` and `Cb` instead of being handed to a widget.
- The `pyqtSignal`s (`sig_clear`, `sig_warn`, `sig_err`) are modelled as synchronous calls. `disp_warn` and `disp_err` become direct appends to the `warnings` and `errors` lists. Queued delivery across threads is not modelled.
- `InspectorWidget` is reduced to the sequence of records it has been shown. Its text display, `write_kv`, `take_snapshot` and the nested `Snapshot` window are not modelled. `activateWindow` in `on_click` has no effect on the model.
- The ROS plumbing is not modelled: `roslib`/`rospy`, the `Subscriber` and `unregister`. The subscription is a boolean flag, and the topic name is not kept.
- Decoding `DiagnosticArray` messages is not modelled. A record is a value with name, level, message, hardware id and key/value pairs.
- `Monitor.StatusItem.constructor`: it binds the record as `status`. The source sets `status` only in `update`, and every caller does that straight away, so no reachable state differs.
- `Monitor.RobotMonitor.TreeClicked`: modelled for a root item only. Clicking a nested item is `Monitor.StatusItem.OnClick` on that item. Its ancestors' ghost values are not re-established afterwards, so that case is not stated at the level of the monitor.
- `Paths.ParentNiceRoundTrip`: stated only for names whose part before the last `/` has no surrounding whitespace. The weaker condition, no whitespace around the whole name, is not enough: `Paths.ParentNiceRoundTripNeedsInnerCondition` shows an input where the round trip fails.
- `Paths.IsSpace` is the whitespace set of Python 2 `str.strip()` on byte strings: space, tab, newline, carriage return, vertical tab and form feed. Unicode whitespace is not modelled.
