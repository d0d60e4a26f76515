/** The status records a snapshot carries (one `DiagnosticStatus` each), as
    plain values. */
module Diagnostics {

  datatype Option<T> = None | Some(value: T)

  /** Severity of a record: OK, WARN, ERROR or STALE. */
  datatype Level = OK | WARN | ERROR | STALE

  datatype KeyValue = KeyValue(key: string, value: string)

  datatype Record = Record(
    name: string,
    level: Level,
    message: string,
    hardwareId: string,
    values: seq<KeyValue>)

  /** One delivered message: its records in the order they arrived. */
  type Snapshot = seq<Record>

  /** The longest name in a snapshot; every name's length is at most this. */
  function MaxNameLength(msg: Snapshot): (b: nat)
    ensures forall r :: r in msg ==> |r.name| <= b
    ensures msg != [] ==> exists r :: r in msg && |r.name| == b
  {
    if msg == [] then 0
    else
      var rest := MaxNameLength(msg[1..]);
      assert forall r :: r in msg ==> r == msg[0] || r in msg[1..];
      if |msg[0].name| >= rest then |msg[0].name| else rest
  }
}
