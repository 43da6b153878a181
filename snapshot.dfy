/** Document states as the host plugin exchanges them, and the JSON diff/patch library
    the history engine stores them with. The library's own algorithm is not modelled:
    it is a pair of function values handed to whoever needs it. */
module Snapshot {

  datatype Option<T> = None | Some(value: T)

  /** A full document state, as the host reports it; never inspected. */
  type State(!new)

  /** One operation of a JSON patch; never inspected. */
  type Op

  /** A state slot as the source holds it, `object | null`. */
  datatype Value = Null | Doc(state: State)

  /** A diff is a list of patch operations; `[]` is the empty diff of a fresh event. */
  type Diff = seq<Op>

  /** The diff library: `diff(a, b)` always succeeds, `patch(d, a)` is None where the
      library throws because `d` does not apply to `a`. */
  datatype DiffLib = DiffLib(diff: (Value, Value) -> Diff, patch: (Diff, Value) -> Option<Value>)

  /** The library's contract: patching `a` with `diff(a, b)` yields `b`. */
  ghost predicate RoundTrips(lib: DiffLib) {
    forall a, b :: lib.patch(lib.diff(a, b), a) == Some(b)
  }

  /** The library's contract for the empty diff: it applies to anything and changes nothing. */
  ghost predicate EmptyIsIdentity(lib: DiffLib) {
    forall a :: lib.patch([], a) == Some(a)
  }

  /** One replay step: apply `d` if it applies, otherwise keep the state as it is. */
  function Apply(lib: DiffLib, s: Value, d: Diff): (r: Value)
    ensures lib.patch(d, s).Some? ==> r == lib.patch(d, s).value
    ensures lib.patch(d, s).None? ==> r == s
  {
    match lib.patch(d, s)
    case Some(t) => t
    case None => s
  }

  /** The state reached from `s` by applying `ds` in order, skipping every diff that
      does not apply to the state reached so far. */
  function Replay(lib: DiffLib, s: Value, ds: seq<Diff>): Value
    decreases |ds|
  {
    if ds == [] then s else Apply(lib, Replay(lib, s, ds[..|ds| - 1]), ds[|ds| - 1])
  }

  /** Replaying the diffs recorded between consecutive states `ss` reconstructs the
      last of them, whatever the states are. */
  lemma {:induction false} ReplayRecorded(lib: DiffLib, ss: seq<Value>, ds: seq<Diff>)
    requires RoundTrips(lib)
    requires |ss| == |ds| + 1
    requires forall k :: 0 <= k < |ds| ==> ds[k] == lib.diff(ss[k], ss[k + 1])
    ensures Replay(lib, ss[0], ds) == ss[|ds|]
  {
    if ds != [] {
      ReplayRecorded(lib, ss[..|ss| - 1], ds[..|ds| - 1]);
    }
  }

  /** Events that still carry the empty diff leave the replayed state unchanged. */
  lemma {:induction false} ReplayEmptyDiffs(lib: DiffLib, s: Value, ds: seq<Diff>)
    requires EmptyIsIdentity(lib)
    requires forall k :: 0 <= k < |ds| ==> ds[k] == []
    ensures Replay(lib, s, ds) == s
  {
    if ds != [] {
      ReplayEmptyDiffs(lib, s, ds[..|ds| - 1]);
    }
  }
}
