/**
  The `ElementInfo` record that `info_members_recursive` produces, and the
  properties of lists of records that the walk is proved to keep.
*/
module Records {

  import opened PyStrings

  /** `ElementInfo(path, etype, dtype, shape)`; `shape` holds the table's info column. */
  datatype ElementInfo = ElementInfo(path: string, etype: string, dtype: string, shape: string)

  function Max1(d: int): int {
    if d > 1 then d else 1
  }

  /** No record path in `rs` has more than `max(d, 1)` segments. */
  ghost predicate Within(rs: seq<ElementInfo>, d: int) {
    forall x :: x in rs ==> |SplitAll(x.path, '/')| <= Max1(d)
  }

  /** The record of a direct sub-group: its type is `Group` and its path is one segment. */
  predicate IsDirectGroup(x: ElementInfo) {
    x.etype == "Group" && '/' !in x.path
  }

  ghost predicate DistinctPaths(rs: seq<ElementInfo>) {
    forall i, j :: 0 <= i < j < |rs| ==> rs[i].path != rs[j].path
  }

  /** No record of `a` has the path of a record of `b`. */
  ghost predicate PathsApart(a: seq<ElementInfo>, b: seq<ElementInfo>) {
    forall x, y :: x in a && y in b ==> x.path != y.path
  }

  lemma DistinctAppend(a: seq<ElementInfo>, b: seq<ElementInfo>)
    requires DistinctPaths(a) && DistinctPaths(b) && PathsApart(a, b)
    ensures DistinctPaths(a + b)
  {
    forall i, j | 0 <= i < j < |a + b|
      ensures (a + b)[i].path != (a + b)[j].path
    {
      if j < |a| {
      } else if i < |a| {
        assert (a + b)[i] in a && (a + b)[j] in b;
      }
    }
  }

  /** Every path in `rs` starts with the segment `k`. */
  ghost predicate AllStartWith(rs: seq<ElementInfo>, k: string) {
    forall x :: x in rs ==> SplitAll(x.path, '/')[0] == k
  }
}
