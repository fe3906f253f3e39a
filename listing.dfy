/**
  `list_members_recursive` and `list_members_recursive_tablesOnly`: the
  unbounded listing of leaf paths below a group.
*/
module Listing {

  import opened Wrappers
  import opened PyStrings
  import opened H5Tree

  /** `[k + '/' + x for x in xs]`. */
  function PrefixAll(k: string, xs: seq<string>): (r: seq<string>)
    ensures |r| == |xs| && forall j :: 0 <= j < |xs| ==> r[j] == k + "/" + xs[j]
  {
    seq(|xs|, j requires 0 <= j < |xs| => k + "/" + xs[j])
  }

  /** What `list_members_recursive(g)` returns. */
  function ListMembers(g: Node): seq<string>
    requires g.Group?
    decreases g, |g.children|, 2
  {
    ListChildren(g, |g.children|)
  }

  /** The paths listed for the first `n` members of `g`. */
  function ListChildren(g: Node, n: nat): seq<string>
    requires g.Group? && n <= |g.children|
    decreases g, n, 1
  {
    if n == 0 then [] else ListChildren(g, n - 1) + ListChild(g, n - 1)
  }

  /** The paths member `i` contributes: a sub-group its listing under its name, anything else its name. */
  function ListChild(g: Node, i: nat): seq<string>
    requires g.Group? && i < |g.children|
    decreases g, i, 0
  {
    var k := g.children[i].0;
    var c := g.children[i].1;
    if c.Group? then PrefixAll(k, ListMembers(c)) else [k]
  }

  /** `list_members_recursive`, loop for loop. */
  method ListMembersRecursive(rootGroup: Node) returns (output: seq<string>)
    requires rootGroup.Group?
    ensures output == ListMembers(rootGroup)
    decreases rootGroup
  {
    output := [];
    var i := 0;
    while i < |rootGroup.children|
      invariant 0 <= i <= |rootGroup.children|
      invariant output == ListChildren(rootGroup, i)
    {
      var k := rootGroup.children[i].0;
      var c := rootGroup.children[i].1;
      if c.Group? {
        var sub := ListMembersRecursive(c);
        ListGroupStep(rootGroup, i, sub);
        output := output + PrefixAll(k, sub);
      } else {
        ListLeafStep(rootGroup, i);
        output := output + [k];
      }
      i := i + 1;
    }
  }

  lemma ListGroupStep(g: Node, i: nat, sub: seq<string>)
    requires g.Group? && i < |g.children| && g.children[i].1.Group?
    requires sub == ListMembers(g.children[i].1)
    ensures ListChildren(g, i + 1) == ListChildren(g, i) + PrefixAll(g.children[i].0, sub)
  {
  }

  lemma ListLeafStep(g: Node, i: nat)
    requires g.Group? && i < |g.children| && !g.children[i].1.Group?
    ensures ListChildren(g, i + 1) == ListChildren(g, i) + [g.children[i].0]
  {
  }

  /** A group without members lists nothing. */
  lemma EmptyGroupListsNothing(attrs: seq<Attr>)
    ensures ListMembers(Group([], attrs)) == []
  {
  }

  // -------------------------------------------------------- leaf paths

  /** `p` spells out, from `g`, the way to a member that is not a group. */
  ghost predicate IsLeafPath(g: Node, p: string) {
    ValidPath(p) && Lookup(g, p).Some? && !Lookup(g, p).value.Group?
  }

  /** Everything listed is the path of a member that is not a group. */
  lemma {:induction false} ListedAreLeaves(g: Node)
    requires g.Group? && WellFormed(g)
    ensures forall p :: p in ListMembers(g) ==> IsLeafPath(g, p)
    decreases g, |g.children|, 2
  {
    ListedAreLeavesChildren(g, |g.children|);
  }

  lemma {:induction false} ListedAreLeavesChildren(g: Node, n: nat)
    requires g.Group? && WellFormed(g) && n <= |g.children|
    ensures forall p :: p in ListChildren(g, n) ==> IsLeafPath(g, p)
    decreases g, n, 1
  {
    if n > 0 {
      ListedAreLeavesChildren(g, n - 1);
      ListedAreLeavesChild(g, n - 1);
    }
  }

  lemma {:induction false} ListedAreLeavesChild(g: Node, i: nat)
    requires g.Group? && WellFormed(g) && i < |g.children|
    ensures forall p :: p in ListChild(g, i) ==> IsLeafPath(g, p)
    decreases g, i, 0
  {
    var k := g.children[i].0;
    var c := g.children[i].1;
    SplitAllSingle(k, '/');
    if c.Group? {
      var sub := ListMembers(c);
      ListedAreLeaves(c);
      forall p | p in PrefixAll(k, sub)
        ensures IsLeafPath(g, p)
      {
        var j :| 0 <= j < |sub| && p == k + "/" + sub[j];
        assert sub[j] in sub;
        SplitAllCons(k, sub[j], '/');
        ResolveChild(g, i, SplitAll(sub[j], '/'));
      }
    } else {
      ResolveChild(g, i, []);
      assert [k] + [] == [k];
    }
  }

  /** What member `i` contributes is part of the listing of every longer prefix of the members. */
  lemma {:induction false} ChildListed(g: Node, i: nat, n: nat)
    requires g.Group? && i < n <= |g.children|
    ensures forall p :: p in ListChild(g, i) ==> p in ListChildren(g, n)
    decreases n
  {
    if n - 1 > i {
      ChildListed(g, i, n - 1);
    }
  }

  /** Every member that is not a group, at any depth, is listed. */
  lemma {:induction false} LeavesAreListed(g: Node, p: string)
    requires g.Group? && WellFormed(g) && IsLeafPath(g, p)
    ensures p in ListMembers(g)
    decreases g
  {
    var segs := SplitAll(p, '/');
    assert segs[0] in segs;
    ResolveStep(g, segs);
    var i := ChildIndex(g.children, segs[0]);
    var k := g.children[i].0;
    var c := g.children[i].1;
    assert Lookup(g, p) == Resolve(c, segs[1..]);
    ChildListed(g, i, |g.children|);
    if |segs| == 1 {
      SplitAllOne(p, '/');
      assert ListChild(g, i) == [p];
    } else {
      SplitAllUncons(p, '/');
      var rest :| p == segs[0] + "/" + rest && SplitAll(rest, '/') == segs[1..];
      assert segs[1] in segs;
      ResolveBelowGroup(c, segs[1..]);
      assert ValidPath(rest) by {
        forall s | s in SplitAll(rest, '/')
          ensures ValidName(s)
        {
          var j :| 0 <= j < |segs[1..]| && segs[1..][j] == s;
          assert segs[j + 1] in segs;
        }
      }
      assert WellFormed(c);
      LeavesAreListed(c, rest);
      var sub := ListMembers(c);
      var j :| 0 <= j < |sub| && sub[j] == rest;
      assert PrefixAll(k, sub)[j] == p;
    }
  }

  /** The listing is exactly the paths of the members that are not groups. */
  lemma ListedIffLeaf(g: Node, p: string)
    requires g.Group? && WellFormed(g)
    ensures p in ListMembers(g) <==> IsLeafPath(g, p)
  {
    ListedAreLeaves(g);
    if IsLeafPath(g, p) {
      LeavesAreListed(g, p);
    }
  }

  // ------------------------------------------------------- tables only

  /** `[g for g in ps if is_Dataset(g)]`: the test is applied to the path strings themselves. */
  function KeepTables(ps: seq<string>): seq<string> {
    if ps == [] then []
    else KeepTables(ps[..|ps| - 1]) + (if IsDataset(Text(ps[|ps| - 1])) then [ps[|ps| - 1]] else [])
  }

  /** A path string is never a dataset, so the filter keeps nothing. */
  lemma {:induction false} KeepTablesNone(ps: seq<string>)
    ensures KeepTables(ps) == []
  {
    if ps != [] {
      KeepTablesNone(ps[..|ps| - 1]);
    }
  }

  /** `list_members_recursive_tablesOnly` as written: always empty. */
  method ListMembersRecursiveTablesOnly(rootGroup: Node) returns (output: seq<string>)
    requires rootGroup.Group?
    ensures output == KeepTables(ListMembers(rootGroup)) && output == []
  {
    var all := ListMembersRecursive(rootGroup);
    output := KeepTables(all);
    KeepTablesNone(all);
  }

  /** `p` names a dataset of `g`. */
  predicate IsDatasetAt(g: Node, p: string) {
    Lookup(g, p).Some? && Lookup(g, p).value.Dataset?
  }

  /** The listed paths that name datasets. */
  function KeepDatasets(g: Node, ps: seq<string>): (r: seq<string>)
    ensures forall p :: p in r <==> p in ps && IsDatasetAt(g, p)
  {
    if ps == [] then []
    else KeepDatasets(g, ps[..|ps| - 1]) + (if IsDatasetAt(g, ps[|ps| - 1]) then [ps[|ps| - 1]] else [])
  }

  /** The evident intent of `list_members_recursive_tablesOnly`: the leaf paths that are datasets. */
  method ListDatasetsRecursive(rootGroup: Node) returns (output: seq<string>)
    requires rootGroup.Group?
    ensures output == KeepDatasets(rootGroup, ListMembers(rootGroup))
  {
    var all := ListMembersRecursive(rootGroup);
    output := KeepDatasets(rootGroup, all);
  }

  /** The corrected listing holds exactly the paths of the datasets, at any depth. */
  lemma DatasetsListedIff(g: Node, p: string)
    requires g.Group? && WellFormed(g)
    ensures p in KeepDatasets(g, ListMembers(g)) <==> ValidPath(p) && IsDatasetAt(g, p)
  {
    ListedIffLeaf(g, p);
  }

  /** A file with one dataset `x`: as written nothing is listed, as intended `x` is. */
  lemma TablesOnlyMissesDataset()
    ensures var g := Group([("x", Dataset("f8", [3], []))], []);
      KeepTables(ListMembers(g)) == [] && KeepDatasets(g, ListMembers(g)) == ["x"]
  {
    var g := Group([("x", Dataset("f8", [3], []))], []);
    ListLeafStep(g, 0);
    assert ListMembers(g) == ["x"];
    KeepTablesNone(["x"]);
    SplitAllSingle("x", '/');
    var segs := ["x"];
    assert segs[1..] == [];
    assert IsDatasetAt(g, "x");
  }
}
