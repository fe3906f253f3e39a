/**
  `info_members_recursive`: the depth-bounded walk that produces one
  `ElementInfo` record per listed member, relative to the group it starts at.
*/
module Traversal {

  import opened Wrappers
  import opened PyStrings
  import opened H5Tree
  import opened Records

  /** `get_shape_general(root_group[k])`: the info column the walk gives member `c`. */
  function MemberShape(c: Node): string {
    ShapeGeneral(Member(c))
  }

  /*
    The walk is written for any function `shape` giving a member's info
    column; `info_members_recursive` is the walk with `MemberShape`.  Every
    property below holds whatever that function is.
  */

  /** The record of a member that is not descended into (the `else` branch). */
  function LeafInfo(k: string, c: Node, shape: Node -> string): ElementInfo {
    ElementInfo(k, TypeName(c), if c.Dataset? then c.dtype else BLANK, shape(c))
  }

  /** The record a descended-into sub-group gets of its own when `with_groups` is set. */
  function GroupInfo(k: string, c: Node, shape: Node -> string): ElementInfo {
    ElementInfo(k, "Group", BLANK, shape(c))
  }

  /** A record of a sub-walk moved under `k`; its info is recomputed from the old info string. */
  function NestOne(k: string, x: ElementInfo): ElementInfo {
    ElementInfo(k + "/" + x.path, x.etype, x.dtype, ShapeGeneral(Text(x.shape)))
  }

  function Nest(k: string, temp: seq<ElementInfo>): (r: seq<ElementInfo>)
    ensures |r| == |temp|
  {
    if temp == [] then [] else Nest(k, temp[..|temp| - 1]) + [NestOne(k, temp[|temp| - 1])]
  }

  /** Each record of a sub-walk is moved under `k` in its own place. */
  lemma {:induction false} NestAt(k: string, temp: seq<ElementInfo>, j: nat)
    requires j < |temp|
    ensures Nest(k, temp)[j] == NestOne(k, temp[j])
  {
    var init := temp[..|temp| - 1];
    if j < |init| {
      NestAt(k, init, j);
      assert init[j] == temp[j];
    }
  }

  /** The place in the sub-walk that a moved record comes from. */
  lemma NestMember(k: string, temp: seq<ElementInfo>, x: ElementInfo) returns (j: nat)
    requires x in Nest(k, temp)
    ensures j < |temp| && temp[j] in temp && x == NestOne(k, temp[j])
  {
    var nest := Nest(k, temp);
    j :| 0 <= j < |nest| && nest[j] == x;
    NestAt(k, temp, j);
  }

  /** What `info_members_recursive(g, with_groups, depth)` returns, with `shape` for `get_shape_general`. */
  function InfoMembers(g: Node, withGroups: bool, depth: int, shape: Node -> string): seq<ElementInfo>
    requires g.Group?
    decreases g, |g.children|, 2
  {
    InfoChildren(g, |g.children|, withGroups, depth, shape)
  }

  /** The records of the first `n` members of `g`, in iteration order. */
  function InfoChildren(g: Node, n: nat, withGroups: bool, depth: int, shape: Node -> string): seq<ElementInfo>
    requires g.Group? && n <= |g.children|
    decreases g, n, 1
  {
    if n == 0 then [] else InfoChildren(g, n - 1, withGroups, depth, shape) + ChildInfo(g, n - 1, withGroups, depth, shape)
  }

  /** The records member `i` of `g` contributes. */
  function ChildInfo(g: Node, i: nat, withGroups: bool, depth: int, shape: Node -> string): seq<ElementInfo>
    requires g.Group? && i < |g.children|
    decreases g, i, 0
  {
    var k := g.children[i].0;
    var c := g.children[i].1;
    if c.Group? && depth > 1 then
      (if withGroups then [GroupInfo(k, c, shape)] else []) + Nest(k, InfoMembers(c, true, depth - 1, shape))
    else
      [LeafInfo(k, c, shape)]
  }

  /** `info_members_recursive`, loop for loop. */
  method InfoMembersRecursive(rootGroup: Node, withGroups: bool, depth: int) returns (output: seq<ElementInfo>)
    requires rootGroup.Group?
    ensures output == InfoMembers(rootGroup, withGroups, depth, MemberShape)
    decreases rootGroup
  {
    output := [];
    var i := 0;
    while i < |rootGroup.children|
      invariant 0 <= i <= |rootGroup.children|
      invariant output == InfoChildren(rootGroup, i, withGroups, depth, MemberShape)
    {
      var k := rootGroup.children[i].0;
      var c := rootGroup.children[i].1;
      if c.Group? && depth > 1 {
        var temp := InfoMembersRecursive(c, true, depth - 1);
        var tempNew := if withGroups then [GroupInfo(k, c, MemberShape)] else [];
        tempNew := AppendNested(tempNew, k, temp);
        GroupStep(rootGroup, i, withGroups, depth, temp, MemberShape);
        output := output + tempNew;
      } else {
        LeafStep(rootGroup, i, withGroups, depth, MemberShape);
        output := output + [LeafInfo(k, c, MemberShape)];
      }
      i := i + 1;
    }
  }

  /** A descended-into sub-group contributes its own record (if asked) and its sub-walk moved under its name. */
  lemma GroupStep(g: Node, i: nat, w: bool, d: int, temp: seq<ElementInfo>, shape: Node -> string)
    requires g.Group? && i < |g.children| && g.children[i].1.Group? && d > 1
    requires temp == InfoMembers(g.children[i].1, true, d - 1, shape)
    ensures InfoChildren(g, i + 1, w, d, shape) == InfoChildren(g, i, w, d, shape) +
      ((if w then [GroupInfo(g.children[i].0, g.children[i].1, shape)] else []) + Nest(g.children[i].0, temp))
  {
  }

  /** Any other member contributes its one record. */
  lemma LeafStep(g: Node, i: nat, w: bool, d: int, shape: Node -> string)
    requires g.Group? && i < |g.children| && !(g.children[i].1.Group? && d > 1)
    ensures InfoChildren(g, i + 1, w, d, shape) == InfoChildren(g, i, w, d, shape) + [LeafInfo(g.children[i].0, g.children[i].1, shape)]
  {
  }

  /** The inner loop of `info_members_recursive`: appends each sub-record, moved under `k`, to `tempNew`. */
  method AppendNested(tempNew: seq<ElementInfo>, k: string, temp: seq<ElementInfo>) returns (r: seq<ElementInfo>)
    ensures r == tempNew + Nest(k, temp)
  {
    r := tempNew;
    var j := 0;
    while j < |temp|
      invariant 0 <= j <= |temp|
      invariant r == tempNew + Nest(k, temp[..j])
    {
      var x := temp[j];
      r := r + [ElementInfo(k + "/" + x.path, x.etype, x.dtype, ShapeGeneral(Text(x.shape)))];
      assert temp[..j + 1][..j] == temp[..j];
      j := j + 1;
    }
    assert temp[..|temp|] == temp;
  }

  lemma InfoChildrenStep(g: Node, n: nat, w: bool, d: int, shape: Node -> string)
    requires g.Group? && 0 < n <= |g.children|
    ensures InfoChildren(g, n, w, d, shape) == InfoChildren(g, n - 1, w, d, shape) + ChildInfo(g, n - 1, w, d, shape)
  {
  }

  /** Every record of the walk comes from one member: the index of the member whose records hold `x`. */
  lemma {:induction false} ContributedBy(g: Node, n: nat, w: bool, d: int, x: ElementInfo, shape: Node -> string) returns (i: nat)
    requires g.Group? && n <= |g.children| && x in InfoChildren(g, n, w, d, shape)
    ensures i < n && x in ChildInfo(g, i, w, d, shape)
  {
    InfoChildrenStep(g, n, w, d, shape);
    if x in InfoChildren(g, n - 1, w, d, shape) {
      i := ContributedBy(g, n - 1, w, d, x, shape);
    } else {
      i := n - 1;
    }
  }

  /** A record of member `i` is among the records of the first `n` members, for any `n` past `i`. */
  lemma {:induction false} ChildInInfo(g: Node, n: nat, i: nat, w: bool, d: int, shape: Node -> string, x: ElementInfo)
    requires g.Group? && i < n <= |g.children| && x in ChildInfo(g, i, w, d, shape)
    ensures x in InfoChildren(g, n, w, d, shape)
  {
    InfoChildrenStep(g, n, w, d, shape);
    if i < n - 1 {
      ChildInInfo(g, n - 1, i, w, d, shape, x);
    }
  }

  // ---------------------------------------------------------- completeness

  /**
    Every member within `max(depth, 1)` levels of `g` is listed: a valid
    path that resolves and has no more segments than that is the path of a
    record.  The one exception is the path of a direct sub-group that the
    walk descends into when `with_groups` is false.
  */
  lemma {:induction false} PathsListed(g: Node, w: bool, d: int, shape: Node -> string, p: string)
    requires g.Group? && WellFormed(g)
    ensures ValidPath(p) && Lookup(g, p).Some? && |SplitAll(p, '/')| <= Max1(d) &&
            !(!w && d > 1 && |SplitAll(p, '/')| == 1 && Lookup(g, p).value.Group?) ==>
            exists x :: x in InfoMembers(g, w, d, shape) && x.path == p
    decreases g
  {
    var segs := SplitAll(p, '/');
    if ValidPath(p) && Lookup(g, p).Some? && |segs| <= Max1(d) &&
       !(!w && d > 1 && |segs| == 1 && Lookup(g, p).value.Group?) {
      assert segs[0] in segs;
      ResolveStep(g, segs);
      var i := ChildIndex(g.children, segs[0]);
      var x := PathOfChild(g, i, w, d, shape, p);
      ChildInInfo(g, |g.children|, i, w, d, shape, x);
    }
  }

  /** The exception is real: without `with_groups`, a direct sub-group that is descended into has no record. */
  lemma DescendedGroupUnlisted(g: Node, i: nat, d: int, shape: Node -> string)
    requires g.Group? && WellFormed(g) && i < |g.children| && g.children[i].1.Group? && d > 1
    ensures forall x :: x in InfoMembers(g, false, d, shape) ==> x.path != g.children[i].0
  {
    var k := g.children[i].0;
    assert ValidName(k);
    SplitAllSingle(k, '/');
    forall x | x in InfoMembers(g, false, d, shape)
      ensures x.path != k
    {
      var j := ContributedBy(g, |g.children|, false, d, x, shape);
      assert ValidName(g.children[j].0);
      FirstSegmentOf(g, j, false, d, shape, x);
      if j == i {
        NestedHaveSlash(k, InfoMembers(g.children[i].1, true, d - 1, shape));
      }
    }
  }

  /** The record with path `p` among those of member `i`, the member `p` starts with. */
  lemma {:induction false} PathOfChild(g: Node, i: nat, w: bool, d: int, shape: Node -> string, p: string)
      returns (x: ElementInfo)
    requires g.Group? && WellFormed(g) && ValidPath(p) && |SplitAll(p, '/')| <= Max1(d)
    requires i < |g.children| && SplitAll(p, '/')[0] == g.children[i].0
    requires Resolve(g.children[i].1, SplitAll(p, '/')[1..]).Some?
    requires !(!w && d > 1 && |SplitAll(p, '/')| == 1 && g.children[i].1.Group?)
    ensures x in ChildInfo(g, i, w, d, shape) && x.path == p
    decreases g, 0
  {
    var segs := SplitAll(p, '/');
    var k := g.children[i].0;
    var c := g.children[i].1;
    if |segs| == 1 {
      SplitAllOne(p, '/');
      if c.Group? && d > 1 {
        x := GroupInfo(k, c, shape);
      } else {
        x := LeafInfo(k, c, shape);
      }
    } else {
      var rest := RestOfPath(p, c);
      assert WellFormed(c);
      PathsListed(c, true, d - 1, shape, rest);
      var sub := InfoMembers(c, true, d - 1, shape);
      var y :| y in sub && y.path == rest;
      x := NestedRecord(k, sub, y);
    }
  }

  /** A valid path of several segments is its first segment, `/`, and a valid rest that resolves from the member it names. */
  lemma RestOfPath(p: string, c: Node) returns (rest: string)
    requires ValidPath(p) && |SplitAll(p, '/')| > 1 && Resolve(c, SplitAll(p, '/')[1..]).Some?
    ensures p == SplitAll(p, '/')[0] + "/" + rest && SplitAll(rest, '/') == SplitAll(p, '/')[1..]
    ensures ValidPath(rest) && rest != "" && c.Group? && Lookup(c, rest).Some?
  {
    var segs := SplitAll(p, '/');
    SplitAllUncons(p, '/');
    rest :| p == segs[0] + "/" + rest && SplitAll(rest, '/') == segs[1..];
    assert segs[1] in segs;
    ResolveBelowGroup(c, segs[1..]);
    forall s | s in SplitAll(rest, '/')
      ensures ValidName(s)
    {
      var j :| 0 <= j < |segs[1..]| && segs[1..][j] == s;
      assert segs[j + 1] in segs;
    }
    assert SplitAll(rest, '/')[0] in SplitAll(rest, '/');
  }

  /** A sub-record with path `q` becomes a moved record with path `k/q`. */
  lemma NestedRecord(k: string, sub: seq<ElementInfo>, y: ElementInfo) returns (x: ElementInfo)
    requires y in sub
    ensures x in Nest(k, sub) && x.path == k + "/" + y.path
  {
    var j :| 0 <= j < |sub| && sub[j] == y;
    NestAt(k, sub, j);
    x := NestOne(k, y);
    assert Nest(k, sub)[j] == x;
  }

  // ------------------------------------------------------------ depth bound

  /** No record path has more than `max(depth, 1)` segments. */
  lemma {:induction false} DepthBound(g: Node, w: bool, d: int, shape: Node -> string)
    requires g.Group? && WellFormed(g)
    ensures Within(InfoMembers(g, w, d, shape), d)
    decreases g, |g.children|, 1
  {
    forall x | x in InfoMembers(g, w, d, shape)
      ensures |SplitAll(x.path, '/')| <= Max1(d)
    {
      var i := ContributedBy(g, |g.children|, w, d, x, shape);
      DepthBoundChild(g, i, w, d, shape);
    }
  }

  lemma {:induction false} DepthBoundChild(g: Node, i: nat, w: bool, d: int, shape: Node -> string)
    requires g.Group? && WellFormed(g) && i < |g.children|
    ensures Within(ChildInfo(g, i, w, d, shape), d)
    decreases g, i, 0
  {
    var k := g.children[i].0;
    var c := g.children[i].1;
    SplitAllSingle(k, '/');
    if c.Group? && d > 1 {
      var sub := InfoMembers(c, true, d - 1, shape);
      DepthBound(c, true, d - 1, shape);
      var nest := Nest(k, sub);
      forall x | x in ChildInfo(g, i, w, d, shape)
        ensures |SplitAll(x.path, '/')| <= Max1(d)
      {
        if x in nest {
          var j := NestMember(k, sub, x);
          SplitAllCons(k, sub[j].path, '/');
        }
      }
    }
  }

  // ------------------------------------------------------- info of records

  /**
    A record whose path has a `/` (a nested one) has blank info; a record
    without one is the record of a direct member, carrying that member's own
    type, dtype and info (`s=...` for a dataset, `c=.., a=..` for a group).
  */
  lemma {:induction false} RecordInfo(g: Node, w: bool, d: int, shape: Node -> string)
    requires g.Group? && WellFormed(g)
    ensures forall x :: x in InfoMembers(g, w, d, shape) && '/' in x.path ==> x.shape == BLANK
    ensures forall x :: x in InfoMembers(g, w, d, shape) && '/' !in x.path ==>
      exists i :: 0 <= i < |g.children| && x == LeafInfo(g.children[i].0, g.children[i].1, shape)
  {
    forall x | x in InfoMembers(g, w, d, shape)
      ensures '/' in x.path ==> x.shape == BLANK
      ensures '/' !in x.path ==> exists i :: 0 <= i < |g.children| && x == LeafInfo(g.children[i].0, g.children[i].1, shape)
    {
      var i := ContributedBy(g, |g.children|, w, d, x, shape);
      RecordInfoChild(g, i, w, d, shape);
    }
  }

  lemma RecordInfoChild(g: Node, i: nat, w: bool, d: int, shape: Node -> string)
    requires g.Group? && WellFormed(g) && i < |g.children|
    ensures forall x :: x in ChildInfo(g, i, w, d, shape) && '/' in x.path ==> x.shape == BLANK
    ensures forall x :: x in ChildInfo(g, i, w, d, shape) && '/' !in x.path ==> x == LeafInfo(g.children[i].0, g.children[i].1, shape)
  {
    var k := g.children[i].0;
    var c := g.children[i].1;
    assert ValidName(k);
    if c.Group? && d > 1 {
      var sub := InfoMembers(c, true, d - 1, shape);
      var nest := Nest(k, sub);
      assert GroupInfo(k, c, shape) == LeafInfo(k, c, shape);
      forall x | x in nest
        ensures '/' in x.path && x.shape == BLANK
      {
        var j := NestMember(k, sub, x);
        assert x.path[|k|] == '/';
      }
    }
  }

  /** With `depth <= 1` nothing is descended into: each member, group or not, is one record. */
  lemma {:induction false} DepthOneFlat(g: Node, w: bool, d: int, shape: Node -> string)
    requires g.Group? && d <= 1
    ensures |InfoMembers(g, w, d, shape)| == |g.children|
    ensures forall i :: 0 <= i < |g.children| ==> InfoMembers(g, w, d, shape)[i] == LeafInfo(g.children[i].0, g.children[i].1, shape)
    ensures forall i :: 0 <= i < |g.children| && g.children[i].1.Group? ==>
      InfoMembers(g, w, d, shape)[i] == ElementInfo(g.children[i].0, "Group", BLANK, shape(g.children[i].1))
  {
    DepthOneFlatChildren(g, |g.children|, w, d, shape);
  }

  lemma {:induction false} DepthOneFlatChildren(g: Node, n: nat, w: bool, d: int, shape: Node -> string)
    requires g.Group? && d <= 1 && n <= |g.children|
    ensures |InfoChildren(g, n, w, d, shape)| == n
    ensures forall i :: 0 <= i < n ==> InfoChildren(g, n, w, d, shape)[i] == LeafInfo(g.children[i].0, g.children[i].1, shape)
  {
    if n > 0 {
      DepthOneFlatChildren(g, n - 1, w, d, shape);
      LeafStep(g, n - 1, w, d, shape);
    }
  }

  // ------------------------------------------------------------ with_groups

  /** The records left when the direct sub-groups' own records are taken out. */
  function DropDirectGroups(rs: seq<ElementInfo>): seq<ElementInfo> {
    if rs == [] then []
    else DropDirectGroups(rs[..|rs| - 1]) + (if IsDirectGroup(rs[|rs| - 1]) then [] else [rs[|rs| - 1]])
  }

  lemma {:induction false} DropAppend(a: seq<ElementInfo>, b: seq<ElementInfo>)
    ensures DropDirectGroups(a + b) == DropDirectGroups(a) + DropDirectGroups(b)
    decreases |b|
  {
    if b != [] {
      assert (a + b)[..|a + b| - 1] == a + b[..|b| - 1];
      DropAppend(a, b[..|b| - 1]);
    } else {
      assert a + b == a;
    }
  }

  lemma {:induction false} DropKeeps(rs: seq<ElementInfo>)
    requires forall x :: x in rs ==> !IsDirectGroup(x)
    ensures DropDirectGroups(rs) == rs
  {
    if rs != [] {
      assert rs[|rs| - 1] in rs;
      DropKeeps(rs[..|rs| - 1]);
    }
  }

  /**
    `with_groups=False` only removes the records of the direct sub-groups
    that are descended into; every deeper sub-group keeps its record, since
    the recursive call always passes `with_groups=True`.
  */
  lemma {:induction false} WithoutGroups(g: Node, d: int, shape: Node -> string)
    requires g.Group? && WellFormed(g)
    ensures InfoMembers(g, false, d, shape) ==
      if d > 1 then DropDirectGroups(InfoMembers(g, true, d, shape)) else InfoMembers(g, true, d, shape)
  {
    WithoutGroupsChildren(g, |g.children|, d, shape);
  }

  lemma WithoutGroupsChildren(g: Node, n: nat, d: int, shape: Node -> string)
    requires g.Group? && WellFormed(g) && n <= |g.children|
    ensures InfoChildren(g, n, false, d, shape) ==
      if d > 1 then DropDirectGroups(InfoChildren(g, n, true, d, shape)) else InfoChildren(g, n, true, d, shape)
  {
    if d > 1 {
      forall i | 0 <= i < n
        ensures ChildInfo(g, i, false, d, shape) == DropDirectGroups(ChildInfo(g, i, true, d, shape))
      {
        WithoutGroupsChild(g, i, d, shape);
      }
      DropGroupsChildren(g, n, d, shape);
    } else {
      FlatGroupsChildren(g, n, d, shape);
    }
  }

  lemma {:induction false} DropGroupsChildren(g: Node, n: nat, d: int, shape: Node -> string)
    requires g.Group? && n <= |g.children| && d > 1
    requires forall i :: 0 <= i < n ==> ChildInfo(g, i, false, d, shape) == DropDirectGroups(ChildInfo(g, i, true, d, shape))
    ensures InfoChildren(g, n, false, d, shape) == DropDirectGroups(InfoChildren(g, n, true, d, shape))
  {
    if n > 0 {
      var f, t := InfoChildren(g, n, false, d, shape), InfoChildren(g, n, true, d, shape);
      var f0, f1 := InfoChildren(g, n - 1, false, d, shape), ChildInfo(g, n - 1, false, d, shape);
      var t0, t1 := InfoChildren(g, n - 1, true, d, shape), ChildInfo(g, n - 1, true, d, shape);
      assert f0 == DropDirectGroups(t0) by {
        DropGroupsChildren(g, n - 1, d, shape);
      }
      assert f == f0 + f1 && t == t0 + t1 by {
        InfoChildrenStep(g, n, false, d, shape);
        InfoChildrenStep(g, n, true, d, shape);
      }
      DropSnoc(f, t, f0, f1, t0, t1);
    }
  }

  lemma DropSnoc(f: seq<ElementInfo>, t: seq<ElementInfo>, f0: seq<ElementInfo>, f1: seq<ElementInfo>,
                 t0: seq<ElementInfo>, t1: seq<ElementInfo>)
    requires f == f0 + f1 && t == t0 + t1
    requires f0 == DropDirectGroups(t0) && f1 == DropDirectGroups(t1)
    ensures f == DropDirectGroups(t)
  {
    DropAppend(t0, t1);
  }

  lemma {:induction false} FlatGroupsChildren(g: Node, n: nat, d: int, shape: Node -> string)
    requires g.Group? && n <= |g.children| && d <= 1
    ensures InfoChildren(g, n, false, d, shape) == InfoChildren(g, n, true, d, shape)
  {
    if n > 0 {
      FlatGroupsChildren(g, n - 1, d, shape);
    }
  }

  /** What one member contributes without `with_groups` is what it contributes with it, less its own group record. */
  lemma WithoutGroupsChild(g: Node, i: nat, d: int, shape: Node -> string)
    requires g.Group? && WellFormed(g) && i < |g.children|
    ensures ChildInfo(g, i, false, d, shape) ==
      if d > 1 then DropDirectGroups(ChildInfo(g, i, true, d, shape)) else ChildInfo(g, i, true, d, shape)
  {
    var k := g.children[i].0;
    var c := g.children[i].1;
    assert ValidName(k);
    if d > 1 {
      if c.Group? {
        var sub := InfoMembers(c, true, d - 1, shape);
        var nest := Nest(k, sub);
        NestedHaveSlash(k, sub);
        DropKeeps(nest);
        DropAppend([GroupInfo(k, c, shape)], nest);
        assert DropDirectGroups([GroupInfo(k, c, shape)]) == [] by {
          assert [GroupInfo(k, c, shape)][..0] == [];
        }
        assert [] + nest == nest;
      } else {
        var x := LeafInfo(k, c, shape);
        assert !IsDirectGroup(x);
        assert DropDirectGroups([x]) == [x] by {
          assert [x][..0] == [];
        }
      }
    }
  }

  /** Every record moved under a name has a `/` in its path. */
  lemma NestedHaveSlash(k: string, sub: seq<ElementInfo>)
    ensures forall x :: x in Nest(k, sub) ==> '/' in x.path && !IsDirectGroup(x)
  {
    var nest := Nest(k, sub);
    forall x | x in nest
      ensures '/' in x.path
    {
      var j := NestMember(k, sub, x);
      assert x.path[|k|] == '/';
    }
  }

  /** A sub-group two levels down keeps its record under `with_groups=False`. */
  lemma NestedGroupKept(shape: Node -> string)
    ensures var tree := Group([("a", Group([("b", Group([], []))], []))], []);
      InfoMembers(tree, false, 3, shape) == [ElementInfo("a/b", "Group", BLANK, BLANK)]
  {
    var inner := Group([], []);
    var mid := Group([("b", inner)], []);
    var tree := Group([("a", mid)], []);
    GroupStep(mid, 0, true, 2, [], shape);
    var sub := [GroupInfo("b", inner, shape)];
    assert InfoMembers(mid, true, 2, shape) == sub;
    GroupStep(tree, 0, false, 3, sub, shape);
    NestAt("a", sub, 0);
    assert Nest("a", sub)[0] == ElementInfo("a/b", "Group", BLANK, BLANK);
  }

  // ----------------------------------------------------------- paths

  lemma DistinctNest(k: string, sub: seq<ElementInfo>)
    requires DistinctPaths(sub)
    ensures DistinctPaths(Nest(k, sub))
  {
    var nest := Nest(k, sub);
    forall i, j | 0 <= i < j < |nest|
      ensures nest[i].path != nest[j].path
    {
      var pre := k + "/";
      NestAt(k, sub, i);
      NestAt(k, sub, j);
      assert nest[i].path == pre + sub[i].path && nest[j].path == pre + sub[j].path;
      assert (pre + sub[i].path)[|pre|..] == sub[i].path;
      assert (pre + sub[j].path)[|pre|..] == sub[j].path;
    }
  }

  /** Every record a member contributes starts with that member's name. */
  lemma {:induction false} FirstSegment(g: Node, i: nat, w: bool, d: int, shape: Node -> string)
    requires g.Group? && i < |g.children| && ValidName(g.children[i].0)
    ensures AllStartWith(ChildInfo(g, i, w, d, shape), g.children[i].0)
  {
    var k := g.children[i].0;
    var c := g.children[i].1;
    SplitAllSingle(k, '/');
    if c.Group? && d > 1 {
      var sub := InfoMembers(c, true, d - 1, shape);
      var nest := Nest(k, sub);
      forall x | x in nest
        ensures SplitAll(x.path, '/')[0] == k
      {
        var j := NestMember(k, sub, x);
        SplitAllCons(k, sub[j].path, '/');
      }
    }
  }

  /** The records of different members start with different names, so their paths differ. */
  lemma ChildApart(g: Node, n: nat, w: bool, d: int, shape: Node -> string)
    requires g.Group? && NamedMembers(g.children) && 0 < n <= |g.children|
    ensures PathsApart(InfoChildren(g, n - 1, w, d, shape), ChildInfo(g, n - 1, w, d, shape))
  {
    forall x, y | x in InfoChildren(g, n - 1, w, d, shape) && y in ChildInfo(g, n - 1, w, d, shape)
      ensures x.path != y.path
    {
      ChildApartOne(g, n, w, d, shape, x, y);
    }
  }

  lemma ChildApartOne(g: Node, n: nat, w: bool, d: int, shape: Node -> string, x: ElementInfo, y: ElementInfo)
    requires g.Group? && NamedMembers(g.children) && 0 < n <= |g.children|
    requires x in InfoChildren(g, n - 1, w, d, shape) && y in ChildInfo(g, n - 1, w, d, shape)
    ensures x.path != y.path
  {
    var i := ContributedBy(g, n - 1, w, d, x, shape);
    FirstSegmentOf(g, i, w, d, shape, x);
    FirstSegmentOf(g, n - 1, w, d, shape, y);
  }

  lemma FirstSegmentOf(g: Node, i: nat, w: bool, d: int, shape: Node -> string, x: ElementInfo)
    requires g.Group? && i < |g.children| && ValidName(g.children[i].0)
    requires x in ChildInfo(g, i, w, d, shape)
    ensures SplitAll(x.path, '/')[0] == g.children[i].0
  {
    FirstSegment(g, i, w, d, shape);
  }

  /** Every record path starts with a member's name, so it is neither empty nor absolute. */
  lemma PathsRelative(g: Node, w: bool, d: int, shape: Node -> string)
    requires g.Group? && WellFormed(g)
    ensures forall x :: x in InfoMembers(g, w, d, shape) ==> x.path != "" && x.path[0] != '/'
  {
    forall x | x in InfoMembers(g, w, d, shape)
      ensures x.path != "" && x.path[0] != '/'
    {
      var i := ContributedBy(g, |g.children|, w, d, x, shape);
      assert ValidName(g.children[i].0);
      FirstSegmentOf(g, i, w, d, shape, x);
      SplitAllHead(x.path, '/');
    }
  }

  /** No two records share a path: each member is listed at most once. */
  lemma {:induction false} PathsDistinct(g: Node, w: bool, d: int, shape: Node -> string)
    requires g.Group? && WellFormed(g)
    ensures DistinctPaths(InfoMembers(g, w, d, shape))
    decreases g, |g.children|, 2
  {
    PathsDistinctChildren(g, |g.children|, w, d, shape);
  }

  lemma {:induction false} PathsDistinctChildren(g: Node, n: nat, w: bool, d: int, shape: Node -> string)
    requires g.Group? && WellFormed(g) && n <= |g.children|
    ensures DistinctPaths(InfoChildren(g, n, w, d, shape))
    decreases g, n, 1
  {
    if n > 0 {
      PathsDistinctChildren(g, n - 1, w, d, shape);
      PathsDistinctChild(g, n - 1, w, d, shape);
      ChildApart(g, n, w, d, shape);
      DistinctAppend(InfoChildren(g, n - 1, w, d, shape), ChildInfo(g, n - 1, w, d, shape));
    }
  }

  lemma {:induction false} PathsDistinctChild(g: Node, i: nat, w: bool, d: int, shape: Node -> string)
    requires g.Group? && WellFormed(g) && i < |g.children|
    ensures DistinctPaths(ChildInfo(g, i, w, d, shape))
    decreases g, i, 0
  {
    var k := g.children[i].0;
    var c := g.children[i].1;
    if c.Group? && d > 1 {
      var sub := InfoMembers(c, true, d - 1, shape);
      PathsDistinct(c, true, d - 1, shape);
      DistinctNest(k, sub);
      var nest := Nest(k, sub);
      if w {
        forall y | y in nest
          ensures GroupInfo(k, c, shape).path != y.path
        {
          var j := NestMember(k, sub, y);
          assert |y.path| > |k|;
        }
        assert PathsApart([GroupInfo(k, c, shape)], nest);
        DistinctAppend([GroupInfo(k, c, shape)], nest);
      } else {
        assert ChildInfo(g, i, w, d, shape) == nest;
      }
    }
  }

  /** Every record path names, from `g`, a member whose type is the record's type. */
  lemma {:induction false} PathsResolve(g: Node, w: bool, d: int, shape: Node -> string)
    requires g.Group? && WellFormed(g)
    ensures forall x :: x in InfoMembers(g, w, d, shape) ==>
      Lookup(g, x.path).Some? && TypeName(Lookup(g, x.path).value) == x.etype
    decreases g, |g.children|, 1
  {
    forall x | x in InfoMembers(g, w, d, shape)
      ensures Lookup(g, x.path).Some? && TypeName(Lookup(g, x.path).value) == x.etype
    {
      var i := ContributedBy(g, |g.children|, w, d, x, shape);
      PathsResolveChild(g, i, w, d, shape);
    }
  }

  lemma {:induction false} PathsResolveChild(g: Node, i: nat, w: bool, d: int, shape: Node -> string)
    requires g.Group? && WellFormed(g) && i < |g.children|
    ensures forall x :: x in ChildInfo(g, i, w, d, shape) ==>
      Lookup(g, x.path).Some? && TypeName(Lookup(g, x.path).value) == x.etype
    decreases g, i, 0
  {
    var k := g.children[i].0;
    var c := g.children[i].1;
    SplitAllSingle(k, '/');
    ResolveChild(g, i, []);
    assert [k] + [] == [k];
    if c.Group? && d > 1 {
      var sub := InfoMembers(c, true, d - 1, shape);
      PathsResolve(c, true, d - 1, shape);
      var nest := Nest(k, sub);
      forall x | x in nest
        ensures Lookup(g, x.path).Some? && TypeName(Lookup(g, x.path).value) == x.etype
      {
        var j := NestMember(k, sub, x);
        SplitAllCons(k, sub[j].path, '/');
        ResolveChild(g, i, SplitAll(sub[j].path, '/'));
      }
    }
  }
}
