/**
  The dtype legend: `read_map_dtypes` inverts the attribute dictionary of a
  group, and `print_info` uses the result to shorten the dtype column and to
  leave out the record of the group the legend came from.
*/
module Legend {

  import opened Wrappers
  import opened PyStrings
  import opened H5Tree
  import opened Records
  import opened Traversal

  /** `dict(attrs)`: key to value rendering; a repeated key keeps its last value. */
  function AttrDict(attrs: seq<Attr>): (m: map<string, string>)
    ensures forall k :: k in m <==> exists i :: 0 <= i < |attrs| && attrs[i].key == k
  {
    if attrs == [] then map[]
    else
      var last := attrs[|attrs| - 1];
      AttrDict(attrs[..|attrs| - 1])[last.key := last.repr]
  }

  /** `{v : k for k, v in base_dict.items()}`, the items taken in attribute order. */
  function InvertAttrs(attrs: seq<Attr>): (m: map<string, string>)
    ensures forall v :: v in m <==> exists i :: 0 <= i < |attrs| && attrs[i].repr == v
    ensures forall v :: v in m ==> exists i :: 0 <= i < |attrs| && attrs[i].repr == v && attrs[i].key == m[v]
  {
    if attrs == [] then map[]
    else
      var last := attrs[|attrs| - 1];
      InvertAttrs(attrs[..|attrs| - 1])[last.repr := last.key]
  }

  /**
    `read_map_dtypes(group, path)` for a group `group` of the file whose root
    is `root`; `None` where `group[path]` raises.
  */
  function ReadMapDtypes(root: Node, group: Node, path: string): (r: Option<map<string, string>>)
    ensures r.None? <==> Open(root, group, path).None?
    ensures r.Some? ==> r.value == InvertAttrs(Open(root, group, path).value.attrs)
  {
    match Open(root, group, path)
    case None => None
    case Some(n) => Some(InvertAttrs(n.attrs))
  }

  /**
    Read from a file, the legend inverts `dict(attrs)`: its keys are the
    dictionary's values, and each maps back to a key whose value it is.
  */
  lemma LegendInvertsDict(root: Node, group: Node, path: string)
    requires WellFormed(root) && WellFormed(group)
    ensures var r := ReadMapDtypes(root, group, path);
      r.Some? ==>
        var d := AttrDict(Open(root, group, path).value.attrs);
        && r.value.Keys == d.Values
        && forall v :: v in r.value ==> r.value[v] in d && d[r.value[v]] == v
  {
    var r := ReadMapDtypes(root, group, path);
    if r.Some? {
      var start := if path != "" && path[0] == '/' then root else group;
      ResolveWellFormed(start, SplitAll(path, '/'));
      var attrs := Open(root, group, path).value.attrs;
      DictOfUniqueKeys(attrs);
    }
  }

  /** With distinct keys, inverting the attribute list inverts `dict(attrs)`. */
  lemma DictOfUniqueKeys(attrs: seq<Attr>)
    requires UniqueKeys(attrs)
    ensures InvertAttrs(attrs).Keys == AttrDict(attrs).Values
    ensures forall v :: v in InvertAttrs(attrs) ==>
      InvertAttrs(attrs)[v] in AttrDict(attrs) && AttrDict(attrs)[InvertAttrs(attrs)[v]] == v
  {
    var d := AttrDict(attrs);
    var m := InvertAttrs(attrs);
    forall v | v in m
      ensures v in d.Values && m[v] in d && d[m[v]] == v
    {
      var i :| 0 <= i < |attrs| && attrs[i].repr == v && attrs[i].key == m[v];
      AttrDictAt(attrs, i);
    }
    forall v | v in d.Values
      ensures v in m
    {
      var k :| k in d && d[k] == v;
      var i :| 0 <= i < |attrs| && attrs[i].key == k;
      AttrDictAt(attrs, i);
    }
  }

  /** When several short names share a long name, the one that comes last wins. */
  lemma {:induction false} LaterWins(attrs: seq<Attr>, i: nat)
    requires i < |attrs|
    requires forall j :: i < j < |attrs| ==> attrs[j].repr != attrs[i].repr
    ensures InvertAttrs(attrs)[attrs[i].repr] == attrs[i].key
  {
    if i < |attrs| - 1 {
      LaterWins(attrs[..|attrs| - 1], i);
    }
  }

  // ---------------------------------------------------------------- inverse

  ghost predicate Injective(m: map<string, string>) {
    forall a, b :: a in m && b in m && a != b ==> m[a] != m[b]
  }

  /** The inverse of a map, defined without reference to any order. */
  ghost function Inverse(m: map<string, string>): (r: map<string, string>)
    ensures r.Keys == m.Values
    ensures forall v :: v in r ==> r[v] in m && m[r[v]] == v
  {
    map v | v in m.Values :: var k :| k in m && m[k] == v; k
  }

  /** Inverting an injective map twice gives the map back. */
  lemma InverseTwice(m: map<string, string>)
    requires Injective(m)
    ensures Inverse(Inverse(m)) == m
  {
    var r := Inverse(m);
    forall k | k in m
      ensures r[m[k]] == k
    {
      assert m[k] in m.Values;
    }
    assert Inverse(r).Keys == m.Keys by {
      forall k | k in m
        ensures k in r.Values
      {
        assert m[k] in m.Values;
      }
    }
  }

  lemma {:induction false} AttrDictAt(attrs: seq<Attr>, i: nat)
    requires UniqueKeys(attrs) && i < |attrs|
    ensures AttrDict(attrs)[attrs[i].key] == attrs[i].repr
  {
    if i < |attrs| - 1 {
      AttrDictAt(attrs[..|attrs| - 1], i);
    }
  }

  ghost predicate UniqueReprs(attrs: seq<Attr>) {
    forall i, j :: 0 <= i < j < |attrs| ==> attrs[i].repr != attrs[j].repr
  }

  /** Distinct keys with distinct values make the attribute dictionary injective. */
  lemma DictInjective(attrs: seq<Attr>)
    requires UniqueKeys(attrs) && UniqueReprs(attrs)
    ensures Injective(AttrDict(attrs))
  {
    var d := AttrDict(attrs);
    forall a, b | a in d && b in d && a != b
      ensures d[a] != d[b]
    {
      var i :| 0 <= i < |attrs| && attrs[i].key == a;
      var j :| 0 <= j < |attrs| && attrs[j].key == b;
      AttrDictAt(attrs, i);
      AttrDictAt(attrs, j);
    }
  }

  /**
    When the keys are distinct and so are the values, the legend is the
    inverse of the attribute dictionary: each long name maps back to the
    short name whose value it is.
  */
  lemma InvertIsInverse(attrs: seq<Attr>)
    requires UniqueKeys(attrs) && UniqueReprs(attrs)
    ensures Injective(AttrDict(attrs))
    ensures InvertAttrs(attrs) == Inverse(AttrDict(attrs))
  {
    DictInjective(attrs);
    var d := AttrDict(attrs);
    var m := InvertAttrs(attrs);
    var r := Inverse(d);
    forall v | v in m
      ensures v in r && m[v] == r[v]
    {
      var i :| 0 <= i < |attrs| && attrs[i].repr == v && attrs[i].key == m[v];
      AttrDictAt(attrs, i);
      assert d[attrs[i].key] == v;
    }
    forall v | v in r
      ensures v in m
    {
      var k := r[v];
      var i :| 0 <= i < |attrs| && attrs[i].key == k;
      AttrDictAt(attrs, i);
    }
  }

  // ---------------------------------------------------------- dtype mapping

  /** One record after mapping: its dtype replaced when the legend has it. */
  function SubstDtype(x: ElementInfo, m: map<string, string>): (y: ElementInfo)
    ensures y.path == x.path && y.etype == x.etype && y.shape == x.shape
    ensures y.dtype == if x.dtype in m then m[x.dtype] else x.dtype
  {
    ElementInfo(x.path, x.etype, if x.dtype in m then m[x.dtype] else x.dtype, x.shape)
  }

  /** The comprehension after the legend: every record mapped, the legend's own group left out. */
  function MapDtypes(info: seq<ElementInfo>, m: map<string, string>, mapPath: string): (r: seq<ElementInfo>)
    ensures |r| <= |info|
    ensures forall y :: y in r ==> y.path != mapPath
  {
    if info == [] then []
    else
      var x := info[|info| - 1];
      MapDtypes(info[..|info| - 1], m, mapPath) + (if x.path != mapPath then [SubstDtype(x, m)] else [])
  }

  /** A record is in the mapped list exactly when it is the mapping of a record not at the map path. */
  lemma {:induction false} MapDtypesMembers(info: seq<ElementInfo>, m: map<string, string>, mapPath: string)
    ensures forall x :: x in info && x.path != mapPath ==> SubstDtype(x, m) in MapDtypes(info, m, mapPath)
    ensures forall y :: y in MapDtypes(info, m, mapPath) ==>
      exists x :: x in info && x.path != mapPath && y == SubstDtype(x, m)
  {
    if info != [] {
      var init := info[..|info| - 1];
      var x := info[|info| - 1];
      MapDtypesMembers(init, m, mapPath);
      assert forall z :: z in info ==> z in init || z == x;
      assert forall z :: z in init ==> z in info;
    }
  }

  /** Mapping keeps the order: it distributes over concatenation. */
  lemma {:induction false} MapDtypesAppend(a: seq<ElementInfo>, b: seq<ElementInfo>, m: map<string, string>, mapPath: string)
    ensures MapDtypes(a + b, m, mapPath) == MapDtypes(a, m, mapPath) + MapDtypes(b, m, mapPath)
    decreases |b|
  {
    if b != [] {
      assert (a + b)[..|a + b| - 1] == a + b[..|b| - 1];
      MapDtypesAppend(a, b[..|b| - 1], m, mapPath);
    } else {
      assert a + b == a;
    }
  }

  /** How many records have path `p`. */
  function CountPath(info: seq<ElementInfo>, p: string): nat {
    if info == [] then 0
    else CountPath(info[..|info| - 1], p) + (if info[|info| - 1].path == p then 1 else 0)
  }

  /** Exactly the records whose path equals the map path are dropped. */
  lemma {:induction false} MapDtypesLength(info: seq<ElementInfo>, m: map<string, string>, mapPath: string)
    ensures |MapDtypes(info, m, mapPath)| == |info| - CountPath(info, mapPath)
  {
    if info != [] {
      MapDtypesLength(info[..|info| - 1], m, mapPath);
    }
  }

  /** With no record at the map path, every record is kept in place, only its dtype mapped. */
  lemma {:induction false} MapDtypesKeepsAll(info: seq<ElementInfo>, m: map<string, string>, mapPath: string)
    requires forall x :: x in info ==> x.path != mapPath
    ensures |MapDtypes(info, m, mapPath)| == |info|
    ensures forall i :: 0 <= i < |info| ==> MapDtypes(info, m, mapPath)[i] == SubstDtype(info[i], m)
  {
    if info != [] {
      assert info[|info| - 1] in info;
      MapDtypesKeepsAll(info[..|info| - 1], m, mapPath);
    }
  }

  lemma MapDtypesSingle(x: ElementInfo, m: map<string, string>, mapPath: string)
    ensures MapDtypes([x], m, mapPath) == if x.path != mapPath then [SubstDtype(x, m)] else []
  {
    assert [x][..0] == [];
  }

  lemma MapDtypesThree(x: ElementInfo, y: ElementInfo, z: ElementInfo, m: map<string, string>, mapPath: string)
    ensures MapDtypes([x, y, z], m, mapPath) ==
      MapDtypes([x], m, mapPath) + MapDtypes([y], m, mapPath) + MapDtypes([z], m, mapPath)
  {
    MapDtypesAppend([x, y], [z], m, mapPath);
    MapDtypesAppend([x], [y], m, mapPath);
    assert [x, y] + [z] == [x, y, z];
    assert [x] + [y] == [x, y];
  }

  /** A legend attribute `f4 = 'float32'` shortens a `float32` column and drops the legend's group. */
  lemma LegendExample()
    ensures var m := InvertAttrs([Attr("f4", "str", "float32")]);
      MapDtypes([ElementInfo(".", "File", BLANK, "c=2, a=0"),
                 ElementInfo("meta", "Group", BLANK, "c=0, a=1"),
                 ElementInfo("temps", "Dataset", "float32", "s=(3,)")], m, "meta")
      == [ElementInfo(".", "File", BLANK, "c=2, a=0"),
          ElementInfo("temps", "Dataset", "f4", "s=(3,)")]
  {
    var m := InvertAttrs([Attr("f4", "str", "float32")]);
    assert m == map["float32" := "f4"];
    var root := ElementInfo(".", "File", BLANK, "c=2, a=0");
    var meta := ElementInfo("meta", "Group", BLANK, "c=0, a=1");
    var temps := ElementInfo("temps", "Dataset", "float32", "s=(3,)");
    var temps4 := ElementInfo("temps", "Dataset", "f4", "s=(3,)");
    MapDtypesThree(root, meta, temps, m, "meta");
    assert MapDtypes([root], m, "meta") == [root] by {
      MapDtypesSingle(root, m, "meta");
      assert "." != "meta" && BLANK !in m;
    }
    assert MapDtypes([meta], m, "meta") == [] by {
      MapDtypesSingle(meta, m, "meta");
    }
    assert MapDtypes([temps], m, "meta") == [temps4] by {
      MapDtypesSingle(temps, m, "meta");
      assert "temps" != "meta";
    }
    assert [root] + [] + [temps4] == [root, temps4];
  }
}
