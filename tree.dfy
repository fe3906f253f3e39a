/**
  The HDF5 file as a finite tree.  A group lists its members in the file's
  own iteration order; every node carries its attributes.  This module holds
  the element classifier (`is_Group`, `is_Dataset`, the `TYPENAMES` lookup,
  `get_group_shape`, `get_shape_general`) and `group[path]`.
*/
module H5Tree {

  import opened Wrappers
  import opened PyStrings

  /** One attribute: its key, the class name of its value and `str()` of its value. */
  datatype Attr = Attr(key: string, typeName: string, repr: string)

  datatype Node =
    | Group(children: seq<(string, Node)>, attrs: seq<Attr>)
    | Dataset(dtype: string, shape: seq<nat>, attrs: seq<Attr>)
    | Datatype(attrs: seq<Attr>)
      /** Any other member class; `typeName` is its `str(type(x))`, `maybeShape` its `.shape` if it has one. */
    | Other(typeName: string, maybeShape: Option<seq<nat>>, attrs: seq<Attr>)

  /** What reaches `get_shape_general`: a member of the file, or (for nested records) a string. */
  datatype PyObject = Member(node: Node) | Text(text: string)

  /** `is_Group`: the object is a group of the file. */
  predicate IsGroup(o: PyObject) {
    o.Member? && o.node.Group?
  }

  /** `is_Dataset`: the object is a dataset of the file. */
  predicate IsDataset(o: PyObject) {
    o.Member? && o.node.Dataset?
  }

  /**
    The element type column: the `TYPENAMES` entry for the member's class, or
    the class's own string form when it has none.  A file root is `'File'`,
    which the caller decides.
  */
  function TypeName(n: Node): string {
    match n
    case Group(_, _) => "Group"
    case Dataset(_, _, _) => "Dataset"
    case Datatype(_) => "Datatype"
    case Other(t, _, _) => t
  }

  /** `'c=%i, a=%i'`: number of direct children and number of attributes. */
  function GroupShape(g: Node): string
    requires g.Group?
  {
    "c=" + Decimal(|g.children|) + ", a=" + Decimal(|g.attrs|)
  }

  /** Reads the two counts back out of a group's info string. */
  function ParseGroupShape(s: string): (int, int) {
    var i := IndexOf(s, ',');
    (DigitsValue(if 2 <= i then s[2..i] else []), DigitsValue(if i + 4 <= |s| then s[i + 4..] else []))
  }

  /** A group's info string determines its child and attribute counts. */
  lemma GroupShapeRoundTrip(g: Node)
    requires g.Group?
    ensures ParseGroupShape(GroupShape(g)) == (|g.children|, |g.attrs|)
  {
    var c := Decimal(|g.children|);
    var a := Decimal(|g.attrs|);
    var s := GroupShape(g);
    DecimalHasNo(|g.children|, ',');
    assert s == ("c=" + c) + (", a=" + a);
    IndexOfAt("c=" + c, ", a=" + a, ',');
    assert s[2..2 + |c|] == c;
    assert s[2 + |c| + 4..] == a;
    DecimalRoundTrip(|g.children|);
    DecimalRoundTrip(|g.attrs|);
  }

  /** `get_shape_general`: the info column for any object. */
  function ShapeGeneral(o: PyObject): string {
    if o.Text? then BLANK
    else if o.node.Dataset? then "s=" + TupleRepr(o.node.shape)
    else if o.node.Group? then GroupShape(o.node)
    else if o.node.Other? && o.node.maybeShape.Some? then TupleRepr(o.node.maybeShape.value)
    else BLANK
  }

  /** A string has no `shape`, so its info is always blank. */
  lemma ShapeOfText(s: string)
    ensures ShapeGeneral(Text(s)) == BLANK
  {
  }

  // ---------------------------------------------------------------- lookup

  /** Index of the first child named `k`, or `|cs|` when there is none. */
  function ChildIndex(cs: seq<(string, Node)>, k: string): (i: nat)
    ensures i <= |cs|
    ensures i < |cs| ==> cs[i].0 == k
    ensures forall j :: 0 <= j < i ==> cs[j].0 != k
  {
    if cs == [] || cs[0].0 == k then 0 else 1 + ChildIndex(cs[1..], k)
  }

  /** Follows path segments from `n`; empty and `.` segments stay where they are. */
  function Resolve(n: Node, segs: seq<string>): Option<Node>
    decreases |segs|
  {
    if segs == [] then Some(n)
    else if segs[0] == "" || segs[0] == "." then Resolve(n, segs[1..])
    else
      match n
      case Group(cs, _) =>
        var i := ChildIndex(cs, segs[0]);
        if i == |cs| then None else Resolve(cs[i].1, segs[1..])
      case _ => None
  }

  /**
    `group[path]` (`None` where h5py raises) and `path in group` for a path
    that does not start with `/`.  HDF5 refuses the empty name.
  */
  function Lookup(n: Node, path: string): Option<Node> {
    if path == "" then None else Resolve(n, SplitAll(path, '/'))
  }

  /**
    `group[path]` and `path in group` for any path, where `group` is `n` and
    `root` is the root group of `n`'s file: a path that starts with `/` is
    resolved from the file's root, any other from `n`.
  */
  function Open(root: Node, n: Node, path: string): Option<Node> {
    if path != "" && path[0] == '/' then Lookup(root, path) else Lookup(n, path)
  }

  /** The empty name names nothing. */
  lemma OpenEmpty(root: Node, n: Node)
    ensures Open(root, n, "").None?
  {
  }

  /** `/` names the file's root, wherever the lookup starts. */
  lemma OpenRoot(root: Node, n: Node)
    ensures Open(root, n, "/") == Some(root)
  {
    var p := "/";
    assert p == "" + ['/'] + "";
    SplitAllCons("", "", '/');
    SplitAllSingle("", '/');
    assert SplitAll(p, '/') == ["", ""];
    assert Resolve(root, ["", ""]) == Resolve(root, [""]) == Resolve(root, []);
  }

  /** An absolute path is the relative path below the file's root, whatever group it is looked up in. */
  lemma OpenAbsolute(root: Node, n: Node, p: string)
    requires p != ""
    ensures Open(root, n, "/" + p) == Lookup(root, p)
  {
    assert "/" + p == "" + ['/'] + p;
    SplitAllCons("", p, '/');
    var segs := SplitAll("/" + p, '/');
    assert segs[1..] == SplitAll(p, '/');
  }

  /** A relative path is looked up from the group itself. */
  lemma OpenRelative(root: Node, n: Node, p: string)
    requires p == "" || p[0] != '/'
    ensures Open(root, n, p) == Lookup(n, p)
  {
  }

  lemma LookupDot(n: Node)
    ensures Lookup(n, ".") == Some(n)
  {
    SplitAllSingle(".", '/');
    var segs := ["."];
    assert segs[1..] == [];
  }

  // ----------------------------------------------------------- well-formed

  /** An HDF5 link name: not empty, not `.`, no `/`. */
  ghost predicate ValidName(k: string) {
    k != "" && k != "." && '/' !in k
  }

  /** Every `/`-separated segment of `p` is a link name. */
  ghost predicate ValidPath(p: string) {
    forall s :: s in SplitAll(p, '/') ==> ValidName(s)
  }

  ghost predicate UniqueNames(cs: seq<(string, Node)>) {
    forall i, j :: 0 <= i < j < |cs| ==> cs[i].0 != cs[j].0
  }

  /** The members of a group have distinct valid names. */
  ghost predicate NamedMembers(cs: seq<(string, Node)>) {
    UniqueNames(cs) && forall i :: 0 <= i < |cs| ==> ValidName(cs[i].0)
  }

  /** HDF5 gives no object two attributes of one name. */
  ghost predicate UniqueKeys(attrs: seq<Attr>) {
    forall i, j :: 0 <= i < j < |attrs| ==> attrs[i].key != attrs[j].key
  }

  /**
    What every tree read from an HDF5 file satisfies: every object's
    attributes have distinct keys, the members of a group have distinct valid
    names, and a class outside `TYPENAMES` prints as something other than one
    of its names.
  */
  ghost predicate WellFormed(n: Node) {
    UniqueKeys(n.attrs) &&
    match n
    case Group(cs, _) =>
      NamedMembers(cs) && forall i :: 0 <= i < |cs| ==> WellFormed(cs[i].1)
    case Other(t, _, _) => t != "Group" && t != "Dataset" && t != "Datatype" && t != "File"
    case _ => true
  }

  /** In a well-formed group, a member's name leads to that member. */
  lemma ChildIndexUnique(cs: seq<(string, Node)>, i: nat)
    requires UniqueNames(cs) && i < |cs|
    ensures ChildIndex(cs, cs[i].0) == i
  {
  }

  /** A path that resolves from a group and starts with a link name goes through the member of that name. */
  lemma ResolveStep(g: Node, segs: seq<string>)
    requires g.Group? && segs != [] && ValidName(segs[0]) && Resolve(g, segs).Some?
    ensures ChildIndex(g.children, segs[0]) < |g.children|
    ensures Resolve(g, segs) == Resolve(g.children[ChildIndex(g.children, segs[0])].1, segs[1..])
  {
  }

  /** Only a group has anything below it that a link name can reach. */
  lemma ResolveBelowGroup(n: Node, segs: seq<string>)
    requires segs != [] && ValidName(segs[0]) && Resolve(n, segs).Some?
    ensures n.Group?
  {
  }

  /** Whatever a well-formed tree's path leads to is well-formed. */
  lemma {:induction false} ResolveWellFormed(n: Node, segs: seq<string>)
    requires WellFormed(n) && Resolve(n, segs).Some?
    ensures WellFormed(Resolve(n, segs).value)
    decreases |segs|
  {
    if segs != [] {
      if segs[0] == "" || segs[0] == "." {
        ResolveWellFormed(n, segs[1..]);
      } else {
        var i := ChildIndex(n.children, segs[0]);
        ResolveWellFormed(n.children[i].1, segs[1..]);
      }
    }
  }

  /** Resolving a path that starts with a member's name continues at that member. */
  lemma ResolveChild(g: Node, i: nat, rest: seq<string>)
    requires g.Group? && WellFormed(g) && i < |g.children|
    ensures Resolve(g, [g.children[i].0] + rest) == Resolve(g.children[i].1, rest)
  {
    var segs := [g.children[i].0] + rest;
    assert segs[1..] == rest;
    ChildIndexUnique(g.children, i);
  }
}
