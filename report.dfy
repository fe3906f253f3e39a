/**
  `print_info`: the table of a group.  The printed text is modelled as the
  list of lines it consists of; a raised exception is a `Failure`.
*/
module Report {

  import opened Wrappers
  import opened PyStrings
  import opened H5Tree
  import opened Records
  import opened Traversal
  import opened Legend

  /** The exceptions `print_info` lets through: a missing key, or iterating over a non-group. */
  datatype Error = KeyError(key: string) | NotIterable(etype: string)

  /** A table with the legend read for it (if any), or the dataset whose array is printed instead. */
  datatype Shown = Table(legend: Option<map<string, string>>, lines: seq<string>) | DatasetArray(dataset: Node)

  // ------------------------------------------------------------ root record

  /** The `.` record put in front of the walk; a `File` is `'File'`, anything else its `TYPENAMES` name. */
  function RootInfo(data: Node, isFile: bool): (x: ElementInfo)
    ensures x.path == "." && x.dtype == BLANK
    ensures x.etype == if isFile then "File" else TypeName(data)
    ensures data.Group? ==> x.shape == GroupShape(data)
  {
    ElementInfo(".", if isFile then "File" else TypeName(data), BLANK, ShapeGeneral(Member(data)))
  }

  /** The records of the table before any dtype mapping. */
  function TableInfo(data: Node, isFile: bool, withGroups: bool, depth: int): (info: seq<ElementInfo>)
    requires data.Group?
    ensures info != [] && info[0] == RootInfo(data, isFile)
    ensures info[1..] == InfoMembers(data, withGroups, depth, MemberShape)
  {
    [RootInfo(data, isFile)] + InfoMembers(data, withGroups, depth, MemberShape)
  }

  // ---------------------------------------------------------------- widths

  /** `max(len(x.path) for x in info)`. */
  function MaxPathLength(info: seq<ElementInfo>): (n: nat)
    requires info != []
    ensures forall x :: x in info ==> |x.path| <= n
    ensures exists x :: x in info && |x.path| == n
  {
    if |info| == 1 then |info[0].path|
    else
      var m := MaxPathLength(info[..|info| - 1]);
      var l := |info[|info| - 1].path|;
      assert forall x :: x in info ==> x in info[..|info| - 1] || x == info[|info| - 1];
      if l > m then l else m
  }

  /** `max(lens)` after an empty list has been replaced by `[0]`. */
  function MaxOrZero(lens: seq<nat>): (n: nat)
    ensures forall i :: 0 <= i < |lens| ==> lens[i] <= n
    ensures lens == [] ==> n == 0
    ensures lens != [] ==> exists i :: 0 <= i < |lens| && lens[i] == n
  {
    if lens == [] then 0
    else
      var m := MaxOrZero(lens[..|lens| - 1]);
      var l := lens[|lens| - 1];
      if l > m then l else m
  }

  /** Only datasets and groups get attribute rows (a `File` root does not). */
  predicate HasAttrRows(etype: string) {
    etype == "Dataset" || etype == "Group"
  }

  /** `data[p].attrs`, in attribute order, for a record path `p` (relative, as `OwnersRelative` shows). */
  function AttrsAt(data: Node, p: string): (r: Option<seq<Attr>>)
    ensures r.Some? <==> Lookup(data, p).Some?
    ensures r.Some? ==> r.value == Lookup(data, p).value.attrs
  {
    match Lookup(data, p)
    case None => None
    case Some(n) => Some(n.attrs)
  }

  /** `[len(a) for a in attrs]`. */
  function KeyLens(attrs: seq<Attr>): (r: seq<nat>)
    ensures |r| == |attrs| && forall j :: 0 <= j < |attrs| ==> r[j] == |attrs[j].key|
  {
    seq(|attrs|, j requires 0 <= j < |attrs| => |attrs[j].key|)
  }

  /** What the `attr_path_lengths` loop collects, or the `KeyError` of `data[x.path]`. */
  function AttrKeyLengths(data: Node, info: seq<ElementInfo>): Result<seq<nat>, Error> {
    if info == [] then Success([])
    else
      match AttrKeyLengths(data, info[..|info| - 1])
      case Failure(e) => Failure(e)
      case Success(init) =>
        var x := info[|info| - 1];
        if !HasAttrRows(x.etype) then Success(init)
        else
          match AttrsAt(data, x.path)
          case None => Failure(KeyError(x.path))
          case Some(attrs) => Success(init + KeyLens(attrs))
  }

  /** The next record adds its attribute keys' lengths, if it owns attribute rows. */
  lemma KeyLengthsStep(data: Node, info: seq<ElementInfo>, i: nat, lens: seq<nat>)
    requires i < |info| && AttrKeyLengths(data, info[..i]) == Success(lens)
    ensures AttrKeyLengths(data, info[..i + 1]) ==
      if !HasAttrRows(info[i].etype) then Success(lens)
      else match AttrsAt(data, info[i].path)
        case None => Failure(KeyError(info[i].path))
        case Some(attrs) => Success(lens + KeyLens(attrs))
  {
    assert info[..i + 1][..i] == info[..i];
  }

  /** The attribute-row owners' attribute keys all have their lengths collected. */
  lemma {:induction false} KeyLengthsCollected(data: Node, info: seq<ElementInfo>)
    requires AttrKeyLengths(data, info).Success?
    ensures forall x :: x in info && HasAttrRows(x.etype) ==> AttrsAt(data, x.path).Some?
    ensures forall x, a :: x in info && HasAttrRows(x.etype) && a in AttrsAt(data, x.path).value ==>
      |a.key| in AttrKeyLengths(data, info).value
  {
    if info != [] {
      var init := info[..|info| - 1];
      var last := info[|info| - 1];
      KeyLengthsCollected(data, init);
      var lens := AttrKeyLengths(data, init).value;
      assert forall x :: x in info ==> x in init || x == last;
      if HasAttrRows(last.etype) {
        var attrs := AttrsAt(data, last.path).value;
        forall a | a in attrs
          ensures |a.key| in lens + KeyLens(attrs)
        {
          var j :| 0 <= j < |attrs| && attrs[j] == a;
          assert (lens + KeyLens(attrs))[|lens| + j] == |a.key|;
        }
      }
    }
  }

  /** Every lookup succeeding, the collection succeeds. */
  lemma {:induction false} KeyLengthsSucceed(data: Node, info: seq<ElementInfo>)
    requires forall x :: x in info && HasAttrRows(x.etype) ==> Lookup(data, x.path).Some?
    ensures AttrKeyLengths(data, info).Success?
  {
    if info != [] {
      assert info[|info| - 1] in info;
      assert forall x :: x in info[..|info| - 1] ==> x in info;
      KeyLengthsSucceed(data, info[..|info| - 1]);
    }
  }

  /**
    `max_path_size`: one more than the longest path and, with attributes,
    at least five more than the longest attribute key (or five).
  */
  function TableWidth(info: seq<ElementInfo>, lens: Option<seq<nat>>): (w: int)
    requires info != []
    ensures forall x :: x in info ==> w >= 1 + |x.path|
    ensures lens.Some? ==> w >= 5 && forall l :: l in lens.value ==> w >= 5 + l
    ensures w == 1 + MaxPathLength(info) || (lens.Some? && w == 5 + MaxOrZero(lens.value))
    ensures lens.None? ==> w == 1 + MaxPathLength(info)
  {
    var w0 := 1 + MaxPathLength(info);
    match lens
    case None => w0
    case Some(ls) =>
      var wa := 5 + MaxOrZero(ls);
      if w0 > wa then w0 else wa
  }

  /** Because the `.` record is always there, the path column is at least two wide. */
  lemma WidthAtLeastTwo(data: Node, isFile: bool, withGroups: bool, depth: int, lens: Option<seq<nat>>)
    requires data.Group?
    ensures TableWidth(TableInfo(data, isFile, withGroups, depth), lens) >= 2
  {
    var info := TableInfo(data, isFile, withGroups, depth);
    assert info[0] in info;
  }

  // ------------------------------------------------------------------ rows

  /** `FMT_row.format(c0, c1, c2, c3)` with `FMT_row = ' {:<w}: {:<12}{:<16}{:<16}'`. */
  function FormatRow(c0: string, c1: string, c2: string, c3: string, w: int): string {
    " " + PadRight(c0, w) + ": " + PadRight(c1, 12) + PadRight(c2, 16) + PadRight(c3, 16)
  }

  /** A first cell that fits puts the `: ` separator at columns `w + 1` and `w + 2`, with nothing cut. */
  lemma RowAligned(c0: string, c1: string, c2: string, c3: string, w: int)
    requires |c0| <= w
    ensures var r := FormatRow(c0, c1, c2, c3, w);
      |r| >= w + 47 && r[0] == ' ' && r[1..1 + |c0|] == c0 && r[w + 1] == ':' && r[w + 2] == ' '
  {
    var p := PadRight(c0, w);
    var r := FormatRow(c0, c1, c2, c3, w);
    assert r == " " + p + ": " + (PadRight(c1, 12) + PadRight(c2, 16) + PadRight(c3, 16));
    assert r[1..1 + |c0|] == p[..|c0|];
  }

  /** A record's row: `FMT_row.format(*(str(x) for x in row))`. */
  function InfoRow(x: ElementInfo, w: int): string {
    FormatRow(x.path, x.etype, x.dtype, x.shape, w)
  }

  /** One attribute's row: the key indented by four, the tag `attr`, its class name, `v=` and its value. */
  function AttrRow(a: Attr, w: int): string {
    FormatRow("    " + a.key, "attr    ", a.typeName, "v=" + a.repr, w)
  }

  function AttrRows(attrs: seq<Attr>, w: int): (r: seq<string>)
    ensures |r| == |attrs| && forall j :: 0 <= j < |attrs| ==> r[j] == AttrRow(attrs[j], w)
  {
    seq(|attrs|, j requires 0 <= j < |attrs| => AttrRow(attrs[j], w))
  }

  /** `'-' * 20 * len(ElementInfo._fields)`. */
  function Rule(): (r: string)
    ensures |r| == 80 && forall i :: 0 <= i < 80 ==> r[i] == '-'
  {
    seq(80, i => '-')
  }

  /** The rule, the column titles and the rule again. */
  function HeaderLines(w: int): seq<string> {
    [Rule(), FormatRow("path", "etype", "dtype", "info", w), Rule()]
  }

  /** The lines of one record: its row and, when asked for and it owns any, its attribute rows. */
  function RowLines(data: Node, x: ElementInfo, w: int, printAttr: bool): Result<seq<string>, Error> {
    if printAttr && HasAttrRows(x.etype) then
      match AttrsAt(data, x.path)
      case None => Failure(KeyError(x.path))
      case Some(attrs) => Success([InfoRow(x, w)] + AttrRows(attrs, w))
    else
      Success([InfoRow(x, w)])
  }

  /** The lines of the `for row in info` loop, in order. */
  function Rows(data: Node, info: seq<ElementInfo>, w: int, printAttr: bool): Result<seq<string>, Error> {
    if info == [] then Success([])
    else
      match Rows(data, info[..|info| - 1], w, printAttr)
      case Failure(e) => Failure(e)
      case Success(init) =>
        match RowLines(data, info[|info| - 1], w, printAttr)
        case Failure(e) => Failure(e)
        case Success(more) => Success(init + more)
  }

  // ----------------------------------------------------------------- table

  /** `group[path]` when a path is given, the group itself otherwise. */
  function Target(group: Node, path: Option<string>): Option<Node> {
    if path.Some? then Open(group, group, path.value) else Some(group)
  }

  /** The table of a group `data`, from the records onwards. */
  function GroupTable(root: Node, data: Node, isFile: bool, depth: int, printGroups: bool, printAttr: bool,
                      mapPath: Option<string>): Result<Shown, Error>
    requires data.Group?
  {
    var info := TableInfo(data, isFile, printGroups, depth);
    var lens := if printAttr then AttrKeyLengths(data, info) else Success([]);
    if lens.Failure? then Failure(lens.error)
    else
      var w := TableWidth(info, if printAttr then Some(lens.value) else None);
      LegendTable(root, data, info, w, printAttr, mapPath)
  }

  /** The rest of the table once the records and the width are known: the legend, the mapping and the rows. */
  function LegendTable(root: Node, data: Node, info: seq<ElementInfo>, w: int, printAttr: bool,
                       mapPath: Option<string>): Result<Shown, Error>
  {
    if mapPath.Some? && Open(root, data, mapPath.value).None? then
      Failure(KeyError("invalid path for dtype map:   -m=" + mapPath.value))
    else
      var legend := if mapPath.Some? then ReadMapDtypes(root, data, mapPath.value) else None;
      var shown := if mapPath.Some? then MapDtypes(info, legend.value, mapPath.value) else info;
      match Rows(data, shown, w, printAttr)
      case Failure(e) => Failure(e)
      case Success(rows) => Success(Table(legend, HeaderLines(w) + rows))
  }

  /** What `print_info(group, path, depth, print_groups, print_attr, map_dtypes_path=mapPath)` shows. */
  function PrintInfoSpec(group: Node, path: Option<string>, depth: int, printGroups: bool, printAttr: bool,
                         mapPath: Option<string>, groupIsFile: bool): Result<Shown, Error>
  {
    match Target(group, path)
    case None => Failure(KeyError(path.value))
    case Some(data) =>
      if data.Dataset? then Success(DatasetArray(data))
      else if !data.Group? then Failure(NotIterable(TypeName(data)))
      else GroupTable(group, data, path.None? && groupIsFile, depth, printGroups, printAttr, mapPath)
  }

  // --------------------------------------------------------------- methods

  /** Once a `KeyError` is raised, the rest of the records make no difference. */
  lemma {:induction false} KeyLengthsFailureSticks(data: Node, info: seq<ElementInfo>, n: nat, m: nat)
    requires n <= m <= |info| && AttrKeyLengths(data, info[..n]).Failure?
    ensures AttrKeyLengths(data, info[..m]) == AttrKeyLengths(data, info[..n])
    decreases m
  {
    if m > n {
      KeyLengthsFailureSticks(data, info, n, m - 1);
      assert info[..m][..m - 1] == info[..m - 1];
    }
  }

  /** The `attr_path_lengths` loop over the records and, nested, over each owner's attribute keys. */
  method CollectAttrKeyLengths(data: Node, info: seq<ElementInfo>) returns (r: Result<seq<nat>, Error>)
    ensures r == AttrKeyLengths(data, info)
  {
    var lens: seq<nat> := [];
    var i := 0;
    while i < |info|
      invariant 0 <= i <= |info|
      invariant AttrKeyLengths(data, info[..i]) == Success(lens)
    {
      var x := info[i];
      assert info[..i + 1][..i] == info[..i];
      if HasAttrRows(x.etype) {
        var found := Lookup(data, x.path);
        if found.None? {
          KeyLengthsFailureSticks(data, info, i + 1, |info|);
          assert info[..|info|] == info;
          return Failure(KeyError(x.path));
        }
        var attrs := found.value.attrs;
        var base := lens;
        var j := 0;
        while j < |attrs|
          invariant 0 <= j <= |attrs|
          invariant lens == base + KeyLens(attrs[..j])
        {
          lens := lens + [|attrs[j].key|];
          j := j + 1;
        }
        assert attrs[..|attrs|] == attrs;
      }
      i := i + 1;
    }
    assert info[..|info|] == info;
    r := Success(lens);
  }

  lemma {:induction false} RowsFailureSticks(data: Node, info: seq<ElementInfo>, w: int, printAttr: bool, n: nat, m: nat)
    requires n <= m <= |info| && Rows(data, info[..n], w, printAttr).Failure?
    ensures Rows(data, info[..m], w, printAttr) == Rows(data, info[..n], w, printAttr)
    decreases m
  {
    if m > n {
      RowsFailureSticks(data, info, w, printAttr, n, m - 1);
      assert info[..m][..m - 1] == info[..m - 1];
    }
  }

  /** The next record's lines extend the lines so far, unless looking up its attributes fails. */
  lemma RowsStep(data: Node, info: seq<ElementInfo>, w: int, printAttr: bool, i: nat, lines: seq<string>)
    requires i < |info| && Rows(data, info[..i], w, printAttr) == Success(lines)
    ensures Rows(data, info[..i + 1], w, printAttr) ==
      match RowLines(data, info[i], w, printAttr)
      case Failure(e) => Failure(e)
      case Success(more) => Success(lines + more)
  {
    assert info[..i + 1][..i] == info[..i];
  }

  lemma AttrRowsSnoc(attrs: seq<Attr>, j: nat, w: int)
    requires j < |attrs|
    ensures AttrRows(attrs[..j + 1], w) == AttrRows(attrs[..j], w) + [AttrRow(attrs[j], w)]
  {
    var a := AttrRows(attrs[..j + 1], w);
    var b := AttrRows(attrs[..j], w) + [AttrRow(attrs[j], w)];
    assert |a| == |b|;
    forall k | 0 <= k < |a|
      ensures a[k] == b[k]
    {
      if k < j {
        assert attrs[..j + 1][k] == attrs[..j][k];
      }
    }
  }

  /** One turn of the `for row in info` loop: the row, then (inner loop) its attribute rows. */
  method EmitRowLines(data: Node, row: ElementInfo, w: int, printAttr: bool) returns (r: Result<seq<string>, Error>)
    ensures r == RowLines(data, row, w, printAttr)
  {
    var lines := [InfoRow(row, w)];
    if printAttr && HasAttrRows(row.etype) {
      var found := Lookup(data, row.path);
      if found.None? {
        return Failure(KeyError(row.path));
      }
      var attrs := found.value.attrs;
      var j := 0;
      while j < |attrs|
        invariant 0 <= j <= |attrs|
        invariant lines == [InfoRow(row, w)] + AttrRows(attrs[..j], w)
      {
        AttrRowsSnoc(attrs, j, w);
        lines := lines + [AttrRow(attrs[j], w)];
        j := j + 1;
      }
      assert attrs[..|attrs|] == attrs;
    }
    r := Success(lines);
  }

  /**
    One more record: its lines extend the lines so far, or, when looking up
    its attributes fails, the loop ends with that failure.
  */
  lemma RowsNext(data: Node, info: seq<ElementInfo>, w: int, printAttr: bool, i: nat, lines: seq<string>)
    requires i < |info| && Rows(data, info[..i], w, printAttr) == Success(lines)
    ensures var more := RowLines(data, info[i], w, printAttr);
      && (more.Success? ==> Rows(data, info[..i + 1], w, printAttr) == Success(lines + more.value))
      && (more.Failure? ==> Rows(data, info, w, printAttr) == Failure(more.error))
  {
    RowsStep(data, info, w, printAttr, i, lines);
    if RowLines(data, info[i], w, printAttr).Failure? {
      RowsFailureSticks(data, info, w, printAttr, i + 1, |info|);
      assert info[..|info|] == info;
    }
  }

  /** The `for row in info` loop. */
  method EmitRows(data: Node, info: seq<ElementInfo>, w: int, printAttr: bool) returns (r: Result<seq<string>, Error>)
    ensures r == Rows(data, info, w, printAttr)
  {
    var lines: seq<string> := [];
    var i := 0;
    while i < |info|
      invariant 0 <= i <= |info|
      invariant Rows(data, info[..i], w, printAttr) == Success(lines)
    {
      var more := EmitRowLines(data, info[i], w, printAttr);
      RowsNext(data, info, w, printAttr, i, lines);
      if more.Failure? {
        return Failure(more.error);
      }
      lines := lines + more.value;
      i := i + 1;
    }
    assert info[..|info|] == info;
    r := Success(lines);
  }

  /** The part of `print_info` after `data` has been found to be a group. */
  method PrintGroupTable(root: Node, data: Node, isFile: bool, depth: int, printGroups: bool, printAttr: bool,
                         mapPath: Option<string>) returns (r: Result<Shown, Error>)
    requires data.Group?
    ensures r == GroupTable(root, data, isFile, depth, printGroups, printAttr, mapPath)
  {
    var members := InfoMembersRecursive(data, printGroups, depth);
    var info := [RootInfo(data, isFile)] + members;
    var lens: Option<seq<nat>> := None;
    if printAttr {
      var collected := CollectAttrKeyLengths(data, info);
      if collected.Failure? {
        return Failure(collected.error);
      }
      lens := Some(collected.value);
    }
    var w := TableWidth(info, lens);
    r := PrintLegendTable(root, data, info, w, printAttr, mapPath);
  }

  /** The legend, the dtype mapping and the row loop of `print_info`. */
  method PrintLegendTable(root: Node, data: Node, info: seq<ElementInfo>, w: int, printAttr: bool,
                          mapPath: Option<string>) returns (r: Result<Shown, Error>)
    ensures r == LegendTable(root, data, info, w, printAttr, mapPath)
  {
    var shown := info;
    var legend: Option<map<string, string>> := None;
    if mapPath.Some? {
      var found := Open(root, data, mapPath.value);
      if found.None? {
        return Failure(KeyError("invalid path for dtype map:   -m=" + mapPath.value));
      }
      var m := InvertAttrs(found.value.attrs);
      legend := Some(m);
      shown := MapDtypes(info, m, mapPath.value);
    }
    var rows := EmitRows(data, shown, w, printAttr);
    if rows.Failure? {
      return Failure(rows.error);
    }
    r := Success(Table(legend, HeaderLines(w) + rows.value));
  }

  /** `print_info`: find `data`, print a dataset's array, refuse anything else that is not a group. */
  method PrintInfo(group: Node, path: Option<string>, depth: int, printGroups: bool, printAttr: bool,
                   mapPath: Option<string>, groupIsFile: bool) returns (r: Result<Shown, Error>)
    ensures r == PrintInfoSpec(group, path, depth, printGroups, printAttr, mapPath, groupIsFile)
  {
    var data := group;
    if path.Some? {
      var found := Open(group, group, path.value);
      if found.None? {
        return Failure(KeyError(path.value));
      }
      data := found.value;
    }
    if data.Dataset? {
      return Success(DatasetArray(data));
    }
    if !data.Group? {
      return Failure(NotIterable(TypeName(data)));
    }
    r := PrintGroupTable(group, data, path.None? && groupIsFile, depth, printGroups, printAttr, mapPath);
  }

  // ---------------------------------------------------------------- layout

  /** A record fits the table of width `w`: its path and (when shown) its attribute keys, indented, fit the path column. */
  ghost predicate FitsRecord(data: Node, x: ElementInfo, w: int, printAttr: bool) {
    |x.path| <= w &&
    (printAttr && HasAttrRows(x.etype) ==>
      AttrsAt(data, x.path).Some? && forall a :: a in AttrsAt(data, x.path).value ==> 4 + |a.key| <= w)
  }

  ghost predicate Fits(data: Node, info: seq<ElementInfo>, w: int, printAttr: bool) {
    forall x :: x in info ==> FitsRecord(data, x, w, printAttr)
  }

  /** A line of the table body: starts with a space and has the `:` separator at column `w + 1`. */
  ghost predicate AlignedLine(l: string, w: int) {
    0 <= w && w + 47 <= |l| && l[0] == ' ' && l[w + 1] == ':'
  }

  lemma RowLinesAligned(data: Node, x: ElementInfo, w: int, printAttr: bool)
    requires FitsRecord(data, x, w, printAttr)
    ensures RowLines(data, x, w, printAttr).Success?
    ensures forall l :: l in RowLines(data, x, w, printAttr).value ==> AlignedLine(l, w)
  {
    RowAligned(x.path, x.etype, x.dtype, x.shape, w);
    if printAttr && HasAttrRows(x.etype) {
      var attrs := AttrsAt(data, x.path).value;
      forall j | 0 <= j < |attrs|
        ensures AlignedLine(AttrRow(attrs[j], w), w)
      {
        assert attrs[j] in attrs;
        RowAligned("    " + attrs[j].key, "attr    ", attrs[j].typeName, "v=" + attrs[j].repr, w);
      }
    }
  }

  /** When every record fits, no lookup fails and every body line is aligned on the separator. */
  lemma {:induction false} RowsAligned(data: Node, info: seq<ElementInfo>, w: int, printAttr: bool)
    requires Fits(data, info, w, printAttr)
    ensures Rows(data, info, w, printAttr).Success?
    ensures forall l :: l in Rows(data, info, w, printAttr).value ==> AlignedLine(l, w)
  {
    if info != [] {
      assert info[|info| - 1] in info;
      assert forall x :: x in info[..|info| - 1] ==> x in info;
      RowsAligned(data, info[..|info| - 1], w, printAttr);
      RowLinesAligned(data, info[|info| - 1], w, printAttr);
    }
  }

  /** The computed width fits every record it was computed from. */
  lemma InfoFits(data: Node, info: seq<ElementInfo>, printAttr: bool)
    requires info != [] && (printAttr ==> AttrKeyLengths(data, info).Success?)
    ensures Fits(data, info, TableWidth(info, if printAttr then Some(AttrKeyLengths(data, info).value) else None), printAttr)
  {
    if printAttr {
      KeyLengthsCollected(data, info);
    }
  }

  /** Mapping dtypes and dropping the legend's record keeps every record fitting. */
  lemma MappedFits(data: Node, info: seq<ElementInfo>, m: map<string, string>, mapPath: string, w: int, printAttr: bool)
    requires Fits(data, info, w, printAttr)
    ensures Fits(data, MapDtypes(info, m, mapPath), w, printAttr)
  {
    MapDtypesMembers(info, m, mapPath);
    forall y | y in MapDtypes(info, m, mapPath)
      ensures FitsRecord(data, y, w, printAttr)
    {
      var x :| x in info && x.path != mapPath && y == SubstDtype(x, m);
      assert FitsRecord(data, x, w, printAttr);
    }
  }

  /** The records of `GroupTable` after mapping, and the width it uses. */
  lemma GroupTableFits(root: Node, data: Node, isFile: bool, depth: int, printGroups: bool, printAttr: bool, mapPath: Option<string>)
    requires data.Group?
    requires printAttr ==> AttrKeyLengths(data, TableInfo(data, isFile, printGroups, depth)).Success?
    requires mapPath.Some? ==> Open(root, data, mapPath.value).Some?
    ensures var info := TableInfo(data, isFile, printGroups, depth);
      var w := TableWidth(info, if printAttr then Some(AttrKeyLengths(data, info).value) else None);
      var shown := if mapPath.Some? then MapDtypes(info, ReadMapDtypes(root, data, mapPath.value).value, mapPath.value) else info;
      w >= 2 && Fits(data, shown, w, printAttr) && Rows(data, shown, w, printAttr).Success? &&
      (forall l :: l in Rows(data, shown, w, printAttr).value ==> AlignedLine(l, w)) &&
      GroupTable(root, data, isFile, depth, printGroups, printAttr, mapPath) ==
        Success(Table(if mapPath.Some? then ReadMapDtypes(root, data, mapPath.value) else None,
                      HeaderLines(w) + Rows(data, shown, w, printAttr).value))
  {
    var info := TableInfo(data, isFile, printGroups, depth);
    var w := TableWidth(info, if printAttr then Some(AttrKeyLengths(data, info).value) else None);
    WidthAtLeastTwo(data, isFile, printGroups, depth, if printAttr then Some(AttrKeyLengths(data, info).value) else None);
    InfoFits(data, info, printAttr);
    if mapPath.Some? {
      MappedFits(data, info, ReadMapDtypes(root, data, mapPath.value).value, mapPath.value, w, printAttr);
    }
    var shown := if mapPath.Some? then MapDtypes(info, ReadMapDtypes(root, data, mapPath.value).value, mapPath.value) else info;
    RowsAligned(data, shown, w, printAttr);
  }

  /** The header, then body lines that are all aligned. */
  ghost predicate AlignedTable(lines: seq<string>) {
    exists w :: w >= 2 && |lines| >= 3 && lines[..3] == HeaderLines(w) &&
      forall i :: 3 <= i < |lines| ==> AlignedLine(lines[i], w)
  }

  lemma HeaderThenAligned(w: int, rows: seq<string>)
    requires w >= 2 && forall l :: l in rows ==> AlignedLine(l, w)
    ensures AlignedTable(HeaderLines(w) + rows)
  {
    var lines := HeaderLines(w) + rows;
    forall i | 3 <= i < |lines|
      ensures AlignedLine(lines[i], w)
    {
      assert lines[i] == rows[i - 3];
      assert rows[i - 3] in rows;
    }
    assert lines[..3] == HeaderLines(w);
  }

  /** Every table `GroupTable` produces is aligned. */
  lemma GroupTableAligned(root: Node, data: Node, isFile: bool, depth: int, printGroups: bool, printAttr: bool, mapPath: Option<string>)
    requires data.Group?
    ensures var r := GroupTable(root, data, isFile, depth, printGroups, printAttr, mapPath);
      r.Success? ==> r.value.Table? && AlignedTable(r.value.lines)
  {
    if GroupTable(root, data, isFile, depth, printGroups, printAttr, mapPath).Success? {
      var info := TableInfo(data, isFile, printGroups, depth);
      var w := TableWidth(info, if printAttr then Some(AttrKeyLengths(data, info).value) else None);
      GroupTableFits(root, data, isFile, depth, printGroups, printAttr, mapPath);
      var shown := if mapPath.Some? then MapDtypes(info, ReadMapDtypes(root, data, mapPath.value).value, mapPath.value) else info;
      HeaderThenAligned(w, Rows(data, shown, w, printAttr).value);
    }
  }

  /**
    Every table opens with a rule, the column titles and a rule, and every
    later line (record rows and attribute rows alike) starts with a space and
    has its `:` separator in the same column, at least 2 from the left.
  */
  lemma TableAligned(group: Node, path: Option<string>, depth: int, printGroups: bool, printAttr: bool,
                     mapPath: Option<string>, groupIsFile: bool)
    ensures var r := PrintInfoSpec(group, path, depth, printGroups, printAttr, mapPath, groupIsFile);
      r.Success? && r.value.Table? ==> AlignedTable(r.value.lines)
  {
    var r := PrintInfoSpec(group, path, depth, printGroups, printAttr, mapPath, groupIsFile);
    if r.Success? && r.value.Table? {
      var data := Target(group, path).value;
      GroupTableAligned(group, data, path.None? && groupIsFile, depth, printGroups, printAttr, mapPath);
    }
  }

  // ----------------------------------------------------------------- errors

  /** In a well-formed tree, every record of the table, the `.` one included, names a member of `data`. */
  lemma InfoResolves(data: Node, isFile: bool, withGroups: bool, depth: int)
    requires data.Group? && WellFormed(data)
    ensures forall x :: x in TableInfo(data, isFile, withGroups, depth) ==> Lookup(data, x.path).Some?
  {
    var info := TableInfo(data, isFile, withGroups, depth);
    LookupDot(data);
    PathsResolve(data, withGroups, depth, MemberShape);
    assert forall x :: x in info ==> x == info[0] || x in info[1..];
  }

  /**
    Record paths are relative, so `data[x.path]` looks each of them up from
    `data` itself, wherever the file's root is.
  */
  lemma OwnersRelative(root: Node, data: Node, isFile: bool, withGroups: bool, depth: int)
    requires data.Group? && WellFormed(data)
    ensures forall x :: x in TableInfo(data, isFile, withGroups, depth) ==> Open(root, data, x.path) == Lookup(data, x.path)
  {
    var info := TableInfo(data, isFile, withGroups, depth);
    PathsRelative(data, withGroups, depth, MemberShape);
    assert forall x :: x in info ==> x == info[0] || x in info[1..];
  }

  /** Whatever from a well-formed file `print_info` is pointed at is well-formed. */
  lemma TargetWellFormed(group: Node, path: Option<string>)
    requires WellFormed(group) && Target(group, path).Some?
    ensures WellFormed(Target(group, path).value)
  {
    if path.Some? {
      ResolveWellFormed(group, SplitAll(path.value, '/'));
    }
  }

  /**
    Over a well-formed file, pointing at a group (with a map path that
    exists, if one is given) always yields a table, and only a group does.
  */
  lemma TableIffGroup(group: Node, path: Option<string>, depth: int, printGroups: bool, printAttr: bool,
                      mapPath: Option<string>, groupIsFile: bool)
    requires WellFormed(group) && Target(group, path).Some?
    requires mapPath.Some? ==> Open(group, Target(group, path).value, mapPath.value).Some?
    ensures (PrintInfoSpec(group, path, depth, printGroups, printAttr, mapPath, groupIsFile).Success? &&
             PrintInfoSpec(group, path, depth, printGroups, printAttr, mapPath, groupIsFile).value.Table?)
            <==> Target(group, path).value.Group?
  {
    var data := Target(group, path).value;
    if data.Group? {
      TargetWellFormed(group, path);
      var isFile := path.None? && groupIsFile;
      InfoResolves(data, isFile, printGroups, depth);
      if printAttr {
        KeyLengthsSucceed(data, TableInfo(data, isFile, printGroups, depth));
      }
      GroupTableFits(group, data, isFile, depth, printGroups, printAttr, mapPath);
    }
  }

  /** A missing map path raises its `KeyError` before any line is printed. */
  lemma MissingMapPathAborts(group: Node, path: Option<string>, depth: int, printGroups: bool, printAttr: bool,
                             m: string, groupIsFile: bool)
    requires WellFormed(group) && Target(group, path).Some? && Target(group, path).value.Group?
    requires Open(group, Target(group, path).value, m).None?
    ensures PrintInfoSpec(group, path, depth, printGroups, printAttr, Some(m), groupIsFile) ==
      Failure(KeyError("invalid path for dtype map:   -m=" + m))
  {
    var data := Target(group, path).value;
    TargetWellFormed(group, path);
    var isFile := path.None? && groupIsFile;
    InfoResolves(data, isFile, printGroups, depth);
    if printAttr {
      KeyLengthsSucceed(data, TableInfo(data, isFile, printGroups, depth));
    }
  }

  /** Pointed at a dataset, `print_info` prints its array and no table. */
  lemma DatasetNoTable(group: Node, path: string, depth: int, printGroups: bool, printAttr: bool,
                       mapPath: Option<string>, groupIsFile: bool)
    requires Open(group, group, path).Some? && Open(group, group, path).value.Dataset?
    ensures PrintInfoSpec(group, Some(path), depth, printGroups, printAttr, mapPath, groupIsFile) ==
      Success(DatasetArray(Open(group, group, path).value))
  {
  }

  // ------------------------------------------------------------- row count

  /** Without attributes, one line per record, in record order. */
  lemma {:induction false} PlainRows(data: Node, info: seq<ElementInfo>, w: int)
    ensures Rows(data, info, w, false).Success?
    ensures |Rows(data, info, w, false).value| == |info|
    ensures forall i :: 0 <= i < |info| ==> Rows(data, info, w, false).value[i] == InfoRow(info[i], w)
  {
    if info != [] {
      var init, x := info[..|info| - 1], info[|info| - 1];
      PlainRows(data, init, w);
      var rows := Rows(data, init, w, false).value;
      assert Rows(data, info, w, false) == Success(rows + [InfoRow(x, w)]) by {
        assert RowLines(data, x, w, false) == Success([InfoRow(x, w)]);
      }
      assert info == init + [x];
      RowsSnoc(rows, init, x, w);
    }
  }

  lemma RowsSnoc(rows: seq<string>, init: seq<ElementInfo>, x: ElementInfo, w: int)
    requires |rows| == |init| && forall i :: 0 <= i < |init| ==> rows[i] == InfoRow(init[i], w)
    ensures forall i :: 0 <= i < |init| + 1 ==> (rows + [InfoRow(x, w)])[i] == InfoRow((init + [x])[i], w)
  {
  }

  /** Without attributes or legend, the table is the header and one row per record. */
  lemma PlainGroupTable(group: Node, depth: int, printGroups: bool, groupIsFile: bool)
    requires group.Group?
    ensures var info := TableInfo(group, groupIsFile, printGroups, depth);
      var w := 1 + MaxPathLength(info);
      Rows(group, info, w, false).Success? &&
      GroupTable(group, group, groupIsFile, depth, printGroups, false, None) ==
        Success(Table(None, HeaderLines(w) + Rows(group, info, w, false).value))
  {
    var info := TableInfo(group, groupIsFile, printGroups, depth);
    PlainRows(group, info, 1 + MaxPathLength(info));
  }

  /**
    Without attributes or legend, the table of a group is the header, the
    `.` row and one row per record of the walk, in walk order.
  */
  lemma PlainTable(group: Node, depth: int, printGroups: bool, groupIsFile: bool)
    requires group.Group?
    ensures var info := TableInfo(group, groupIsFile, printGroups, depth);
      var w := 1 + MaxPathLength(info);
      var r := PrintInfoSpec(group, None, depth, printGroups, false, None, groupIsFile);
      r.Success? && r.value.Table? && r.value.legend.None? &&
      |r.value.lines| == 4 + |InfoMembers(group, printGroups, depth, MemberShape)| &&
      r.value.lines[..3] == HeaderLines(w) &&
      r.value.lines[3] == InfoRow(RootInfo(group, groupIsFile), w) &&
      forall i :: 0 <= i < |InfoMembers(group, printGroups, depth, MemberShape)| ==>
        r.value.lines[4 + i] == InfoRow(InfoMembers(group, printGroups, depth, MemberShape)[i], w)
  {
    var info := TableInfo(group, groupIsFile, printGroups, depth);
    var w := 1 + MaxPathLength(info);
    PlainGroupTable(group, depth, printGroups, groupIsFile);
    PlainRows(group, info, w);
    var rows := Rows(group, info, w, false).value;
    var lines := HeaderLines(w) + rows;
    assert PrintInfoSpec(group, None, depth, printGroups, false, None, groupIsFile) == Success(Table(None, lines));
    assert lines[..3] == HeaderLines(w);
    forall i | 0 <= i < |InfoMembers(group, printGroups, depth, MemberShape)|
      ensures lines[4 + i] == InfoRow(InfoMembers(group, printGroups, depth, MemberShape)[i], w)
    {
      assert info[1 + i] == InfoMembers(group, printGroups, depth, MemberShape)[i];
    }
  }

  // --------------------------------------------------------------- example

  /** A file with a `float64` dataset `temps` of shape (3, 4) and an empty group `meta` with `units = 'K'`. */
  function ExampleFile(): Node {
    Group([("temps", Dataset("float64", [3, 4], [])), ("meta", Group([], [Attr("units", "str", "K")]))], [])
  }

  lemma ExampleShapes()
    ensures TupleRepr([3, 4]) == "(3, 4)"
    ensures GroupShape(Group([], [Attr("units", "str", "K")])) == "c=0, a=1"
    ensures GroupShape(ExampleFile()) == "c=2, a=0"
  {
    assert TupleRepr([3, 4]) == "(3, 4)" by {
      assert Decimal(3) == "3" && Decimal(4) == "4";
      assert Items([4]) == "4";
      assert Items([3, 4]) == "3, 4";
    }
    assert GroupShape(Group([], [Attr("units", "str", "K")])) == "c=0, a=1" by {
      assert Decimal(0) == "0" && Decimal(1) == "1";
    }
    assert GroupShape(ExampleFile()) == "c=2, a=0" by {
      assert Decimal(2) == "2" && Decimal(0) == "0";
    }
  }

  /** The records of the example table, before any legend. */
  function ExampleInfo(): seq<ElementInfo> {
    [ElementInfo(".", "File", BLANK, "c=2, a=0"),
     ElementInfo("temps", "Dataset", "float64", "s=(3, 4)"),
     ElementInfo("meta", "Group", BLANK, "c=0, a=1")]
  }

  /** Its records: the `.` row, `temps` with `s=(3, 4)`, `meta` with `c=0, a=1`, blank dtypes where no dataset. */
  lemma ExampleRecords()
    ensures TableInfo(ExampleFile(), true, true, 64) == ExampleInfo()
  {
    var g := ExampleFile();
    var temps := g.children[0].1;
    var meta := g.children[1].1;
    assert InfoMembers(meta, true, 63, MemberShape) == [];
    LeafStep(g, 0, true, 64, MemberShape);
    GroupStep(g, 1, true, 64, [], MemberShape);
    assert Nest("meta", []) == [];
    assert InfoMembers(g, true, 64, MemberShape) == [LeafInfo("temps", temps, MemberShape), GroupInfo("meta", meta, MemberShape)];
    ExampleShapes();
    assert LeafInfo("temps", temps, MemberShape) == ElementInfo("temps", "Dataset", "float64", "s=(3, 4)");
    assert GroupInfo("meta", meta, MemberShape) == ElementInfo("meta", "Group", BLANK, "c=0, a=1");
    assert RootInfo(g, true) == ElementInfo(".", "File", BLANK, "c=2, a=0");
  }

  /** The longest path is `temps`. */
  lemma ExampleLongestPath()
    ensures MaxPathLength(ExampleInfo()) == 5
  {
    var info := ExampleInfo();
    assert info[..2][..1] == info[..1];
    assert info[..3] == info;
    assert info[..3][..2] == info[..2];
    assert MaxPathLength(info[..1]) == 1;
    assert MaxPathLength(info[..2]) == 5;
  }

  /** Without attributes: the header and exactly the three rows, in a path column six wide. */
  lemma ExampleTable()
    ensures var info := ExampleInfo();
      PrintInfoSpec(ExampleFile(), None, 64, true, false, None, true) ==
      Success(Table(None, HeaderLines(6) + [InfoRow(info[0], 6), InfoRow(info[1], 6), InfoRow(info[2], 6)]))
  {
    var g := ExampleFile();
    var info := ExampleInfo();
    assert TableInfo(g, true, true, 64) == info && 1 + MaxPathLength(info) == 6 by {
      ExampleRecords();
      ExampleLongestPath();
    }
    var a, b, c := InfoRow(info[0], 6), InfoRow(info[1], 6), InfoRow(info[2], 6);
    assert Rows(g, info, 6, false) == Success([a, b, c]) by {
      RowLinesPlain(g, info[0], 6, false);
      RowLinesPlain(g, info[1], 6, false);
      RowLinesPlain(g, info[2], 6, false);
      RowsOfThree(g, info, 6, false, [a], [b], [c]);
      JoinThree(a, b, c);
    }
    PlainTableOf(g, 64, true, true, 6, [a, b, c]);
  }

  /** Without attributes or legend, the table is the header and the rows, whatever the rows are. */
  lemma PlainTableOf(group: Node, depth: int, printGroups: bool, groupIsFile: bool, w: int, rows: seq<string>)
    requires group.Group?
    ensures var info := TableInfo(group, groupIsFile, printGroups, depth);
      w == 1 + MaxPathLength(info) && Rows(group, info, w, false) == Success(rows) ==>
      PrintInfoSpec(group, None, depth, printGroups, false, None, groupIsFile) == Success(Table(None, HeaderLines(w) + rows))
  {
    assert PrintInfoSpec(group, None, depth, printGroups, false, None, groupIsFile) ==
      GroupTable(group, group, groupIsFile, depth, printGroups, false, None);
    PlainGroupTable(group, depth, printGroups, groupIsFile);
  }

  lemma ExampleLookups()
    ensures Lookup(ExampleFile(), "temps") == Some(Dataset("float64", [3, 4], []))
    ensures Lookup(ExampleFile(), "meta") == Some(Group([], [Attr("units", "str", "K")]))
  {
    var g := ExampleFile();
    SplitAllSingle("temps", '/');
    SplitAllSingle("meta", '/');
    assert ["temps"][1..] == [] && ["meta"][1..] == [];
    assert ChildIndex(g.children, "meta") == 1;
  }

  /** Only `meta` owns an attribute, and its key `units` has five characters. */
  lemma ExampleKeyLengths()
    ensures AttrKeyLengths(ExampleFile(), ExampleInfo()) == Success([5])
  {
    var g := ExampleFile();
    ExampleLookups();
    var info := ExampleInfo();
    var units := Attr("units", "str", "K");
    assert info[0].etype == "File" && info[1].etype == "Dataset" && info[2].etype == "Group";
    assert info[1].path == "temps" && info[2].path == "meta";
    assert info[..0] == [];
    KeyLengthsStep(g, info, 0, []);
    assert AttrKeyLengths(g, info[..1]) == Success([]);
    assert AttrsAt(g, "temps") == Some([]);
    assert [] + KeyLens([]) == [];
    KeyLengthsStep(g, info, 1, []);
    assert AttrKeyLengths(g, info[..2]) == Success([]);
    assert AttrsAt(g, "meta") == Some([units]);
    assert [] + KeyLens([units]) == [5];
    KeyLengthsStep(g, info, 2, []);
    assert info[..3] == info;
  }

  lemma JoinThree<T>(a: T, b: T, c: T)
    ensures [a] + [b] + [c] == [a, b, c]
  {
  }

  lemma JoinFour<T>(a: T, b: T, c: T, d: T)
    ensures [a] + [b] + [c, d] == [a, b, c, d]
  {
  }

  /** Three records' rows, one after the other. */
  lemma RowsOfThree(data: Node, info: seq<ElementInfo>, w: int, printAttr: bool,
                    l0: seq<string>, l1: seq<string>, l2: seq<string>)
    requires |info| == 3
    requires RowLines(data, info[0], w, printAttr) == Success(l0)
    requires RowLines(data, info[1], w, printAttr) == Success(l1)
    requires RowLines(data, info[2], w, printAttr) == Success(l2)
    ensures Rows(data, info, w, printAttr) == Success(l0 + l1 + l2)
  {
    assert info[..0] == [];
    RowsStep(data, info, w, printAttr, 0, []);
    assert [] + l0 == l0;
    RowsStep(data, info, w, printAttr, 1, l0);
    RowsStep(data, info, w, printAttr, 2, l0 + l1);
    assert info[..3] == info;
  }

  /** A record without attribute rows (or with attributes off) is one line. */
  lemma RowLinesPlain(data: Node, x: ElementInfo, w: int, printAttr: bool)
    requires !(printAttr && HasAttrRows(x.etype))
    ensures RowLines(data, x, w, printAttr) == Success([InfoRow(x, w)])
  {
  }

  /** An attribute owner's line is followed by one line per attribute. */
  lemma RowLinesOwner(data: Node, x: ElementInfo, w: int, attrs: seq<Attr>)
    requires HasAttrRows(x.etype) && AttrsAt(data, x.path) == Some(attrs)
    ensures RowLines(data, x, w, true) == Success([InfoRow(x, w)] + AttrRows(attrs, w))
  {
  }

  /** The lines each record of the example contributes when attributes are shown. */
  lemma ExampleRowLines(w: int)
    ensures var info := ExampleInfo();
      && RowLines(ExampleFile(), info[0], w, true) == Success([InfoRow(info[0], w)])
      && RowLines(ExampleFile(), info[1], w, true) == Success([InfoRow(info[1], w)])
      && RowLines(ExampleFile(), info[2], w, true) == Success([InfoRow(info[2], w), AttrRow(Attr("units", "str", "K"), w)])
  {
    var g := ExampleFile();
    ExampleLookups();
    var info := ExampleInfo();
    var units := Attr("units", "str", "K");
    RowLinesPlain(g, info[0], w, true);
    RowLinesOwner(g, info[1], w, []);
    RowLinesOwner(g, info[2], w, [units]);
    assert AttrRows([], w) == [];
    assert [InfoRow(info[1], w)] + [] == [InfoRow(info[1], w)];
    assert AttrRows([units], w) == [AttrRow(units, w)];
    assert [InfoRow(info[2], w)] + [AttrRow(units, w)] == [InfoRow(info[2], w), AttrRow(units, w)];
  }

  /** With attributes, `meta`'s record is followed by the row of its one attribute, whatever the width. */
  lemma ExampleRowsWithAttrs(w: int)
    ensures var info := ExampleInfo();
      Rows(ExampleFile(), info, w, true) ==
      Success([InfoRow(info[0], w), InfoRow(info[1], w), InfoRow(info[2], w), AttrRow(Attr("units", "str", "K"), w)])
  {
    var g := ExampleFile();
    ExampleRowLines(w);
    var info := ExampleInfo();
    var r0 := InfoRow(info[0], w);
    var r1 := InfoRow(info[1], w);
    var u := AttrRow(Attr("units", "str", "K"), w);
    var r2 := InfoRow(info[2], w);
    RowsOfThree(g, info, w, true, [r0], [r1], [r2, u]);
    JoinFour(r0, r1, r2, u);
  }

  /** With attributes: the path column grows to ten for the key `units`, and its row follows `meta`'s. */
  lemma ExampleTableWithAttrs()
    ensures var info := ExampleInfo();
      PrintInfoSpec(ExampleFile(), None, 64, true, true, None, true) ==
      Success(Table(None, HeaderLines(10) + [InfoRow(info[0], 10), InfoRow(info[1], 10), InfoRow(info[2], 10),
                                              AttrRow(Attr("units", "str", "K"), 10)]))
  {
    var g := ExampleFile();
    ExampleKeyLengths();
    ExampleLongestPath();
    ExampleRowsWithAttrs(10);
    ExampleRecords();
    var info := ExampleInfo();
    assert MaxOrZero([5]) == 5 by {
      assert [5][..0] == [];
    }
    assert TableWidth(info, Some([5])) == 10;
  }
}
