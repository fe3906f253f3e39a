# hdf5_tools in Dafny

A model of the introspection core of `hdf5_tools`. This is the part of
`hdf5_tools.py` and `h5view.py` that walks an HDF5 group, classifies its
members, rewrites dataset types through a legend, and lays out the
fixed-width table that `h5view` prints. Properties of that behaviour are
proved alongside it.

An HDF5 file is modelled as a value tree (`H5Tree.Node`). Each node is one of:

- a group, with named members in iteration order;
- a dataset, with a dtype name and a shape;
- a named datatype;
- an object of another class, which carries its printed class name and maybe a shape.

Every node carries its attributes as key, value class name and printed value.
A path is resolved the way `group[path]` and `path in group` resolve it:

- the empty name names nothing;
- a path that starts with `/` is resolved from the root of the file, any other from the group;
- the path is split on `/`, empty and `.` segments stay in place, and any other segment goes to the member with that name.

The modules follow the program:

- `PyStrings`: the Python string operations the program relies on:
  - `%i` and `str(tuple)`;
  - `{:<n}`;
  - `lstrip`, `rstrip` and `strip`;
  - `split(c, 1)` and `split(c)`.
- `H5Tree`: the tree and the element classifier:
  - `get_group_shape` is `GroupShape`;
  - `get_shape_general` is `ShapeGeneral`;
  - the `TYPENAMES` lookup is `TypeName`;
  - `group[path]` is `Lookup` for a relative path and `Open` for any path.
- `Records`: `ElementInfo` and predicates over record lists.
- `Traversal`: `info_members_recursive`. Its specification function is `InfoMembers`. That function takes the info-column function `shape` as a parameter; the program's behaviour is the instance `MemberShape` (`get_shape_general` of the member). The method `InfoMembersRecursive` is the loop itself.
- `Listing`: `list_members_recursive` and `list_members_recursive_tablesOnly`:
  - the specification of the listing is `ListMembers`;
  - the filter as written is `KeepTables`.
- `Legend`: `read_map_dtypes` and the dtype substitution in `print_info`.
- `CmdLine`: `read_cmd`. It is identical in `hdf5_tools.py:18-41` and `h5view.py:39-55`, and one model serves both. Its specification is `ArgDict`.
- `H5View`: `main` of `h5view.py`:
  - the argument checks;
  - the help test;
  - the `-a`, `-d`, `-p` and `-m` flags;
  - the call to `print_info` on the file's root.

  `CommandLine` specifies `main` up to the `print_info` call, and `View` specifies the whole run.
- `Report`: `print_info`:
  - the `.` root record;
  - the column width, including the attribute key lengths;
  - the legend and dtype mapping;
  - the header;
  - one row per record and one row per attribute.

  `PrintInfoSpec` specifies `print_info`. `FormatRow` is the `FMT_row` format of line 272, and `HeaderLines` gives the three header lines of lines 302-308.

Python exceptions become `Failure` values:

- `KeyError` for a missing `-p` or `-m` path, or a missing attribute owner;
- `TypeError` for iterating a non-group;
- `ValueError` from `int()`;
- `AttributeError` when a flag that needs a value is given bare.

Each function that loops in the source has a `method` that runs the same loop. Its postcondition ties the result to a recursive specification function, and the properties are lemmas about those functions.

Where the code and its written description differ, the model follows the code:

- With `with_groups` false, `info_members_recursive` drops only the direct sub-group records. The recursive call at lines 94-98 always passes `with_groups = True`, so deeper groups are still listed (`Traversal.WithoutGroups`, `Traversal.NestedGroupKept`).
- There is no check that `depth` is at least 1. A depth of 1 or less lists every member flat (`Traversal.DepthOneFlat`).
- Line 262 of `hdf5_tools.py` has no colon after `for a in data[x.path].attrs`. It is modelled as the loop it evidently is: over the attribute keys, adding each key's length.
- `print_info`'s `output` parameter is never used, and the model has no such parameter.

## Model

| member | source | states |
|---|---|---|
| PyStrings.Decimal | hdf5_tools/hdf5_tools.py:58-61 | `%i` of a count is a nonempty run of digits, with no leading zero unless the count is 0 |
| PyStrings.DecimalRoundTrip | hdf5_tools/hdf5_tools.py:58-61 | reading the digits back gives the count, so `%i` loses nothing |
| PyStrings.PadRight | hdf5_tools/hdf5_tools.py:208 | `{:<n}` keeps the whole text, fills with spaces up to width n and never truncates |
| PyStrings.LStrip | hdf5_tools/hdf5_tools.py:35 | `lstrip(c)` leaves a suffix of the text that does not start with c |
| PyStrings.LStripDrops | hdf5_tools/hdf5_tools.py:35 | every character `lstrip(c)` removed was c |
| PyStrings.RStrip | hdf5_tools/h5view.py:85 | `rstrip(c)` leaves a prefix of the text that does not end with c |
| PyStrings.RStripDrops | hdf5_tools/h5view.py:85 | every character `rstrip(c)` removed was c |
| PyStrings.Strip | hdf5_tools/h5view.py:68 | `strip(c)` is a middle slice of the text; everything cut from either end is c; the result neither starts nor ends with c |
| PyStrings.StripUnchanged | hdf5_tools/h5view.py:85 | a text that neither starts nor ends with c is left as it is |
| PyStrings.StripEnclosed | hdf5_tools/h5view.py:85 | one c on each side of such a text is removed exactly |
| PyStrings.SplitFirst | hdf5_tools/hdf5_tools.py:36 | `split('=', 1)` has one part if and only if there is no `=`; otherwise the word is the first part, `=`, then the rest, and the first part has no `=` |
| PyStrings.SplitFirstJoin | hdf5_tools/hdf5_tools.py:36 | splitting `a=b` with no `=` in a gives back a and b |
| PyStrings.SplitAllCons | hdf5_tools/hdf5_tools.py:110 | the segments of `k + '/' + p` are k followed by the segments of p |
| PyStrings.TupleRepr | hdf5_tools/hdf5_tools.py:65 | `str(shape)` is parenthesised |
| PyStrings.TupleReprRoundTrip | hdf5_tools/hdf5_tools.py:65 | the printed shape, in any of the forms `()`, `(3,)` or `(3, 4)`, determines the shape |
| H5Tree.GroupShapeRoundTrip | hdf5_tools/hdf5_tools.py:57-61 | the `c=…, a=…` text of a group gives back its member count and attribute count |
| H5Tree.ShapeOfText | hdf5_tools/hdf5_tools.py:63-71 | `get_shape_general` of a string (no `shape`, not a group or dataset) is the blank string |
| H5Tree.ChildIndex | hdf5_tools/hdf5_tools.py:226 | `group[k]` finds the first member named k, or reports that there is none |
| H5Tree.LookupDot | hdf5_tools/hdf5_tools.py:262 | the root record's path `.` names the group itself |
| H5Tree.ChildIndexUnique | hdf5_tools/hdf5_tools.py:92-93 | in a group with distinct member names, `root_group[k]` for an iterated k is that very member |
| H5Tree.OpenEmpty | hdf5_tools/hdf5_tools.py:226 | the empty name names nothing, so `group['']` raises and `'' in group` is false |
| H5Tree.OpenRoot | hdf5_tools/hdf5_tools.py:277 | `/` names the file's root, from whichever group it is looked up |
| H5Tree.OpenAbsolute | hdf5_tools/hdf5_tools.py:277-280 | a path that starts with `/` is resolved below the file's root, whatever group it is looked up in |
| H5Tree.OpenRelative | hdf5_tools/hdf5_tools.py:226 | any other path is resolved from the group itself |
| H5Tree.ResolveStep | hdf5_tools/hdf5_tools.py:226 | a path that resolves from a group goes through the member named by its first segment |
| H5Tree.ResolveBelowGroup | hdf5_tools/hdf5_tools.py:226 | only a group has members, so a path with a real segment resolves only from a group |
| H5Tree.ResolveWellFormed | hdf5_tools/hdf5_tools.py:226 | what a path reaches in a well-formed file is well-formed |
| H5Tree.ResolveChild | hdf5_tools/hdf5_tools.py:226 | in a well-formed group, a member's name followed by a rest of path continues from that member |
| Traversal.InfoMembersRecursive | hdf5_tools/hdf5_tools.py:81-126 | the loop returns exactly the records the specification gives, for any group, flag and depth |
| Traversal.AppendNested | hdf5_tools/hdf5_tools.py:108-114 | the inner loop appends the sub-walk's records re-rooted under k, in order |
| Traversal.GroupStep | hdf5_tools/hdf5_tools.py:93-116 | a sub-group descended into contributes its own `Group` record when `with_groups` is set, then the nested records |
| Traversal.LeafStep | hdf5_tools/hdf5_tools.py:118-124 | a member that is not descended into contributes exactly its own record |
| Traversal.NestAt | hdf5_tools/hdf5_tools.py:109-114 | the j-th re-rooted record is sub-record j with path `k/…`, the same type and dtype, and blank info |
| Traversal.NestMember | hdf5_tools/hdf5_tools.py:109-114 | every re-rooted record comes from some sub-record |
| Traversal.DepthBound | hdf5_tools/hdf5_tools.py:93-98 | no record path has more than max(depth, 1) segments |
| Traversal.RecordInfo | hdf5_tools/hdf5_tools.py:104-123 | a record below a sub-group has blank info, because `get_shape_general` is applied to the info string; a direct record is its member's own record |
| Traversal.DepthOneFlat | hdf5_tools/hdf5_tools.py:93-124 | at depth 1 or less there is one record per member, in order, and sub-groups appear as plain `Group` records |
| Traversal.WithoutGroups | hdf5_tools/hdf5_tools.py:99-107 | with `with_groups` false, the records are those with it true minus the direct sub-group records, in the same order |
| Traversal.NestedGroupKept | hdf5_tools/hdf5_tools.py:94-99 | a group two levels down is still listed when `with_groups` is false |
| Traversal.NestedHaveSlash | hdf5_tools/hdf5_tools.py:110 | every re-rooted path contains `/` |
| Traversal.DistinctNest | hdf5_tools/hdf5_tools.py:110 | re-rooting keeps distinct paths distinct |
| Traversal.FirstSegment | hdf5_tools/hdf5_tools.py:110 | every record a member contributes has that member's name as its first path segment |
| Traversal.PathsDistinct | hdf5_tools/hdf5_tools.py:81-126 | in a well-formed group no two records share a path |
| Traversal.PathsResolve | hdf5_tools/hdf5_tools.py:81-126 | every record's path leads to a member whose type name is the record's type |
| Traversal.PathsRelative | hdf5_tools/hdf5_tools.py:110 | every record path starts with a member's name, so it is neither empty nor absolute |
| Traversal.ChildInInfo | hdf5_tools/hdf5_tools.py:116-124 | the records a member adds stay in the output, whatever the later members add |
| Traversal.PathsListed | hdf5_tools/hdf5_tools.py:81-126 | every member within max(depth, 1) levels is listed: a valid path that resolves and has no more segments than that is some record's path, except a direct sub-group descended into when `with_groups` is false |
| Traversal.PathOfChild | hdf5_tools/hdf5_tools.py:93-124 | a path within reach that starts with member k's name is the path of one of the records k adds |
| Traversal.RestOfPath | hdf5_tools/hdf5_tools.py:110 | a path of several segments is its first segment, `/`, and a valid rest that resolves below that member |
| Traversal.NestedRecord | hdf5_tools/hdf5_tools.py:108-114 | a sub-record with path q is re-rooted under k with path `k/q` |
| Traversal.DescendedGroupUnlisted | hdf5_tools/hdf5_tools.py:99-107 | that exception is real: without `with_groups`, a direct sub-group descended into has no record |
| Listing.PrefixAll | hdf5_tools/hdf5_tools.py:141-144 | the comprehension puts `k/` in front of each sub-path and keeps their order |
| Listing.ListMembersRecursive | hdf5_tools/hdf5_tools.py:129-148 | the loop returns exactly the specified listing |
| Listing.ListGroupStep | hdf5_tools/hdf5_tools.py:140-144 | a sub-group contributes its own listing under its name |
| Listing.ListLeafStep | hdf5_tools/hdf5_tools.py:145-146 | any other member contributes its name |
| Listing.EmptyGroupListsNothing | hdf5_tools/hdf5_tools.py:138-148 | an empty group lists nothing |
| Listing.ListedAreLeaves | hdf5_tools/hdf5_tools.py:129-148 | every listed path is a valid path to a member that is not a group |
| Listing.LeavesAreListed | hdf5_tools/hdf5_tools.py:129-148 | every valid path to a member that is not a group is listed |
| Listing.ListedIffLeaf | hdf5_tools/hdf5_tools.py:129-148 | a path is listed if and only if it is a valid path to a member that is not a group |
| Listing.KeepTablesNone | hdf5_tools/hdf5_tools.py:152-155 | the filter `is_Dataset(g)` over path strings keeps nothing |
| Listing.ListMembersRecursiveTablesOnly | hdf5_tools/hdf5_tools.py:150-156 | as written, the function returns the empty list for every group |
| Listing.TablesOnlyMissesDataset | hdf5_tools/hdf5_tools.py:150-156 | for a file with one dataset `x`, the function as written returns `[]` and the corrected one returns `["x"]` |
| Listing.KeepDatasets | hdf5_tools/hdf5_tools.py:150-156 | the corrected filter keeps exactly the listed paths that name datasets |
| Listing.ListDatasetsRecursive | hdf5_tools/hdf5_tools.py:150-156 | the corrected loop returns the listing filtered to dataset paths |
| Listing.DatasetsListedIff | hdf5_tools/hdf5_tools.py:150-156 | corrected: a path is returned if and only if it is a valid path to a dataset |
| Legend.AttrDict | hdf5_tools/hdf5_tools.py:353 | `dict(attrs)` has exactly the attribute keys |
| Legend.AttrDictAt | hdf5_tools/hdf5_tools.py:353 | with distinct keys, each key maps to its own value |
| Legend.InvertAttrs | hdf5_tools/hdf5_tools.py:355-358 | the inverted map's keys are exactly the attribute values, and each maps to a key that carries that value |
| Legend.ReadMapDtypes | hdf5_tools/hdf5_tools.py:332-358 | it fails if and only if `root_group[path]` does (absolute paths from the file's root); otherwise it is the inverted attribute map of that member |
| Legend.LegendInvertsDict | hdf5_tools/hdf5_tools.py:353-358 | read from a file, the legend inverts `dict(attrs)`: its keys are the dictionary's values, each mapped back to a key with that value |
| Legend.DictOfUniqueKeys | hdf5_tools/hdf5_tools.py:353-358 | with distinct keys, inverting the attribute list is inverting `dict(attrs)` |
| Legend.LaterWins | hdf5_tools/hdf5_tools.py:355-358 | when two keys carry the same value, the later key wins |
| Legend.Inverse | hdf5_tools/hdf5_tools.py:336-341 | an order-free reference inverse: its keys are the map's values, and each leads back to a key with that value |
| Legend.InverseTwice | hdf5_tools/hdf5_tools.py:336-341 | inverting an injective map twice gives it back |
| Legend.DictInjective | hdf5_tools/hdf5_tools.py:353-358 | distinct keys with distinct values make the attribute dictionary injective |
| Legend.InvertIsInverse | hdf5_tools/hdf5_tools.py:355-358 | with distinct keys and values, the comprehension is that reference inverse |
| Legend.SubstDtype | hdf5_tools/hdf5_tools.py:290-295 | a mapped record keeps path, type and info; its dtype is replaced when the legend has it |
| Legend.MapDtypes | hdf5_tools/hdf5_tools.py:289-298 | the mapped list is no longer than the original, and no record in it has the legend's path |
| Legend.MapDtypesMembers | hdf5_tools/hdf5_tools.py:289-298 | a record is in the mapped list if and only if it maps a record not at the legend's path |
| Legend.MapDtypesAppend | hdf5_tools/hdf5_tools.py:289-298 | mapping keeps record order: it distributes over concatenation |
| Legend.MapDtypesLength | hdf5_tools/hdf5_tools.py:297 | exactly the records at the legend's path are dropped |
| Legend.MapDtypesKeepsAll | hdf5_tools/hdf5_tools.py:289-298 | with no record at the legend's path, record i of the result is record i mapped |
| Legend.LegendExample | hdf5_tools/hdf5_tools.py:275-298 | the legend `f4 = 'float32'` renames a `float32` column to `f4` and drops the legend's group |
| CmdLine.SplitArgMeaning | hdf5_tools/hdf5_tools.py:35-38 | a word without `=` after its dashes is a bare flag; otherwise the name stops at the first `=` and the value is everything after it |
| CmdLine.ReadCmd | hdf5_tools/hdf5_tools.py:18-41 | the loop builds exactly the specified dictionary |
| CmdLine.ArgDictSnoc | hdf5_tools/hdf5_tools.py:34-40 | one more word adds or overwrites only its own entry |
| CmdLine.ArgDictKeys | hdf5_tools/hdf5_tools.py:34-40 | a flag is a key if and only if some word splits to that name |
| CmdLine.ArgDictLastWins | hdf5_tools/hdf5_tools.py:40 | a flag's value is the one from its last word |
| CmdLine.LStripDashes | hdf5_tools/hdf5_tools.py:35 | any number of leading dashes is removed, and nothing more |
| CmdLine.SplitJoin | hdf5_tools/hdf5_tools.py:35-40 | dashes, a name free of `=` and an optional `=value` read back as that name and value |
| H5View.ParseSigned | hdf5_tools/h5view.py:80 | `int()` reads back any integer's decimal form |
| H5View.UnquoteMeaning | hdf5_tools/h5view.py:85 | a path in double or single quotes loses exactly its quotes, and an unquoted path is kept |
| H5View.Configure | hdf5_tools/h5view.py:72-90 | the flags give a run on that file name; it succeeds if and only if `-d` reads as an integer and `-p` and `-m` carry values; a bad `-d` gives its depth error; on success `printAttr` is whether `-a` is given, whatever its value, and depth, path and legend path are what `-d`, `-p` and `-m` give |
| H5View.ReadFlags | hdf5_tools/h5view.py:72-90 | the flag tests, in `main`'s order, give exactly the specified outcome |
| H5View.ParseCommandLine | hdf5_tools/h5view.py:57-90 | `main`'s argument handling gives exactly the specified outcome |
| H5View.Run | hdf5_tools/h5view.py:57-100 | the whole run gives exactly the specified usage, table, dataset or error |
| H5View.ImproperIffShort | hdf5_tools/h5view.py:59-60 | the argument-count error occurs if and only if there is no file name |
| H5View.HelpIff | hdf5_tools/h5view.py:68-70 | usage is printed if and only if a later word has the name `h`, or the file name stripped of dashes is `h` or `help` |
| H5View.KeyAfterName | hdf5_tools/h5view.py:66 | a flag is read from the words after the file name if and only if one of them has that name |
| H5View.HelpCommand | hdf5_tools/h5view.py:68-70 | usage is printed exactly when the help test holds; the flag handling never yields it |
| H5View.ProgramNameIgnored | hdf5_tools/h5view.py:63-66 | `argv[0]` makes no difference |
| H5View.WordsDict | hdf5_tools/h5view.py:66 | the words `-a`, `-d=…`, `-p=…` and `-m=…` give exactly the intended flags and values |
| H5View.OptionsRoundTrip | hdf5_tools/h5view.py:57-90 | every choice of options, spelled out as flags, is read back as those options |
| H5View.ConfigureFlags | hdf5_tools/h5view.py:72-90 | flags carrying the options' values give those options |
| H5View.DepthFlagOf | hdf5_tools/h5view.py:78-80 | `-d=n` gives depth n |
| H5View.TextFlagOf | hdf5_tools/h5view.py:83-90 | `-p` and `-m` give their unquoted value, and are absent when not given |
| H5View.Defaults | hdf5_tools/h5view.py:72-90 | with no flags: no path, depth 64, no attributes, no legend |
| H5View.DefaultRunShowsFile | hdf5_tools/h5view.py:93-100 | with no flags, the run shows a table without a legend: the three header lines, the `File` row of the root, then the row of each record of the whole file to depth 64, in walk order |
| H5View.TableIffGroupAtPath | hdf5_tools/h5view.py:93-100 | for a well-formed file whose `-p` and `-m` paths exist, a table is shown if and only if `-p` leads to a group |
| H5View.RunTableAligned | hdf5_tools/h5view.py:93-100 | every table the run shows is the header followed by rows aligned on one path column |
| Report.RootInfo | hdf5_tools/hdf5_tools.py:245-250 | the root record has path `.`, type `File` for the file itself and its type name otherwise, a blank dtype, and the group's `c=…, a=…` info |
| Report.TableInfo | hdf5_tools/hdf5_tools.py:245-254 | the records are the root record followed by the walk of the group |
| Report.MaxPathLength | hdf5_tools/hdf5_tools.py:257 | it is the length of some record's path, and no path is longer |
| Report.MaxOrZero | hdf5_tools/hdf5_tools.py:265-269 | it is 0 for no lengths, and otherwise the largest length |
| Report.AttrsAt | hdf5_tools/hdf5_tools.py:262 | `data[p].attrs` exists if and only if p resolves, and then it is that member's attributes |
| Report.KeyLens | hdf5_tools/hdf5_tools.py:262-263 | one length per attribute key, in order |
| Report.KeyLengthsStep | hdf5_tools/hdf5_tools.py:260-263 | a dataset or group record adds its attribute key lengths or raises `KeyError`; any other record adds nothing |
| Report.KeyLengthsCollected | hdf5_tools/hdf5_tools.py:258-263 | when collection succeeds, every dataset and group record resolved and every one of their key lengths was collected |
| Report.KeyLengthsSucceed | hdf5_tools/hdf5_tools.py:258-263 | collection succeeds when every dataset and group record's path resolves |
| Report.CollectAttrKeyLengths | hdf5_tools/hdf5_tools.py:258-263 | the nested loops give exactly the specified lengths or `KeyError` |
| Report.TableWidth | hdf5_tools/hdf5_tools.py:257-270 | the width exceeds every path length by at least 1; with attributes it is at least 5 plus every key length; it is one of those bounds |
| Report.WidthAtLeastTwo | hdf5_tools/hdf5_tools.py:257 | the path column is at least two wide, because the root path `.` is counted |
| Report.RowAligned | hdf5_tools/hdf5_tools.py:272 | a row whose first cell fits starts with a space and that whole cell, and has `: ` at columns w+1 and w+2 |
| Report.AttrRows | hdf5_tools/hdf5_tools.py:317-318 | one row per attribute, in attribute order |
| Report.Rule | hdf5_tools/hdf5_tools.py:302 | the rule is 80 dashes |
| Report.EmitRowLines | hdf5_tools/hdf5_tools.py:314-318 | one pass of the row loop prints the record's row and, when asked for and it owns any, its attribute rows, or raises `KeyError` |
| Report.EmitRows | hdf5_tools/hdf5_tools.py:311-318 | the row loop prints exactly the specified lines, or stops at the first `KeyError` |
| Report.RowsNext | hdf5_tools/hdf5_tools.py:311-318 | one more record extends the lines so far, or ends the loop with its lookup's `KeyError` |
| Report.PrintGroupTable | hdf5_tools/hdf5_tools.py:245-318 | the group part of `print_info` gives exactly the specified table or error |
| Report.PrintLegendTable | hdf5_tools/hdf5_tools.py:275-318 | the legend lookup, the dtype mapping and the row loop give exactly the specified table or error |
| Report.PrintInfo | hdf5_tools/hdf5_tools.py:214-318 | `print_info` gives exactly the specified table, dataset or error |
| Report.RowLinesAligned | hdf5_tools/hdf5_tools.py:314-318 | every line of a record that fits the width is aligned |
| Report.RowsAligned | hdf5_tools/hdf5_tools.py:311-318 | when all records fit, the row loop succeeds and every line is aligned |
| Report.InfoFits | hdf5_tools/hdf5_tools.py:257-270 | the computed width fits every record, and every attribute key indented by four |
| Report.MappedFits | hdf5_tools/hdf5_tools.py:289-298 | the dtype mapping keeps every record fitting |
| Report.GroupTableFits | hdf5_tools/hdf5_tools.py:245-318 | once the key lengths and the legend are found, the table is the header followed by the aligned rows of the mapped records |
| Report.HeaderThenAligned | hdf5_tools/hdf5_tools.py:302-308 | the header followed by aligned rows is an aligned table |
| Report.GroupTableAligned | hdf5_tools/hdf5_tools.py:245-318 | every table for a group is aligned |
| Report.TableAligned | hdf5_tools/hdf5_tools.py:214-318 | every table `print_info` shows is aligned |
| Report.InfoResolves | hdf5_tools/hdf5_tools.py:262 | in a well-formed group every record's path resolves, so `data[x.path]` never raises |
| Report.OwnersRelative | hdf5_tools/hdf5_tools.py:262 | record paths are relative, so `data[x.path]` is looked up from `data` whatever the file's root is |
| Report.TargetWellFormed | hdf5_tools/hdf5_tools.py:225-228 | what `-p` leads to in a well-formed file is well-formed |
| Report.TableIffGroup | hdf5_tools/hdf5_tools.py:225-241 | once the target and legend paths exist, a table is shown if and only if the target is a group |
| Report.MissingMapPathAborts | hdf5_tools/hdf5_tools.py:277-280 | a missing legend path raises `KeyError('invalid path for dtype map:   -m=…')` |
| Report.DatasetNoTable | hdf5_tools/hdf5_tools.py:231-241 | a dataset target prints its array and no table |
| Report.PlainRows | hdf5_tools/hdf5_tools.py:311-314 | without attributes there is exactly one row per record, in record order |
| Report.PlainGroupTable | hdf5_tools/hdf5_tools.py:301-314 | without attributes or legend, the table is the header followed by those rows |
| Report.PlainTable | hdf5_tools/hdf5_tools.py:245-314 | without attributes or legend, the table is the header, the root row, then one row per record of the walk, in walk order |
| Report.ExampleShapes | hdf5_tools/hdf5_tools.py:57-65 | concrete info strings: `(3, 4)`, `c=0, a=1` and `c=2, a=0` |
| Report.ExampleRecords | hdf5_tools/hdf5_tools.py:245-254 | a concrete file's records: the root row, `temps` with `s=(3, 4)`, and `meta` with `c=0, a=1` |
| Report.ExampleLongestPath | hdf5_tools/hdf5_tools.py:257 | its longest path has five characters |
| Report.ExampleLookups | hdf5_tools/hdf5_tools.py:226 | its paths `temps` and `meta` resolve to its members |
| Report.ExampleKeyLengths | hdf5_tools/hdf5_tools.py:258-263 | only `meta` owns an attribute, and its key has five characters |
| Report.ExampleTable | hdf5_tools/hdf5_tools.py:214-314 | its table without attributes has width 6 and three rows |
| Report.ExampleRowLines | hdf5_tools/hdf5_tools.py:314-318 | with attributes, only `meta`'s row is followed by an attribute row |
| Report.ExampleRowsWithAttrs | hdf5_tools/hdf5_tools.py:311-318 | its rows with attributes are the three records followed by `units` |
| Report.ExampleTableWithAttrs | hdf5_tools/hdf5_tools.py:258-318 | its table with attributes has width 10, set by the attribute key, and four rows |

## Left out

- Opening files (`h5py.File`), printing to standard output, `exit(0)` and the usage text are left out. The file's contents are a parameter. The printed output is a value: the table lines with the legend map, or the dataset whose array is printed.
- The legend's printed block (lines 282-286 of `hdf5_tools.py`) is not rendered. The `Table` value carries the legend map it prints.
- When `print_info` is pointed at a dataset, it prints the dataset's attributes, shape, dtype and `np.array` (lines 232-240). This output is not rendered. The model returns the dataset.
- `load_dataset`, `nested_dict_to_attrs` and `get_pathdict_attrs` do file I/O or call `dictmagic`, and are not part of this model.
- Attribute values and numpy dtypes are opaque strings: their `str()` text and their class name. `numpy` printing and `np.ndarray` arguments are left out.
- H5View.Configure: `int()` also accepts surrounding whitespace and `_` digit separators. The model accepts only an optional sign and decimal digits, and a bare `-d` is `int(True)`, which is 1.
- Traversal.InfoMembersRecursive: Python's recursion limit and cyclic group links (hard or soft links back to an ancestor) are not modelled. The tree is finite and acyclic.
- Listing.ListMembersRecursive: as for the walk, links and cycles are not modelled.
- CmdLine.ReadCmd: a bare flag's value is Python's `True`. The model writes it as `BareFlag`, and reading it as text is the `AttributeError` case (`MissingValue`).
- The exception `h5py` raises for the empty name is not told apart: `-p=` raises the `KeyError` of a missing path in the model.
- Report.PrintInfoSpec: the group `print_info` is given is taken to be its file's root, as `h5view` passes it. A path that starts with `/`, given to `print_info` on another group, is not modelled.
- Legend.InvertAttrs: it inverts the attribute list, which is `dict(attrs)` inverted only when the keys are distinct. `WellFormed` demands distinct keys, as HDF5 does, and `Legend.LegendInvertsDict` relies on it.
- Where `h5py` keeps members, in name order or in creation order, is not modelled: a group's members are taken in the order the tree lists them.

## Findings

| source | as written | input that shows it | evidently intended | confidence | as-written member | corrected member |
|---|---|---|---|---|---|---|
| hdf5_tools/hdf5_tools.py:150-156 | `list_members_recursive_tablesOnly` filters the listed path strings with `is_Dataset(g)`. A string is never an `h5py.Dataset`, so the result is always empty. | A file with one dataset `x`: the listing is `["x"]` and the function returns `[]`. | Keep the listed paths whose member `root_group[g]` is a dataset. | not executed | Listing.TablesOnlyMissesDataset | Listing.DatasetsListedIff |
