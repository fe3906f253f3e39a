/**
  `read_cmd`: a list of command-line words becomes a dictionary from flag
  names to values.  Leading dashes are dropped, the first `=` separates the
  name from the value, and a word without `=` maps its name to `True`.  A
  flag given twice keeps its last value.
*/
module CmdLine {

  import opened Wrappers
  import opened PyStrings

  /** A dictionary value: `True` for a bare flag, otherwise the text after the first `=`. */
  datatype ArgValue = BareFlag | Value(text: string)

  /** One word, split as `x.lstrip('-').split('=', 1)`, padded with `True` when there is no `=`. */
  function SplitArg(x: string): (string, ArgValue) {
    match SplitFirst(LStrip(x, '-'), '=')
    case None => (LStrip(x, '-'), BareFlag)
    case Some((name, rest)) => (name, Value(rest))
  }

  /**
    What a word means: without `=` (after the dashes) it is a bare flag of
    that name, otherwise the name stops at the first `=` and the value is
    everything after it.
  */
  lemma SplitArgMeaning(x: string)
    ensures var y := LStrip(x, '-');
      var r := SplitArg(x);
      && (r.1.BareFlag? <==> '=' !in y)
      && (r.1.BareFlag? ==> r.0 == y)
      && (r.1.Value? ==> y == r.0 + "=" + r.1.text && '=' !in r.0)
  {
  }

  /** Every word, split, in order. */
  function SplitArgs(argv: seq<string>): (ps: seq<(string, ArgValue)>)
    ensures |ps| == |argv|
  {
    if argv == [] then [] else SplitArgs(argv[..|argv| - 1]) + [SplitArg(argv[|argv| - 1])]
  }

  lemma {:induction false} SplitArgsAt(argv: seq<string>, i: nat)
    requires i < |argv|
    ensures SplitArgs(argv)[i] == SplitArg(argv[i])
  {
    if i < |argv| - 1 {
      SplitArgsAt(argv[..|argv| - 1], i);
    }
  }

  /** `output[pair[0]] = pair[1]` for each pair in turn: a later pair overwrites an earlier one. */
  function PairDict(ps: seq<(string, ArgValue)>): map<string, ArgValue> {
    if ps == [] then map[]
    else PairDict(ps[..|ps| - 1])[ps[|ps| - 1].0 := ps[|ps| - 1].1]
  }

  /** The dictionary `read_cmd(argv)` returns. */
  function ArgDict(argv: seq<string>): map<string, ArgValue> {
    PairDict(SplitArgs(argv))
  }

  /** One more word adds (or overwrites) its own entry. */
  lemma ArgDictSnoc(ws: seq<string>, x: string)
    ensures ArgDict(ws + [x]) == ArgDict(ws)[SplitArg(x).0 := SplitArg(x).1]
  {
    var v := ws + [x];
    var ps := SplitArgs(v);
    assert ps == SplitArgs(ws) + [SplitArg(x)] by {
      assert v[..|v| - 1] == ws && v[|v| - 1] == x;
    }
    assert ps[..|ps| - 1] == SplitArgs(ws) && ps[|ps| - 1] == (SplitArg(x).0, SplitArg(x).1);
  }

  lemma ArgDictStep(argv: seq<string>, i: nat)
    requires i < |argv|
    ensures ArgDict(argv[..i + 1]) == ArgDict(argv[..i])[SplitArg(argv[i]).0 := SplitArg(argv[i]).1]
  {
    assert argv[..i + 1] == argv[..i] + [argv[i]];
    ArgDictSnoc(argv[..i], argv[i]);
  }

  /** `read_cmd`, loop for loop. */
  method ReadCmd(argv: seq<string>) returns (output: map<string, ArgValue>)
    ensures output == ArgDict(argv)
  {
    output := map[];
    var i := 0;
    while i < |argv|
      invariant 0 <= i <= |argv|
      invariant output == ArgDict(argv[..i])
    {
      var x := LStrip(argv[i], '-');
      var pair := SplitFirst(x, '=');
      ArgDictStep(argv, i);
      if pair.None? {
        output := output[x := BareFlag];
      } else {
        output := output[pair.value.0 := Value(pair.value.1)];
      }
      i := i + 1;
    }
    assert argv[..i] == argv;
  }

  lemma {:induction false} PairDictKeys(ps: seq<(string, ArgValue)>, k: string)
    ensures k in PairDict(ps) <==> exists i :: 0 <= i < |ps| && ps[i].0 == k
  {
    if ps != [] {
      var init := ps[..|ps| - 1];
      PairDictKeys(init, k);
      if exists i :: 0 <= i < |ps| && ps[i].0 == k {
        var i :| 0 <= i < |ps| && ps[i].0 == k;
        if i < |ps| - 1 {
          assert init[i] == ps[i];
        }
      }
    }
  }

  /** The dictionary's keys are exactly the names of the words. */
  lemma ArgDictKeys(argv: seq<string>, k: string)
    ensures k in ArgDict(argv) <==> exists i :: 0 <= i < |argv| && SplitArg(argv[i]).0 == k
  {
    var ps := SplitArgs(argv);
    PairDictKeys(ps, k);
    if exists i :: 0 <= i < |ps| && ps[i].0 == k {
      var i :| 0 <= i < |ps| && ps[i].0 == k;
      SplitArgsAt(argv, i);
    }
    if exists i :: 0 <= i < |argv| && SplitArg(argv[i]).0 == k {
      var i :| 0 <= i < |argv| && SplitArg(argv[i]).0 == k;
      SplitArgsAt(argv, i);
    }
  }

  lemma {:induction false} PairDictLastWins(ps: seq<(string, ArgValue)>, i: nat)
    requires i < |ps|
    requires forall j :: i < j < |ps| ==> ps[j].0 != ps[i].0
    ensures ps[i].0 in PairDict(ps) && PairDict(ps)[ps[i].0] == ps[i].1
  {
    if i < |ps| - 1 {
      PairDictLastWins(ps[..|ps| - 1], i);
    }
  }

  /** A flag's value is the one from the last word that names it. */
  lemma ArgDictLastWins(argv: seq<string>, i: nat)
    requires i < |argv|
    requires forall j :: i < j < |argv| ==> SplitArg(argv[j]).0 != SplitArg(argv[i]).0
    ensures SplitArg(argv[i]).0 in ArgDict(argv) && ArgDict(argv)[SplitArg(argv[i]).0] == SplitArg(argv[i]).1
  {
    var ps := SplitArgs(argv);
    SplitArgsAt(argv, i);
    forall j | i < j < |ps|
      ensures ps[j].0 != ps[i].0
    {
      SplitArgsAt(argv, j);
    }
    PairDictLastWins(ps, i);
  }

  /** The word that `SplitArg` reads back as `(name, value)`. */
  function JoinArg(name: string, value: ArgValue): string {
    match value
    case BareFlag => name
    case Value(t) => name + "=" + t
  }

  function Dashes(n: nat): string {
    if n == 0 then "" else "-" + Dashes(n - 1)
  }

  lemma LStripDashes(n: nat, y: string)
    requires y == [] || y[0] != '-'
    ensures LStrip(Dashes(n) + y, '-') == y
  {
    AllDashes(n);
    LStripSkips(Dashes(n), y, '-');
  }

  lemma {:induction false} AllDashes(n: nat)
    ensures |Dashes(n)| == n && forall i :: 0 <= i < n ==> Dashes(n)[i] == '-'
  {
    if n > 0 {
      AllDashes(n - 1);
    }
  }

  /** `lstrip(c)` skips a run of `c` up to the first other character. */
  lemma {:induction false} LStripSkips(p: string, y: string, c: char)
    requires forall i :: 0 <= i < |p| ==> p[i] == c
    requires y == [] || y[0] != c
    ensures LStrip(p + y, c) == y
    decreases |p|
  {
    if p != [] {
      assert (p + y)[0] == c && (p + y)[1..] == p[1..] + y;
      LStripSkips(p[1..], y, c);
    } else {
      assert p + y == y;
    }
  }

  /**
    Any number of dashes before a name (free of `=`, not starting with a dash)
    and its optional `=value` reads back as that name and value; the value
    may itself contain `=`.
  */
  lemma SplitJoin(n: nat, name: string, value: ArgValue)
    requires '=' !in name && (name == [] || name[0] != '-')
    ensures SplitArg(Dashes(n) + JoinArg(name, value)) == (name, value)
  {
    match value
    case BareFlag =>
      LStripDashes(n, name);
    case Value(t) =>
      var y := name + "=" + t;
      assert y[0] != '-' by {
        if name == [] {
          assert y[0] == '=';
        } else {
          assert y[0] == name[0];
        }
      }
      LStripDashes(n, y);
      SplitFirstJoin(name, t, '=');
  }
}
