/**
  The handful of Python string operations the tool relies on: decimal and
  tuple rendering, `'{:<w}'` padding, `lstrip`/`strip` of one character,
  `split(c, 1)` and `split(c)`.  Strings are `seq<char>`.
*/
module PyStrings {

  import opened Wrappers

  /** The one-space string the tool uses for every empty cell (`blankstr`). */
  const BLANK: string := " "

  predicate IsDigit(c: char) {
    '0' <= c <= '9'
  }

  predicate IsDigits(s: string) {
    forall i :: 0 <= i < |s| ==> IsDigit(s[i])
  }

  function DigitChar(d: nat): (c: char)
    requires d < 10
    ensures IsDigit(c) && c as int - '0' as int == d
  {
    (48 + d) as char
  }

  /** `'%i' % n` and `str(n)` for a natural number. */
  function Decimal(n: nat): (s: string)
    ensures |s| >= 1 && IsDigits(s)
    ensures s[0] == '0' ==> n == 0
  {
    if n < 10 then [DigitChar(n)] else Decimal(n / 10) + [DigitChar(n % 10)]
  }

  /** Value of a string read as decimal digits (each character counts as its code minus '0'). */
  function DigitsValue(s: string): int {
    if s == [] then 0 else 10 * DigitsValue(s[..|s| - 1]) + (s[|s| - 1] as int - '0' as int)
  }

  /** Reading back a rendered number gives the number. */
  lemma {:induction false} DecimalRoundTrip(n: nat)
    ensures DigitsValue(Decimal(n)) == n
  {
    if n >= 10 {
      var s := Decimal(n);
      assert s[..|s| - 1] == Decimal(n / 10);
      DecimalRoundTrip(n / 10);
    }
  }

  lemma DecimalHasNo(n: nat, c: char)
    requires !IsDigit(c)
    ensures c !in Decimal(n)
  {
    var s := Decimal(n);
    assert forall i :: 0 <= i < |s| ==> s[i] != c;
  }

  function Spaces(n: nat): (s: string)
    ensures |s| == n && forall i :: 0 <= i < n ==> s[i] == ' '
  {
    if n == 0 then "" else Spaces(n - 1) + " "
  }

  /** `'{:<w}'.format(s)`: left-aligned in a field of width `w`; a longer string is kept whole. */
  function PadRight(s: string, w: int): (r: string)
    ensures |r| == if |s| < w then w else |s|
    ensures r[..|s|] == s
    ensures forall i :: |s| <= i < |r| ==> r[i] == ' '
  {
    if |s| < w then s + Spaces(w - |s|) else s
  }

  /** `s.lstrip(c)`: drops every leading `c`. */
  function LStrip(s: string, c: char): (r: string)
    ensures |r| <= |s| && r == s[|s| - |r|..]
    ensures r == [] || r[0] != c
  {
    if s != [] && s[0] == c then LStrip(s[1..], c) else s
  }

  /** What `lstrip` drops is all `c`. */
  lemma {:induction false} LStripDrops(s: string, c: char)
    ensures forall i :: 0 <= i < |s| - |LStrip(s, c)| ==> s[i] == c
  {
    if s != [] && s[0] == c {
      LStripDrops(s[1..], c);
    }
  }

  /** `s.rstrip(c)`: drops every trailing `c`. */
  function RStrip(s: string, c: char): (r: string)
    ensures |r| <= |s| && r == s[..|r|]
    ensures r == [] || r[|r| - 1] != c
  {
    if s != [] && s[|s| - 1] == c then RStrip(s[..|s| - 1], c) else s
  }

  /** What `rstrip` drops is all `c`. */
  lemma {:induction false} RStripDrops(s: string, c: char)
    ensures forall i :: |RStrip(s, c)| <= i < |s| ==> s[i] == c
  {
    if s != [] && s[|s| - 1] == c {
      RStripDrops(s[..|s| - 1], c);
    }
  }

  /** `s.strip(c)`: drops `c` from both ends and keeps the middle untouched. */
  function Strip(s: string, c: char): (r: string)
    ensures |r| <= |s|
    ensures r == [] || (r[0] != c && r[|r| - 1] != c)
    ensures exists i, j ::
              && 0 <= i <= j <= |s| && r == s[i..j]
              && (forall k :: 0 <= k < i ==> s[k] == c)
              && (forall k :: j <= k < |s| ==> s[k] == c)
  {
    var l := LStrip(s, c);
    var r := RStrip(l, c);
    LStripDrops(s, c);
    RStripDrops(l, c);
    var i := |s| - |l|;
    assert r == s[i..i + |r|];
    assert forall k :: i + |r| <= k < |s| ==> s[k] == l[k - i];
    assert r == [] || r[0] == l[0];
    r
  }

  /** Stripping leaves alone a string that neither starts nor ends with `c`. */
  lemma StripUnchanged(s: string, c: char)
    requires s == [] || (s[0] != c && s[|s| - 1] != c)
    ensures Strip(s, c) == s
  {
  }

  /** Stripping removes one `c` on each side of a string that does not itself start or end with `c`. */
  lemma StripEnclosed(s: string, c: char)
    requires s == [] || (s[0] != c && s[|s| - 1] != c)
    ensures Strip([c] + s + [c], c) == s
  {
    var t := [c] + s + [c];
    var u := s + [c];
    assert t[1..] == u;
    if s == [] {
      assert u[1..] == [];
      assert LStrip(u, c) == LStrip([], c);
    } else {
      assert u[0] == s[0];
      assert LStrip(u, c) == u;
      assert u[..|u| - 1] == s;
      assert RStrip(u, c) == RStrip(s, c);
    }
  }

  /** Index of the first `c` in `s`, or `|s|` when there is none. */
  function IndexOf(s: string, c: char): (i: nat)
    ensures i <= |s|
    ensures i < |s| ==> s[i] == c
    ensures forall j :: 0 <= j < i ==> s[j] != c
  {
    if s == [] || s[0] == c then 0 else 1 + IndexOf(s[1..], c)
  }

  lemma IndexOfAt(a: string, b: string, c: char)
    requires c !in a && b != [] && b[0] == c
    ensures IndexOf(a + b, c) == |a|
  {
    assert forall j :: 0 <= j < |a| ==> (a + b)[j] == a[j] != c;
    assert (a + b)[|a|] == c;
  }

  lemma IndexOfNone(a: string, c: char)
    requires c !in a
    ensures IndexOf(a, c) == |a|
  {
    assert forall j :: 0 <= j < |a| ==> a[j] != c;
  }

  /** `s.split(c, 1)`: `None` for a one-element result, otherwise the text before and after the first `c`. */
  function SplitFirst(s: string, c: char): (r: Option<(string, string)>)
    ensures r.None? <==> c !in s
    ensures r.Some? ==> s == r.value.0 + [c] + r.value.1 && c !in r.value.0
  {
    var i := IndexOf(s, c);
    if i == |s| then
      None
    else
      assert s == s[..i] + [c] + s[i + 1..];
      Some((s[..i], s[i + 1..]))
  }

  /** Splitting at the first `c` undoes joining with `c`, whatever follows it. */
  lemma SplitFirstJoin(a: string, b: string, c: char)
    requires c !in a
    ensures SplitFirst(a + [c] + b, c) == Some((a, b))
  {
    var s := a + [c] + b;
    IndexOfAt(a, [c] + b, c);
    assert s == a + ([c] + b);
    assert s[..|a|] == a && s[|a| + 1..] == b;
  }

  /** `s.split(c)`: the (possibly empty) pieces between the occurrences of `c`. */
  function SplitAll(s: string, c: char): (parts: seq<string>)
    ensures |parts| >= 1
    decreases |s|
  {
    var i := IndexOf(s, c);
    if i == |s| then [s] else [s[..i]] + SplitAll(s[i + 1..], c)
  }

  lemma SplitAllSingle(k: string, c: char)
    requires c !in k
    ensures SplitAll(k, c) == [k]
  {
    IndexOfNone(k, c);
  }

  /** A path whose first piece is not empty neither is empty nor starts with the separator. */
  lemma SplitAllHead(p: string, c: char)
    requires SplitAll(p, c)[0] != []
    ensures p != [] && p[0] != c
  {
    var i := IndexOf(p, c);
    assert SplitAll(p, c)[0] == p[..i];
  }

  /** A path that splits into one piece has no separator and is that piece. */
  lemma SplitAllOne(p: string, c: char)
    requires |SplitAll(p, c)| == 1
    ensures c !in p && SplitAll(p, c) == [p]
  {
    assert IndexOf(p, c) == |p|;
    assert forall j :: 0 <= j < |p| ==> p[j] != c;
  }

  /** A path that splits into several pieces is its first piece, the separator, and the rest. */
  lemma SplitAllUncons(p: string, c: char)
    requires |SplitAll(p, c)| > 1
    ensures exists rest :: p == SplitAll(p, c)[0] + [c] + rest && SplitAll(rest, c) == SplitAll(p, c)[1..]
  {
    var i := IndexOf(p, c);
    assert i < |p|;
    var rest := p[i + 1..];
    assert p == p[..i] + [c] + rest;
    assert SplitAll(p, c) == [p[..i]] + SplitAll(rest, c);
  }

  /** Joining a separator-free head onto a path adds exactly one leading piece. */
  lemma SplitAllCons(k: string, p: string, c: char)
    requires c !in k
    ensures SplitAll(k + [c] + p, c) == [k] + SplitAll(p, c)
  {
    var s := k + [c] + p;
    IndexOfAt(k, [c] + p, c);
    assert s == k + ([c] + p);
    assert s[..|k|] == k;
    assert s[|k| + 1..] == p;
  }

  /** Python's `", ".join(str(d) for d in s)`. */
  function Items(s: seq<nat>): (r: string)
    requires |s| >= 1
    ensures r != [] && IsDigit(r[|r| - 1])
  {
    if |s| == 1 then Decimal(s[0]) else Decimal(s[0]) + ", " + Items(s[1..])
  }

  /** `str(t)` for a tuple of natural numbers: `()`, `(3,)`, `(3, 4)`. */
  function TupleRepr(s: seq<nat>): (r: string)
    ensures |r| >= 2 && r[0] == '(' && r[|r| - 1] == ')'
  {
    if |s| == 0 then "()"
    else if |s| == 1 then "(" + Decimal(s[0]) + ",)"
    else "(" + Items(s) + ")"
  }

  /** Reads back a comma-and-space separated list of numbers. */
  function ParseItems(t: string): seq<int>
    decreases |t|
  {
    var i := IndexOf(t, ',');
    if i == |t| then [DigitsValue(t)]
    else [DigitsValue(t[..i])] + ParseItems(if i + 2 <= |t| then t[i + 2..] else [])
  }

  /** Reads back the tuple rendering of `TupleRepr`. */
  function ParseTuple(r: string): seq<int> {
    if |r| < 2 then []
    else
      var inner := r[1..|r| - 1];
      if inner == [] then []
      else if inner[|inner| - 1] == ',' then [DigitsValue(inner[..|inner| - 1])]
      else ParseItems(inner)
  }

  lemma ParseItemsCons(d: string, rest: string)
    requires ',' !in d
    ensures ParseItems(d + ", " + rest) == [DigitsValue(d)] + ParseItems(rest)
  {
    var t := d + ", " + rest;
    assert t == d + (", " + rest);
    IndexOfAt(d, ", " + rest, ',');
    assert t[..|d|] == d;
    assert t[|d| + 2..] == rest;
  }

  lemma {:induction false} ParseItemsRoundTrip(s: seq<nat>)
    requires |s| >= 1
    ensures ParseItems(Items(s)) == s
  {
    var d := Decimal(s[0]);
    DecimalHasNo(s[0], ',');
    DecimalRoundTrip(s[0]);
    if |s| == 1 {
      IndexOfNone(d, ',');
    } else {
      ParseItemsCons(d, Items(s[1..]));
      ParseItemsRoundTrip(s[1..]);
      assert s == [s[0]] + s[1..];
    }
  }

  /** The shape tuple can be read back from its rendering. */
  lemma TupleReprRoundTrip(s: seq<nat>)
    ensures ParseTuple(TupleRepr(s)) == s
  {
    var r := TupleRepr(s);
    if |s| == 1 {
      var d := Decimal(s[0]);
      assert r[1..|r| - 1] == d + ",";
      assert (d + ",")[..|d|] == d;
      DecimalRoundTrip(s[0]);
    } else if |s| > 1 {
      assert r[1..|r| - 1] == Items(s);
      ParseItemsRoundTrip(s);
    }
  }
}
