/**
 * The table/column locator: `_part` splits a dotted `db.table.column`
 * identifier, `_alias` resolves a `"table as alias"` table specification.
 */
module Identifiers {
  import opened Text
  import opened Values

  datatype PartKind = DbPart | TablePart | ColumnPart

  /**
   * `_part(name, kind)`: a name without a dot is a bare column; otherwise it
   * is split on "." and two pieces are table and column, three are db, table
   * and column, and any other count leaves every part undefined (`None`).
   */
  function Part(name: string, kind: PartKind): (r: Option<string>)
  {
    if IndexOf(name, ".") == -1 then
      if kind == ColumnPart then Some(name) else None
    else
      var a := Split(name, ".");
      if |a| == 3 then
        match kind
        case DbPart => Some(a[0])
        case TablePart => Some(a[1])
        case ColumnPart => Some(a[2])
      else if |a| == 2 then
        match kind
        case DbPart => None
        case TablePart => Some(a[0])
        case ColumnPart => Some(a[1])
      else None
  }

  /** A segment of a dotted identifier: it holds no ".". */
  predicate Segment(s: string)
  {
    IndexOf(s, ".") == -1
  }

  /**
   * Reading back a dotted identifier: joining one to three dot-free segments
   * with "." and asking `Part` for each kind gives the segments back in the
   * roles db, table, column (right-aligned); four or more give nothing.
   */
  lemma {:induction false} PartOfDotted(segs: seq<string>)
    requires |segs| >= 1
    requires forall i :: 0 <= i < |segs| ==> Segment(segs[i])
    ensures var name := Join(segs, ".");
      && (|segs| == 1 ==>
            Part(name, ColumnPart) == Some(segs[0]) && Part(name, TablePart) == None && Part(name, DbPart) == None)
      && (|segs| == 2 ==>
            Part(name, ColumnPart) == Some(segs[1]) && Part(name, TablePart) == Some(segs[0]) && Part(name, DbPart) == None)
      && (|segs| == 3 ==>
            Part(name, ColumnPart) == Some(segs[2]) && Part(name, TablePart) == Some(segs[1]) && Part(name, DbPart) == Some(segs[0]))
      && (|segs| >= 4 ==>
            Part(name, ColumnPart) == None && Part(name, TablePart) == None && Part(name, DbPart) == None)
  {
    var name := Join(segs, ".");
    SingleCharBorderFree(".");
    forall i | 0 <= i < |segs| ensures Separable(segs[i], ".") {
      BorderFreeSeparable(segs[i], ".");
    }
    assert Joinable(segs, ".");
    SplitJoin(segs, ".");
    if |segs| >= 2 {
      var rest := Join(segs[1..], ".");
      assert name == segs[0] + "." + rest;
      assert OccursAt(name, ".", |segs[0]|) by { assert name[|segs[0]|..|segs[0]| + 1] == "."; }
      OccurrenceFound(name, ".", |segs[0]|);
    }
  }

  /** Every identifier is the dot-join of its dot-free segments, so `PartOfDotted` covers all names. */
  lemma SegmentsCoverName(name: string)
    ensures Join(Split(name, "."), ".") == name
    ensures forall i :: 0 <= i < |Split(name, ".")| ==> Segment(Split(name, ".")[i])
  {
    JoinSplit(name, ".");
    SplitPiecesFree(name, ".");
  }

  /** The column part never holds a dot: it is a bare column name. */
  lemma ColumnIsBare(name: string)
    ensures Part(name, ColumnPart).Some? ==> Segment(Part(name, ColumnPart).value)
  {
    SplitPiecesFree(name, ".");
  }

  datatype AliasKind = AliasName | OriginalName

  /** A case-insensitive match of the regular expression / as /i at position `i`. */
  predicate AsAt(s: string, i: nat)
  {
    i + 4 <= |s| && s[i] == ' ' && (s[i + 1] == 'a' || s[i + 1] == 'A')
    && (s[i + 2] == 's' || s[i + 2] == 'S') && s[i + 3] == ' '
  }

  /** The first case-insensitive " as " at or after `k`, or -1. */
  function IndexOfAsFrom(s: string, k: nat): (r: int)
    requires k <= |s|
    ensures r == -1 || (k <= r && AsAt(s, r))
    ensures r == -1 ==> forall i: nat :: k <= i <= |s| ==> !AsAt(s, i)
    ensures r != -1 ==> forall i: nat :: k <= i < r ==> !AsAt(s, i)
    decreases |s| - k
  {
    if k + 4 > |s| then -1
    else if AsAt(s, k) then k
    else IndexOfAsFrom(s, k + 1)
  }

  /** `s.split(/ as /i)`: the pieces between the leftmost non-overlapping matches. */
  function SplitAs(s: string): (parts: seq<string>)
    ensures |parts| >= 1
    ensures IndexOfAsFrom(s, 0) != -1 ==> |parts| >= 2
    decreases |s|
  {
    var i := IndexOfAsFrom(s, 0);
    if i < 0 then [s] else [s[..i]] + SplitAs(s[i + 4..])
  }

  /** The matches `SplitAs` cuts at, in order: each is a four-character case variant of " as ". */
  function AsMatches(s: string): (m: seq<string>)
    ensures |m| + 1 == |SplitAs(s)|
    ensures forall k :: 0 <= k < |m| ==> |m[k]| == 4 && AsAt(m[k], 0)
    decreases |s|
  {
    var i := IndexOfAsFrom(s, 0);
    if i < 0 then [] else [s[i..i + 4]] + AsMatches(s[i + 4..])
  }

  /** The pieces with the separators put back between them. */
  function Interleave(parts: seq<string>, seps: seq<string>): (r: string)
    requires |parts| == |seps| + 1
    decreases |seps|
  {
    if |seps| == 0 then parts[0] else parts[0] + seps[0] + Interleave(parts[1..], seps[1..])
  }

  /** Putting the matches back between the pieces gives the split string back. */
  lemma {:induction false} SplitAsJoin(s: string)
    ensures Interleave(SplitAs(s), AsMatches(s)) == s
    decreases |s|
  {
    var i := IndexOfAsFrom(s, 0);
    if i >= 0 {
      SplitAsJoin(s[i + 4..]);
      assert SplitAs(s)[1..] == SplitAs(s[i + 4..]);
      assert AsMatches(s)[1..] == AsMatches(s[i + 4..]);
      assert s == s[..i] + s[i..i + 4] + s[i + 4..];
    }
  }

  /** A string with no case-insensitive " as " anywhere. */
  lemma NoAsFound(p: string)
    requires forall j: nat :: j <= |p| ==> !AsAt(p, j)
    ensures IndexOfAsFrom(p, 0) == -1
  {
  }

  /** No piece of the split holds a case-insensitive " as ". */
  lemma {:induction false} SplitAsPiecesFree(s: string)
    ensures forall k :: 0 <= k < |SplitAs(s)| ==> IndexOfAsFrom(SplitAs(s)[k], 0) == -1
    decreases |s|
  {
    var i := IndexOfAsFrom(s, 0);
    if i >= 0 {
      SplitAsPiecesFree(s[i + 4..]);
      var p := s[..i];
      forall j: nat | j <= |p| ensures !AsAt(p, j) {
        if j + 4 <= |p| {
          assert !AsAt(s, j);
          assert p[j..j + 4] == s[j..j + 4];
        }
      }
      NoAsFound(p);
      assert SplitAs(s) == [p] + SplitAs(s[i + 4..]);
    }
  }

  /** When `table + infix` holds its first match at the infix, the split cuts right after `table`. */
  lemma SplitAsAfter(table: string, infix: string, rest: string)
    requires |infix| == 4 && AsAt(infix, 0)
    requires IndexOfAsFrom(table + infix[..3], 0) == -1
    ensures SplitAs(table + infix + rest) == [table] + SplitAs(rest)
  {
    var s := table + infix + rest;
    var t := |table|;
    var p := table + infix[..3];
    assert s[t..t + 4] == infix;
    assert AsAt(s, t);
    forall j: nat | j < t ensures !AsAt(s, j) {
      assert s[j..j + 4] == p[j..j + 4];
      assert !AsAt(p, j);
    }
    assert IndexOfAsFrom(s, 0) == t;
    assert s[..t] == table && s[t + 4..] == rest;
  }

  /** A lower-case " as " is a case-insensitive match. */
  lemma LowerAsMatches(name: string, j: nat)
    requires OccursAt(name, " as ", j)
    ensures AsAt(name, j)
  {
    assert name[j] == name[j..j + 4][0] && name[j + 1] == name[j..j + 4][1];
    assert name[j + 2] == name[j..j + 4][2] && name[j + 3] == name[j..j + 4][3];
  }

  /**
   * `_alias(name, kind)`: when `name` contains " as " (matched case-
   * sensitively) it is split on " as " matched case-INsensitively, and the
   * second piece is the alias, the first the original table name.
   */
  function Alias(name: string, kind: AliasKind): (r: string)
  {
    var j := IndexOf(name, " as ");
    if j != -1 then
      LowerAsMatches(name, j);
      var a := SplitAs(name);
      if kind == AliasName then a[1] else a[0]
    else name
  }

  /** A name with a lower-case " as " in it is one `_alias` splits. */
  lemma ContainsAs(pre: string, post: string)
    ensures IndexOf(pre + " as " + post, " as ") != -1
  {
    var s := pre + " as " + post;
    assert s[|pre|..|pre| + 4] == " as ";
    OccurrenceFound(s, " as ", |pre|);
  }

  /**
   * `"table as alias"` reads back: the original name is `table`, and the
   * alias is `alias` up to its own first case-insensitive " as " (all of it
   * when it has none), provided no case-insensitive " as " starts inside
   * `table`. Tables with spaces, such as "my t", qualify.
   */
  lemma AliasOfSpec(table: string, alias: string)
    requires IndexOfAsFrom(table + " as", 0) == -1
    ensures Alias(table + " as " + alias, OriginalName) == table
    ensures Alias(table + " as " + alias, AliasName) == SplitAs(alias)[0]
    ensures IndexOfAsFrom(alias, 0) == -1 ==> Alias(table + " as " + alias, AliasName) == alias
  {
    assert " as "[..3] == " as";
    SplitAsAfter(table, " as ", alias);
    ContainsAs(table, alias);
  }

  /**
   * Detection is case-sensitive but the split is not: in
   * `t + " AS " + x + " as " + y` the lower-case " as " makes `_alias`
   * split, and the split cuts at the upper-case " AS " first, so the alias
   * is `x` and the original name `t`.
   */
  lemma AliasSplitIgnoresCase(t: string, x: string, y: string)
    requires IndexOfAsFrom(t + " AS", 0) == -1 && IndexOfAsFrom(x + " as", 0) == -1
    ensures Alias(t + " AS " + x + " as " + y, OriginalName) == t
    ensures Alias(t + " AS " + x + " as " + y, AliasName) == x
  {
    var s := t + " AS " + x + " as " + y;
    var rest := x + " as " + y;
    assert s == t + " AS " + rest;
    ContainsAs(t + " AS " + x, y);
    assert " AS "[..3] == " AS" && " as "[..3] == " as";
    SplitAsAfter(x, " as ", y);
    SplitAsAfter(t, " AS ", rest);
    AliasPieces(s);
  }

  /** A name `_alias` splits gives the first two pieces of the split. */
  lemma AliasPieces(name: string)
    requires IndexOf(name, " as ") != -1
    ensures |SplitAs(name)| >= 2
    ensures Alias(name, OriginalName) == SplitAs(name)[0] && Alias(name, AliasName) == SplitAs(name)[1]
  {
    LowerAsMatches(name, IndexOf(name, " as "));
  }

  /** A name without a case-sensitive " as " is its own alias and original, whatever its case. */
  lemma AliasWithoutInfix(name: string, kind: AliasKind)
    requires IndexOf(name, " as ") == -1
    ensures Alias(name, kind) == name
  {
  }
}
