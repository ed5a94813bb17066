/**
 * String operations of JavaScript that the editor relies on, over seq<char>:
 * String.prototype.indexOf, replace (with a string pattern), split (with a
 * string separator) and Array.prototype.join.
 */
module Text {

  /** A string with at least one character, the only kind of separator used. */
  type NonEmpty = s: string | |s| > 0 witness "."

  /** True when `pat` occurs in `s` starting at position `i`. */
  predicate OccursAt(s: string, pat: string, i: nat)
  {
    i + |pat| <= |s| && s[i..i + |pat|] == pat
  }

  /** The first position at or after `k` where `pat` occurs in `s`, or -1. */
  function IndexFrom(s: string, pat: string, k: nat): (r: int)
    requires k <= |s|
    ensures r == -1 || (k <= r && OccursAt(s, pat, r))
    ensures r == -1 ==> forall i: nat :: k <= i <= |s| ==> !OccursAt(s, pat, i)
    ensures r != -1 ==> forall i: nat :: k <= i < r ==> !OccursAt(s, pat, i)
    decreases |s| - k
  {
    if k + |pat| > |s| then -1
    else if |pat| == 0 || s[k..k + |pat|] == pat then k
    else IndexFrom(s, pat, k + 1)
  }

  /** `s.indexOf(pat)`: the first occurrence of `pat` in `s`, or -1. */
  function IndexOf(s: string, pat: string): (r: int)
  {
    IndexFrom(s, pat, 0)
  }

  /** `s.replace(pat, rep)` with a string pattern: only the first occurrence is replaced. */
  function ReplaceFirst(s: string, pat: string, rep: string): (r: string)
  {
    var i := IndexOf(s, pat);
    if i < 0 then s else s[..i] + rep + s[i + |pat|..]
  }

  /** `s.split(sep)` for a non-empty string separator: the pieces between leftmost non-overlapping occurrences. */
  function Split(s: string, sep: NonEmpty): (parts: seq<string>)
    ensures |parts| >= 1
    decreases |s|
  {
    var i := IndexOf(s, sep);
    if i < 0 then [s] else [s[..i]] + Split(s[i + |sep|..], sep)
  }

  /** `parts.join(sep)`. */
  function Join(parts: seq<string>, sep: string): (r: string)
  {
    if |parts| == 0 then ""
    else if |parts| == 1 then parts[0]
    else parts[0] + sep + Join(parts[1..], sep)
  }

  /**
   * A piece that `Split` gives back unchanged when it is followed by `sep`:
   * the first occurrence of `sep` in `p + sep` is the appended one. This is
   * stronger than "`p` does not contain `sep`" when `sep` has a border.
   */
  predicate Separable(p: string, sep: string)
  {
    IndexOf(p + sep, sep) == |p|
  }

  /**
   * Pieces that a split gives back after they are joined: every piece but
   * the last is separable, and the last does not contain the separator.
   */
  predicate Joinable(parts: seq<string>, sep: string)
  {
    |parts| >= 1 && (forall i :: 0 <= i < |parts| - 1 ==> Separable(parts[i], sep)) && IndexOf(parts[|parts| - 1], sep) == -1
  }

  /** `sep[..b]` is also a suffix of `sep`, for a proper non-empty length `b`. */
  predicate HasBorder(sep: string, b: nat)
  {
    0 < b < |sep| && sep[..b] == sep[|sep| - b..]
  }

  /** No proper prefix of `sep` is also its suffix (every one-character string is so). */
  predicate BorderFree(sep: string)
  {
    forall b: nat | b < |sep| :: !HasBorder(sep, b)
  }

  lemma OccursInPrefix(x: string, y: string, pat: string, i: nat)
    requires i + |pat| <= |x|
    ensures OccursAt(x + y, pat, i) <==> OccursAt(x, pat, i)
  {
    assert (x + y)[i..i + |pat|] == x[i..i + |pat|];
  }

  /** `pat` occurs at `j` and nowhere before it, so `j` is its first occurrence. */
  lemma FirstOccurrence(s: string, pat: string, j: nat)
    requires OccursAt(s, pat, j)
    requires forall i: nat :: i < j ==> !OccursAt(s, pat, i)
    ensures IndexOf(s, pat) == j
  {
  }

  /** Appending text after the first occurrence of `pat` does not move it. */
  lemma IndexOfExtend(x: string, y: string, pat: string)
    requires IndexOf(x, pat) >= 0
    ensures IndexOf(x + y, pat) == IndexOf(x, pat)
  {
    var r := IndexOf(x, pat);
    OccursInPrefix(x, y, pat, r);
    forall i: nat | i < r ensures !OccursAt(x + y, pat, i) {
      OccursInPrefix(x, y, pat, i);
    }
    FirstOccurrence(x + y, pat, r);
  }

  lemma OccurrenceFound(s: string, pat: string, i: nat)
    requires OccursAt(s, pat, i)
    ensures 0 <= IndexOf(s, pat) <= i
  {
  }

  /** A separable piece does not contain the separator. */
  lemma SeparableNotContained(p: string, sep: NonEmpty)
    requires Separable(p, sep)
    ensures IndexOf(p, sep) == -1
  {
    forall i: nat | i <= |p| ensures !OccursAt(p, sep, i) {
      if i + |sep| <= |p| {
        OccursInPrefix(p, sep, sep, i);
      }
    }
  }

  /** An occurrence of `sep` in `p + sep` that straddles the end of `p` is a border of `sep`. */
  lemma StraddleIsBorder(p: string, sep: string, r: nat)
    requires r < |p| < r + |sep|
    ensures OccursAt(p + sep, sep, r) ==> HasBorder(sep, |sep| - (|p| - r))
  {
    var q := p + sep;
    if OccursAt(q, sep, r) {
      var k := |p| - r;
      var b := |sep| - k;
      forall t | 0 <= t < b ensures sep[..b][t] == sep[|sep| - b..][t] {
        calc {
          sep[|sep| - b..][t];
          sep[k + t];
          q[r..r + |sep|][k + t];
          q[|p| + t];
          sep[t];
        }
      }
    }
  }

  /** For a border-free separator, "does not contain the separator" is enough. */
  lemma BorderFreeSeparable(p: string, sep: string)
    requires BorderFree(sep) && IndexOf(p, sep) == -1
    ensures Separable(p, sep)
  {
    var q := p + sep;
    assert OccursAt(q, sep, |p|) by { assert q[|p|..|p| + |sep|] == sep; }
    forall i: nat | i < |p| ensures !OccursAt(q, sep, i) {
      if i + |sep| <= |p| {
        OccursInPrefix(p, sep, sep, i);
      } else {
        StraddleIsBorder(p, sep, i);
      }
    }
    FirstOccurrence(q, sep, |p|);
  }

  /** Every one-character separator (such as ".") is border-free. */
  lemma SingleCharBorderFree(sep: string)
    requires |sep| == 1
    ensures BorderFree(sep)
  {
  }

  /** The pieces of a split never contain the separator. */
  lemma {:induction false} SplitPiecesFree(s: string, sep: NonEmpty)
    ensures forall k :: 0 <= k < |Split(s, sep)| ==> IndexOf(Split(s, sep)[k], sep) == -1
    decreases |s|
  {
    var i := IndexOf(s, sep);
    if i >= 0 {
      var j := IndexOf(s[..i], sep);
      if j >= 0 {
        assert s[..i] + s[i..] == s;
        OccursInPrefix(s[..i], s[i..], sep, j);
      }
      SplitPiecesFree(s[i + |sep|..], sep);
    }
  }

  /** Joining a piece in front of at least one more puts a separator between them. */
  lemma JoinCons(p: string, rest: seq<string>, sep: string)
    requires |rest| >= 1
    ensures Join([p] + rest, sep) == p + sep + Join(rest, sep)
  {
    assert ([p] + rest)[1..] == rest;
  }

  /** An occurrence cuts a string into what comes before it, the pattern, and what comes after. */
  lemma AroundOccurrence(s: string, pat: string, i: nat)
    requires OccursAt(s, pat, i)
    ensures s == s[..i] + pat + s[i + |pat|..]
  {
    assert s == s[..i] + s[i..i + |pat|] + s[i + |pat|..];
  }

  /** Joining the pieces of a split gives the string back. */
  lemma {:induction false} JoinSplit(s: string, sep: NonEmpty)
    ensures Join(Split(s, sep), sep) == s
    decreases |s|
  {
    var i := IndexOf(s, sep);
    if i >= 0 {
      var rest := Split(s[i + |sep|..], sep);
      JoinSplit(s[i + |sep|..], sep);
      JoinCons(s[..i], rest, sep);
      AroundOccurrence(s, sep, i);
    }
  }

  /** Splitting what was joined gives the pieces back, when they are joinable. */
  lemma {:induction false} SplitJoin(parts: seq<string>, sep: NonEmpty)
    requires Joinable(parts, sep)
    ensures Split(Join(parts, sep), sep) == parts
  {
    if |parts| > 1 {
      var rest := Join(parts[1..], sep);
      var s := Join(parts, sep);
      assert s == (parts[0] + sep) + rest;
      IndexOfExtend(parts[0] + sep, rest, sep);
      assert IndexOf(s, sep) == |parts[0]|;
      assert s[..|parts[0]|] == parts[0];
      assert s[|parts[0]| + |sep|..] == rest;
      assert Joinable(parts[1..], sep) by {
        assert parts[1..][|parts| - 2] == parts[|parts| - 1];
        forall i | 0 <= i < |parts| - 2 ensures Separable(parts[1..][i], sep) {
          assert parts[1..][i] == parts[i + 1];
        }
      }
      SplitJoin(parts[1..], sep);
    }
  }

  /** A piece that contains the separator comes back from a split as two or more pieces. */
  lemma ContainedSeparatorSplits(a: string, b: string, sep: NonEmpty)
    ensures |Split(a + sep + b, sep)| >= 2
  {
    var s := a + sep + b;
    assert OccursAt(s, sep, |a|) by { assert s[|a|..|a| + |sep|] == sep; }
    OccurrenceFound(s, sep, |a|);
  }

  /** Replacing the first occurrence of a prefix by "" strips exactly that prefix. */
  lemma StripPrefix(prefix: string, x: string)
    ensures ReplaceFirst(prefix + x, prefix, "") == x
  {
    var s := prefix + x;
    assert OccursAt(s, prefix, 0) by { assert s[..|prefix|] == prefix; }
    OccurrenceFound(s, prefix, 0);
    assert s[|prefix|..] == x;
  }

  /** A character that does not occur in `s` is not found in it at or after `k`. */
  lemma {:induction false} AbsentCharNotFound(s: string, c: char, k: nat)
    requires k <= |s|
    requires forall i :: 0 <= i < |s| ==> s[i] != c
    ensures IndexFrom(s, [c], k) == -1
    decreases |s| - k
  {
    if k + 1 <= |s| {
      assert s[k..k + 1] != [c] by { assert s[k..k + 1][0] == s[k]; }
      AbsentCharNotFound(s, c, k + 1);
    }
  }

  function DigitChar(d: nat): (r: char)
    requires d < 10
  {
    "0123456789"[d]
  }

  /** The decimal digits of a natural number, most significant first. */
  function Digits(n: nat): (r: string)
    ensures |r| >= 1
    decreases n
  {
    if n < 10 then [DigitChar(n)] else Digits(n / 10) + [DigitChar(n % 10)]
  }

  /** `String(i)` for an integer. */
  function IntText(i: int): (r: string)
  {
    if i < 0 then "-" + Digits(-i) else Digits(i)
  }
}
