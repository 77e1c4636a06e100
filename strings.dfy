/**
 * The few Python `str` operations the scripts rely on: `split` and `join`
 * on one separator character, `rstrip` of one character, `endswith`,
 * `splitlines` and the blank-line test `len(q.strip()) == 0`.
 * Strings are sequences of Unicode scalar values, as Python `str` is.
 */
module Strings {

  /** `t` occurs in `s` starting at offset `k`. */
  predicate OccursAt(s: string, t: string, k: nat)
  {
    k + |t| <= |s| && s[k..k + |t|] == t
  }

  /** `t` occurs in `s` as a contiguous piece. */
  predicate Contains(s: string, t: string)
  {
    exists k :: 0 <= k <= |s| && OccursAt(s, t, k)
  }

  /** Python's `s.endswith(suffix)`. */
  predicate EndsWith(s: string, suffix: string)
  {
    |suffix| <= |s| && s[|s| - |suffix|..] == suffix
  }

  // ---------------------------------------------------------------------
  // split / join on a single separator character

  /** Index of the first `c` in `s`, or `|s|` when there is none. */
  function IndexOf(s: string, c: char): (i: nat)
    ensures i <= |s|
    ensures i < |s| ==> s[i] == c
    ensures forall j :: 0 <= j < i ==> s[j] != c
  {
    if s == [] || s[0] == c then 0 else 1 + IndexOf(s[1..], c)
  }

  /** Where the first `c` of `a + t` is, in terms of `a` and `t`. */
  lemma {:induction false} IndexOfConcat(a: string, t: string, c: char)
    ensures IndexOf(a + t, c) == if IndexOf(a, c) < |a| then IndexOf(a, c) else |a| + IndexOf(t, c)
  {
    if a != [] {
      assert (a + t)[0] == a[0];
      if a[0] != c {
        assert (a + t)[1..] == a[1..] + t;
        IndexOfConcat(a[1..], t, c);
      }
    } else {
      assert a + t == t;
    }
  }

  /** Concatenation regroups freely. */
  lemma AppendAssoc<T>(p: seq<T>, q: seq<T>, r: seq<T>)
    ensures p + (q + r) == p + q + r
  {
  }

  /** Concatenation after a one-element prefix regroups freely. */
  lemma ConsAppend<T>(x: T, p: seq<T>, q: seq<T>)
    ensures [x] + (p + q) == [x] + p + q
  {
  }

  /** Python's `s.split(sep)`: the pieces between separators, keeping empty
      pieces, so there is always one more piece than there are separators. */
  function Split(s: string, sep: char): (parts: seq<string>)
    ensures |parts| >= 1
    decreases |s|
  {
    var i := IndexOf(s, sep);
    if i == |s| then [s] else [s[..i]] + Split(s[i + 1..], sep)
  }

  /** Python's `sep.join(parts)`. */
  function Join(parts: seq<string>, sep: char): string
  {
    if |parts| == 0 then ""
    else if |parts| == 1 then parts[0]
    else parts[0] + [sep] + Join(parts[1..], sep)
  }

  /** Splitting around one separator splits each side on its own. */
  lemma SplitAround(a: string, b: string, sep: char)
    ensures Split(a + [sep] + b, sep) == Split(a, sep) + Split(b, sep)
  {
    var t := [sep] + b;
    assert a + [sep] + b == a + t;
    assert t[1..] == b;
    SplitBeforeSep(a, t, sep);
  }

  /** `SplitAround`, with the separator and what follows it kept together as `t`. */
  lemma {:induction false} SplitBeforeSep(a: string, t: string, sep: char)
    requires |t| > 0 && t[0] == sep
    ensures Split(a + t, sep) == Split(a, sep) + Split(t[1..], sep)
    decreases |a|
  {
    var i := IndexOf(a, sep);
    if i == |a| {
      SplitNoSepInA(a, t, sep);
    } else {
      var x, rest := a[..i], a[i + 1..];
      var p, q := Split(rest, sep), Split(t[1..], sep);
      assert Split(a + t, sep) == [x] + Split(rest + t, sep) by { SplitFirstPieceInA(a, t, sep); }
      assert Split(rest + t, sep) == p + q by { SplitBeforeSep(rest, t, sep); }
      assert Split(a, sep) == [x] + p;
      ConsAppend(x, p, q);
    }
  }

  /** When `a` holds a separator, the first piece of `a + t` is the first piece of `a`. */
  lemma SplitFirstPieceInA(a: string, t: string, sep: char)
    requires IndexOf(a, sep) < |a|
    ensures var i := IndexOf(a, sep);
            Split(a + t, sep) == [a[..i]] + Split(a[i + 1..] + t, sep)
  {
    var i := IndexOf(a, sep);
    IndexOfConcat(a, t, sep);
    assert (a + t)[..i] == a[..i];
    assert (a + t)[i + 1..] == a[i + 1..] + t;
  }

  /** The base case of `SplitBeforeSep`: `a` holds no separator. */
  lemma SplitNoSepInA(a: string, t: string, sep: char)
    requires IndexOf(a, sep) == |a|
    requires |t| > 0 && t[0] == sep
    ensures Split(a + t, sep) == [a] + Split(t[1..], sep)
  {
    var s := a + t;
    assert IndexOf(s, sep) == |a| by {
      IndexOfConcat(a, t, sep);
      assert IndexOf(t, sep) == 0;
    }
    assert s[..|a|] == a;
    assert s[|a| + 1..] == t[1..];
    assert Split(s, sep) == [s[..|a|]] + Split(s[|a| + 1..], sep);
  }

  /** A piece without the separator is one segment. */
  lemma SplitSingle(a: string, sep: char)
    requires sep !in a
    ensures Split(a, sep) == [a]
  {
  }

  /** One step of `Join`. */
  lemma JoinCons(x: string, rest: seq<string>, sep: char)
    requires |rest| >= 1
    ensures Join([x] + rest, sep) == x + [sep] + Join(rest, sep)
  {
    assert ([x] + rest)[1..] == rest;
  }

  /** Joining the pieces of a split gives the string back. */
  lemma {:induction false} JoinSplit(s: string, sep: char)
    ensures Join(Split(s, sep), sep) == s
    decreases |s|
  {
    var i := IndexOf(s, sep);
    if i < |s| {
      var a, b := s[..i], s[i + 1..];
      JoinSplit(b, sep);
      assert Split(s, sep) == [a] + Split(b, sep);
      JoinCons(a, Split(b, sep), sep);
      Reassemble(s, i);
    }
  }

  /** A sequence is the part before index `i`, the element at `i` and the
      part after it. */
  lemma Reassemble<T>(s: seq<T>, i: nat)
    requires i < |s|
    ensures s[..i] + [s[i]] + s[i + 1..] == s
  {
  }

  /** Splitting a join of separator-free pieces gives the pieces back. */
  lemma {:induction false} SplitJoin(parts: seq<string>, sep: char)
    requires |parts| >= 1
    requires forall k :: 0 <= k < |parts| ==> sep !in parts[k]
    ensures Split(Join(parts, sep), sep) == parts
  {
    var x := parts[0];
    if |parts| == 1 {
      SplitSingle(x, sep);
    } else {
      var rest := parts[1..];
      var j := Join(rest, sep);
      assert Join(parts, sep) == x + [sep] + j;
      SplitAround(x, j, sep);
      SplitSingle(x, sep);
      assert forall k :: 0 <= k < |rest| ==> rest[k] == parts[k + 1];
      SplitJoin(rest, sep);
      Reassemble(parts, 0);
    }
  }

  /** A join ends with its last piece when that piece is not empty. */
  lemma {:induction false} JoinLast(parts: seq<string>, sep: char)
    requires |parts| >= 1 && parts[|parts| - 1] != ""
    ensures var j := Join(parts, sep);
            |j| > 0 && j[|j| - 1] == parts[|parts| - 1][|parts[|parts| - 1]| - 1]
  {
    if |parts| > 1 {
      JoinLast(parts[1..], sep);
    }
  }

  /** Dropping a prefix of known length leaves the rest. */
  lemma DropPrefix<T>(p: seq<T>, x: seq<T>)
    ensures (p + x)[|p|..] == x
  {
  }

  // ---------------------------------------------------------------------
  // rstrip of one character

  /** Python's `s.rstrip(c)`: `s` without its trailing run of `c`. */
  function RStrip(s: string, c: char): (r: string)
    ensures |r| <= |s| && r == s[..|r|]
    ensures |r| > 0 ==> r[|r| - 1] != c
    ensures forall i :: |r| <= i < |s| ==> s[i] == c
  {
    if |s| > 0 && s[|s| - 1] == c then RStrip(s[..|s| - 1], c) else s
  }

  /** Appending another `c` does not change what `rstrip(c)` returns. */
  lemma RStripAppend(s: string, c: char)
    ensures RStrip(s + [c], c) == RStrip(s, c)
  {
    assert (s + [c])[..|s|] == s;
  }

  /** `rstrip` is idempotent. */
  lemma RStripIdempotent(s: string, c: char)
    ensures RStrip(RStrip(s, c), c) == RStrip(s, c)
  {
  }

  // ---------------------------------------------------------------------
  // splitlines and strip

  /** The characters Python's `str.splitlines` breaks lines at. */
  predicate IsLineBreak(c: char)
  {
    c == '\n' || c == '\r' || c == '\U{000B}' || c == '\U{000C}'
    || c == '\U{001C}' || c == '\U{001D}' || c == '\U{001E}'
    || c == '\U{0085}' || c == '\U{2028}' || c == '\U{2029}'
  }

  /** The characters Python's `str.isspace` accepts, that is, the ones a
      no-argument `str.strip()` removes. */
  predicate IsSpace(c: char)
  {
    c == ' ' || c == '\t' || c == '\n' || c == '\U{000B}' || c == '\U{000C}' || c == '\r'
    || ('\U{001C}' <= c <= '\U{001F}')
    || c == '\U{0085}' || c == '\U{00A0}' || c == '\U{1680}'
    || ('\U{2000}' <= c <= '\U{200A}')
    || c == '\U{2028}' || c == '\U{2029}' || c == '\U{202F}' || c == '\U{205F}' || c == '\U{3000}'
  }

  /** `len(q.strip()) == 0`: every character of `q` is white space. */
  predicate IsBlank(q: string)
  {
    forall i :: 0 <= i < |q| ==> IsSpace(q[i])
  }

  /** Index of the first line break in `s`, or `|s|` when there is none. */
  function BreakIndex(s: string): (i: nat)
    ensures i <= |s|
    ensures i < |s| ==> IsLineBreak(s[i])
    ensures forall j :: 0 <= j < i ==> !IsLineBreak(s[j])
  {
    if s == [] || IsLineBreak(s[0]) then 0 else 1 + BreakIndex(s[1..])
  }

  /** Where the text after the line break at `i` starts: `\r\n` is one break. */
  function AfterBreak(s: string, i: nat): (j: nat)
    requires i < |s|
    ensures i < j <= |s|
  {
    if s[i] == '\r' && i + 1 < |s| && s[i + 1] == '\n' then i + 2 else i + 1
  }

  /** Python's `s.splitlines()`: the lines of `s` without their line breaks;
      a final line break does not start another (empty) line. */
  function SplitLines(s: string): (lines: seq<string>)
    ensures forall k, j :: 0 <= k < |lines| && 0 <= j < |lines[k]| ==> !IsLineBreak(lines[k][j])
    ensures |lines| == 0 <==> s == ""
    decreases |s|
  {
    if s == "" then []
    else
      var i := BreakIndex(s);
      if i == |s| then [s] else [s[..i]] + SplitLines(s[AfterBreak(s, i)..])
  }

  /** The text of `lines`, each one followed by a newline. */
  function Terminated(lines: seq<string>): string
  {
    if lines == [] then "" else lines[0] + "\n" + Terminated(lines[1..])
  }

  /** `splitlines` undoes writing break-free lines one per line. */
  lemma {:induction false} SplitLinesTerminated(lines: seq<string>)
    requires forall k, j :: 0 <= k < |lines| && 0 <= j < |lines[k]| ==> !IsLineBreak(lines[k][j])
    ensures SplitLines(Terminated(lines)) == lines
  {
    if lines != [] {
      var s := Terminated(lines);
      var rest := Terminated(lines[1..]);
      var l := lines[0];
      assert s == l + "\n" + rest;
      assert forall j :: 0 <= j < |l| ==> s[j] == l[j];
      assert s[|l|] == '\n';
      var i := BreakIndex(s);
      assert forall j :: 0 <= j < |l| ==> !IsLineBreak(s[j]);
      assert i == |l|;
      assert AfterBreak(s, i) == |l| + 1;
      assert s[..i] == l;
      assert s[|l| + 1..] == rest;
      SplitLinesTerminated(lines[1..]);
    }
  }
}
