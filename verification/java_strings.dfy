/** The pieces of `java.lang.String` and `java.util.List` that the row mapper
    relies on: `String.split` with a literal delimiter, `String.equalsIgnoreCase`
    and `List.indexOf`. */
module JavaStrings {
  import opened Wrappers

  /** Characters that make `String.split` treat its argument as a regular
      expression rather than a literal. */
  const RegexMetacharacters: string := ".$|()[{^?*+\\"

  /** Delimiters the model supports: non-empty and free of regex
      metacharacters, so that the regex `split` matches them literally. */
  predicate LiteralDelimiter(d: string) {
    |d| > 0 && forall i :: 0 <= i < |d| ==> d[i] !in RegexMetacharacters
  }

  /** `d` occurs in `s` starting at position `k`. */
  predicate OccursAt(s: string, d: string, k: nat) {
    k + |d| <= |s| && MatchesFrom(s, d, k, 0)
  }

  /** The characters `d[i..]` equal those of `s` from `k + i` on, compared
      one at a time as the JDK's search loop does. */
  predicate MatchesFrom(s: string, d: string, k: nat, i: nat)
    requires k + |d| <= |s| && i <= |d|
    decreases |d| - i
  {
    i == |d| || (s[k + i] == d[i] && MatchesFrom(s, d, k, i + 1))
  }

  lemma {:induction false} MatchesFromAll(s: string, d: string, k: nat, i: nat)
    requires k + |d| <= |s| && i <= |d|
    ensures MatchesFrom(s, d, k, i) <==> forall m :: i <= m < |d| ==> s[k + m] == d[m]
    decreases |d| - i
  {
    if i < |d| {
      MatchesFromAll(s, d, k, i + 1);
    }
  }

  /** An occurrence is a slice of `s` equal to `d`. */
  lemma OccursAtSlice(s: string, d: string, k: nat)
    ensures OccursAt(s, d, k) <==> k + |d| <= |s| && s[k..k + |d|] == d
  {
    if k + |d| <= |s| {
      MatchesFromAll(s, d, k, 0);
      if forall m :: 0 <= m < |d| ==> s[k + m] == d[m] {
        assert s[k..k + |d|] == d;
      }
      if s[k..k + |d|] == d {
        forall m | 0 <= m < |d|
          ensures s[k + m] == d[m]
        {
          assert s[k..k + |d|][m] == s[k + m];
        }
      }
    }
  }

  predicate Contains(s: string, d: string) {
    exists k: nat | k <= |s| :: OccursAt(s, d, k)
  }

  /** `s.indexOf(d, from)`: the leftmost occurrence of `d` at or after `from`. */
  function FindFrom(s: string, d: string, from: nat): (r: Option<nat>)
    requires |d| > 0 && from <= |s|
    ensures r.Some? ==> from <= r.value && OccursAt(s, d, r.value)
    decreases |s| - from
  {
    if from + |d| > |s| then None
    else if OccursAt(s, d, from) then Some(from)
    else FindFrom(s, d, from + 1)
  }

  /** `FindFrom` finds the leftmost occurrence, and finds none only when
      there is none. */
  lemma {:induction false} FindFromIsLeftmost(s: string, d: string, from: nat)
    requires |d| > 0 && from <= |s|
    ensures FindFrom(s, d, from).Some? ==>
      forall k: nat :: from <= k < FindFrom(s, d, from).value ==> !OccursAt(s, d, k)
    ensures FindFrom(s, d, from).None? <==> forall k: nat :: from <= k ==> !OccursAt(s, d, k)
    decreases |s| - from
  {
    if from + |d| <= |s| && !OccursAt(s, d, from) {
      FindFromIsLeftmost(s, d, from + 1);
    }
  }

  /** The pieces between successive leftmost, non-overlapping matches of `d`
      in `s[from..]`, before any trailing piece is dropped. */
  function Pieces(s: string, d: string, from: nat): (ps: seq<string>)
    requires |d| > 0 && from <= |s|
    ensures |ps| >= 1
    decreases |s| - from
  {
    match FindFrom(s, d, from)
    case None => [s[from..]]
    case Some(j) => [s[from..j]] + Pieces(s, d, j + |d|)
  }

  /** The longest prefix of `xs` that does not end in an empty string. */
  function DropTrailingEmpty(xs: seq<string>): (r: seq<string>)
    ensures |r| <= |xs| && r == xs[..|r|]
    ensures forall i :: |r| <= i < |xs| ==> xs[i] == ""
    ensures |r| > 0 ==> r[|r| - 1] != ""
  {
    if |xs| > 0 && xs[|xs| - 1] == "" then DropTrailingEmpty(xs[..|xs| - 1]) else xs
  }

  /** `s.split(d)` (limit 0) for a literal delimiter: when `d` does not occur
      the result is `[s]` itself (so `""` splits into `[""]`); otherwise the
      pieces between matches with trailing empty pieces removed. */
  function Split(s: string, d: string): (r: seq<string>)
    requires |d| > 0
    ensures !Contains(s, d) ==> r == [s]
    ensures Contains(s, d) ==>
      var ps := Pieces(s, d, 0);
      && |r| <= |ps| && r == ps[..|r|]
      && (forall i :: |r| <= i < |ps| ==> ps[i] == "")
      && (|r| > 0 ==> r[|r| - 1] != "")
  {
    FindFromIsLeftmost(s, d, 0);
    if FindFrom(s, d, 0).None? then [s] else DropTrailingEmpty(Pieces(s, d, 0))
  }

  /** Joins pieces with the delimiter between each pair. */
  function Join(xs: seq<string>, d: string): string {
    if |xs| == 0 then ""
    else if |xs| == 1 then xs[0]
    else xs[0] + d + Join(xs[1..], d)
  }

  /** The JDK's `String.split` for a literal delimiter: collect the piece
      before each match, return the string itself when nothing matched,
      append the tail and cut trailing empty pieces. */
  method SplitLiteral(s: string, d: string) returns (parts: seq<string>)
    requires |d| > 0
    ensures parts == Split(s, d)
  {
    var list, off := CollectPieces(s, d);
    if off == 0 {
      return [s];
    }
    parts := CutTrailingEmpty(list + [s[off..]]);
  }

  /** The match loop of `String.split`: `list` holds the piece before each
      match and `off` is where the text after the last match starts (0 when
      nothing matched). */
  method CollectPieces(s: string, d: string) returns (list: seq<string>, off: nat)
    requires |d| > 0
    ensures off <= |s|
    ensures off == 0 <==> FindFrom(s, d, 0).None?
    ensures list + [s[off..]] == Pieces(s, d, 0)
  {
    list := [];
    off := 0;
    var next := FindFrom(s, d, off);
    while next.Some?
      invariant off <= |s|
      invariant next == FindFrom(s, d, off)
      invariant list + Pieces(s, d, off) == Pieces(s, d, 0)
      invariant off == 0 ==> list == [] && next == FindFrom(s, d, 0)
      invariant off > 0 ==> FindFrom(s, d, 0).Some?
      decreases |s| - off
    {
      var j := next.value;
      var piece := s[off..j];
      ghost var rest := Pieces(s, d, j + |d|);
      PiecesStep(s, d, off);
      AppendAssoc(list, piece, rest);
      list := list + [piece];
      off := j + |d|;
      next := FindFrom(s, d, off);
    }
    PiecesLast(s, d, off);
  }

  /** The JDK's `resultSize` loop: shrink the result while its last piece is empty. */
  method CutTrailingEmpty(list: seq<string>) returns (parts: seq<string>)
    ensures parts == DropTrailingEmpty(list)
  {
    var size := |list|;
    while size > 0 && list[size - 1] == ""
      invariant 0 <= size <= |list|
      invariant DropTrailingEmpty(list[..size]) == DropTrailingEmpty(list)
    {
      assert list[..size - 1] == list[..size][..size - 1];
      size := size - 1;
    }
    parts := list[..size];
  }

  /** One step of `Pieces`: the piece before the next match, then the rest. */
  lemma PiecesStep(s: string, d: string, from: nat)
    requires |d| > 0 && from <= |s| && FindFrom(s, d, from).Some?
    ensures var j := FindFrom(s, d, from).value;
      Pieces(s, d, from) == [s[from..j]] + Pieces(s, d, j + |d|)
  {
  }

  /** The last raw piece: everything after the last match. */
  lemma PiecesLast(s: string, d: string, from: nat)
    requires |d| > 0 && from <= |s| && FindFrom(s, d, from).None?
    ensures Pieces(s, d, from) == [s[from..]]
  {
  }

  lemma AppendAssoc(xs: seq<string>, x: string, ys: seq<string>)
    ensures (xs + [x]) + ys == xs + ([x] + ys)
  {
  }

  /** Joining the raw pieces with the delimiter gives back the text they came from. */
  lemma {:induction false} PiecesJoin(s: string, d: string, from: nat)
    requires |d| > 0 && from <= |s|
    ensures Join(Pieces(s, d, from), d) == s[from..]
    decreases |s| - from
  {
    var r := FindFrom(s, d, from);
    if r.Some? {
      var j := r.value;
      var rest := Pieces(s, d, j + |d|);
      assert Pieces(s, d, from) == [s[from..j]] + rest;
      JoinCons(s[from..j], rest, d);
      PiecesJoin(s, d, j + |d|);
      OccursAtSlice(s, d, j);
      CutAround(s, from, j, |d|);
    } else {
      assert Pieces(s, d, from) == [s[from..]];
    }
  }

  lemma JoinCons(x: string, rest: seq<string>, d: string)
    requires |rest| >= 1
    ensures Join([x] + rest, d) == x + d + Join(rest, d)
  {
    assert ([x] + rest)[1..] == rest;
  }

  /** `s[from..]` is the part before `j`, the `n` characters at `j`, and the rest. */
  lemma CutAround(s: string, from: nat, j: nat, n: nat)
    requires from <= j && j + n <= |s|
    ensures s[from..] == s[from..j] + s[j..j + n] + s[j + n..]
  {
  }

  /** An occurrence inside a slice is an occurrence in the whole text. */
  lemma OccursInSlice(s: string, d: string, from: nat, to: nat, k: nat)
    requires from <= to <= |s|
    requires OccursAt(s[from..to], d, k)
    ensures OccursAt(s, d, from + k) && from + k + |d| <= to
  {
    var p := s[from..to];
    OccursAtSlice(p, d, k);
    var a, b := p[k..k + |d|], s[from + k..from + k + |d|];
    forall i | 0 <= i < |d|
      ensures a[i] == b[i]
    {
      assert a[i] == p[k + i];
    }
    assert a == b;
    OccursAtSlice(s, d, from + k);
  }

  /** The first raw piece ends at the leftmost match, so it holds none. */
  lemma FirstPieceAvoidsDelimiter(s: string, d: string, from: nat)
    requires |d| > 0 && from <= |s|
    ensures !Contains(Pieces(s, d, from)[0], d)
  {
    var r := FindFrom(s, d, from);
    var end := if r.Some? then r.value else |s|;
    var p := s[from..end];
    assert Pieces(s, d, from)[0] == p;
    FindFromIsLeftmost(s, d, from);
    forall k: nat | k <= |p| && OccursAt(p, d, k)
      ensures false
    {
      OccursInSlice(s, d, from, end, k);
    }
  }

  /** No raw piece contains the delimiter: every match was cut out. */
  lemma {:induction false} PiecesAvoidDelimiter(s: string, d: string, from: nat)
    requires |d| > 0 && from <= |s|
    ensures forall i :: 0 <= i < |Pieces(s, d, from)| ==> !Contains(Pieces(s, d, from)[i], d)
    decreases |s| - from
  {
    FirstPieceAvoidsDelimiter(s, d, from);
    var r := FindFrom(s, d, from);
    if r.Some? {
      var j := r.value;
      var ps, rest := Pieces(s, d, from), Pieces(s, d, j + |d|);
      PiecesStep(s, d, from);
      PiecesAvoidDelimiter(s, d, j + |d|);
      forall i | 0 < i < |ps|
        ensures !Contains(ps[i], d)
      {
        assert ps[i] == rest[i - 1];
      }
    } else {
      PiecesLast(s, d, from);
    }
  }

  /** Every element of a split contains no delimiter. */
  lemma SplitAvoidsDelimiter(s: string, d: string)
    requires |d| > 0
    ensures forall i :: 0 <= i < |Split(s, d)| ==> !Contains(Split(s, d)[i], d)
  {
    FindFromIsLeftmost(s, d, 0);
    if FindFrom(s, d, 0).Some? {
      PiecesAvoidDelimiter(s, d, 0);
      var ps := Pieces(s, d, 0);
      var sp := Split(s, d);
      forall i | 0 <= i < |sp|
        ensures !Contains(sp[i], d)
      {
        assert sp[i] == ps[i];
      }
    }
  }

  /** `FindFrom` returns any occurrence that has no occurrence before it. */
  lemma {:induction false} FindFromFirst(s: string, d: string, from: nat, k: nat)
    requires |d| > 0 && from <= k && OccursAt(s, d, k)
    requires forall m: nat :: from <= m < k ==> !OccursAt(s, d, m)
    ensures FindFrom(s, d, from) == Some(k)
    decreases k - from
  {
    if from < k {
      assert !OccursAt(s, d, from);
      FindFromFirst(s, d, from + 1, k);
    }
  }

  /** A single-character delimiter occurs exactly where that character is. */
  lemma OccursAtChar(s: string, c: char, k: nat)
    ensures OccursAt(s, [c], k) <==> k < |s| && s[k] == c
  {
    OccursAtSlice(s, [c], k);
    if k < |s| && s[k] == c {
      assert s[k..k + 1] == [c];
    }
  }

  /** After appending a single-character delimiter, the search finds the
      same occurrence as before, or else the appended one. */
  lemma FindFromAppend(a: string, c: char, from: nat)
    requires from <= |a|
    ensures FindFrom(a + [c], [c], from)
      == if FindFrom(a, [c], from).Some? then FindFrom(a, [c], from) else Some(|a|)
  {
    var s, d := a + [c], [c];
    forall m: nat | m < |a|
      ensures OccursAt(s, d, m) <==> OccursAt(a, d, m)
    {
      OccursAtChar(s, c, m);
      OccursAtChar(a, c, m);
    }
    FindFromIsLeftmost(a, d, from);
    if FindFrom(a, d, from).Some? {
      FindFromFirst(s, d, from, FindFrom(a, d, from).value);
    } else {
      OccursAtChar(s, c, |a|);
      FindFromFirst(s, d, from, |a|);
    }
  }

  /** With a single-character delimiter, appending one more delimiter only
      appends one empty raw piece. */
  lemma {:induction false} PiecesAppendDelimiter(a: string, c: char, from: nat)
    requires from <= |a|
    ensures Pieces(a + [c], [c], from) == Pieces(a, [c], from) + [""]
    decreases |a| - from
  {
    var s, d := a + [c], [c];
    FindFromAppend(a, c, from);
    match FindFrom(a, d, from)
    case Some(j) =>
      PiecesStep(s, d, from);
      PiecesStep(a, d, from);
      assert s[from..j] == a[from..j];
      PiecesAppendDelimiter(a, c, j + 1);
      AppendAssoc([a[from..j]], "", Pieces(a, d, j + 1));
    case None =>
      PiecesStep(s, d, from);
      assert s[from..|a|] == a[from..];
      assert s[|a| + 1..] == "";
      assert FindFrom(s, d, |a| + 1).None?;
      assert Pieces(s, d, |a| + 1) == [""];
  }

  /** With a single-character delimiter, a delimiter at the end of a
      non-empty line is dropped by `Split`: the empty last field it
      delimits is not there. */
  lemma TrailingDelimiterDropped(a: string, c: char)
    requires a != ""
    ensures Split(a + [c], [c]) == Split(a, [c])
  {
    var s, d := a + [c], [c];
    PiecesAppendDelimiter(a, c, 0);
    OccursAtChar(s, c, |a|);
    FindFromIsLeftmost(s, d, 0);
    DropLastEmpty(Pieces(a, d, 0));
    FindFromIsLeftmost(a, d, 0);
    if FindFrom(a, d, 0).None? {
      assert Pieces(a, d, 0) == [a];
    }
  }

  lemma DropLastEmpty(xs: seq<string>)
    ensures DropTrailingEmpty(xs + [""]) == DropTrailingEmpty(xs)
  {
    assert (xs + [""])[..|xs|] == xs;
  }

  /** A line with no delimiter character is one field. */
  lemma SplitOneField(a: string, c: char)
    requires c !in a
    ensures Split(a, [c]) == [a]
  {
    forall m: nat
      ensures !OccursAt(a, [c], m)
    {
      OccursAtChar(a, c, m);
    }
    FindFromIsLeftmost(a, [c], 0);
  }

  /** A line with exactly one delimiter character and a non-empty second
      field is two fields. */
  lemma SplitTwoFields(a: string, b: string, c: char)
    requires c !in a && c !in b && b != ""
    ensures Split(a + [c] + b, [c]) == [a, b]
  {
    var s, d := a + [c] + b, [c];
    forall m: nat | m != |a|
      ensures !OccursAt(s, d, m)
    {
      OccursAtChar(s, c, m);
      if |a| < m < |s| {
        assert s[m] == b[m - |a| - 1];
      }
    }
    OccursAtChar(s, c, |a|);
    FindFromFirst(s, d, 0, |a|);
    FindFromIsLeftmost(s, d, |a| + 1);
    assert s[0..|a|] == a && s[|a| + 1..] == b;
    assert Pieces(s, d, |a| + 1) == [b];
    assert Pieces(s, d, 0) == [a, b];
  }

  /** `ASCII` upper-casing, as `Character.toUpperCase` does on ASCII letters. */
  function AsciiUpper(c: char): char {
    if 'a' <= c <= 'z' then (c as int - 32) as char else c
  }

  /** `ASCII` lower-casing, as `Character.toLowerCase` does on ASCII letters. */
  function AsciiLower(c: char): char {
    if 'A' <= c <= 'Z' then (c as int + 32) as char else c
  }

  /** The per-character test of `String.regionMatches(true, ...)`. */
  predicate CharsEqualIgnoreCase(a: char, b: char) {
    a == b
    || AsciiUpper(a) == AsciiUpper(b)
    || AsciiLower(AsciiUpper(a)) == AsciiLower(AsciiUpper(b))
  }

  /** `a.equalsIgnoreCase(b)`: same length and every character pair equal up to case. */
  predicate EqualsIgnoreCase(a: string, b: string) {
    |a| == |b| && forall i :: 0 <= i < |a| ==> CharsEqualIgnoreCase(a[i], b[i])
  }

  /** `List.indexOf`: the position of the first element equal to `x`, or -1. */
  function IndexOf<T(==)>(xs: seq<T>, x: T): (r: int)
    ensures -1 <= r < |xs|
    ensures r == -1 <==> x !in xs
    ensures 0 <= r ==> xs[r] == x && forall k :: 0 <= k < r ==> xs[k] != x
  {
    if |xs| == 0 then -1
    else if xs[0] == x then 0
    else
      var r := IndexOf(xs[1..], x);
      if r == -1 then -1 else r + 1
  }

  /** `k` is the position of the first element of `xs` equal to `x`. */
  predicate IsFirstIndex<T(==)>(xs: seq<T>, x: T, k: int) {
    0 <= k < |xs| && xs[k] == x && forall j :: 0 <= j < k ==> xs[j] != x
  }

  /** The first position is unique, and `IndexOf` finds it whenever `x` occurs. */
  lemma IndexOfIsFirstIndex<T>(xs: seq<T>, x: T)
    ensures x in xs ==> IsFirstIndex(xs, x, IndexOf(xs, x))
    ensures forall k :: IsFirstIndex(xs, x, k) ==> k == IndexOf(xs, x)
  {
  }

  /** With duplicate names the first occurrence wins. */
  lemma FirstOccurrenceWins<T>(xs: seq<T>, i: nat, j: nat)
    requires i < j < |xs| && xs[i] == xs[j]
    ensures 0 <= IndexOf(xs, xs[j]) <= i
    ensures IndexOf(xs, xs[j]) != j
  {
  }
}
