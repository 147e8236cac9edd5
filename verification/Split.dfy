/**
 `split_top_level`: cut a descriptor at the separators outside every brace. The scanner is proved
 against the unique decomposition into balanced pieces without a top-level separator.
 */
module Split {
  import opened Wrappers
  import opened Text

  datatype SplitError = UnmatchedBrace | UnclosedStruct

  function Delta(c: char): int {
    if c == '{' then 1 else if c == '}' then -1 else 0
  }

  /** Brace depth after reading `s`. */
  function Depth(s: string): int {
    if s == [] then 0 else Depth(s[..|s| - 1]) + Delta(s[|s| - 1])
  }

  /** Open braces less closing ones. */
  lemma {:induction false} DepthCounts(s: string)
    ensures Depth(s) + multiset(s)['}'] == multiset(s)['{']
  {
    if s != [] {
      DepthCounts(s[..|s| - 1]);
      assert s == s[..|s| - 1] + [s[|s| - 1]];
    }
  }

  predicate NeverNegative(s: string) {
    forall k :: 0 <= k <= |s| ==> Depth(s[..k]) >= 0
  }

  predicate Balanced(s: string) {
    NeverNegative(s) && Depth(s) == 0
  }

  /** No separator at depth zero. */
  predicate NoTopSep(s: string, sep: char) {
    forall k :: 0 <= k < |s| && s[k] == sep ==> Depth(s[..k]) != 0
  }

  predicate IsPiece(s: string, sep: char) {
    Balanced(s) && NoTopSep(s, sep)
  }

  predicate AllPieces(ps: seq<string>, sep: char) {
    forall i :: 0 <= i < |ps| ==> IsPiece(ps[i], sep)
  }

  function Join(ps: seq<string>, sep: char): string {
    if ps == [] then [] else if |ps| == 1 then ps[0] else ps[0] + [sep] + Join(ps[1..], sep)
  }

  /** A decomposition of `s`: balanced pieces with no separator of their own, rejoined they give `s`. */
  predicate IsSplit(ps: seq<string>, s: string, sep: char) {
    ps != [] && AllPieces(ps, sep) && Join(ps, sep) == s
  }

  predicate Blank(s: string) {
    Trim(s) == []
  }

  // -- depth ------------------------------------------------------------------------------------------------

  lemma {:induction false} DepthConcat(a: string, b: string)
    ensures Depth(a + b) == Depth(a) + Depth(b)
  {
    if b == [] {
      assert a + b == a;
    } else {
      DepthConcat(a, b[..|b| - 1]);
      assert (a + b)[..|a + b| - 1] == a + b[..|b| - 1];
    }
  }

  lemma {:induction false} DepthOfPrefix(s: string, k: nat)
    requires k <= |s|
    ensures Depth(s) == Depth(s[..k]) + Depth(s[k..])
  {
    assert s == s[..k] + s[k..];
    DepthConcat(s[..k], s[k..]);
  }

  lemma SliceDepth(s: string, a: nat, b: nat)
    requires a <= b <= |s|
    ensures Depth(s[a..b]) == Depth(s[..b]) - Depth(s[..a])
  {
    assert s[..b] == s[..a] + s[a..b];
    DepthConcat(s[..a], s[a..b]);
  }

  /** What lies between two places of depth zero is balanced. */
  lemma SliceIsBalanced(s: string, a: nat, b: nat)
    requires a <= b <= |s| && NeverNegative(s) && Depth(s[..a]) == 0 && Depth(s[..b]) == 0
    ensures Balanced(s[a..b])
    ensures forall k :: 0 <= k <= b - a ==> Depth(s[a..b][..k]) == Depth(s[..a + k])
  {
    hide Depth;
    var p := s[a..b];
    forall k | 0 <= k <= |p|
      ensures Depth(p[..k]) == Depth(s[..a + k])
    {
      assert p[..k] == s[a..a + k];
      SliceDepth(s, a, a + k);
    }
    assert p[..|p|] == p;
  }

  /** It is a piece if no separator in it is at the top. */
  lemma SliceIsPiece(s: string, sep: char, a: nat, b: nat)
    requires a <= b <= |s| && NeverNegative(s) && Depth(s[..a]) == 0 && Depth(s[..b]) == 0
    requires forall k :: a <= k < b && s[k] == sep ==> Depth(s[..k]) != 0
    ensures IsPiece(s[a..b], sep)
  {
    hide Depth, Balanced, NeverNegative;
    SliceIsBalanced(s, a, b);
    forall k | 0 <= k < b - a && s[a..b][k] == sep
      ensures Depth(s[a..b][..k]) != 0
    {
      assert s[a + k] == sep;
    }
  }

  lemma BalancedConcat(a: string, b: string)
    requires Balanced(a) && Balanced(b)
    ensures Balanced(a + b)
  {
    DepthConcat(a, b);
    forall k | 0 <= k <= |a + b|
      ensures Depth((a + b)[..k]) >= 0
    {
      if k <= |a| {
        assert (a + b)[..k] == a[..k];
      } else {
        assert (a + b)[..k] == a + b[..k - |a|];
        DepthConcat(a, b[..k - |a|]);
      }
    }
  }

  lemma PlainIsBalanced(s: string)
    requires forall i :: 0 <= i < |s| ==> Delta(s[i]) == 0
    ensures Balanced(s)
  {
    forall k | 0 <= k <= |s|
      ensures Depth(s[..k]) == 0
    {
      PlainDepth(s[..k]);
    }
    assert s[..|s|] == s;
  }

  lemma {:induction false} PlainDepth(s: string)
    requires forall i :: 0 <= i < |s| ==> Delta(s[i]) == 0
    ensures Depth(s) == 0
  {
    if s != [] {
      PlainDepth(s[..|s| - 1]);
    }
  }

  /** A balanced text in braces is a balanced piece with nothing at the top. */
  lemma BracedIsPiece(s: string, sep: char)
    requires Balanced(s) && Delta(sep) == 0
    ensures IsPiece("{" + s + "}", sep)
  {
    var t := "{" + s + "}";
    forall k | 1 <= k <= |s| + 1
      ensures Depth(t[..k]) >= 1
    {
      assert t[..k] == "{" + s[..k - 1];
      DepthConcat("{", s[..k - 1]);
      assert Depth("{") == 1;
    }
    assert t[..|s| + 1] == "{" + s;
    DepthConcat("{", s);
    assert t[..|t|] == t && t[..0] == [];
    assert t[..|t| - 1] == "{" + s;
  }

  // -- joins ------------------------------------------------------------------------------------------------

  lemma {:induction false} JoinIsBalanced(ps: seq<string>, sep: char)
    requires Delta(sep) == 0 && forall i :: 0 <= i < |ps| ==> Balanced(ps[i])
    ensures Balanced(Join(ps, sep))
  {
    if |ps| == 0 {
      PlainIsBalanced([]);
    } else if |ps| > 1 {
      JoinIsBalanced(ps[1..], sep);
      PlainIsBalanced([sep]);
      BalancedConcat(ps[0], [sep]);
      BalancedConcat(ps[0] + [sep], Join(ps[1..], sep));
    }
  }

  lemma JoinStartsWith(ps: seq<string>, sep: char)
    requires ps != []
    ensures |ps[0]| <= |Join(ps, sep)| && Join(ps, sep)[..|ps[0]|] == ps[0]
    ensures |ps| == 1 <==> |Join(ps, sep)| == |ps[0]|
    ensures |ps| > 1 ==> Join(ps, sep)[|ps[0]|] == sep && Join(ps, sep)[|ps[0]| + 1..] == Join(ps[1..], sep)
  {
  }

  lemma FirstPieceNotLonger(ps: seq<string>, qs: seq<string>, s: string, sep: char)
    requires IsSplit(ps, s, sep) && IsSplit(qs, s, sep)
    ensures |qs[0]| <= |ps[0]|
  {
    JoinStartsWith(ps, sep);
    JoinStartsWith(qs, sep);
    var p, q := ps[0], qs[0];
    assert IsPiece(q, sep) && IsPiece(p, sep) && q == s[..|q|] && p == s[..|p|];
    assert |p| <= |q| ==> q[..|p|] == p;
    if |p| < |q| && |ps| > 1 {
      assert false;
    }
  }

  /** There is only one decomposition. */
  lemma {:induction false} SplitIsUnique(ps: seq<string>, qs: seq<string>, s: string, sep: char)
    requires IsSplit(ps, s, sep) && IsSplit(qs, s, sep)
    ensures ps == qs
    decreases |s|
  {
    FirstPieceNotLonger(ps, qs, s, sep);
    FirstPieceNotLonger(qs, ps, s, sep);
    JoinStartsWith(ps, sep);
    JoinStartsWith(qs, sep);
    if |ps| > 1 {
      SplitIsUnique(ps[1..], qs[1..], s[|ps[0]| + 1..], sep);
      assert ps == [ps[0]] + ps[1..] && qs == [qs[0]] + qs[1..];
    }
  }

  // -- the decomposition as a function ------------------------------------------------------------------------

  /** Index of the first top-level separator at or after `from`; the length if there is none. */
  function FirstTop(s: string, sep: char, from: nat): (k: nat)
    requires from <= |s|
    ensures from <= k <= |s|
    ensures forall j :: from <= j < k && s[j] == sep ==> Depth(s[..j]) != 0
    ensures k < |s| ==> s[k] == sep && Depth(s[..k]) == 0
    decreases |s| - from
  {
    if from == |s| || (s[from] == sep && Depth(s[..from]) == 0) then from else FirstTop(s, sep, from + 1)
  }

  /** Cut at the first top-level separator, then cut the rest. */
  function Pieces(s: string, sep: char): (ps: seq<string>)
    ensures ps != []
    decreases |s|
  {
    var k := FirstTop(s, sep, 0);
    if k == |s| then [s] else [s[..k]] + Pieces(s[k + 1..], sep)
  }

  /** Cutting balanced text at a depth-zero separator leaves balanced text on both sides. */
  lemma CutKeepsBalance(s: string, k: nat)
    requires Balanced(s) && k < |s| && Depth(s[..k]) == 0 && Delta(s[k]) == 0
    ensures Balanced(s[..k]) && Balanced(s[k + 1..])
  {
    assert s[..0] == [] && s[..|s|] == s && s[0..k] == s[..k] && s[k + 1..|s|] == s[k + 1..];
    SliceIsBalanced(s, 0, k);
    SliceDepth(s, k, k + 1);
    assert s[k..k + 1] == [s[k]] && Depth([s[k]]) == 0;
    hide Depth;
    SliceIsBalanced(s, k + 1, |s|);
  }

  lemma FirstTopIsPiece(s: string, sep: char)
    requires Balanced(s) && Delta(sep) == 0
    ensures IsPiece(s[..FirstTop(s, sep, 0)], sep)
  {
    var k := FirstTop(s, sep, 0);
    if k == |s| {
      assert s[..k] == s;
    } else {
      CutKeepsBalance(s, k);
      assert forall j :: 0 <= j < k ==> s[..k][..j] == s[..j];
    }
  }

  lemma {:induction false} PiecesSplit(s: string, sep: char)
    requires Balanced(s) && Delta(sep) == 0
    ensures IsSplit(Pieces(s, sep), s, sep)
    decreases |s|
  {
    hide Balanced, NoTopSep, FirstTop;
    var k := FirstTop(s, sep, 0);
    FirstTopIsPiece(s, sep);
    if k == |s| {
      assert s[..k] == s;
    } else {
      CutKeepsBalance(s, k);
      PiecesSplit(s[k + 1..], sep);
      assert Pieces(s, sep)[1..] == Pieces(s[k + 1..], sep);
      assert s == s[..k] + [sep] + s[k + 1..];
    }
  }

  function TrimAll(ps: seq<string>): (r: seq<string>)
    ensures |r| == |ps|
  {
    seq(|ps|, i requires 0 <= i < |ps| => Trim(ps[i]))
  }

  /** The result of `split_top_level`. */
  function SplitTop(s: string, sep: char): Result<seq<string>, SplitError> {
    if Blank(s) then Ok([])
    else if Balanced(s) then Ok(TrimAll(Pieces(s, sep)))
    else Err(if NeverNegative(s) then UnclosedStruct else UnmatchedBrace)
  }

  lemma SpaceHasNoPieces(s: string, sep: char)
    requires AllSpace(s)
    ensures SplitTop(s, sep) == Ok([])
  {
    TrimStartDrops(s, "");
    assert s + "" == s;
  }

  /** Exactness: outside blank input it succeeds precisely on balanced text, and whatever balanced
      pieces rejoin to the input are, trimmed, the result. */
  lemma SplitTopIsExact(s: string, sep: char, ps: seq<string>)
    requires !Blank(s) && Delta(sep) == 0
    ensures SplitTop(s, sep).Ok? <==> Balanced(s)
    ensures SplitTop(s, sep).Ok? <==> exists qs :: IsSplit(qs, s, sep)
    ensures IsSplit(ps, s, sep) ==>
      && SplitTop(s, sep) == Ok(TrimAll(ps)) && |SplitTop(s, sep).value| == |ps|
      && forall i :: 0 <= i < |ps| ==> SplitTop(s, sep).value[i] == Trim(ps[i])
  {
    if Balanced(s) {
      PiecesSplit(s, sep);
      if IsSplit(ps, s, sep) {
        SplitIsUnique(ps, Pieces(s, sep), s, sep);
      }
    }
    forall qs | IsSplit(qs, s, sep)
      ensures Balanced(s)
    {
      forall i | 0 <= i < |qs|
        ensures Balanced(qs[i])
      {
        assert IsPiece(qs[i], sep);
      }
      JoinIsBalanced(qs, sep);
    }
  }

  // -- the scanner -----------------------------------------------------------------------------------------------

  lemma {:induction false} JoinAppend(ps: seq<string>, p: string, q: string, sep: char)
    ensures Join(ps + [p], sep) + [sep] + q == Join(ps + [p, q], sep)
  {
    if ps == [] {
      assert Join([p, q], sep) == p + [sep] + Join([q], sep) by {
        assert [p, q][1..] == [q];
      }
      assert ps + [p] == [p] && ps + [p, q] == [p, q];
    } else {
      JoinAppend(ps[1..], p, q, sep);
      assert (ps + [p])[1..] == ps[1..] + [p] && (ps + [p, q])[1..] == ps[1..] + [p, q];
    }
  }

  /** One step of the scan inside the current piece. */
  lemma ScanStep(s: string, start: nat, i: nat)
    requires start <= i < |s| && Depth(s[..start]) == 0
    ensures Depth(s[..i + 1]) == Depth(s[..i]) + Delta(s[i])
    ensures Depth(s[start..i]) == Depth(s[..i])
    ensures forall k :: start <= k <= i + 1 ==> s[start..i + 1][..k - start] == s[start..k]
  {
    assert s[..i + 1][..i] == s[..i];
    DepthOfPrefix(s[..i], start);
    assert s[..i][..start] == s[..start] && s[..i][start..] == s[start..i];
  }

  /** What the scan knows about the text it has read. */
  ghost predicate Scanned(s: string, sep: char, done: seq<string>, start: nat, i: nat) {
    && start <= i <= |s|
    && AllPieces(done, sep)
    && Join(done + [s[start..i]], sep) == s[..i]
    && Depth(s[..start]) == 0
    && (forall k :: 0 <= k <= i ==> Depth(s[..k]) >= 0)
    && (forall k :: start <= k < i && s[k] == sep ==> Depth(s[..k]) != 0)
  }

  lemma CurrentPiece(s: string, sep: char, done: seq<string>, start: nat, i: nat)
    requires Scanned(s, sep, done, start, i) && Depth(s[..i]) == 0
    ensures IsPiece(s[start..i], sep)
  {
    hide Depth, Join, AllPieces;
    var t := s[..i];
    assert t[..i] == t && t[start..i] == s[start..i];
    assert forall k :: 0 <= k <= i ==> t[..k] == s[..k];
    SliceIsPiece(t, sep, start, i);
  }

  lemma NextChar(s: string, sep: char, done: seq<string>, start: nat, i: nat)
    requires Scanned(s, sep, done, start, i) && i < |s|
    requires Depth(s[..i]) + Delta(s[i]) >= 0
    requires !(s[i] == sep && Depth(s[..i]) == 0)
    ensures Scanned(s, sep, done, start, i + 1)
  {
    ScanStep(s, start, i);
    assert s[start..i + 1] == s[start..i] + [s[i]];
    JoinGrows(done, s[start..i], s[i], sep);
    assert s[..i + 1] == s[..i] + [s[i]];
  }

  lemma {:induction false} JoinGrows(ps: seq<string>, p: string, c: char, sep: char)
    ensures Join(ps + [p + [c]], sep) == Join(ps + [p], sep) + [c]
  {
    if ps == [] {
      assert ps + [p] == [p] && ps + [p + [c]] == [p + [c]];
    } else {
      JoinGrows(ps[1..], p, c, sep);
      assert (ps + [p])[1..] == ps[1..] + [p] && (ps + [p + [c]])[1..] == ps[1..] + [p + [c]];
    }
  }

  lemma Cut(s: string, sep: char, done: seq<string>, start: nat, i: nat)
    requires Scanned(s, sep, done, start, i) && i < |s| && Delta(sep) == 0
    requires s[i] == sep && Depth(s[..i]) == 0
    ensures Scanned(s, sep, done + [s[start..i]], i + 1, i + 1)
  {
    hide Depth, Balanced, NoTopSep;
    ScanStep(s, start, i);
    CurrentPiece(s, sep, done, start, i);
    var p := s[start..i];
    JoinAppend(done, p, [], sep);
    assert s[i + 1..i + 1] == [];
    assert done + [p] + [[]] == done + [p, []];
    assert s[..i + 1] == s[..i] + [sep];
  }

  /** A negative prefix is what the scanner reports as an unmatched brace. */
  lemma NegativeDepth(s: string, sep: char, i: nat)
    requires i < |s| && Depth(s[..i]) == 0 && s[i] == '}' && !Blank(s)
    ensures SplitTop(s, sep) == Err(UnmatchedBrace)
  {
    assert s[..i + 1][..i] == s[..i];
    assert Depth(s[..i + 1]) < 0;
  }

  /** At the end of the text the depth decides between the two outcomes. */
  lemma EndOfScan(s: string, sep: char, done: seq<string>, start: nat)
    requires Scanned(s, sep, done, start, |s|) && Delta(sep) == 0 && !Blank(s)
    ensures Depth(s) != 0 ==> SplitTop(s, sep) == Err(UnclosedStruct)
    ensures Depth(s) == 0 ==> SplitTop(s, sep) == Ok(TrimAll(done) + [Trim(s[start..])])
  {
    hide Depth, NoTopSep, Trim;
    assert s[..|s|] == s && s[start..|s|] == s[start..];
    if Depth(s) == 0 {
      CurrentPiece(s, sep, done, start, |s|);
      SplitTopIsExact(s, sep, done + [s[start..]]);
      assert TrimAll(done + [s[start..]]) == TrimAll(done) + [Trim(s[start..])];
    }
  }

  /** `split_top_level`: one pass with a depth counter. */
  method SplitTopLevel(input: string, separator: char) returns (r: Result<seq<string>, SplitError>)
    requires Delta(separator) == 0
    ensures r == SplitTop(input, separator)
  {
    if Trim(input) == [] {
      return Ok([]);
    }
    hide SplitTop, Trim, Scanned, Depth;
    var parts: seq<string> := [];
    var depth: nat := 0;
    var start := 0;
    ghost var done: seq<string> := [];
    ScanStart(input, separator);
    for idx := 0 to |input|
      invariant 0 <= start <= idx
      invariant Scanned(input, separator, done, start, idx)
      invariant parts == TrimAll(done)
      invariant depth == Depth(input[..idx])
    {
      var ch := input[idx];
      ScannedStep(input, separator, done, start, idx);
      if ch == '{' {
        NextChar(input, separator, done, start, idx);
        depth := depth + 1;
      } else if ch == '}' {
        if depth == 0 {
          NegativeDepth(input, separator, idx);
          return Err(UnmatchedBrace);
        }
        NextChar(input, separator, done, start, idx);
        depth := depth - 1;
      } else if ch == separator && depth == 0 {
        Cut(input, separator, done, start, idx);
        parts := parts + [Trim(input[start..idx])];
        done := done + [input[start..idx]];
        start := idx + 1;
      } else {
        NextChar(input, separator, done, start, idx);
      }
    }
    assert input[..|input|] == input;
    EndOfScan(input, separator, done, start);
    if depth != 0 {
      return Err(UnclosedStruct);
    }
    parts := parts + [Trim(input[start..])];
    return Ok(parts);
  }

  lemma ScanStart(s: string, sep: char)
    ensures Scanned(s, sep, [], 0, 0) && Depth(s[..0]) == 0
  {
    assert Join([[]], sep) == [];
  }

  lemma ScannedStep(s: string, sep: char, done: seq<string>, start: nat, i: nat)
    requires Scanned(s, sep, done, start, i) && i < |s|
    ensures Depth(s[..i + 1]) == Depth(s[..i]) + Delta(s[i])
  {
    ScanStep(s, start, i);
  }
}
