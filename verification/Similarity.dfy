/** How alike two titles are: Jaro and Jaro-Winkler similarity of two
    normalised strings, and none at all when their numbers differ. Scores are reals. */
module Similarity {
  import opened Bytes

  // --- the definition ---------------------------------------------------------------

  /** How far apart two matching characters may stand. */
  function Window(a: string, b: string): nat {
    var longer := if |a| >= |b| then |a| else |b|;
    if longer / 2 > 0 then longer / 2 - 1 else 0
  }

  function Low(i: nat, window: nat): nat {
    if i >= window then i - window else 0
  }

  function High(i: nat, window: nat, b: string): (r: nat)
    ensures r <= |b|
  {
    if i + window + 1 <= |b| then i + window + 1 else |b|
  }

  /** The first unused character of b in [lo, hi) that equals c. */
  function FirstFree(b: string, used: seq<bool>, c: char, lo: nat, hi: nat): (r: Option<nat>)
    requires hi <= |b| == |used|
    ensures r.Some? ==> lo <= r.value < hi && !used[r.value] && b[r.value] == c
    ensures r.Some? ==> forall j :: lo <= j < r.value ==> used[j] || b[j] != c
    ensures r.None? ==> forall j :: lo <= j < hi ==> used[j] || b[j] != c
    decreases if lo < hi then hi - lo else 0
  {
    if lo >= hi then None
    else if !used[lo] && b[lo] == c then Some(lo)
    else FirstFree(b, used, c, lo + 1, hi)
  }

  /** Which characters are matched, on each side. */
  datatype Matching = Matching(left: seq<bool>, right: seq<bool>)

  /** Each of the first n characters of a, in order, takes the first free equal character of b in its window. */
  function MatchUpTo(a: string, b: string, n: nat): (r: Matching)
    requires n <= |a|
    ensures |r.left| == n && |r.right| == |b|
  {
    if n == 0 then Matching([], seq(|b|, _ => false))
    else
      var before := MatchUpTo(a, b, n - 1);
      var w := Window(a, b);
      match FirstFree(b, before.right, a[n - 1], Low(n - 1, w), High(n - 1, w, b))
      case None => Matching(before.left + [false], before.right)
      case Some(j) => Matching(before.left + [true], before.right[j := true])
  }

  /** The flagged characters, in order. */
  function Picked(s: string, flags: seq<bool>): (r: string)
    requires |s| == |flags|
    ensures |r| <= |s|
  {
    if s == "" then ""
    else Picked(s[..|s| - 1], flags[..|s| - 1]) + (if flags[|s| - 1] then [s[|s| - 1]] else [])
  }

  /** Positions at which two strings of equal length differ. */
  function Differences(x: string, y: string): (r: nat)
    requires |x| == |y|
    ensures r <= |x|
    ensures r == 0 <==> x == y
  {
    if x == "" then 0
    else
      assert x == x[..|x| - 1] + [x[|x| - 1]] && y == y[..|y| - 1] + [y[|y| - 1]];
      Differences(x[..|x| - 1], y[..|y| - 1]) + (if x[|x| - 1] == y[|y| - 1] then 0 else 1)
  }

  function Count(flags: seq<bool>): (r: nat)
    ensures r <= |flags|
  {
    if flags == [] then 0 else Count(flags[..|flags| - 1]) + (if flags[|flags| - 1] then 1 else 0)
  }

  /** Both sides always have equally many matched characters. */
  lemma {:induction false} SidesAgree(a: string, b: string, n: nat)
    requires n <= |a|
    ensures Count(MatchUpTo(a, b, n).left) == Count(MatchUpTo(a, b, n).right)
  {
    if n == 0 {
      NoneSet(|b|);
    } else {
      SidesAgree(a, b, n - 1);
      var before := MatchUpTo(a, b, n - 1);
      var w := Window(a, b);
      assert (before.left + [true])[..n - 1] == before.left && (before.left + [false])[..n - 1] == before.left;
      match FirstFree(b, before.right, a[n - 1], Low(n - 1, w), High(n - 1, w, b))
      case None =>
      case Some(j) => SetOne(before.right, j);
    }
  }

  lemma {:induction false} NoneSet(n: nat)
    ensures Count(seq(n, _ => false)) == 0
  {
    if n > 0 {
      NoneSet(n - 1);
      assert seq(n, _ => false)[..n - 1] == seq(n - 1, _ => false);
    }
  }

  lemma {:induction false} SetOne(flags: seq<bool>, j: nat)
    requires j < |flags| && !flags[j]
    ensures Count(flags[j := true]) == Count(flags) + 1
    decreases |flags|
  {
    var n := |flags| - 1;
    if j == n {
      assert flags[j := true][..n] == flags[..n];
    } else {
      assert flags[j := true][..n] == flags[..n][j := true];
      SetOne(flags[..n], j);
    }
  }

  lemma {:induction false} PickedLength(s: string, flags: seq<bool>)
    requires |s| == |flags|
    ensures |Picked(s, flags)| == Count(flags)
    decreases |s|
  {
    if s != "" {
      PickedLength(s[..|s| - 1], flags[..|s| - 1]);
    }
  }

  /** The matched characters of a and of b, each in its own order. */
  function Matched(a: string, b: string): (r: (string, string))
    ensures |r.0| == |r.1| <= |a|
    ensures |r.1| <= |b|
  {
    var m := MatchUpTo(a, b, |a|);
    SidesAgree(a, b, |a|);
    PickedLength(a, m.left);
    PickedLength(b, m.right);
    (Picked(a, m.left), Picked(b, m.right))
  }

  /** The Jaro score from the number of matches and of matched characters out of order. */
  function Score(la: nat, lb: nat, matches: nat, transposed: nat): real
    requires 0 < la && 0 < lb && 0 < matches
  {
    (matches as real / la as real + matches as real / lb as real
     + (matches as real - transposed as real / 2.0) / matches as real) / 3.0
  }

  function Jaro(a: string, b: string): real {
    if a == "" && b == "" then 1.0
    else if a == "" || b == "" then 0.0
    else
      var (x, y) := Matched(a, b);
      if x == "" then 0.0 else Score(|a|, |b|, |x|, Differences(x, y))
  }

  function CommonPrefix(a: string, b: string, limit: nat): (r: nat)
    ensures r <= limit
  {
    if limit > 0 && a != "" && b != "" && a[0] == b[0] then 1 + CommonPrefix(a[1..], b[1..], limit - 1) else 0
  }

  /** Jaro with Winkler's bonus for a common prefix of up to four characters, above 0.7 only. */
  function JaroWinkler(a: string, b: string): real {
    var j := Jaro(a, b);
    if j <= 0.7 then j else Boosted(j, CommonPrefix(a, b, 4))
  }

  function Boosted(j: real, prefix: nat): real {
    j + prefix as real * 0.1 * (1.0 - j)
  }

  // --- numbers ------------------------------------------------------------------------

  function Split(s: string): (r: seq<string>)
    ensures r != []
  {
    if s == "" then [""]
    else
      var rest := Split(s[1..]);
      if s[0] == ' ' then [""] + rest else [[s[0]] + rest[0]] + rest[1..]
  }

  predicate IsNumber(t: string) {
    && t != ""
    && (|| (forall k :: 0 <= k < |t| ==> '0' <= t[k] <= '9')
        || (forall k :: 0 <= k < |t| ==> t[k] in "ivxlcdm"))
  }

  function Select(tokens: seq<string>): seq<string> {
    if tokens == [] then [] else (if IsNumber(tokens[0]) then [tokens[0]] else []) + Select(tokens[1..])
  }

  /** The tokens that could be a volume or a part: digits only, or roman letters only. */
  function Numbers(s: string): seq<string> {
    Select(Split(s))
  }

  function Similarity(a: string, b: string): real {
    if Numbers(a) != Numbers(b) then 0.0 else JaroWinkler(a, b)
  }

  // --- the algorithm as it runs -----------------------------------------------------------

  /** Two flag arrays, one greedy pass and one walk over the matches. */
  method ComputeJaro(a: string, b: string) returns (score: real)
    ensures score == Jaro(a, b)
  {
    if a == "" && b == "" {
      return 1.0;
    }
    if a == "" || b == "" {
      return 0.0;
    }
    var aMatched := new bool[|a|](_ => false);
    var bMatched := new bool[|b|](_ => false);
    var matches := MarkMatches(a, b, aMatched, bMatched);
    ghost var m := MatchUpTo(a, b, |a|);
    assert aMatched[..] == m.left && bMatched[..] == m.right;
    SidesAgree(a, b, |a|);
    PickedLength(a, m.left);
    PickedLength(b, m.right);
    if matches == 0 {
      return 0.0;
    }
    var transpositions := CountTranspositions(a, b, aMatched, bMatched);
    score := Score(|a|, |b|, matches, transpositions);
  }

  method MarkMatches(a: string, b: string, aMatched: array<bool>, bMatched: array<bool>) returns (matches: nat)
    requires aMatched.Length == |a| && bMatched.Length == |b| && aMatched != bMatched
    requires forall k :: 0 <= k < |a| ==> !aMatched[k]
    requires forall k :: 0 <= k < |b| ==> !bMatched[k]
    modifies aMatched, bMatched
    ensures aMatched[..] == MatchUpTo(a, b, |a|).left && bMatched[..] == MatchUpTo(a, b, |a|).right
    ensures matches == Count(MatchUpTo(a, b, |a|).left)
  {
    hide Count, FirstFree, MatchUpTo;
    var window := Window(a, b);
    matches := 0;
    CountNone();
    MatchNone(a, b);
    assert aMatched[..0] == [] && bMatched[..] == seq(|b|, _ => false);
    for i := 0 to |a|
      invariant aMatched[..i] == MatchUpTo(a, b, i).left && bMatched[..] == MatchUpTo(a, b, i).right
      invariant forall k :: i <= k < |a| ==> !aMatched[k]
      invariant matches == Count(aMatched[..i])
    {
      MatchNext(a, b, i);
      var j := FindFree(b, bMatched, a[i], Low(i, window), High(i, window, b));
      if j.Some? {
        aMatched[i] := true;
        bMatched[j.value] := true;
        matches := matches + 1;
      }
      assert aMatched[..i + 1] == aMatched[..i] + [aMatched[i]];
      CountNext(aMatched[..i], aMatched[i]);
    }
    assert aMatched[..|a|] == aMatched[..];
  }

  lemma MatchNone(a: string, b: string)
    ensures MatchUpTo(a, b, 0) == Matching([], seq(|b|, _ => false))
  {
  }

  lemma MatchNext(a: string, b: string, i: nat)
    requires i < |a|
    ensures var before, w := MatchUpTo(a, b, i), Window(a, b);
            MatchUpTo(a, b, i + 1)
              == match FirstFree(b, before.right, a[i], Low(i, w), High(i, w, b))
                 case None => Matching(before.left + [false], before.right)
                 case Some(j) => Matching(before.left + [true], before.right[j := true])
  {
  }

  lemma CountNone()
    ensures Count([]) == 0
  {
  }

  lemma CountNext(flags: seq<bool>, f: bool)
    ensures Count(flags + [f]) == Count(flags) + if f then 1 else 0
  {
    assert (flags + [f])[..|flags|] == flags;
  }

  method FindFree(b: string, bMatched: array<bool>, c: char, lo: nat, hi: nat) returns (r: Option<nat>)
    requires hi <= |b| == bMatched.Length
    ensures r == FirstFree(b, bMatched[..], c, lo, hi)
  {
    var j := lo;
    while j < hi
      invariant lo <= j
      invariant FirstFree(b, bMatched[..], c, lo, hi) == FirstFree(b, bMatched[..], c, j, hi)
      decreases hi - j
    {
      if !bMatched[j] && b[j] == c {
        return Some(j);
      }
      j := j + 1;
    }
    return None;
  }

  /** Walk the matches of both sides in step, counting the pairs that differ. */
  method CountTranspositions(a: string, b: string, aMatched: array<bool>, bMatched: array<bool>) returns (t: nat)
    requires aMatched.Length == |a| && bMatched.Length == |b|
    requires Count(aMatched[..]) == Count(bMatched[..])
    ensures |Picked(a, aMatched[..])| == |Picked(b, bMatched[..])|
    ensures t == Differences(Picked(a, aMatched[..]), Picked(b, bMatched[..]))
  {
    hide Picked, Differences;
    t := 0;
    var k := 0;
    PickedNothing(a, aMatched[..], b, bMatched[..]);
    ghost var fa, fb := aMatched[..], bMatched[..];
    PickedLength(a, fa);
    PickedLength(b, fb);
    for i := 0 to |a|
      invariant k <= |b|
      invariant |Picked(a[..i], fa[..i])| == |Picked(b[..k], fb[..k])|
      invariant t == Differences(Picked(a[..i], fa[..i]), Picked(b[..k], fb[..k]))
    {
      PickedNext(a, fa, i);
      if aMatched[i] {
        ghost var x, y := Picked(a[..i], fa[..i]), Picked(b[..k], fb[..k]);
        MoreToCome(a, fa, b, fb, i, k);
        k := NextMatch(b, bMatched, k);
        PickedNext(b, fb, k);
        DifferencesNext(x, y, a[i], b[k]);
        if a[i] != b[k] {
          t := t + 1;
        }
        k := k + 1;
      }
    }
    assert a[..|a|] == a && fa[..|a|] == fa;
    NothingLeft(b, fb, k);
  }

  /** The next matched character of b at or after k. */
  method NextMatch(b: string, bMatched: array<bool>, k: nat) returns (r: nat)
    requires |b| == bMatched.Length && exists j :: k <= j < |b| && bMatched[j]
    ensures k <= r < |b| && bMatched[r]
    ensures Picked(b[..r], bMatched[..][..r]) == Picked(b[..k], bMatched[..][..k])
  {
    r := k;
    while !bMatched[r]
      invariant k <= r < |b|
      invariant forall j :: k <= j < r ==> !bMatched[j]
      decreases |b| - r
    {
      r := r + 1;
    }
    PickedGrows(b, bMatched[..], k, r);
  }

  lemma PickedNothing(a: string, fa: seq<bool>, b: string, fb: seq<bool>)
    requires |a| == |fa| && |b| == |fb|
    ensures Picked(a[..0], fa[..0]) == Picked(b[..0], fb[..0]) == ""
    ensures Differences("", "") == 0
  {
  }

  lemma DifferencesNext(x: string, y: string, c: char, d: char)
    requires |x| == |y|
    ensures Differences(x + [c], y + [d]) == Differences(x, y) + if c == d then 0 else 1
  {
    assert (x + [c])[..|x|] == x && (y + [d])[..|y|] == y;
  }

  lemma PickedNext(s: string, flags: seq<bool>, k: nat)
    requires |s| == |flags| && k < |s|
    ensures Picked(s[..k + 1], flags[..k + 1])
         == if flags[k] then Picked(s[..k], flags[..k]) + [s[k]] else Picked(s[..k], flags[..k])
  {
    assert s[..k + 1][..k] == s[..k] && flags[..k + 1][..k] == flags[..k];
  }

  /** Picking from longer prefixes picks more. */
  lemma {:induction false} PickedGrows(s: string, flags: seq<bool>, k: nat, n: nat)
    requires |s| == |flags| && k <= n <= |s|
    ensures |Picked(s[..k], flags[..k])| <= |Picked(s[..n], flags[..n])|
    ensures |Picked(s[..k], flags[..k])| == |Picked(s[..n], flags[..n])| ==>
              Picked(s[..k], flags[..k]) == Picked(s[..n], flags[..n]) && forall j :: k <= j < n ==> !flags[j]
    ensures (forall j :: k <= j < n ==> !flags[j]) ==> Picked(s[..k], flags[..k]) == Picked(s[..n], flags[..n])
    decreases n
  {
    hide Picked;
    if k < n {
      PickedGrows(s, flags, k, n - 1);
      PickedNext(s, flags, n - 1);
    }
  }

  /** While a still has a match to visit, so does b. */
  lemma MoreToCome(a: string, fa: seq<bool>, b: string, fb: seq<bool>, i: nat, k: nat)
    requires |a| == |fa| && |b| == |fb| && i < |a| && k <= |b| && fa[i]
    requires |Picked(a, fa)| == |Picked(b, fb)|
    requires |Picked(a[..i], fa[..i])| == |Picked(b[..k], fb[..k])|
    ensures exists j :: k <= j < |b| && fb[j]
  {
    PickedNext(a, fa, i);
    PickedGrows(a, fa, i + 1, |a|);
    assert a[..|a|] == a && fa[..|a|] == fa && b[..|b|] == b && fb[..|b|] == fb;
    PickedGrows(b, fb, k, |b|);
  }

  lemma NothingLeft(b: string, fb: seq<bool>, k: nat)
    requires |b| == |fb| && k <= |b| && |Picked(b[..k], fb[..k])| == |Picked(b, fb)|
    ensures Picked(b[..k], fb[..k]) == Picked(b, fb)
  {
    assert b[..|b|] == b && fb[..|b|] == fb;
    PickedGrows(b, fb, k, |b|);
  }

  // --- what the scores promise --------------------------------------------------------------

  lemma Fraction(x: real, y: real)
    requires 0.0 <= x <= y && 0.0 < y
    ensures 0.0 <= x / y <= 1.0
    ensures x / y == 1.0 <==> x == y
  {
    assert x == (x / y) * y;
  }

  lemma ScoreBounds(la: nat, lb: nat, matches: nat, transposed: nat)
    requires 0 < matches <= la && matches <= lb && transposed <= matches
    ensures 0.0 < Score(la, lb, matches, transposed) <= 1.0
    ensures Score(la, lb, matches, transposed) == 1.0 <==> matches == la == lb && transposed == 0
  {
    var m, t := matches as real, transposed as real;
    Fraction(m, la as real);
    Fraction(m, lb as real);
    Fraction(m - t / 2.0, m);
    assert m - t / 2.0 == m <==> transposed == 0;
    assert m / la as real == 1.0 <==> matches == la;
    PositiveFraction(m - t / 2.0, m);
  }

  lemma PositiveFraction(x: real, y: real)
    requires 0.0 < x && 0.0 < y
    ensures 0.0 < x / y
  {
    assert x == (x / y) * y;
  }

  /** Equal strings match character by character. */
  lemma {:induction false} SelfMatch(a: string, n: nat)
    requires n <= |a|
    ensures MatchUpTo(a, a, n).left == seq(n, _ => true)
    ensures MatchUpTo(a, a, n).right == seq(|a|, k => k < n)
  {
    hide MatchUpTo, FirstFree;
    MatchNone(a, a);
    if n == 0 {
      assert seq(|a|, _ => false) == seq(|a|, k => k < n);
    } else {
      SelfMatch(a, n - 1);
      MatchNext(a, a, n - 1);
      var right := MatchUpTo(a, a, n - 1).right;
      var w := Window(a, a);
      OwnPlace(a, right, n - 1, Low(n - 1, w), High(n - 1, w, a));
      assert right[n - 1 := true] == seq(|a|, k => k < n);
    }
  }

  lemma OwnPlace(a: string, used: seq<bool>, i: nat, lo: nat, hi: nat)
    requires |used| == |a| && lo <= i < hi <= |a| && !used[i] && forall k :: 0 <= k < i ==> used[k]
    ensures FirstFree(a, used, a[i], lo, hi) == Some(i)
  {
  }

  lemma {:induction false} PickedAll(s: string, flags: seq<bool>)
    requires |s| == |flags| && |Picked(s, flags)| == |s|
    ensures Picked(s, flags) == s
    decreases |s|
  {
    if s != "" {
      PickedAll(s[..|s| - 1], flags[..|s| - 1]);
      assert s == s[..|s| - 1] + [s[|s| - 1]];
    }
  }

  lemma {:induction false} AllFlagsPickAll(s: string, flags: seq<bool>)
    requires |s| == |flags| && forall k :: 0 <= k < |s| ==> flags[k]
    ensures Picked(s, flags) == s
    decreases |s|
  {
    if s != "" {
      AllFlagsPickAll(s[..|s| - 1], flags[..|s| - 1]);
      assert s == s[..|s| - 1] + [s[|s| - 1]];
    }
  }

  /** Jaro similarity lies in [0, 1] and is 1 exactly on equal strings. */
  lemma JaroIsExact(a: string, b: string)
    ensures 0.0 <= Jaro(a, b) <= 1.0
    ensures Jaro(a, b) == 1.0 <==> a == b
  {
    hide Score;
    if a != "" && b != "" {
      var (x, y) := Matched(a, b);
      var m := MatchUpTo(a, b, |a|);
      if a == b {
        SelfMatch(a, |a|);
        AllFlagsPickAll(a, m.left);
        AllFlagsPickAll(b, m.right);
      }
      if x != "" {
        ScoreBounds(|a|, |b|, |x|, Differences(x, y));
        if |x| == |a| == |b| {
          PickedAll(a, m.left);
          PickedAll(b, m.right);
        }
      }
    }
  }

  /** The prefix bonus keeps a score in [0, 1], never lowers it, and never lifts it to 1. */
  lemma JaroWinklerIsExact(a: string, b: string)
    ensures 0.0 <= JaroWinkler(a, b) <= 1.0
    ensures JaroWinkler(a, b) == 1.0 <==> a == b
    ensures Jaro(a, b) <= JaroWinkler(a, b)
  {
    hide Jaro, CommonPrefix, Boosted;
    JaroIsExact(a, b);
    var j, p := Jaro(a, b), CommonPrefix(a, b, 4);
    Bonus(j, p);
  }

  lemma Bonus(j: real, p: nat)
    requires 0.0 <= j <= 1.0 && p <= 4
    ensures j <= Boosted(j, p) <= 1.0
    ensures Boosted(j, p) == 1.0 <==> j == 1.0
  {
    assert p == 0 || p == 1 || p == 2 || p == 3 || p == 4;
  }

  /** The gate's score: in [0, 1], 1 exactly on equal strings, and 0 whenever the numbers disagree. */
  lemma SimilarityIsExact(a: string, b: string)
    ensures 0.0 <= Similarity(a, b) <= 1.0
    ensures Similarity(a, b) == 1.0 <==> a == b
    ensures Numbers(a) != Numbers(b) ==> Similarity(a, b) == 0.0
  {
    hide JaroWinkler, Numbers;
    JaroWinklerIsExact(a, b);
  }
}
