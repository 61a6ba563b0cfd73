/** The scores against the metric as it is published: which characters match, what a
    transposition is, and what the formulas are, said without the algorithm. */
module SimilarityLaws {
  import opened Bytes
  import opened Similarity

  // --- who matches whom -----------------------------------------------------------------

  /** Two places no further apart than half the longer string, less one. */
  predicate Near(a: string, b: string, i: int, j: int) {
    var longer := if |a| < |b| then |b| else |a|;
    var reach := if longer < 2 then 0 else longer / 2 - 1;
    -reach <= i - j <= reach
  }

  /** A place in b that the i-th character of a may take: near, equal, and not taken before. */
  predicate MayTake(a: string, b: string, p: seq<int>, i: nat, j: int)
    requires i < |a| && i < |p|
  {
    0 <= j < |b| && Near(a, b, i, j) && a[i] == b[j] && j !in p[..i]
  }

  /** Partners for the characters of a: each, in order, takes the first place it may, or none. */
  ghost predicate Greedy(a: string, b: string, p: seq<int>) {
    && |p| <= |a|
    && forall i: nat :: i < |p| ==>
         if p[i] == -1 then forall j :: !MayTake(a, b, p, i, j)
         else MayTake(a, b, p, i, p[i]) && forall j :: MayTake(a, b, p, i, j) ==> p[i] <= j
  }

  /** There is only one way to do that. */
  lemma {:induction false} GreedyIsUnique(a: string, b: string, p: seq<int>, q: seq<int>)
    requires Greedy(a, b, p) && Greedy(a, b, q) && |p| == |q|
    ensures p == q
  {
    if p != [] {
      var n := |p| - 1;
      GreedyBefore(a, b, p);
      GreedyBefore(a, b, q);
      GreedyIsUnique(a, b, p[..n], q[..n]);
      assert p[..n] == q[..n];
      assert forall j :: MayTake(a, b, p, n, j) <==> MayTake(a, b, q, n, j);
      assert p == p[..n] + [p[n]] && q == q[..n] + [q[n]];
    }
  }

  lemma GreedyBefore(a: string, b: string, p: seq<int>)
    requires Greedy(a, b, p) && p != []
    ensures Greedy(a, b, p[..|p| - 1])
  {
    var n := |p| - 1;
    forall i: nat, j | i < n ensures MayTake(a, b, p[..n], i, j) <==> MayTake(a, b, p, i, j) {
      assert p[..n][..i] == p[..i];
    }
  }

  function Partners(a: string, b: string, n: nat): (r: seq<int>)
    requires n <= |a|
    ensures |r| == n
  {
    if n == 0 then []
    else
      var w := Window(a, b);
      Partners(a, b, n - 1)
      + [match FirstFree(b, MatchUpTo(a, b, n - 1).right, a[n - 1], Low(n - 1, w), High(n - 1, w, b)) {
           case None => -1
           case Some(j) => j
         }]
  }

  /** The flags the algorithm keeps are those of the partners. */
  lemma {:induction false} FlagsArePartners(a: string, b: string, n: nat)
    requires n <= |a|
    ensures forall i :: 0 <= i < n ==> (MatchUpTo(a, b, n).left[i] <==> Partners(a, b, n)[i] != -1)
    ensures forall j :: 0 <= j < |b| ==> (MatchUpTo(a, b, n).right[j] <==> j in Partners(a, b, n))
    ensures forall i :: 0 <= i < n ==> -1 <= Partners(a, b, n)[i] < |b|
  {
    if n > 0 {
      FlagsArePartners(a, b, n - 1);
    }
  }

  lemma InReach(a: string, b: string, i: nat, j: nat)
    requires i < |a| && j < |b|
    ensures var w := Window(a, b); Low(i, w) <= j < High(i, w, b) <==> Near(a, b, i, j)
  {
  }

  lemma {:induction false} PartnersAreGreedy(a: string, b: string, n: nat)
    requires n <= |a|
    ensures Greedy(a, b, Partners(a, b, n))
  {
    hide Greedy, MatchUpTo, Near, Window, Low, High;
    if n == 0 {
      NoPartners(a, b);
    } else {
      PartnersAreGreedy(a, b, n - 1);
      FlagsArePartners(a, b, n - 1);
      var p, q := Partners(a, b, n - 1), Partners(a, b, n);
      NextIsGreedy(a, b, n - 1, p, q);
      OneMoreIsGreedy(a, b, p, q);
    }
  }

  lemma NoPartners(a: string, b: string)
    ensures Greedy(a, b, [])
  {
  }

  lemma OneMoreIsGreedy(a: string, b: string, p: seq<int>, q: seq<int>)
    requires Greedy(a, b, p) && |q| == |p| + 1 <= |a| && q[..|p|] == p
    requires if q[|p|] == -1 then forall j :: !MayTake(a, b, q, |p|, j)
             else MayTake(a, b, q, |p|, q[|p|]) && forall j :: MayTake(a, b, q, |p|, j) ==> q[|p|] <= j
    ensures Greedy(a, b, q)
  {
    hide Near;
    forall i: nat, j | i < |p| ensures MayTake(a, b, q, i, j) <==> MayTake(a, b, p, i, j) {
      assert q[..i] == p[..i];
    }
    forall i: nat | i < |q|
      ensures if q[i] == -1 then forall j :: !MayTake(a, b, q, i, j)
              else MayTake(a, b, q, i, q[i]) && forall j :: MayTake(a, b, q, i, j) ==> q[i] <= j
    {
      assert i < |p| ==> q[i] == p[i];
    }
  }

  lemma NextIsGreedy(a: string, b: string, i: nat, p: seq<int>, q: seq<int>)
    requires i < |a| && p == Partners(a, b, i) && q == Partners(a, b, i + 1)
    requires forall j :: 0 <= j < |b| ==> (MatchUpTo(a, b, i).right[j] <==> j in p)
    ensures if q[i] == -1 then forall j :: !MayTake(a, b, q, i, j)
            else MayTake(a, b, q, i, q[i]) && forall j :: MayTake(a, b, q, i, j) ==> q[i] <= j
  {
    hide Near, Window, Low, High, MatchUpTo;
    assert q[..i] == p;
    var w := Window(a, b);
    forall j: nat | j < |b| ensures Low(i, w) <= j < High(i, w, b) <==> Near(a, b, i, j) {
      InReach(a, b, i, j);
    }
  }

  // --- the matched characters in order -------------------------------------------------------

  /** The places that are set, in order. */
  function Places(flags: seq<bool>): seq<nat> {
    if flags == [] then []
    else
      var n := |flags| - 1;
      Places(flags[..n]) + if flags[n] then [n] else []
  }

  /** The members of the set, each once, in order. */
  ghost predicate InOrder(xs: seq<nat>, members: set<nat>) {
    && (forall k, l :: 0 <= k < l < |xs| ==> xs[k] < xs[l])
    && (forall k :: 0 <= k < |xs| ==> xs[k] in members)
    && (forall i :: i in members ==> i in xs)
  }

  function Set(flags: seq<bool>): set<nat> {
    set i: nat | i < |flags| && flags[i]
  }

  lemma OneMore(xs: seq<nat>, members: set<nat>, n: nat)
    requires InOrder(xs, members) && forall i :: i in members ==> i < n
    ensures InOrder(xs + [n], members + {n})
  {
    var ys := xs + [n];
    forall i | i in members + {n} ensures i in ys {
      if i == n {
        assert ys[|xs|] == n;
      } else {
        assert i in xs;
      }
    }
  }

  lemma {:induction false} PlacesAre(s: string, flags: seq<bool>)
    requires |s| == |flags|
    ensures InOrder(Places(flags), Set(flags))
    ensures |Picked(s, flags)| == |Places(flags)|
    ensures forall k :: 0 <= k < |Places(flags)| ==> Places(flags)[k] < |s|
    ensures forall k :: 0 <= k < |Places(flags)| ==> Picked(s, flags)[k] == s[Places(flags)[k]]
    decreases |s|
  {
    if flags != [] {
      var n := |flags| - 1;
      PlacesAre(s[..n], flags[..n]);
      if flags[n] {
        OneMore(Places(flags[..n]), Set(flags[..n]), n);
        assert Set(flags) == Set(flags[..n]) + {n};
      } else {
        assert Set(flags) == Set(flags[..n]);
      }
    }
  }

  lemma {:induction false} DifferencesCount(x: string, y: string)
    requires |x| == |y|
    ensures Differences(x, y) == |set k | 0 <= k < |x| && x[k] != y[k]|
    decreases |x|
  {
    if x != "" {
      var n := |x| - 1;
      DifferencesCount(x[..n], y[..n]);
      var before, after := set k | 0 <= k < n && x[..n][k] != y[..n][k], set k | 0 <= k < |x| && x[k] != y[k];
      assert after == before + if x[n] != y[n] then {n} else {};
    }
  }

  // --- the scores --------------------------------------------------------------------------------

  /** Pairs of matched characters, taken in order on both sides, that differ. */
  function OutOfOrder(a: string, b: string, xs: seq<nat>, ys: seq<nat>): set<nat>
    requires |xs| == |ys|
    requires (forall k :: 0 <= k < |xs| ==> xs[k] < |a|) && (forall k :: 0 <= k < |ys| ==> ys[k] < |b|)
  {
    set k: nat | k < |xs| && a[xs[k]] != b[ys[k]]
  }

  /** Jaro's score of two strings that are not empty. The partners p are those of the rule,
      and xs and ys the matched places of each side in order: with m matches, of which t
      pairs taken in order differ, the score is a third of m/|a| + m/|b| + (m - t/2)/m. */
  lemma JaroIsPublished(a: string, b: string) returns (p: seq<int>, xs: seq<nat>, ys: seq<nat>)
    requires a != "" && b != ""
    ensures |p| == |a| && Greedy(a, b, p)
    ensures InOrder(xs, set i: nat | i < |a| && p[i] != -1)
    ensures InOrder(ys, set j: nat | j < |b| && j in p)
    ensures |xs| == |ys|
    ensures xs == [] ==> Jaro(a, b) == 0.0
    ensures xs != [] ==>
      var m, t := |xs| as real, |OutOfOrder(a, b, xs, ys)| as real;
      Jaro(a, b) == (m / |a| as real + m / |b| as real + (m - t / 2.0) / m) / 3.0
  {
    hide MatchUpTo, Partners, Greedy, Places, Picked, Differences;
    PartnersAreGreedy(a, b, |a|);
    FlagsArePartners(a, b, |a|);
    var flags := MatchUpTo(a, b, |a|);
    p := Partners(a, b, |a|);
    xs, ys := Places(flags.left), Places(flags.right);
    PlacesAre(a, flags.left);
    PlacesAre(b, flags.right);
    var (x, y) := Matched(a, b);
    DifferencesCount(x, y);
    assert Set(flags.left) == set i: nat | i < |a| && p[i] != -1;
    assert Set(flags.right) == set j: nat | j < |b| && j in p;
    assert (set k | 0 <= k < |x| && x[k] != y[k]) == OutOfOrder(a, b, xs, ys);
  }

  /** With nothing on either side the score is 1, and with nothing on one side 0. */
  lemma JaroOfNothing(a: string, b: string)
    requires a == "" || b == ""
    ensures Jaro(a, b) == if a == b then 1.0 else 0.0
  {
  }

  /** Above 0.7, each of the first four characters the strings have in common takes a
      tenth of what is missing to 1; up to there nothing is added. */
  lemma JaroWinklerIsPublished(a: string, b: string) returns (p: nat)
    ensures p <= 4 && p <= |a| && p <= |b| && a[..p] == b[..p]
    ensures p == 4 || p == |a| || p == |b| || a[p] != b[p]
    ensures var j := Jaro(a, b);
      JaroWinkler(a, b) == if j <= 0.7 then j else j + p as real * (1.0 - j) / 10.0
  {
    hide Jaro, CommonPrefix;
    p := CommonPrefix(a, b, 4);
    PrefixIsCommon(a, b, 4);
    BoostIs(Jaro(a, b), p);
  }

  lemma BoostIs(j: real, p: nat)
    ensures Boosted(j, p) == j + p as real * (1.0 - j) / 10.0
  {
  }

  lemma {:induction false} PrefixIsCommon(a: string, b: string, limit: nat)
    ensures var p := CommonPrefix(a, b, limit);
      && p <= |a| && p <= |b| && a[..p] == b[..p]
      && (p == limit || p == |a| || p == |b| || a[p] != b[p])
  {
    if limit > 0 && a != "" && b != "" && a[0] == b[0] {
      PrefixIsCommon(a[1..], b[1..], limit - 1);
      var p := CommonPrefix(a[1..], b[1..], limit - 1);
      assert a[..p + 1] == [a[0]] + a[1..][..p] && b[..p + 1] == [b[0]] + b[1..][..p];
    }
  }

  // --- numbers --------------------------------------------------------------------------------------

  function Joined(tokens: seq<string>): string {
    if tokens == [] then ""
    else if |tokens| == 1 then tokens[0]
    else tokens[0] + " " + Joined(tokens[1..])
  }

  /** The tokens are the text between the spaces. */
  lemma {:induction false} SplitIsBetweenSpaces(s: string)
    ensures Joined(Split(s)) == s
    ensures forall k :: 0 <= k < |Split(s)| ==> ' ' !in Split(s)[k]
  {
    hide Joined;
    if s == "" {
      JoinedOne("");
    } else {
      SplitIsBetweenSpaces(s[1..]);
      var rest := Split(s[1..]);
      if s[0] == ' ' {
        JoinedSpace(rest);
        assert s == " " + s[1..];
      } else {
        JoinedLetter(s[0], rest);
        assert s == [s[0]] + s[1..];
      }
    }
  }

  lemma JoinedOne(t: string)
    ensures Joined([t]) == t
  {
  }

  lemma JoinedSpace(rest: seq<string>)
    requires rest != []
    ensures Joined([""] + rest) == " " + Joined(rest)
  {
    var all := [""] + rest;
    assert all[1..] == rest && all[0] == "";
    assert Joined(all) == "" + " " + Joined(rest);
  }

  lemma JoinedLetter(c: char, rest: seq<string>)
    requires rest != []
    ensures Joined([[c] + rest[0]] + rest[1..]) == [c] + Joined(rest)
  {
    hide Joined;
    var all := [[c] + rest[0]] + rest[1..];
    assert all[1..] == rest[1..];
    if |rest| == 1 {
      assert all == [[c] + rest[0]] && rest == [rest[0]];
      JoinedOne([c] + rest[0]);
      JoinedOne(rest[0]);
    } else {
      JoinedMore(all);
      JoinedMore(rest);
      var more := " " + Joined(rest[1..]);
      assert [c] + rest[0] + more == [c] + (rest[0] + more);
    }
  }

  lemma JoinedMore(tokens: seq<string>)
    requires |tokens| > 1
    ensures Joined(tokens) == tokens[0] + (" " + Joined(tokens[1..]))
  {
    assert tokens[0] + " " + Joined(tokens[1..]) == tokens[0] + (" " + Joined(tokens[1..]));
  }

  /** A number is one or more characters, all digits or all letters of roman numerals. */
  lemma IsNumberIff(t: string)
    ensures IsNumber(t) <==>
      && |t| > 0
      && (|| (forall k :: 0 <= k < |t| ==> t[k] in "0123456789")
          || (forall k :: 0 <= k < |t| ==> t[k] in {'i', 'v', 'x', 'l', 'c', 'd', 'm'}))
  {
    forall k | 0 <= k < |t|
      ensures '0' <= t[k] <= '9' <==> t[k] in "0123456789"
      ensures t[k] in "ivxlcdm" <==> t[k] in {'i', 'v', 'x', 'l', 'c', 'd', 'm'}
    {
      DigitLetter(t[k]);
      RomanLetter(t[k]);
    }
  }

  lemma DigitLetter(c: char)
    ensures '0' <= c <= '9' <==> c in "0123456789"
  {
    var d := "0123456789";
    assert d[0] == '0' && d[1] == '1' && d[2] == '2' && d[3] == '3' && d[4] == '4';
    assert d[5] == '5' && d[6] == '6' && d[7] == '7' && d[8] == '8' && d[9] == '9';
  }

  lemma RomanLetter(c: char)
    ensures c in "ivxlcdm" <==> c in {'i', 'v', 'x', 'l', 'c', 'd', 'm'}
  {
    var d := "ivxlcdm";
    assert d[0] == 'i' && d[1] == 'v' && d[2] == 'x' && d[3] == 'l' && d[4] == 'c' && d[5] == 'd' && d[6] == 'm';
  }

  /** The numbers of a text are those of its tokens that are numbers, in order. */
  lemma {:induction false} SelectedAre(tokens: seq<string>) returns (at: seq<nat>)
    ensures InOrder(at, set i: nat | i < |tokens| && IsNumber(tokens[i]))
    ensures |Select(tokens)| == |at|
    ensures forall k :: 0 <= k < |at| ==> at[k] < |tokens| && Select(tokens)[k] == tokens[at[k]]
  {
    hide IsNumber, Select;
    if tokens == [] {
      at := [];
      SelectNothing();
    } else {
      var n := |tokens| - 1;
      at := SelectedAre(tokens[..n]);
      assert tokens == tokens[..n] + [tokens[n]];
      SelectSnoc(tokens[..n], tokens[n]);
      var before := set i: nat | i < n && IsNumber(tokens[..n][i]);
      var after := set i: nat | i < |tokens| && IsNumber(tokens[i]);
      if IsNumber(tokens[n]) {
        OneMore(at, before, n);
        at := at + [n];
        assert after == before + {n};
      } else {
        assert after == before;
      }
    }
  }

  lemma SelectNothing()
    ensures Select([]) == []
  {
  }

  lemma {:induction false} SelectSnoc(tokens: seq<string>, t: string)
    ensures Select(tokens + [t]) == Select(tokens) + if IsNumber(t) then [t] else []
  {
    hide IsNumber;
    if tokens == [] {
      assert [] + [t] == [t] && [t][1..] == [];
    } else {
      assert (tokens + [t])[1..] == tokens[1..] + [t];
      SelectSnoc(tokens[1..], t);
    }
  }

  /** Two titles whose numbers differ anywhere, in what they are, in order or in how many
      there are, are not alike at all; otherwise they are as alike as their letters. */
  lemma NumbersDecide(a: string, b: string) returns (at: seq<nat>, bt: seq<nat>)
    ensures InOrder(at, set i: nat | i < |Split(a)| && IsNumber(Split(a)[i]))
    ensures InOrder(bt, set i: nat | i < |Split(b)| && IsNumber(Split(b)[i]))
    ensures forall k :: 0 <= k < |at| ==> at[k] < |Split(a)|
    ensures forall k :: 0 <= k < |bt| ==> bt[k] < |Split(b)|
    ensures Similarity.Similarity(a, b) ==
      if |at| == |bt| && (forall k :: 0 <= k < |at| ==> Split(a)[at[k]] == Split(b)[bt[k]]) then JaroWinkler(a, b)
      else 0.0
  {
    hide JaroWinkler, Split, Select, IsNumber;
    at := SelectedAre(Split(a));
    bt := SelectedAre(Split(b));
    assert Numbers(a) == Select(Split(a)) && Numbers(b) == Select(Split(b));
  }
}
