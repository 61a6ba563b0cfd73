/** Byte strings: substring search, ASCII white space, and how both behave
    when more bytes arrive at the end or a prefix is dropped at the front. */
module Bytes {
  type byte = x: int | 0 <= x < 256

  type bytes = seq<byte>

  datatype Option<+T> = None | Some(value: T)

  const LT: byte := 0x3C
  const NEWLINE: byte := 0x0A

  /** ASCII white space: space, tab, newline, form feed, carriage return (vertical tab is not included). */
  predicate IsSpace(b: byte) {
    b == 0x20 || b == 0x09 || b == 0x0A || b == 0x0C || b == 0x0D
  }

  /** The pattern occurs in s at index i. */
  predicate At(s: bytes, i: int, pat: bytes) {
    && 0 <= i
    && i + |pat| <= |s|
    && forall k :: 0 <= k < |pat| ==> s[i + k] == pat[k]
  }

  /** The first occurrence of a pattern at or after i. */
  function FindFrom(s: bytes, i: nat, pat: bytes): (r: Option<nat>)
    ensures r.Some? ==> i <= r.value && At(s, r.value, pat)
    ensures r.Some? ==> forall j :: i <= j < r.value ==> !At(s, j, pat)
    ensures r.None? ==> forall j :: i <= j ==> !At(s, j, pat)
    decreases |s| - i
  {
    if At(s, i, pat) then Some(i)
    else if i >= |s| then None
    else FindFrom(s, i + 1, pat)
  }

  /** The first index at or after i that holds no white space, or the end. */
  function WsEnd(s: bytes, i: nat): (r: nat)
    requires i <= |s|
    ensures i <= r <= |s|
    ensures forall k :: i <= k < r ==> IsSpace(s[k])
    ensures r < |s| ==> !IsSpace(s[r])
    decreases |s| - i
  {
    if i < |s| && IsSpace(s[i]) then WsEnd(s, i + 1) else i
  }

  /** The bytes that are not white space, in order. */
  function StripSpace(s: bytes): (r: bytes)
    ensures forall b :: b in r ==> b in s && !IsSpace(b)
    ensures forall b :: b in s && !IsSpace(b) ==> b in r
  {
    if s == [] then []
    else if IsSpace(s[0]) then StripSpace(s[1..])
    else [s[0]] + StripSpace(s[1..])
  }

  lemma {:induction false} StripSpaceConcat(a: bytes, b: bytes)
    ensures StripSpace(a + b) == StripSpace(a) + StripSpace(b)
  {
    if a == [] {
      assert a + b == b;
    } else {
      assert (a + b)[1..] == a[1..] + b;
      StripSpaceConcat(a[1..], b);
    }
  }

  lemma {:induction false} StripSpaceOfSolid(a: bytes)
    requires forall b :: b in a ==> !IsSpace(b)
    ensures StripSpace(a) == a
  {
    if a != [] {
      StripSpaceOfSolid(a[1..]);
    }
  }

  lemma AtBound(s: bytes, o: int, pat: bytes)
    requires At(s, o, pat)
    ensures 0 <= o && o + |pat| <= |s|
  {
  }

  /** An index that holds an occurrence with none before it is what FindFrom returns. */
  lemma FindIs(s: bytes, i: nat, pat: bytes, n: nat)
    requires i <= n && At(s, n, pat)
    requires forall j :: i <= j < n ==> !At(s, j, pat)
    ensures FindFrom(s, i, pat) == Some(n)
  {
  }

  /** Appending bytes cannot change a search that has already succeeded. */
  lemma FindExtends(s: bytes, t: bytes, i: nat, pat: bytes)
    requires s <= t && FindFrom(s, i, pat).Some?
    ensures FindFrom(t, i, pat) == FindFrom(s, i, pat)
  {
    var n := FindFrom(s, i, pat).value;
    forall j | i <= j < n ensures !At(t, j, pat) {
      assert At(t, j, pat) ==> At(s, j, pat);
    }
    FindIs(t, i, pat, n);
  }

  lemma {:induction false} WsExtends(s: bytes, t: bytes, i: nat)
    requires s <= t && i <= |s| && WsEnd(s, i) < |s|
    ensures WsEnd(t, i) == WsEnd(s, i)
    decreases |s| - i
  {
    if IsSpace(s[i]) {
      WsExtends(s, t, i + 1);
    }
  }

  lemma AtShift(s: bytes, k: nat, i: int, pat: bytes)
    requires k <= |s| && 0 <= i
    ensures At(s[k..], i, pat) <==> At(s, k + i, pat)
  {
    if At(s, k + i, pat) {
      forall j | 0 <= j < |pat| ensures s[k..][i + j] == pat[j] {
        assert s[k + i + j] == pat[j];
      }
    }
    if At(s[k..], i, pat) {
      forall j | 0 <= j < |pat| ensures s[k + i + j] == pat[j] {
        assert s[k..][i + j] == pat[j];
      }
    }
  }

  function Shift(r: Option<nat>, k: nat): Option<nat> {
    match r case None => None case Some(n) => Some(n + k)
  }

  /** A search of the bytes after k is the same search of the whole, k further along. */
  lemma FindShift(s: bytes, k: nat, i: nat, pat: bytes)
    requires k <= |s|
    ensures FindFrom(s, k + i, pat) == Shift(FindFrom(s[k..], i, pat), k)
  {
    forall j: int | i <= j ensures At(s[k..], j, pat) <==> At(s, k + j, pat) {
      AtShift(s, k, j, pat);
    }
    match FindFrom(s[k..], i, pat)
    case Some(n) =>
      forall j | k + i <= j < k + n ensures !At(s, j, pat) {
        assert !At(s[k..], j - k, pat);
      }
      FindIs(s, k + i, pat, k + n);
    case None =>
      forall j | k + i <= j ensures !At(s, j, pat) {
        assert !At(s[k..], j - k, pat);
      }
  }

  lemma {:induction false} WsShift(s: bytes, k: nat, i: nat)
    requires k <= |s| && k + i <= |s|
    ensures WsEnd(s, k + i) == k + WsEnd(s[k..], i)
    decreases |s| - i
  {
    if k + i < |s| {
      assert s[k..][i] == s[k + i];
      if IsSpace(s[k + i]) {
        WsShift(s, k, i + 1);
      }
    }
  }
}
