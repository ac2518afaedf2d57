// The JavaScript string primitives both pages rely on: the whitespace set shared
// by `\s` and `String.prototype.trim`, the `\d` and `\w` classes, literal search
// and the UTF-16 length that `.length` reports.

module Wrappers {
  datatype Option<+T> = None | Some(value: T)
}

module JsText {
  import opened Wrappers

  /** ECMAScript LineTerminator: the characters `.` refuses without the `s` flag. */
  predicate IsLineTerminator(c: char) {
    c == '\n' || c == '\r' || c == '\U{2028}' || c == '\U{2029}'
  }

  /** ECMAScript WhiteSpace or LineTerminator: the set of `\s` and of `trim`. */
  predicate IsSpace(c: char) {
    IsLineTerminator(c)
    || c == '\t' || c == '\U{000B}' || c == '\U{000C}' || c == '\U{FEFF}'
    || c == ' ' || c == '\U{00A0}' || c == '\U{1680}'
    || ('\U{2000}' <= c <= '\U{200A}')
    || c == '\U{202F}' || c == '\U{205F}' || c == '\U{3000}'
  }

  /** `\d`: ASCII digits only. */
  predicate IsDigit(c: char) {
    '0' <= c <= '9'
  }

  /** `\w`: `[A-Za-z0-9_]`. */
  predicate IsWordChar(c: char) {
    'A' <= c <= 'Z' || 'a' <= c <= 'z' || IsDigit(c) || c == '_'
  }

  predicate AllSpace(s: string) {
    forall i :: 0 <= i < |s| ==> IsSpace(s[i])
  }

  /** Neither end of `s` is whitespace. */
  predicate IsTrimmed(s: string) {
    |s| == 0 || (!IsSpace(s[0]) && !IsSpace(s[|s| - 1]))
  }

  /** End of the greedy `\s*` run that starts at `from`. */
  function SkipSpaces(s: string, from: nat): (k: nat)
    requires from <= |s|
    ensures from <= k <= |s|
    ensures forall i :: from <= i < k ==> IsSpace(s[i])
    ensures k < |s| ==> !IsSpace(s[k])
    decreases |s| - from
  {
    if from == |s| || !IsSpace(s[from]) then from else SkipSpaces(s, from + 1)
  }

  /** Start of the whitespace run that ends at `to`. */
  function SpaceTailStart(s: string, to: nat): (k: nat)
    requires to <= |s|
    ensures k <= to
    ensures forall i :: k <= i < to ==> IsSpace(s[i])
    ensures k > 0 ==> !IsSpace(s[k - 1])
  {
    if to == 0 || !IsSpace(s[to - 1]) then to else SpaceTailStart(s, to - 1)
  }

  /** `String.prototype.trimStart`. */
  function TrimStart(s: string): (r: string)
    ensures |r| <= |s| && r == s[|s| - |r|..]
    ensures AllSpace(s[..|s| - |r|])
    ensures r != [] ==> !IsSpace(r[0])
  {
    s[SkipSpaces(s, 0)..]
  }

  /** `String.prototype.trimEnd`. */
  function TrimEnd(s: string): (r: string)
    ensures |r| <= |s| && r == s[..|r|]
    ensures AllSpace(s[|r|..])
    ensures r != [] ==> !IsSpace(r[|r| - 1])
  {
    s[..SpaceTailStart(s, |s|)]
  }

  /** `String.prototype.trim`: the longest infix of `s` with no whitespace at either end. */
  function Trim(s: string): (r: string)
    ensures IsTrimmed(r)
    ensures forall c :: c in r ==> c in s
    ensures r == [] <==> AllSpace(s)
  {
    var t := TrimStart(s);
    var r := TrimEnd(t);
    TrimmedInfix(s, t, r);
    r
  }

  /** Trimming takes whitespace off the two ends of `s` and nothing else. */
  lemma TrimKeepsInfix(s: string)
    ensures IsTrimOf(Trim(s), s)
  {
    var t := TrimStart(s);
    TrimmedInfix(s, t, TrimEnd(t));
  }

  /**
   * The trim is the only infix of `s` that has no whitespace at its ends, only
   * whitespace around it, and is empty just when `s` is all whitespace.
   */
  lemma TrimIsUnique(s: string, r: string)
    requires IsTrimOf(r, s) && IsTrimmed(r) && (r == [] <==> AllSpace(s))
    ensures r == Trim(s)
  {
    if r == [] {
      assert Trim(s) == [];
    } else {
      var a :| 0 <= a && a + |r| <= |s| && r == s[a..a + |r|] && AllSpace(s[..a]) && AllSpace(s[a + |r|..]);
      TrimBothAt(s, a, r);
      assert Trim(s) == TrimEnd(TrimStart(s));
    }
  }

  /** A non-empty trimmed infix with only whitespace around it is what `trimStart` then `trimEnd` keep. */
  lemma TrimBothAt(s: string, a: nat, r: string)
    requires r != [] && IsTrimmed(r) && a + |r| <= |s| && r == s[a..a + |r|]
    requires AllSpace(s[..a]) && AllSpace(s[a + |r|..])
    ensures TrimEnd(TrimStart(s)) == r
  {
    assert s[a] == r[0];
    TrimStartAt(s, a);
    var t := s[a..];
    assert t[|r| - 1] == r[|r| - 1] && t[|r|..] == s[a + |r|..];
    TrimEndAt(t, |r|);
    SliceOfSuffix(s, a, |r|);
  }

  lemma SliceOfSuffix(s: string, a: nat, n: nat)
    requires a + n <= |s|
    ensures s[a..][..n] == s[a..a + n]
  {
  }

  /** Whitespace up to a non-whitespace character at `a` is what `trimStart` takes off. */
  lemma TrimStartAt(s: string, a: nat)
    requires a < |s| && AllSpace(s[..a]) && !IsSpace(s[a])
    ensures TrimStart(s) == s[a..]
  {
    forall i | 0 <= i < a ensures IsSpace(s[i]) {
      assert s[..a][i] == s[i];
    }
    SkipSpacesTo(s, 0, a);
  }

  /** Whitespace after a non-whitespace character at `n - 1` is what `trimEnd` takes off. */
  lemma TrimEndAt(t: string, n: nat)
    requires 0 < n <= |t| && AllSpace(t[n..]) && !IsSpace(t[n - 1])
    ensures TrimEnd(t) == t[..n]
  {
    forall i | n <= i < |t| ensures IsSpace(t[i]) {
      assert t[i] == t[n..][i - n];
    }
    SpaceTailStartTo(t, |t|, n);
  }

  /** The whitespace run that ends at `stop` starts at `k` when only whitespace lies between and none just before `k`. */
  lemma SpaceTailStartTo(s: string, stop: nat, k: nat)
    requires k <= stop <= |s|
    requires forall i :: k <= i < stop ==> IsSpace(s[i])
    requires k > 0 ==> !IsSpace(s[k - 1])
    ensures SpaceTailStart(s, stop) == k
    decreases stop
  {
    if stop > k {
      SpaceTailStartTo(s, stop - 1, k);
    }
  }

  /** `r` is `s` with only whitespace taken off its two ends. */
  predicate IsTrimOf(r: string, s: string) {
    exists a :: 0 <= a && a + |r| <= |s| && r == s[a..a + |r|] && AllSpace(s[..a]) && AllSpace(s[a + |r|..])
  }

  /** What trimming keeps is an infix of `s` with only whitespace on either side. */
  lemma TrimmedInfix(s: string, t: string, r: string)
    requires t == TrimStart(s) && r == TrimEnd(t)
    ensures var a := |s| - |t|;
            && a + |r| <= |s| && r == s[a..a + |r|] && AllSpace(s[..a]) && AllSpace(s[a + |r|..])
            && forall c :: c in r ==> c in s
  {
    var a := |s| - |t|;
    assert t == s[a..];
    assert s[a + |r|..] == t[|r|..];
    forall c | c in r ensures c in s {
      var i :| 0 <= i < |r| && r[i] == c;
      assert s[a + i] == c;
    }
  }

  /** Trimming leaves a string with no whitespace at its ends unchanged. */
  lemma TrimOfTrimmed(s: string)
    requires IsTrimmed(s)
    ensures Trim(s) == s
  {
    if s != [] {
      assert SkipSpaces(s, 0) == 0;
      assert SpaceTailStart(s, |s|) == |s|;
    }
  }

  /** `\s*` from `from` stops at `to` when only whitespace lies between and none at `to`. */
  lemma SkipSpacesTo(s: string, from: nat, to: nat)
    requires from <= to <= |s|
    requires forall i :: from <= i < to ==> IsSpace(s[i])
    requires to < |s| ==> !IsSpace(s[to])
    ensures SkipSpaces(s, from) == to
  {
  }

  /** A slice that ends inside `x` reads only `x`. */
  lemma SliceInLeft(x: string, y: string, i: nat, j: nat)
    requires i <= j <= |x|
    ensures (x + y)[i..j] == x[i..j]
  {
  }

  /** The part of `x + y` past `x` is `y`. */
  lemma SliceOfRight(x: string, y: string)
    ensures (x + y)[|x|..|x| + |y|] == y
  {
  }

  /** `pat` occurs in `s` at index `i`. */
  predicate Occurs(s: string, pat: string, i: int) {
    0 <= i && i + |pat| <= |s| && s[i..i + |pat|] == pat
  }

  /** `s.indexOf(pat, from)` as an option: the first occurrence at or after `from`. */
  function FindFrom(s: string, pat: string, from: nat): (r: Option<nat>)
    ensures r.Some? ==> from <= r.value && Occurs(s, pat, r.value)
    ensures forall i :: from <= i && (r.None? || i < r.value) ==> !Occurs(s, pat, i)
    decreases |s| - from
  {
    if from + |pat| > |s| then None
    else if Occurs(s, pat, from) then Some(from)
    else FindFrom(s, pat, from + 1)
  }

  /** A string placed between two others occurs where it was placed. */
  lemma PlacedAt(x: string, m: string, y: string)
    ensures Occurs(x + m + y, m, |x|)
  {
    assert (x + m + y)[|x|..|x| + |m|] == m;
  }

  /** Any occurrence with no earlier one at or after `from` is what `FindFrom` finds. */
  lemma FindFromIsFirst(s: string, pat: string, from: nat, j: nat)
    requires from <= j && Occurs(s, pat, j)
    requires forall i :: from <= i < j ==> !Occurs(s, pat, i)
    ensures FindFrom(s, pat, from) == Some(j)
  {
    var r := FindFrom(s, pat, from);
    assert r.Some?;
  }

  /** An occurrence that ends inside `s` is unaffected by what follows `s`. */
  lemma OccursInPrefix(s: string, t: string, pat: string, k: int)
    requires k + |pat| <= |s|
    ensures Occurs(s + t, pat, k) <==> Occurs(s, pat, k)
  {
    if 0 <= k {
      assert (s + t)[k..k + |pat|] == s[k..k + |pat|];
    }
  }

  /** A first occurrence found in `s` stays the first one once text is appended. */
  lemma FindFromInPrefix(s: string, t: string, pat: string, from: nat)
    requires FindFrom(s, pat, from).Some?
    ensures FindFrom(s + t, pat, from) == FindFrom(s, pat, from)
  {
    var j := FindFrom(s, pat, from).value;
    OccursInPrefix(s, t, pat, j);
    forall i | from <= i < j ensures !Occurs(s + t, pat, i) {
      OccursInPrefix(s, t, pat, i);
    }
    FindFromIsFirst(s + t, pat, from, j);
  }

  /**
   * The number of UTF-16 code units of `s`, which is what JavaScript's
   * `.length` counts: one per character, and one more for each character
   * outside the Basic Multilingual Plane (a surrogate pair).
   */
  function Utf16Length(s: string): (n: nat)
    ensures n >= |s|
    ensures (forall i :: 0 <= i < |s| ==> s[i] as int <= 0xFFFF) ==> n == |s|
  {
    var astral := set i | 0 <= i < |s| && s[i] as int > 0xFFFF;
    assert (forall i :: 0 <= i < |s| ==> s[i] as int <= 0xFFFF) ==> astral == {};
    |s| + |astral|
  }
}
