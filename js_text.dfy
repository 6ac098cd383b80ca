/**
 * The few JavaScript string primitives the relay relies on: the whitespace
 * set shared by `String.prototype.trim` and the regular-expression class `\s`,
 * `toLowerCase` restricted to ASCII letters, `trim`, and `includes`.
 * Scans are written over an index into the unchanged string, so that the
 * verifier can also evaluate them on concrete messages.
 */
module JsText {

  /** ECMAScript WhiteSpace and LineTerminator code points (what `trim` strips and `\s` matches). */
  predicate IsWhitespace(c: char) {
    || c == '\t' || c == '\n' || c == '\U{000B}' || c == '\U{000C}' || c == '\r'
    || c == ' ' || c == '\U{00A0}' || c == '\U{1680}'
    || ('\U{2000}' <= c <= '\U{200A}')
    || c == '\U{2028}' || c == '\U{2029}' || c == '\U{202F}' || c == '\U{205F}'
    || c == '\U{3000}' || c == '\U{FEFF}'
  }

  predicate AllWhitespace(s: string) {
    forall i :: 0 <= i < |s| ==> IsWhitespace(s[i])
  }

  /** `\d` in a regular expression: the ASCII digits only. */
  predicate IsDigit(c: char) {
    '0' <= c <= '9'
  }

  predicate AllDigits(s: string) {
    forall i :: 0 <= i < |s| ==> IsDigit(s[i])
  }

  predicate IsAsciiUpper(c: char) {
    'A' <= c <= 'Z'
  }

  /** `toLowerCase` on one character, for the ASCII letters; every other character is kept. */
  function LowerChar(c: char): char {
    if IsAsciiUpper(c) then (c as int + 32) as char else c
  }

  /** The ASCII upper-case letter of a lower-case one; every other character is kept. */
  function UpperChar(c: char): char {
    if 'a' <= c <= 'z' then (c as int - 32) as char else c
  }

  /** `String.prototype.toLowerCase`, restricted to ASCII letters; its meaning is `LowerIsLower`. */
  function Lower(s: string): string {
    seq(|s|, i requires 0 <= i < |s| => LowerChar(s[i]))
  }

  /** `String.prototype.toUpperCase`, restricted to ASCII letters. */
  function Upper(s: string): string {
    seq(|s|, i requires 0 <= i < |s| => UpperChar(s[i]))
  }

  /**
   * Lower-casing keeps the length, leaves no ASCII upper-case letter, keeps
   * every other character, keeps each letter the same letter, and is idempotent.
   */
  lemma LowerIsLower(s: string)
    ensures |Lower(s)| == |s|
    ensures forall i :: 0 <= i < |s| ==> !IsAsciiUpper(Lower(s)[i])
    ensures forall i :: 0 <= i < |s| && !IsAsciiUpper(s[i]) ==> Lower(s)[i] == s[i]
    ensures forall i :: 0 <= i < |s| ==> UpperChar(Lower(s)[i]) == UpperChar(s[i])
    ensures Lower(Lower(s)) == Lower(s)
  {
  }

  /** Lower-casing forgets the case of every ASCII letter. */
  lemma LowerOfUpper(s: string)
    ensures Lower(Upper(s)) == Lower(s)
  {
  }

  /** Lower-casing works character by character, so it distributes over concatenation. */
  lemma LowerConcat(u: string, v: string)
    ensures Lower(u + v) == Lower(u) + Lower(v)
  {
  }

  /** Whitespace holds no letter, so lower-casing leaves it as it is. */
  lemma LowerWhitespace(w: string)
    requires AllWhitespace(w)
    ensures Lower(w) == w
  {
  }

  /** The first index at or after `i` that does not hold whitespace (or the end): `\s*`, and the left end of `trim`. */
  function SkipWhitespace(s: string, i: nat): (r: nat)
    requires i <= |s|
    ensures i <= r <= |s|
    ensures forall k :: i <= k < r ==> IsWhitespace(s[k])
    ensures r == |s| || !IsWhitespace(s[r])
    decreases |s| - i
  {
    if i < |s| && IsWhitespace(s[i]) then SkipWhitespace(s, i + 1) else i
  }

  /** The right end of `trim`: the least index down to `lo` after which `s[..j]` holds only whitespace. */
  function SkipTrailingWhitespace(s: string, lo: nat, j: nat): (r: nat)
    requires lo <= j <= |s|
    ensures lo <= r <= j
    ensures forall k :: r <= k < j ==> IsWhitespace(s[k])
    ensures r == lo || !IsWhitespace(s[r - 1])
    decreases j
  {
    if lo < j && IsWhitespace(s[j - 1]) then SkipTrailingWhitespace(s, lo, j - 1) else j
  }

  /** `String.prototype.trim`; its meaning is `TrimSplits` and `TrimCharacterised`. */
  function Trim(s: string): string {
    var a := SkipWhitespace(s, 0);
    s[a..SkipTrailingWhitespace(s, a, |s|)]
  }

  /**
   * `trim` is characterised by its result: whatever lies between a whitespace
   * prefix and a whitespace suffix, and neither begins nor ends with whitespace.
   */
  lemma TrimCharacterised(a: string, r: string, b: string)
    requires AllWhitespace(a) && AllWhitespace(b)
    requires r == [] || (!IsWhitespace(r[0]) && !IsWhitespace(r[|r| - 1]))
    ensures Trim(a + r + b) == r
  {
    var s := a + r + b;
    var x := SkipWhitespace(s, 0);
    if r == [] {
      assert forall k :: 0 <= k < |s| ==> IsWhitespace(s[k]) by {
        forall k | 0 <= k < |s| ensures IsWhitespace(s[k]) {
          if k < |a| { assert s[k] == a[k]; } else { assert s[k] == b[k - |a|]; }
        }
      }
      assert x == |s|;
    } else {
      assert s[|a|] == r[0];
      assert forall k :: 0 <= k < |a| ==> s[k] == a[k];
      assert x == |a|;
      var y := SkipTrailingWhitespace(s, x, |s|);
      assert s[|a| + |r| - 1] == r[|r| - 1];
      assert forall k :: |a| + |r| <= k < |s| ==> s[k] == b[k - |a| - |r|];
      assert y == |a| + |r|;
      assert s[x..y] == r;
    }
  }

  /** Every string splits into a whitespace prefix, its trimmed form, and a whitespace suffix. */
  lemma TrimSplits(s: string) returns (a: string, b: string)
    ensures s == a + Trim(s) + b
    ensures AllWhitespace(a) && AllWhitespace(b)
    ensures Trim(s) == [] || (!IsWhitespace(Trim(s)[0]) && !IsWhitespace(Trim(s)[|Trim(s)| - 1]))
  {
    var x := SkipWhitespace(s, 0);
    var y := SkipTrailingWhitespace(s, x, |s|);
    a, b := s[..x], s[y..];
    assert s == a + s[x..y] + b;
  }

  lemma AllWhitespaceConcat(u: string, v: string)
    requires AllWhitespace(u) && AllWhitespace(v)
    ensures AllWhitespace(u + v)
  {
    assert forall i :: 0 <= i < |u + v| ==> (u + v)[i] == if i < |u| then u[i] else v[i - |u|];
  }

  lemma Regroup(w1: string, a: string, r: string, b: string, w2: string)
    ensures w1 + (a + r + b) + w2 == (w1 + a) + r + (b + w2)
  {
  }

  /** `trim` ignores any whitespace added around its argument. */
  lemma TrimIgnoresPadding(w1: string, s: string, w2: string)
    requires AllWhitespace(w1) && AllWhitespace(w2)
    ensures Trim(w1 + s + w2) == Trim(s)
  {
    var r := Trim(s);
    var a, b := TrimSplits(s);
    AllWhitespaceConcat(w1, a);
    AllWhitespaceConcat(b, w2);
    Regroup(w1, a, r, b, w2);
    TrimCharacterised(w1 + a, r, b + w2);
  }

  /** `p` occurs in `s` starting at index `k`: the plain definition of a substring occurrence. */
  predicate OccursAt(s: string, p: string, k: nat) {
    k + |p| <= |s| && s[k..k + |p|] == p
  }

  /** Characters `j..` of `p` agree with `s` from index `k + j` on. */
  predicate AgreesFrom(s: string, p: string, k: nat, j: nat)
    requires k + |p| <= |s|
    decreases |p| - j
  {
    j >= |p| || (s[k + j] == p[j] && AgreesFrom(s, p, k, j + 1))
  }

  /** `s.includes(p)`, trying the start positions from `k` on, leftmost first. */
  predicate IncludesFrom(s: string, p: string, k: nat)
    decreases |s| - k
  {
    k + |p| <= |s| && (AgreesFrom(s, p, k, 0) || IncludesFrom(s, p, k + 1))
  }

  /** `String.prototype.includes`; its meaning is `IncludesIffOccurs`. */
  predicate Includes(s: string, p: string) {
    IncludesFrom(s, p, 0)
  }

  lemma {:induction false} AgreesFromIff(s: string, p: string, k: nat, j: nat)
    requires k + |p| <= |s|
    ensures AgreesFrom(s, p, k, j) <==> forall i :: j <= i < |p| ==> s[k + i] == p[i]
    decreases |p| - j
  {
    if j < |p| {
      AgreesFromIff(s, p, k, j + 1);
    }
  }

  lemma {:induction false} IncludesFromIff(s: string, p: string, k: nat)
    ensures IncludesFrom(s, p, k) <==> exists m: nat :: k <= m && OccursAt(s, p, m)
    decreases |s| - k
  {
    if k + |p| <= |s| {
      AgreesFromIff(s, p, k, 0);
      assert AgreesFrom(s, p, k, 0) <==> OccursAt(s, p, k);
      IncludesFromIff(s, p, k + 1);
      if exists m: nat :: k <= m && OccursAt(s, p, m) {
        var m: nat :| k <= m && OccursAt(s, p, m);
        if m > k {
          assert k + 1 <= m;
        }
      }
    }
  }

  /** `includes` holds exactly when `p` occurs somewhere in `s`. */
  lemma IncludesIffOccurs(s: string, p: string)
    ensures Includes(s, p) <==> exists m: nat :: OccursAt(s, p, m)
  {
    IncludesFromIff(s, p, 0);
  }

  /** An occurrence of `p` makes `includes` hold. */
  lemma OccursIncluded(s: string, p: string, m: nat)
    requires OccursAt(s, p, m)
    ensures Includes(s, p)
  {
    IncludesIffOccurs(s, p);
  }

  /** A keyword holding a character that the text lacks is not included in it. */
  lemma AbsentCharExcludes(s: string, p: string, c: char)
    requires c in p && c !in s
    ensures !Includes(s, p)
  {
    IncludesIffOccurs(s, p);
    var j :| 0 <= j < |p| && p[j] == c;
    forall m: nat
      ensures !OccursAt(s, p, m)
    {
      if m + |p| <= |s| {
        assert s[m + j] in s;
        assert s[m..m + |p|][j] != p[j];
      }
    }
  }
}
