/**
 * The few JavaScript string operations the formula editor relies on:
 * `trim`, `toLowerCase` and `includes`, restricted to ASCII.
 */
module Text {

  /** ASCII white space as `String.prototype.trim` sees it: tab, line feed,
      vertical tab, form feed, carriage return and space. */
  predicate IsSpace(c: char) {
    c == ' ' || '\t' <= c <= '\r'
  }

  predicate AllSpace(s: string) {
    forall i :: 0 <= i < |s| ==> IsSpace(s[i])
  }

  /** Neither end of `s` is white space. */
  predicate Unpadded(s: string) {
    s == [] || (!IsSpace(s[0]) && !IsSpace(s[|s| - 1]))
  }

  /** The first index at or after `i` that is not white space (`|s|` when
      there is none). */
  function SkipSpace(s: string, i: nat): (k: nat)
    requires i <= |s|
    ensures i <= k <= |s|
    ensures forall j :: i <= j < k ==> IsSpace(s[j])
    ensures k == |s| || !IsSpace(s[k])
    decreases |s| - i
  {
    if i < |s| && IsSpace(s[i]) then SkipSpace(s, i + 1) else i
  }

  /** Walking back from `j`, the end of the last character at or after
      `k` that is not white space (`k` when there is none). */
  function SkipSpaceBack(s: string, k: nat, j: nat): (m: nat)
    requires k <= j <= |s|
    ensures k <= m <= j
    ensures forall i :: m <= i < j ==> IsSpace(s[i])
    ensures m == k || !IsSpace(s[m - 1])
    decreases j
  {
    if k < j && IsSpace(s[j - 1]) then SkipSpaceBack(s, k, j - 1) else j
  }

  /** The scans stop exactly where the white space stops. */
  lemma SkipSpaceStops(s: string, i: nat, k: nat)
    requires i <= k <= |s| && (forall j :: i <= j < k ==> IsSpace(s[j])) && (k == |s| || !IsSpace(s[k]))
    ensures SkipSpace(s, i) == k
    decreases k - i
  {
    if i < k {
      SkipSpaceStops(s, i + 1, k);
    }
  }

  lemma SkipSpaceBackStops(s: string, k: nat, j: nat, m: nat)
    requires k <= m <= j <= |s| && (forall i :: m <= i < j ==> IsSpace(s[i])) && (m == k || !IsSpace(s[m - 1]))
    ensures SkipSpaceBack(s, k, j) == m
    decreases j - m
  {
    if m < j {
      SkipSpaceBackStops(s, k, j - 1, m);
    }
  }

  /** Where the trimmed text starts in `s`. */
  function TrimOffset(s: string): (k: nat)
    ensures k <= |s|
  {
    SkipSpace(s, 0)
  }

  /** `String.prototype.trim`: `s` is white space, then the result, then
      white space, and the result neither starts nor ends with white space. */
  function Trim(s: string): (r: string)
    ensures Unpadded(r)
    ensures TrimOffset(s) + |r| <= |s| && r == s[TrimOffset(s)..TrimOffset(s) + |r|]
    ensures AllSpace(s[..TrimOffset(s)]) && AllSpace(s[TrimOffset(s) + |r|..])
  {
    var k := SkipSpace(s, 0);
    var m := SkipSpaceBack(s, k, |s|);
    assert AllSpace(s[..k]) by {
      assert forall j :: 0 <= j < k ==> s[..k][j] == s[j];
    }
    assert AllSpace(s[m..]) by {
      assert forall j :: 0 <= j < |s| - m ==> s[m..][j] == s[m + j];
    }
    s[k..m]
  }

  /** The trimmed form is the only unpadded text that white space around it
      can produce. */
  lemma TrimOfPadded(w1: string, x: string, w2: string)
    requires AllSpace(w1) && AllSpace(w2) && Unpadded(x)
    ensures Trim(w1 + x + w2) == x
  {
    var s := w1 + x + w2;
    var a, b := |w1|, |w1| + |x|;
    forall j | 0 <= j < a ensures IsSpace(s[j]) {
      assert s[j] == w1[j];
    }
    forall j | b <= j < |s| ensures IsSpace(s[j]) {
      assert s[j] == w2[j - b];
    }
    if |x| == 0 {
      SkipSpaceStops(s, 0, |s|);
      SkipSpaceBackStops(s, |s|, |s|, |s|);
    } else {
      assert s[a] == x[0] && s[b - 1] == x[|x| - 1];
      SkipSpaceStops(s, 0, a);
      SkipSpaceBackStops(s, a, |s|, b);
      assert s[a..b] == x;
    }
  }

  lemma AllSpaceConcat(a: string, b: string)
    requires AllSpace(a) && AllSpace(b)
    ensures AllSpace(a + b)
  {
    forall j | 0 <= j < |a + b| ensures IsSpace((a + b)[j]) {
      if j >= |a| { assert (a + b)[j] == b[j - |a|]; }
    }
  }

  /** `s` is white space, its trim, and white space. */
  lemma TrimSplits(s: string) returns (u1: string, u2: string)
    ensures AllSpace(u1) && AllSpace(u2) && s == u1 + Trim(s) + u2
  {
    var k, r := TrimOffset(s), Trim(s);
    u1, u2 := s[..k], s[k + |r|..];
  }

  lemma ConcatRegroup(a: string, b: string, c: string, d: string, e: string)
    ensures a + (b + c + d) + e == (a + b) + c + (d + e)
  {
  }

  /** The same split, stated without the offset. */
  lemma TrimSplitsSome(s: string)
    ensures exists u1, u2 :: AllSpace(u1) && AllSpace(u2) && s == u1 + Trim(s) + u2
  {
    var u1, u2 := TrimSplits(s);
  }

  /** Each character of the trim is the input's character at the offset. */
  lemma TrimIsInfix(s: string)
    ensures forall i :: 0 <= i < |Trim(s)| ==> Trim(s)[i] == s[TrimOffset(s) + i]
  {
    var k, r := TrimOffset(s), Trim(s);
    forall i | 0 <= i < |r|
      ensures r[i] == s[k + i]
    {
      assert r[i] == s[k..k + |r|][i];
    }
  }

  /** Trimming ignores white space added around the text. */
  lemma TrimIgnoresPadding(w1: string, s: string, w2: string)
    requires AllSpace(w1) && AllSpace(w2)
    ensures Trim(w1 + s + w2) == Trim(s)
  {
    var r := Trim(s);
    var u1, u2 := TrimSplits(s);
    var v1, v2 := w1 + u1, u2 + w2;
    AllSpaceConcat(w1, u1);
    AllSpaceConcat(u2, w2);
    calc {
      w1 + s + w2;
      w1 + (u1 + r + u2) + w2;
      { ConcatRegroup(w1, u1, r, u2, w2); }
      v1 + r + v2;
    }
    TrimOfPadded(v1, r, v2);
  }

  /** Text that is already unpadded is its own trim. */
  lemma TrimUnpadded(s: string)
    requires Unpadded(s)
    ensures Trim(s) == s
  {
    TrimOfPadded("", s, "");
    assert "" + s + "" == s;
  }

  lemma TrimIdempotent(s: string)
    ensures Trim(Trim(s)) == Trim(s)
  {
    TrimUnpadded(Trim(s));
  }

  predicate IsUpper(c: char) {
    'A' <= c <= 'Z'
  }

  function LowerChar(c: char): char {
    if IsUpper(c) then (c as int + 32) as char else c
  }

  /** `String.prototype.toLowerCase` on ASCII letters. */
  function ToLower(s: string): (r: string)
    ensures |r| == |s|
    ensures forall i :: 0 <= i < |s| ==> r[i] == LowerChar(s[i])
    ensures forall i :: 0 <= i < |r| ==> !IsUpper(r[i])
    ensures forall i :: 0 <= i < |s| && !IsUpper(s[i]) ==> r[i] == s[i]
    ensures forall i :: 0 <= i < |s| && IsUpper(s[i]) ==> r[i] as int == s[i] as int + 32
  {
    seq(|s|, i requires 0 <= i < |s| => LowerChar(s[i]))
  }

  /** `String.prototype.includes`: `needle` occurs somewhere in `hay`
      (the empty string occurs everywhere). */
  predicate Contains(hay: string, needle: string) {
    exists i :: 0 <= i <= |hay| - |needle| && OccursAt(hay, needle, i)
  }

  predicate OccursAt(hay: string, needle: string, i: int)
    requires 0 <= i <= |hay| - |needle|
  {
    hay[i..i + |needle|] == needle
  }

}
