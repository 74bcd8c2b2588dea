/**
 * The classification and sequencing rules of the formula input
 * (src/components/FormulaInput.tsx): which text is an operand, a number or
 * a tag; which kind may follow the last token; when the suggestion list is
 * shown; and the query text sent to the suggestion lookup.
 */
module TokenRules {

  import opened Wrappers
  import opened Text
  import Seqs
  import opened FormulaStore

  /** `VALID_OPERANDS`. */
  const ValidOperands: seq<string> := ["+", "-", "*", "/", "^", "(", ")"]

  predicate IsOperandSymbol(s: string) {
    s in ValidOperands
  }

  predicate IsDigit(c: char) {
    '0' <= c <= '9'
  }

  predicate AllDigits(s: string) {
    forall i :: 0 <= i < |s| ==> IsDigit(s[i])
  }

  // ---------------------------------------------------------------------
  // The two number patterns, as the regular expressions read.
  // `^-?\d*\.?\d+$` : s = sign ++ digits ++ dot? ++ digits+, split at p, q, r.
  // `^-?\d+\/\d+$`  : s = sign ++ digits+ ++ "/" ++ digits+, split at p, q.
  // ---------------------------------------------------------------------

  predicate SignEnds(s: string, p: int) {
    p == 0 || (p == 1 && |s| > 0 && s[0] == '-')
  }

  ghost predicate DecimalSplit(s: string, p: int, q: int, r: int) {
    && 0 <= p <= q <= r < |s|
    && SignEnds(s, p)
    && AllDigits(s[p..q])
    && (r == q || (r == q + 1 && s[q] == '.'))
    && AllDigits(s[r..])
  }

  ghost predicate MatchesDecimalPattern(s: string) {
    exists p, q, r :: DecimalSplit(s, p, q, r)
  }

  ghost predicate FractionSplit(s: string, p: int, q: int) {
    && 0 <= p < q && q + 1 < |s|
    && SignEnds(s, p)
    && AllDigits(s[p..q])
    && s[q] == '/'
    && AllDigits(s[q + 1..])
  }

  ghost predicate MatchesFractionPattern(s: string) {
    exists p, q :: FractionSplit(s, p, q)
  }

  // ---------------------------------------------------------------------
  // Scanners that decide the two patterns.
  // ---------------------------------------------------------------------

  /** Length of the optional leading minus sign. */
  function SignLength(s: string): (p: nat)
    ensures p <= |s| && SignEnds(s, p)
  {
    if |s| > 0 && s[0] == '-' then 1 else 0
  }

  /** End of the run of digits that starts at `i`. */
  function DigitRunEnd(s: string, i: nat): (j: nat)
    requires i <= |s|
    ensures i <= j <= |s|
    ensures AllDigits(s[i..j])
    ensures j == |s| || !IsDigit(s[j])
    decreases |s| - i
  {
    if i < |s| && IsDigit(s[i]) then
      var j := DigitRunEnd(s, i + 1);
      assert s[i..j] == [s[i]] + s[i + 1..j];
      j
    else
      i
  }

  /** `/^-?\d*\.?\d+$/.test(s)`. */
  predicate IsDecimal(s: string) {
    var p := SignLength(s);
    var q := DigitRunEnd(s, p);
    if q == |s| then p < q
    else s[q] == '.' && q + 1 < |s| && DigitRunEnd(s, q + 1) == |s|
  }

  /** `/^-?\d+\/\d+$/.test(s)`. */
  predicate IsFraction(s: string) {
    var p := SignLength(s);
    var q := DigitRunEnd(s, p);
    p < q && q + 1 < |s| && s[q] == '/' && DigitRunEnd(s, q + 1) == |s|
  }

  /** A run of digits ends where the scanner stops. */
  lemma {:induction false} DigitRunIsMaximal(s: string, i: nat, j: nat)
    requires i <= j <= |s| && AllDigits(s[i..j]) && (j == |s| || !IsDigit(s[j]))
    ensures DigitRunEnd(s, i) == j
    decreases j - i
  {
    if i < j {
      assert IsDigit(s[i]) by { assert s[i] == s[i..j][0]; }
      var run, rest := s[i..j], s[i + 1..j];
      assert AllDigits(rest) by {
        forall k | 0 <= k < |rest| ensures IsDigit(rest[k]) {
          assert rest[k] == run[k + 1];
        }
      }
      DigitRunIsMaximal(s, i + 1, j);
    }
  }

  /** A minus sign can only be matched by `-?`: the sign of a match is
      forced by the first character. */
  lemma DecimalSplitSign(s: string, p: int, q: int, r: int)
    requires DecimalSplit(s, p, q, r)
    ensures p == SignLength(s)
  {
  }

  lemma FractionSplitSign(s: string, p: int, q: int)
    requires FractionSplit(s, p, q)
    ensures p == SignLength(s)
  {
    assert s[p..q][0] == s[p];
  }

  /** The scanner accepts exactly the text the decimal pattern matches. */
  lemma DecimalScannerCorrect(s: string)
    ensures IsDecimal(s) <==> MatchesDecimalPattern(s)
  {
    if IsDecimal(s) {
      DecimalScannerSound(s);
    }
    if MatchesDecimalPattern(s) {
      var p, q, r :| DecimalSplit(s, p, q, r);
      DecimalScannerComplete(s, p, q, r);
    }
  }

  lemma DecimalScannerSound(s: string)
    requires IsDecimal(s)
    ensures MatchesDecimalPattern(s)
  {
    var p := SignLength(s);
    var q := DigitRunEnd(s, p);
    if q == |s| {
      assert DecimalSplit(s, p, p, p);
    } else {
      var e := DigitRunEnd(s, q + 1);
      assert s[q + 1..] == s[q + 1..e];
      assert DecimalSplit(s, p, q, q + 1);
    }
  }

  /** Two adjacent digit runs form one digit run. */
  lemma AllDigitsJoin(s: string, i: nat, k: nat, j: nat)
    requires i <= k <= j <= |s| && AllDigits(s[i..k]) && AllDigits(s[k..j])
    ensures AllDigits(s[i..j])
  {
    forall n | 0 <= n < j - i ensures IsDigit(s[i..j][n]) {
      if n < k - i {
        assert s[i..j][n] == s[i..k][n];
      } else {
        assert s[i..j][n] == s[k..j][n - (k - i)];
      }
    }
  }

  lemma DecimalScannerComplete(s: string, p: int, q: int, r: int)
    requires DecimalSplit(s, p, q, r)
    ensures IsDecimal(s)
  {
    DecimalSplitSign(s, p, q, r);
    if r == q {
      assert s[q..|s|] == s[q..];
      AllDigitsJoin(s, p, q, |s|);
      DigitRunIsMaximal(s, p, |s|);
    } else {
      DigitRunIsMaximal(s, p, q);
      DigitRunIsMaximal(s, q + 1, |s|);
    }
  }

  lemma FractionScannerCorrect(s: string)
    ensures IsFraction(s) <==> MatchesFractionPattern(s)
  {
    var p := SignLength(s);
    var q := DigitRunEnd(s, p);
    if IsFraction(s) {
      assert s[q + 1..] == s[q + 1..DigitRunEnd(s, q + 1)];
      assert FractionSplit(s, p, q);
    }
    if MatchesFractionPattern(s) {
      var p', q' :| FractionSplit(s, p', q');
      FractionSplitSign(s, p', q');
      DigitRunIsMaximal(s, p, q');
      DigitRunIsMaximal(s, q' + 1, |s|);
    }
  }

  // ---------------------------------------------------------------------
  // getTagType and isValidNextType.
  // ---------------------------------------------------------------------

  /** `getTagType`: operand if the trimmed text is an operand symbol,
      number if it matches one of the two number patterns, tag otherwise. */
  function GetTagType(value: string): Kind {
    var trimmed := Trim(value);
    if IsOperandSymbol(trimmed) then Operand
    else if IsDecimal(trimmed) || IsFraction(trimmed) then Number
    else Tag
  }

  /** The classification in terms of the two regular expressions: exactly
      one kind results, operand symbols win, and a number is precisely text
      matching `-?\d*\.?\d+` or `-?\d+/\d+` once trimmed. */
  lemma GetTagTypeSpec(value: string)
    ensures GetTagType(value) == Operand <==> IsOperandSymbol(Trim(value))
    ensures GetTagType(value) == Number <==>
      !IsOperandSymbol(Trim(value)) && (MatchesDecimalPattern(Trim(value)) || MatchesFractionPattern(Trim(value)))
    ensures GetTagType(value) == Tag <==>
      !IsOperandSymbol(Trim(value)) && !MatchesDecimalPattern(Trim(value)) && !MatchesFractionPattern(Trim(value))
  {
    DecimalScannerCorrect(Trim(value));
    FractionScannerCorrect(Trim(value));
  }

  /** Surrounding white space does not change the classification. */
  lemma GetTagTypeIgnoresPadding(w1: string, s: string, w2: string)
    requires AllSpace(w1) && AllSpace(w2)
    ensures GetTagType(w1 + s + w2) == GetTagType(s)
  {
    TrimIgnoresPadding(w1, s, w2);
  }

  /** `isValidNextType(type, lastTag)`, with the last token's kind (`None`
      for an empty formula) in place of the token. */
  function IsValidNextType(kind: Kind, lastKind: Option<Kind>): (ok: bool)
    ensures kind == Operand ==> (ok <==> lastKind == Some(Tag) || lastKind == Some(Number))
    ensures kind != Operand ==> (ok <==> lastKind.None? || lastKind == Some(Operand))
  {
    var isLastValue := lastKind == Some(Tag) || lastKind == Some(Number);
    (kind == Operand && isLastValue) || ((kind == Tag || kind == Number) && (lastKind.None? || lastKind == Some(Operand)))
  }

  function LastKind(f: seq<Token>): Option<Kind> {
    if |f| == 0 then None else Some(f[|f| - 1].kind)
  }

  /** Strict alternation value, operand, value, ...: operands sit exactly at
      the odd positions. */
  ghost predicate Alternating(f: seq<Token>) {
    forall i :: 0 <= i < |f| ==> (f[i].kind == Operand <==> i % 2 == 1)
  }

  /** Appending a token of a kind the sequence rule accepts keeps the
      alternation, and an alternating formula is one the rule could have
      built one token at a time. */
  lemma ValidNextKeepsAlternation(f: seq<Token>, t: Token)
    requires Alternating(f)
    ensures Alternating(f + [t]) <==> IsValidNextType(t.kind, LastKind(f))
  {
    var g := f + [t];
    if |f| > 0 {
      assert f[|f| - 1].kind == Operand <==> (|f| - 1) % 2 == 1;
    }
    if Alternating(g) {
      assert g[|f|] == t;
    }
    if IsValidNextType(t.kind, LastKind(f)) {
      forall i | 0 <= i < |g|
        ensures g[i].kind == Operand <==> i % 2 == 1
      {
        if i < |f| {
          assert g[i] == f[i];
        }
      }
    }
  }

  // ---------------------------------------------------------------------
  // The suggestion list and the lookup query.
  // ---------------------------------------------------------------------

  /** The flag `handleInputChange` stores: the suggestion list is shown
      exactly when the trimmed text is non-empty and would be committed as a
      tag. */
  function ShowSuggestions(value: string): (show: bool)
    ensures show <==> Trim(value) != "" && GetTagType(value) == Tag
    ensures show ==> !MatchesDecimalPattern(Trim(value)) && !MatchesFractionPattern(Trim(value))
  {
    GetTagTypeSpec(value);
    var trimmed := Trim(value);
    !IsOperandSymbol(trimmed) && !IsDecimal(trimmed) && !IsFraction(trimmed) && |trimmed| >= 1
  }

  /** The character class `[+*\-/^()]`. */
  predicate IsOperatorChar(c: char) {
    c == '+' || c == '*' || c == '-' || c == '/' || c == '^' || c == '(' || c == ')'
  }

  /** The stripped characters are exactly the one-character operands. */
  lemma OperatorCharsAreOperands(c: char)
    ensures IsOperatorChar(c) <==> IsOperandSymbol([c])
  {
    if IsOperandSymbol([c]) {
      var i :| 0 <= i < |ValidOperands| && ValidOperands[i] == [c];
      assert [c][0] == ValidOperands[i][0];
    }
  }

  /** `replace(/[+*\-/^()]+/g, '')`: the text with every operator character
      deleted; the other characters keep their order and multiplicity. */
  function StripOperators(s: string): (r: string)
    ensures forall c :: multiset(r)[c] == if IsOperatorChar(c) then 0 else multiset(s)[c]
    ensures Seqs.IsSubsequence(r, s)
    ensures |r| <= |s|
    ensures forall i :: 0 <= i < |r| ==> !IsOperatorChar(r[i])
  {
    var r := Seqs.Filter(s, c => !IsOperatorChar(c));
    assert forall i :: 0 <= i < |r| ==> r[i] in r;
    r
  }

  /** `cleanedInput`: the debounced text with every operator character
      removed, then trimmed. It is the query sent to the lookup. */
  function CleanedInput(s: string): (r: string)
    ensures exists u1, u2 :: AllSpace(u1) && AllSpace(u2) && StripOperators(s) == u1 + r + u2
    ensures forall i :: 0 <= i < |r| ==> !IsOperatorChar(r[i])
    ensures Unpadded(r)
    ensures |r| <= |s|
  {
    var stripped := StripOperators(s);
    var r := Trim(stripped);
    TrimSplitsSome(stripped);
    TrimIsInfix(stripped);
    r
  }

  /** Cleaning a cleaned query changes nothing. */
  lemma CleanedInputIdempotent(s: string)
    ensures CleanedInput(CleanedInput(s)) == CleanedInput(s)
  {
    var c := CleanedInput(s);
    Seqs.FilterKeepsAll(c, c => !IsOperatorChar(c));
    assert StripOperators(c) == c;
    TrimUnpadded(c);
  }

  /** Operand symbols, padded or not; a lone minus is an operand. */
  lemma OperandExamples()
    ensures GetTagType("+") == Operand
    ensures GetTagType("-") == Operand
    ensures GetTagType(" ) ") == Operand
  {
    TrimUnpadded("+");
    TrimUnpadded("-");
    TrimIgnoresPadding(" ", ")", " ");
    assert " " + ")" + " " == " ) ";
    TrimUnpadded(")");
  }

  lemma UnpaddedClassification(t: string)
    requires Unpadded(t)
    ensures GetTagType(t) == Operand <==> IsOperandSymbol(t)
    ensures GetTagType(t) == Number <==> !IsOperandSymbol(t) && (MatchesDecimalPattern(t) || MatchesFractionPattern(t))
  {
    TrimUnpadded(t);
    GetTagTypeSpec(t);
  }

  /** Every operand symbol has one character. */
  lemma OperandSymbolLength(t: string)
    requires IsOperandSymbol(t)
    ensures |t| == 1 && !IsDigit(t[0]) && t[0] != '.'
  {
  }

  /** The number shapes: an optional minus, then digits with an optional
      decimal point before at least one digit, or digits, a slash and
      digits. */
  lemma IntegerIsNumber(sign: string, b: string)
    requires sign == "" || sign == "-"
    requires AllDigits(b) && |b| > 0
    ensures GetTagType(sign + b) == Number
  {
    var n := sign + b;
    assert n[|sign|..] == b && n[|sign|..|sign|] == [];
    assert n[|n| - 1] == b[|b| - 1];
    if IsOperandSymbol(n) {
      OperandSymbolLength(n);
    }
    assert DecimalSplit(n, |sign|, |sign|, |sign|);
    UnpaddedClassification(n);
  }

  lemma DecimalIsNumber(sign: string, a: string, b: string)
    requires sign == "" || sign == "-"
    requires AllDigits(a) && AllDigits(b) && |b| > 0
    ensures GetTagType(sign + a + "." + b) == Number
  {
    var d := sign + a + "." + b;
    var q := |sign| + |a|;
    assert DecimalSplit(d, |sign|, q, q + 1) by {
      assert d[|sign|..q] == a;
      assert d[q] == '.';
      assert d[q + 1..] == b;
    }
    assert Unpadded(d) by {
      assert d[|d| - 1] == b[|b| - 1];
      if |sign| == 0 && |a| > 0 {
        assert d[0] == a[0];
      }
    }
    assert !IsOperandSymbol(d) by {
      if IsOperandSymbol(d) {
        OperandSymbolLength(d);
      }
    }
    UnpaddedClassification(d);
  }

  lemma FractionIsNumber(sign: string, a: string, b: string)
    requires sign == "" || sign == "-"
    requires AllDigits(a) && AllDigits(b) && |a| > 0 && |b| > 0
    ensures GetTagType(sign + a + "/" + b) == Number
  {
    var f := sign + a + "/" + b;
    var q := |sign| + |a|;
    assert FractionSplit(f, |sign|, q) by {
      assert f[|sign|..q] == a;
      assert f[q] == '/';
      assert f[q + 1..] == b;
    }
    assert Unpadded(f) by {
      assert f[|f| - 1] == b[|b| - 1];
      if |sign| == 0 {
        assert f[0] == a[0];
      }
    }
    assert !IsOperandSymbol(f) by {
      if IsOperandSymbol(f) {
        OperandSymbolLength(f);
      }
    }
    UnpaddedClassification(f);
  }

  /** Text whose trimmed form is empty or ends in anything but a digit is a
      tag unless it is an operand symbol: "5.", "12a", "foo" and "". */
  lemma NonDigitEndIsTag(s: string)
    requires !IsOperandSymbol(Trim(s))
    requires Trim(s) == "" || !IsDigit(Trim(s)[|Trim(s)| - 1])
    ensures GetTagType(s) == Tag
  {
    GetTagTypeSpec(s);
  }

  /** A fraction's denominator carries no sign: "1/-2" is a tag. */
  lemma SignedDenominatorIsTag(a: string, b: string)
    requires AllDigits(a) && AllDigits(b) && |b| > 0
    ensures GetTagType(a + "/-" + b) == Tag
  {
    var t := a + "/-" + b;
    var k := |a|;
    assert t[k] == '/' && t[k + 1] == '-' && t[..k] == a && t[k + 2..] == b;
    assert Unpadded(t) by {
      assert t[|t| - 1] == b[|b| - 1];
      assert t[0] == '/' || IsDigit(t[0]);
    }
    assert !IsOperandSymbol(t) by {
      if IsOperandSymbol(t) {
        OperandSymbolLength(t);
      }
    }
    forall p, q, r ensures !DecimalSplit(t, p, q, r) {
      if DecimalSplit(t, p, q, r) {
        DecimalHasNoSlash(t, p, q, r);
      }
    }
    forall p, q ensures !FractionSplit(t, p, q) {
      if FractionSplit(t, p, q) {
        FractionSlashIsFirst(t, p, q);
      }
    }
    TrimUnpadded(t);
    GetTagTypeSpec(t);
  }

  /** A decimal has no slash anywhere. */
  lemma DecimalHasNoSlash(t: string, p: int, q: int, r: int)
    requires DecimalSplit(t, p, q, r)
    ensures forall k :: 0 <= k < |t| ==> t[k] != '/'
  {
    forall k | 0 <= k < |t|
      ensures t[k] != '/'
    {
      if p <= k < q {
        assert t[k] == t[p..q][k - p];
      } else if k >= r {
        assert t[k] == t[r..][k - r];
      }
    }
  }

  /** In a fraction the first slash is the one at `q`, and a digit follows it. */
  lemma FractionSlashIsFirst(t: string, p: int, q: int)
    requires FractionSplit(t, p, q)
    ensures forall k :: p <= k < q ==> t[k] != '/'
    ensures IsDigit(t[q + 1])
  {
    forall k | p <= k < q
      ensures t[k] != '/'
    {
      assert t[k] == t[p..q][k - p];
    }
    assert t[q + 1] == t[q + 1..][0];
  }

}
