/**
 * `parseNumber` and `calculateFormula` (src/components/FormulaInput.tsx):
 * a left-to-right fold over the formula with two latched variables, the
 * running result and the current operator. There is no precedence, and
 * `(` and `)` have no effect.
 *
 * Numbers are exact reals. `Math.pow` is the caller-supplied `pow`.
 */
module Evaluator {

  import opened Wrappers
  import opened FormulaStore
  import opened TokenRules

  /** Stands for `Math.pow`. */
  type PowFn = (real, real) -> real

  // ---------------------------------------------------------------------
  // parseNumber
  // ---------------------------------------------------------------------

  function DigitValue(c: char): nat
    requires IsDigit(c)
  {
    c as int - '0' as int
  }

  /** The value of a run of decimal digits (0 for the empty run). */
  function DigitsValue(ds: string): nat
    requires AllDigits(ds)
    decreases |ds|
  {
    if |ds| == 0 then 0 else 10 * DigitsValue(ds[..|ds| - 1]) + DigitValue(ds[|ds| - 1])
  }

  function Pow10(n: nat): (r: nat)
    ensures r > 0
  {
    if n == 0 then 1 else 10 * Pow10(n - 1)
  }

  /** The value of the decimal `whole.fraction` where `fraction` has
      `places` digits. */
  function Decimal(whole: nat, fraction: nat, places: nat): real {
    whole as real + fraction as real / Pow10(places) as real
  }

  /** The value of the fraction `numerator/denominator`, negated when
      `negative`. */
  function Ratio(negative: bool, numerator: nat, denominator: nat): real
    requires denominator > 0
  {
    Signed(negative, numerator as real) / denominator as real
  }

  function Signed(negative: bool, x: real): real {
    if negative then -x else x
  }

  /** `parseNumber`: a fraction `a/b` is `Number(a) / Number(b)`; any other
      text is `Number(text)`, modelled for decimal text only. `None` stands
      for results that are not finite reals: a zero denominator (Infinity
      or NaN) and text that is not a decimal. */
  function ParseNumber(value: string): Option<real> {
    var p := SignLength(value);
    var q := DigitRunEnd(value, p);
    if IsFraction(value) then
      assert value[q + 1..] == value[q + 1..DigitRunEnd(value, q + 1)];
      var denominator := DigitsValue(value[q + 1..]);
      if denominator == 0 then None else Some(Ratio(p == 1, DigitsValue(value[p..q]), denominator))
    else if IsDecimal(value) then
      if q == |value| then
        assert value[p..] == value[p..q];
        Some(Signed(p == 1, DigitsValue(value[p..]) as real))
      else
        assert value[q + 1..] == value[q + 1..DigitRunEnd(value, q + 1)];
        var fraction := value[q + 1..];
        Some(Signed(p == 1, Decimal(DigitsValue(value[p..q]), DigitsValue(fraction), |fraction|)))
    else
      None
  }

  /** The decimal digits of `n`, most significant first, without leading zeros. */
  function NatText(n: nat): (s: string)
    ensures |s| > 0 && AllDigits(s)
  {
    var d := ['0' + (n % 10) as char];
    if n < 10 then d else NatText(n / 10) + d
  }

  lemma {:induction false} NatTextValue(n: nat)
    ensures DigitsValue(NatText(n)) == n
  {
    var s := NatText(n);
    if n >= 10 {
      NatTextValue(n / 10);
      assert s[..|s| - 1] == NatText(n / 10);
    }
  }

  /** The scanner's view of `sign + a + rest` when `rest` does not start
      with a digit. */
  lemma ScanSignedDigits(sign: string, a: string, rest: string)
    requires sign == "" || sign == "-"
    requires AllDigits(a) && (|rest| == 0 || !IsDigit(rest[0])) && (|a| > 0 || |rest| == 0 || rest[0] != '-')
    ensures SignLength(sign + a + rest) == |sign|
    ensures DigitRunEnd(sign + a + rest, |sign|) == |sign| + |a|
    ensures (sign + a + rest)[|sign|..|sign| + |a|] == a
    ensures (sign + a + rest)[|sign| + |a|..] == rest
  {
    var s := sign + a + rest;
    assert s[|sign|..|sign| + |a|] == a;
    if |sign| + |a| < |s| {
      assert s[|sign| + |a|] == rest[0];
    }
    DigitRunIsMaximal(s, |sign|, |sign| + |a|);
  }

  /** `parseNumber` on an integer: an optional minus and digits. */
  lemma ParseInteger(sign: string, b: string)
    requires sign == "" || sign == "-"
    requires AllDigits(b) && |b| > 0
    ensures ParseNumber(sign + b) == Some(Signed(sign == "-", DigitsValue(b) as real))
  {
    ScanSignedDigits(sign, b, "");
    assert sign + b + "" == sign + b;
  }

  /** `parseNumber` on text the scanner splits at a decimal point `q`. */
  lemma ParseDecimalAt(s: string, q: nat)
    requires q == DigitRunEnd(s, SignLength(s)) && q + 1 < |s| && s[q] == '.'
    requires DigitRunEnd(s, q + 1) == |s|
    ensures AllDigits(s[SignLength(s)..q]) && AllDigits(s[q + 1..])
    ensures ParseNumber(s) == Some(Signed(SignLength(s) == 1,
      Decimal(DigitsValue(s[SignLength(s)..q]), DigitsValue(s[q + 1..]), |s| - q - 1)))
  {
    assert s[q + 1..] == s[q + 1..DigitRunEnd(s, q + 1)];
    assert !IsFraction(s) && IsDecimal(s);
  }

  /** `parseNumber` on a decimal with a point. */
  lemma ParseDecimal(sign: string, a: string, b: string)
    requires sign == "" || sign == "-"
    requires AllDigits(a) && AllDigits(b) && |b| > 0
    ensures ParseNumber(sign + a + "." + b) ==
      Some(Signed(sign == "-", Decimal(DigitsValue(a), DigitsValue(b), |b|)))
  {
    var s := sign + a + "." + b;
    var q := |sign| + |a|;
    ScanSeparated(sign, a, '.', b);
    ParseDecimalAt(s, q);
  }

  /** The scanner's view of `sign + a + sep + b` when `sep` is no digit:
      the numerator run stops at `sep` and the rest runs to the end. */
  lemma ScanSeparated(sign: string, a: string, sep: char, b: string)
    requires sign == "" || sign == "-"
    requires AllDigits(a) && AllDigits(b) && !IsDigit(sep) && (|a| > 0 || sep != '-')
    ensures var s := sign + a + [sep] + b; var q := |sign| + |a|;
      && SignLength(s) == |sign| && DigitRunEnd(s, |sign|) == q
      && s[|sign|..q] == a && s[q] == sep && s[q + 1..] == b
      && DigitRunEnd(s, q + 1) == |s|
  {
    var s := sign + a + [sep] + b;
    var q := |sign| + |a|;
    assert s == sign + a + ([sep] + b);
    ScanSignedDigits(sign, a, [sep] + b);
    assert s[q + 1..] == b;
    DigitRunIsMaximal(s, q + 1, |s|);
  }

  /** `parseNumber` on text the scanner splits at a slash `q`. */
  lemma ParseFractionAt(s: string, p: nat, q: nat)
    requires p == SignLength(s) && q == DigitRunEnd(s, p) && p < q && q + 1 < |s| && s[q] == '/'
    requires DigitRunEnd(s, q + 1) == |s|
    ensures AllDigits(s[p..q]) && AllDigits(s[q + 1..])
    ensures DigitsValue(s[q + 1..]) == 0 ==> ParseNumber(s) == None
    ensures DigitsValue(s[q + 1..]) != 0 ==>
      ParseNumber(s) == Some(Ratio(p == 1, DigitsValue(s[p..q]), DigitsValue(s[q + 1..])))
  {
    assert s[q + 1..] == s[q + 1..DigitRunEnd(s, q + 1)];
    assert IsFraction(s);
  }

  /** `parseNumber` on a fraction: `None` exactly when the denominator is zero. */
  lemma ParseFraction(sign: string, a: string, b: string)
    requires sign == "" || sign == "-"
    requires AllDigits(a) && AllDigits(b) && |a| > 0 && |b| > 0
    ensures DigitsValue(b) == 0 ==> ParseNumber(sign + a + "/" + b) == None
    ensures DigitsValue(b) != 0 ==>
      ParseNumber(sign + a + "/" + b) == Some(Ratio(sign == "-", DigitsValue(a), DigitsValue(b)))
  {
    ParseFractionOf(sign + a + "/" + b, sign, a, b);
  }

  /** `ParseFraction` for any text that is spelled `sign + a + "/" + b`. */
  lemma ParseFractionOf(s: string, sign: string, a: string, b: string)
    requires sign == "" || sign == "-"
    requires AllDigits(a) && AllDigits(b) && |a| > 0 && |b| > 0
    requires s == sign + a + "/" + b
    ensures DigitsValue(b) == 0 ==> ParseNumber(s) == None
    ensures DigitsValue(b) != 0 ==> ParseNumber(s) == Some(Ratio(sign == "-", DigitsValue(a), DigitsValue(b)))
  {
    var q := |sign| + |a|;
    ScanSeparated(sign, a, '/', b);
    assert s[|sign|..q] == a && s[q + 1..] == b;
    ParseFractionAt(s, |sign|, q);
  }

  /** Printing a natural number and parsing it back gives the number, with
      or without a minus sign. */
  lemma ParseNatText(a: nat)
    ensures ParseNumber(NatText(a)) == Some(a as real)
    ensures ParseNumber("-" + NatText(a)) == Some(-(a as real))
  {
    ParsePlainNatText(a);
    ParseNegatedNatText(a);
  }

  lemma ParsePlainNatText(a: nat)
    ensures ParseNumber(NatText(a)) == Some(a as real)
  {
    var x := NatText(a);
    NatTextValue(a);
    assert "" + x == x;
    ParseInteger("", x);
  }

  lemma ParseNegatedNatText(a: nat)
    ensures ParseNumber("-" + NatText(a)) == Some(-(a as real))
  {
    NatTextValue(a);
    ParseInteger("-", NatText(a));
  }

  /** A printed fraction parses back to the quotient, or to `None` when the
      denominator is zero. */
  lemma ParseFractionText(a: nat, b: nat)
    ensures b == 0 ==> ParseNumber(NatText(a) + "/" + NatText(b)) == None
    ensures b > 0 ==> ParseNumber(NatText(a) + "/" + NatText(b)) == Some(Ratio(false, a, b))
  {
    var x, y := NatText(a), NatText(b);
    NatTextValue(a);
    NatTextValue(b);
    assert x + "/" + y == "" + x + "/" + y;
    ParseFractionOf(x + "/" + y, "", x, y);
  }

  /** A run of digits is worth 0 exactly when every digit is `0`. */
  lemma {:induction false} DigitsValueZero(ds: string)
    requires AllDigits(ds)
    ensures DigitsValue(ds) == 0 <==> forall i :: 0 <= i < |ds| ==> ds[i] == '0'
    decreases |ds|
  {
    if |ds| > 0 {
      var init := ds[..|ds| - 1];
      DigitsValueZero(init);
      assert forall i :: 0 <= i < |init| ==> init[i] == ds[i];
    }
  }

  /** The text is a fraction whose denominator is all zeros. */
  predicate ZeroDenominator(s: string) {
    exists k :: 0 <= k < |s| && s[k] == '/' && forall i :: k < i < |s| ==> s[i] == '0'
  }

  /** Every character the digit scanner passes over is a digit. */
  lemma InDigitRun(s: string, i: nat, k: nat)
    requires i <= |s| && i <= k < DigitRunEnd(s, i)
    ensures IsDigit(s[k])
  {
    assert s[i..DigitRunEnd(s, i)][k - i] == s[k];
  }

  /** Number text holds at most one slash: the one that ends a fraction's
      numerator. */
  lemma SlashIsAt(s: string, k: nat)
    requires IsDecimal(s) || IsFraction(s)
    requires k < |s| && s[k] == '/'
    ensures IsFraction(s) && k == DigitRunEnd(s, SignLength(s))
  {
    var p := SignLength(s);
    var q := DigitRunEnd(s, p);
    if p <= k < q {
      InDigitRun(s, p, k);
    } else if q < k {
      InDigitRun(s, q + 1, k);
    }
  }

  /** Text the number patterns accept always parses, except a fraction
      whose denominator is all zeros (`Infinity` or `NaN` in the source). */
  lemma NumberTextParses(s: string)
    requires IsDecimal(s) || IsFraction(s)
    ensures ParseNumber(s).None? <==> ZeroDenominator(s)
  {
    var p := SignLength(s);
    var q := DigitRunEnd(s, p);
    if IsFraction(s) {
      var den := s[q + 1..];
      assert AllDigits(den) by {
        assert den == s[q + 1..DigitRunEnd(s, q + 1)];
      }
      DigitsValueZero(den);
      assert forall i :: q < i < |s| ==> s[i] == den[i - q - 1];
      if ZeroDenominator(s) {
        var k :| 0 <= k < |s| && s[k] == '/' && forall i :: k < i < |s| ==> s[i] == '0';
        SlashIsAt(s, k);
      }
    } else {
      assert ParseNumber(s).Some?;
      forall k | 0 <= k < |s|
        ensures s[k] != '/'
      {
        if s[k] == '/' {
          SlashIsAt(s, k);
        }
      }
    }
  }

  // ---------------------------------------------------------------------
  // calculateFormula
  // ---------------------------------------------------------------------

  /** A token whose numeric value the model defines: every token but a
      number whose text does not parse to a finite real. */
  predicate HasValue(t: Token) {
    t.kind != Number || ParseNumber(t.value).Some?
  }

  predicate AllHaveValues(f: seq<Token>) {
    forall i :: 0 <= i < |f| ==> HasValue(f[i])
  }

  /** The numeric value of a tag or number: a tag counts its suggestion's
      value, or 0 without one; a number is parsed. */
  function TokenNumber(t: Token): real
    requires t.kind != Operand && HasValue(t)
  {
    if t.kind == Tag then
      (if t.suggestion.Some? then t.suggestion.value.value else 0.0)
    else
      ParseNumber(t.value).value
  }

  /** The `switch` on the current operator. A zero divisor counts as 1; an
      unknown operator leaves the result alone. */
  function Apply(op: string, result: real, num: real, pow: PowFn): real {
    if op == "+" then result + num
    else if op == "-" then result - num
    else if op == "*" then result * num
    else if op == "/" then result / (if num == 0.0 then 1.0 else num)
    else if op == "^" then pow(result, num)
    else result
  }

  /** The two latched variables: `result` and `currentOperator`. */
  datatype Latch = Latch(result: real, operator: Option<string>)

  const Initial := Latch(0.0, None)

  predicate IsParenthesis(s: string) {
    s == "(" || s == ")"
  }

  /** One iteration of the `forEach`, for the token at position `index`. */
  function Step(st: Latch, t: Token, index: nat, pow: PowFn): Latch
    requires HasValue(t)
  {
    if t.kind == Tag || t.kind == Number then
      var num := TokenNumber(t);
      if index == 0 then Latch(num, st.operator)
      else if st.operator.Some? && st.operator.value != "" then Latch(Apply(st.operator.value, st.result, num, pow), st.operator)
      else st
    else if !IsParenthesis(t.value) then
      Latch(st.result, Some(t.value))
    else
      st
  }

  /** The latches after the tokens of `f`, in order. */
  function Fold(f: seq<Token>, pow: PowFn): Latch
    requires AllHaveValues(f)
    decreases |f|
  {
    if |f| == 0 then Initial else Step(Fold(f[..|f| - 1], pow), f[|f| - 1], |f| - 1, pow)
  }

  function Calculate(f: seq<Token>, pow: PowFn): real
    requires AllHaveValues(f)
  {
    if |f| == 0 then 0.0 else Fold(f, pow).result
  }

  /** `calculateFormula` as written: a loop over the tokens that updates the
      two latched variables. */
  method CalculateFormula(f: seq<Token>, pow: PowFn) returns (result: real)
    requires AllHaveValues(f)
    ensures result == Calculate(f, pow)
    ensures |f| == 0 ==> result == 0.0
  {
    if |f| == 0 {
      return 0.0;
    }
    result := 0.0;
    var currentOperator: Option<string> := None;
    for index := 0 to |f|
      invariant Latch(result, currentOperator) == Fold(f[..index], pow)
    {
      FoldPrefixStep(f, index, pow);
      var item := f[index];
      if item.kind == Tag || item.kind == Number {
        var num := TokenNumber(item);
        if index == 0 {
          result := num;
        } else if currentOperator.Some? && currentOperator.value != "" {
          result := Apply(currentOperator.value, result, num, pow);
        }
      } else if item.value != "(" && item.value != ")" {
        currentOperator := Some(item.value);
      }
    }
    assert f[..|f|] == f;
  }

  // ---------------------------------------------------------------------
  // What the fold computes.
  // ---------------------------------------------------------------------

  /** An operand that the fold latches as the current operator. */
  predicate Latches(t: Token) {
    t.kind == Operand && !IsParenthesis(t.value)
  }

  /** The latched operator is the value of the last latching operand, and
      there is none exactly when no operand latches. */
  lemma {:induction false} LatchedOperator(f: seq<Token>, pow: PowFn)
    requires AllHaveValues(f)
    ensures Fold(f, pow).operator.None? <==> forall i :: 0 <= i < |f| ==> !Latches(f[i])
    ensures Fold(f, pow).operator.Some? ==>
      exists i :: 0 <= i < |f| && Latches(f[i]) && f[i].value == Fold(f, pow).operator.value &&
        forall j :: i < j < |f| ==> !Latches(f[j])
    decreases |f|
  {
    if |f| > 0 {
      var g, t := f[..|f| - 1], f[|f| - 1];
      assert f == g + [t];
      assert forall j :: 0 <= j < |g| ==> f[j] == g[j];
      FoldSnoc(g, t, pow);
      StepOperator(Fold(g, pow), t, |g|, pow);
      LatchedOperator(g, pow);
      if !Latches(t) && Fold(g, pow).operator.Some? {
        var i :| 0 <= i < |g| && Latches(g[i]) && g[i].value == Fold(g, pow).operator.value &&
          forall j :: i < j < |g| ==> !Latches(g[j]);
        assert f[i] == g[i];
      }
    }
  }

  /** A step latches exactly the operands that are not parentheses. */
  lemma StepOperator(st: Latch, t: Token, index: nat, pow: PowFn)
    requires HasValue(t)
    ensures Step(st, t, index, pow).operator == if Latches(t) then Some(t.value) else st.operator
  {
  }

  /** A value after the first applies the latched operator to the result;
      the latch itself does not change. */
  lemma ValueAppliesLatchedOperator(f: seq<Token>, v: Token, pow: PowFn)
    requires AllHaveValues(f) && |f| > 0
    requires v.kind != Operand && HasValue(v)
    ensures AllHaveValues(f + [v])
    ensures Fold(f + [v], pow).operator == Fold(f, pow).operator
    ensures var op := Fold(f, pow).operator;
      Calculate(f + [v], pow) ==
        if op.Some? && op.value != "" then Apply(op.value, Calculate(f, pow), TokenNumber(v), pow)
        else Calculate(f, pow)
  {
    FoldSnoc(f, v, pow);
    var st := Fold(f, pow);
    assert Fold(f + [v], pow) == Step(st, v, |f|, pow);
  }

  /** A divisor whose value is zero counts as 1, so dividing by it leaves
      the result unchanged. */
  lemma DivideByZeroKeepsResult(f: seq<Token>, o: Token, v: Token, pow: PowFn)
    requires AllHaveValues(f) && |f| > 0
    requires o.kind == Operand && o.value == "/"
    requires v.kind != Operand && HasValue(v) && TokenNumber(v) == 0.0
    ensures AllHaveValues(f + [o, v])
    ensures Calculate(f + [o, v], pow) == Calculate(f, pow)
  {
    var g := f + [o];
    assert g + [v] == f + [o, v];
    assert g[..|g| - 1] == f;
    ValueAppliesLatchedOperator(g, v, pow);
  }

  /** Past the first position only whether the index is zero matters. */
  lemma StepAfterFirst(st: Latch, t: Token, i: nat, j: nat, pow: PowFn)
    requires HasValue(t) && i > 0 && j > 0
    ensures Step(st, t, i, pow) == Step(st, t, j, pow)
  {
  }

  /** Inserting `(` or `)` anywhere after the first token changes nothing:
      parentheses neither group nor latch. */
  lemma ParenthesisInert(f: seq<Token>, k: nat, p: Token, pow: PowFn)
    requires AllHaveValues(f) && 1 <= k <= |f|
    requires p.kind == Operand && IsParenthesis(p.value)
    ensures AllHaveValues(f[..k] + [p] + f[k..])
    ensures Calculate(f[..k] + [p] + f[k..], pow) == Calculate(f, pow)
  {
    var g := f[..k] + [p] + f[k..];
    assert forall i :: 0 <= i < |g| ==> g[i] == p || g[i] in f;
    ParenthesisInertPrefix(f, k, p, |f|, pow);
    assert g[..|f| + 1] == g && f[..|f|] == f;
  }

  lemma {:induction false} ParenthesisInertPrefix(f: seq<Token>, k: nat, p: Token, m: nat, pow: PowFn)
    requires AllHaveValues(f) && 1 <= k <= m <= |f|
    requires p.kind == Operand && IsParenthesis(p.value)
    ensures AllHaveValues(f[..k] + [p] + f[k..m])
    ensures Fold(f[..k] + [p] + f[k..m], pow) == Fold(f[..m], pow)
    decreases m
  {
    InsertKeepsValues(f, k, p, m);
    if m == k {
      assert f[..k] + [p] + f[k..m] == f[..k] + [p];
      FoldSnoc(f[..k], p, pow);
    } else {
      ParenthesisInertPrefix(f, k, p, m - 1, pow);
      InsertedPrefixStep(f, k, p, m, pow);
    }
  }

  /** One more token after the inserted one takes the same step as it does
      without the insertion, from the same state. */
  lemma InsertedPrefixStep(f: seq<Token>, k: nat, p: Token, m: nat, pow: PowFn)
    requires AllHaveValues(f) && 1 <= k < m <= |f| && HasValue(p)
    requires AllHaveValues(f[..k] + [p] + f[k..m - 1])
    requires Fold(f[..k] + [p] + f[k..m - 1], pow) == Fold(f[..m - 1], pow)
    ensures AllHaveValues(f[..k] + [p] + f[k..m])
    ensures Fold(f[..k] + [p] + f[k..m], pow) == Fold(f[..m], pow)
  {
    var h := f[..k] + [p] + f[k..m - 1];
    assert f[..k] + [p] + f[k..m] == h + [f[m - 1]];
    FoldSnoc(h, f[m - 1], pow);
    FoldPrefixStep(f, m - 1, pow);
    StepAfterFirst(Fold(h, pow), f[m - 1], |h|, m - 1, pow);
  }

  lemma InsertKeepsValues(f: seq<Token>, k: nat, p: Token, m: nat)
    requires AllHaveValues(f) && k <= m <= |f| && HasValue(p)
    ensures AllHaveValues(f[..k] + [p] + f[k..m])
  {
    var g := f[..k] + [p] + f[k..m];
    forall i | 0 <= i < |g|
      ensures HasValue(g[i])
    {
      if i < k {
        assert g[i] == f[i];
      } else if i > k {
        assert g[i] == f[i - 1];
      }
    }
  }

  /** An operand at the front is not the first value, so the value after it
      is dropped: `( 2 )` evaluates to 0. */
  lemma LeadingParenthesisDropsValue(p: Token, v: Token, q: Token, pow: PowFn)
    requires p.kind == Operand && p.value == "(" && q.kind == Operand && q.value == ")"
    requires v.kind != Operand && HasValue(v)
    ensures AllHaveValues([p, v, q])
    ensures Calculate([p, v, q], pow) == 0.0
  {
    assert [p, v, q][..2] == [p, v] && [p, v][..1] == [p] && [p][..0] == [];
    assert Fold([p], pow) == Initial;
    assert Fold([p, v], pow) == Initial;
  }

  // ---------------------------------------------------------------------
  // Reference semantics for a well-formed formula.
  // ---------------------------------------------------------------------

  predicate IsArithmetic(s: string) {
    s == "+" || s == "-" || s == "*" || s == "/" || s == "^"
  }

  /** Operands sit at the odd positions, every one an arithmetic operator,
      and every number parses. */
  ghost predicate Arithmetic(f: seq<Token>) {
    && Alternating(f)
    && AllHaveValues(f)
    && forall i :: 0 <= i < |f| && i % 2 == 1 ==> IsArithmetic(f[i].value)
  }

  /** `v0 op1 v1 op2 v2 ...` evaluated strictly left to right. */
  function LeftToRight(f: seq<Token>, pow: PowFn): real
    requires |f| % 2 == 1 && Arithmetic(f)
    decreases |f|
  {
    if |f| == 1 then TokenNumber(f[0])
    else
      assert Arithmetic(f[..|f| - 2]) by {
        assert forall i :: 0 <= i < |f| - 2 ==> f[..|f| - 2][i] == f[i];
      }
      Apply(f[|f| - 2].value, LeftToRight(f[..|f| - 2], pow), TokenNumber(f[|f| - 1]), pow)
  }

  lemma Parity(n: nat)
    requires n > 0
    ensures (n - 1) % 2 == 1 - n % 2
  {
  }

  /** Every prefix of an arithmetic formula is one. */
  lemma ArithmeticPrefix(f: seq<Token>, k: nat)
    requires Arithmetic(f) && k <= |f|
    ensures Arithmetic(f[..k])
  {
    assert forall i :: 0 <= i < k ==> f[..k][i] == f[i];
  }

  /** The fold over `f + [t]` is one more step. */
  lemma FoldSnoc(f: seq<Token>, t: Token, pow: PowFn)
    requires AllHaveValues(f) && HasValue(t)
    ensures AllHaveValues(f + [t])
    ensures Fold(f + [t], pow) == Step(Fold(f, pow), t, |f|, pow)
  {
    assert (f + [t])[..|f|] == f;
  }

  /** Extending a prefix by one token is one `Step`. */
  lemma FoldPrefixStep(f: seq<Token>, index: nat, pow: PowFn)
    requires AllHaveValues(f) && index < |f|
    ensures Fold(f[..index + 1], pow) == Step(Fold(f[..index], pow), f[index], index, pow)
  {
    assert f[..index + 1][..index] == f[..index];
  }

  /** An arithmetic operator followed by a value applies that operator. */
  lemma OperatorThenValue(before: Latch, o: Token, v: Token, i: nat, pow: PowFn)
    requires o.kind == Operand && IsArithmetic(o.value)
    requires v.kind != Operand && HasValue(v)
    ensures Step(Step(before, o, i, pow), v, i + 1, pow) ==
      Latch(Apply(o.value, before.result, TokenNumber(v), pow), Some(o.value))
  {
  }

  lemma {:induction false} FoldArithmetic(f: seq<Token>, pow: PowFn)
    requires |f| % 2 == 1 && Arithmetic(f)
    ensures Fold(f, pow).result == LeftToRight(f, pow)
    ensures Fold(f, pow).operator == if |f| == 1 then None else Some(f[|f| - 2].value)
    decreases |f|
  {
    var n := |f|;
    if n == 1 {
      assert f[..0] == [];
    } else {
      var g, o, v := f[..n - 2], f[n - 2], f[n - 1];
      assert f == g + [o] + [v];
      Parity(n);
      Parity(n - 1);
      ArithmeticPrefix(f, n - 2);
      FoldArithmetic(g, pow);
      assert o.kind == Operand && IsArithmetic(o.value) && HasValue(o);
      assert v.kind != Operand && HasValue(v);
      FoldSnoc(g, o, pow);
      FoldSnoc(g + [o], v, pow);
      OperatorThenValue(Fold(g, pow), o, v, n - 2, pow);
    }
  }

  /** A formula built by the sequence rule from arithmetic operators
      evaluates strictly left to right, without precedence; a trailing
      operator is ignored. */
  lemma CalculateIsLeftToRight(f: seq<Token>, pow: PowFn)
    requires Arithmetic(f)
    ensures |f| % 2 == 1 ==> Calculate(f, pow) == LeftToRight(f, pow)
    ensures |f| % 2 == 0 && |f| > 0 ==>
      Arithmetic(f[..|f| - 1]) && Calculate(f, pow) == LeftToRight(f[..|f| - 1], pow)
  {
    if |f| % 2 == 1 {
      FoldArithmetic(f, pow);
    } else if |f| > 0 {
      var g, o := f[..|f| - 1], f[|f| - 1];
      Parity(|f|);
      ArithmeticPrefix(f, |f| - 1);
      FoldArithmetic(g, pow);
      assert o.kind == Operand;
      assert Fold(f, pow) == Step(Fold(g, pow), o, |f| - 1, pow);
    }
  }



  // ---------------------------------------------------------------------
  // Worked examples.
  // ---------------------------------------------------------------------

  function NumberToken(id: Id, text: string): Token {
    Token(id, text, Number, None)
  }

  function OperandToken(id: Id, symbol: string): Token {
    Token(id, symbol, Operand, None)
  }

  lemma SingleDigits()
    ensures ParseNumber("0") == Some(0.0) && ParseNumber("2") == Some(2.0)
    ensures ParseNumber("3") == Some(3.0) && ParseNumber("4") == Some(4.0)
  {
    ParseInteger("", "0");
    ParseInteger("", "2");
    ParseInteger("", "3");
    ParseInteger("", "4");
    assert "" + "0" == "0" && "" + "2" == "2" && "" + "3" == "3" && "" + "4" == "4";
  }

  /** `a op b`, for values `a`, `b` and an operator that latches. */
  lemma Binary(a: Token, o: Token, b: Token, pow: PowFn)
    requires a.kind != Operand && HasValue(a) && b.kind != Operand && HasValue(b)
    requires o.kind == Operand && IsArithmetic(o.value)
    ensures AllHaveValues([a, o, b])
    ensures Fold([a, o, b], pow) == Latch(Apply(o.value, TokenNumber(a), TokenNumber(b), pow), Some(o.value))
  {
    assert [a][..0] == [];
    FoldSnoc([a], o, pow);
    FoldSnoc([a, o], b, pow);
    assert [a] + [o] == [a, o] && [a, o] + [b] == [a, o, b];
    OperatorThenValue(Fold([a], pow), o, b, 1, pow);
  }

  /** The first value sets the result, whatever it was. */
  lemma FirstValueSetsResult(v: Token, pow: PowFn)
    requires v.kind != Operand && HasValue(v)
    ensures AllHaveValues([v]) && Calculate([v], pow) == TokenNumber(v)
  {
    assert [v][..0] == [];
  }

  /** `-4` alone is -4. */
  lemma NegativeExample(pow: PowFn)
    ensures AllHaveValues([NumberToken("a", "-4")]) && Calculate([NumberToken("a", "-4")], pow) == -4.0
  {
    ParseInteger("-", "4");
    assert "-" + "4" == "-4";
    assert DigitsValue("4") == 4;
    FirstValueSetsResult(NumberToken("a", "-4"), pow);
  }

  /** `2 + 3` is 5. */
  lemma AdditionExample(pow: PowFn)
    ensures var f := [NumberToken("a", "2"), OperandToken("b", "+"), NumberToken("c", "3")];
      AllHaveValues(f) && Calculate(f, pow) == 5.0
  {
    SingleDigits();
    Binary(NumberToken("a", "2"), OperandToken("b", "+"), NumberToken("c", "3"), pow);
  }

  /** `2 + 3 * 4` is 20: no precedence. */
  lemma NoPrecedence(pow: PowFn)
    ensures var f := [NumberToken("a", "2"), OperandToken("b", "+"), NumberToken("c", "3"),
                      OperandToken("d", "*"), NumberToken("e", "4")];
      AllHaveValues(f) && Calculate(f, pow) == 20.0
  {
    SingleDigits();
    var a, o, b := NumberToken("a", "2"), OperandToken("b", "+"), NumberToken("c", "3");
    var p, c := OperandToken("d", "*"), NumberToken("e", "4");
    assert TokenNumber(a) == 2.0 && TokenNumber(b) == 3.0 && TokenNumber(c) == 4.0;
    Binary(a, o, b, pow);
    var st := Fold([a, o, b], pow);
    assert st.result == 5.0;
    FoldSnoc([a, o, b], p, pow);
    FoldSnoc([a, o, b] + [p], c, pow);
    OperatorThenValue(st, p, c, 3, pow);
    assert [a, o, b] + [p] + [c] == [a, o, b, p, c];
  }

  /** `10 / 0` is 10: the zero divisor counts as 1. */
  lemma DivideByZeroExample(pow: PowFn)
    ensures var f := [NumberToken("a", "10"), OperandToken("b", "/"), NumberToken("c", "0")];
      AllHaveValues(f) && Calculate(f, pow) == 10.0
  {
    SingleDigits();
    ParseInteger("", "10");
    assert "" + "10" == "10";
    assert DigitsValue("10") == 10 by {
      assert "10"[..1] == "1";
    }
    Binary(NumberToken("a", "10"), OperandToken("b", "/"), NumberToken("c", "0"), pow);
  }

  /** `1/2 + 1/2` is 1: fractions are exact. */
  lemma FractionExample(pow: PowFn)
    ensures var f := [NumberToken("a", "1/2"), OperandToken("b", "+"), NumberToken("c", "1/2")];
      AllHaveValues(f) && Calculate(f, pow) == 1.0
  {
    ParseFraction("", "1", "2");
    assert "" + "1" + "/" + "2" == "1/2";
    assert DigitsValue("1") == 1 && DigitsValue("2") == 2;
    Binary(NumberToken("a", "1/2"), OperandToken("b", "+"), NumberToken("c", "1/2"), pow);
  }

  /** `2 ^ 3` is whatever `Math.pow` gives for (2, 3). */
  lemma PowerExample(pow: PowFn)
    requires pow(2.0, 3.0) == 8.0
    ensures var f := [NumberToken("a", "2"), OperandToken("b", "^"), NumberToken("c", "3")];
      AllHaveValues(f) && Calculate(f, pow) == 8.0
  {
    SingleDigits();
    Binary(NumberToken("a", "2"), OperandToken("b", "^"), NumberToken("c", "3"), pow);
  }

  /** A tag counts its suggestion's value, and 0 without one. */
  lemma TagExample(s: Suggestion, pow: PowFn)
    ensures var f := [Token("a", "x", Tag, Some(s)), OperandToken("b", "-"), Token("c", "y", Tag, None)];
      AllHaveValues(f) && Calculate(f, pow) == s.value
  {
    Binary(Token("a", "x", Tag, Some(s)), OperandToken("b", "-"), Token("c", "y", Tag, None), pow);
  }

}
