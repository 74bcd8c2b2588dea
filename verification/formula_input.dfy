/**
 * The event handlers of the formula editor (src/components/FormulaInput.tsx)
 * as transitions on an immutable editor state: typing, key presses,
 * clicking a suggestion, picking a value from a tag's dropdown, and the
 * Clear button. Also the invariant every reachable formula keeps.
 *
 * `Date.now().toString()` ids are supplied by the caller (`freshId`), and
 * `allSuggestions` (the cached lookup with an empty query) is a parameter.
 */
module FormulaInput {

  import opened Wrappers
  import opened Text
  import Seqs
  import opened FormulaStore
  import opened TokenRules
  import Evaluator

  datatype Key = Enter | Space | Backspace | OtherKey

  /** The component's state: the text box, the formula held by the store,
      and whether the suggestion list is open. */
  datatype Editor = Editor(input: string, formula: seq<Token>, showSuggestions: bool)

  const Start := Editor("", [], false)

  // ---------------------------------------------------------------------
  // The handlers.
  // ---------------------------------------------------------------------

  /** `handleInputChange`: store the text; open the suggestion list exactly
      when the trimmed text would be committed as a tag. */
  function HandleInputChange(e: Editor, value: string): (r: Editor)
    ensures r.input == value && r.formula == e.formula
    ensures r.showSuggestions <==> Trim(value) != "" && GetTagType(value) == Tag
  {
    e.(input := value, showSuggestions := ShowSuggestions(value))
  }

  /** The keys that commit text of kind `kind`: Enter always, Space for an
      operand only. */
  predicate Commits(key: Key, kind: Kind) {
    key == Enter || (key == Space && kind == Operand)
  }

  /** The first suggestion whose name equals `value`, ignoring case. */
  function SuggestionNamed(all: seq<Suggestion>, value: string): (r: Option<Suggestion>)
    ensures r.Some? ==> r.value in all && ToLower(r.value.name) == ToLower(value)
    ensures r.None? <==> forall s :: s in all ==> ToLower(s.name) != ToLower(value)
    ensures r.Some? ==>
      exists i :: 0 <= i < |all| && all[i] == r.value &&
        forall j :: 0 <= j < i ==> ToLower(all[j].name) != ToLower(value)
  {
    Seqs.FindFirst(all, (s: Suggestion) => ToLower(s.name) == ToLower(value))
  }

  /** The first suggestion whose name is exactly `name`. */
  function SuggestionExactlyNamed(all: seq<Suggestion>, name: string): (r: Option<Suggestion>)
    ensures r.Some? ==> r.value in all && r.value.name == name
    ensures r.None? <==> forall s :: s in all ==> s.name != name
    ensures r.Some? ==>
      exists i :: 0 <= i < |all| && all[i] == r.value &&
        forall j :: 0 <= j < i ==> all[j].name != name
  {
    Seqs.FindFirst(all, (s: Suggestion) => s.name == name)
  }

  /** `handleKeyDown`. With blank input, Backspace removes the last token
      (by id); otherwise Enter, or Space after an operand, appends the
      trimmed text as a token when the sequence rule accepts its kind. */
  function HandleKeyDown(e: Editor, key: Key, all: seq<Suggestion>, freshId: Id): (r: Editor)
    ensures Trim(e.input) == "" ==>
      r.input == e.input && r.showSuggestions == e.showSuggestions && Seqs.IsSubsequence(r.formula, e.formula)
    ensures Trim(e.input) == "" && key != Backspace ==> r == e
    ensures Trim(e.input) == "" && key == Backspace && |e.formula| > 0 ==>
      && r.formula == RemoveTag(e.formula, e.formula[|e.formula| - 1].id)
      && forall t :: t in r.formula <==> t in e.formula && t.id != e.formula[|e.formula| - 1].id
    ensures var value := Trim(e.input); var kind := GetTagType(value);
      value != "" ==> (r != e <==> Commits(key, kind) && IsValidNextType(kind, LastKind(e.formula)))
    ensures var value := Trim(e.input);
      value != "" && r != e ==>
        && r.input == "" && !r.showSuggestions
        && |r.formula| == |e.formula| + 1 && r.formula[..|e.formula|] == e.formula
        && var t := r.formula[|e.formula|];
        && t.id == freshId && t.value == value && t.kind == GetTagType(value)
        && (t.kind == Tag ==> t.suggestion == SuggestionNamed(all, value))
        && (t.kind != Tag ==> t.suggestion.None?)
  {
    var value := Trim(e.input);
    if value == "" then
      if key == Backspace && |e.formula| > 0 then
        e.(formula := RemoveTag(e.formula, e.formula[|e.formula| - 1].id))
      else
        Seqs.SubsequenceReflexive(e.formula);
        e
    else
      var kind := GetTagType(value);
      if Commits(key, kind) && IsValidNextType(kind, LastKind(e.formula)) then
        var suggestion := if kind == Tag then SuggestionNamed(all, value) else None;
        var f := AddTag(e.formula, freshId, value, kind, suggestion);
        assert |f| != |e.formula|;
        Editor("", f, false)
      else
        e
  }

  /** `handleSuggestionClick`: add the suggestion as a tag when a value may
      come next (the formula is empty or ends with an operand). */
  function HandleSuggestionClick(e: Editor, s: Suggestion, freshId: Id): (r: Editor)
    ensures r != e <==> IsValidNextType(Tag, LastKind(e.formula))
    ensures r != e ==>
      && r.input == "" && !r.showSuggestions
      && |r.formula| == |e.formula| + 1 && r.formula[..|e.formula|] == e.formula
      && r.formula[|e.formula|] == Token(freshId, s.name, Tag, Some(s))
  {
    if |e.formula| == 0 || e.formula[|e.formula| - 1].kind == Operand then
      var f := AddTag(e.formula, freshId, s.name, Tag, Some(s));
      assert |f| != |e.formula|;
      Editor("", f, false)
    else
      e
  }

  /** `handleDropdownChange`: a non-empty choice renames the tokens with
      `id` and attaches the first suggestion with exactly that name. */
  function HandleDropdownChange(e: Editor, id: Id, choice: Option<string>, all: seq<Suggestion>): (r: Editor)
    ensures r.input == e.input && r.showSuggestions == e.showSuggestions
    ensures choice.None? || choice.value == "" ==> r == e
    ensures |r.formula| == |e.formula|
    ensures forall i :: 0 <= i < |e.formula| ==>
      r.formula[i].id == e.formula[i].id && r.formula[i].kind == e.formula[i].kind
    ensures forall i :: 0 <= i < |e.formula| && e.formula[i].id != id ==> r.formula[i] == e.formula[i]
    ensures choice.Some? && choice.value != "" ==>
      forall i :: 0 <= i < |e.formula| && e.formula[i].id == id ==>
        && r.formula[i].value == choice.value
        && r.formula[i].suggestion == SuggestionExactlyNamed(all, choice.value)
  {
    if choice.Some? && choice.value != "" then
      var suggestion := SuggestionExactlyNamed(all, choice.value);
      e.(formula := UpdateTag(e.formula, id, choice.value, suggestion))
    else
      e
  }

  /** The Clear button calls the store's `clearFormula` and nothing else. */
  function HandleClear(e: Editor): (r: Editor)
    ensures r.formula == [] && r.input == e.input && r.showSuggestions == e.showSuggestions
  {
    e.(formula := ClearFormula(e.formula))
  }

  // ---------------------------------------------------------------------
  // Events and the invariant.
  // ---------------------------------------------------------------------

  /** What the user can do. The dropdown is rendered for tags only, so a
      pick names a tag's id. */
  datatype Event =
    | Type(text: string)
    | Press(key: Key, freshId: Id)
    | Click(suggestion: Suggestion, freshId: Id)
    | Pick(id: Id, choice: Option<string>)
    | Clear

  predicate Mints(ev: Event) {
    ev.Press? || ev.Click?
  }

  predicate IsTagId(f: seq<Token>, id: Id) {
    exists i :: 0 <= i < |f| && f[i].id == id && f[i].kind == Tag
  }

  function Dispatch(e: Editor, ev: Event, all: seq<Suggestion>): Editor {
    match ev
    case Type(text) => HandleInputChange(e, text)
    case Press(key, freshId) => HandleKeyDown(e, key, all, freshId)
    case Click(s, freshId) => HandleSuggestionClick(e, s, freshId)
    case Pick(id, choice) => if IsTagId(e.formula, id) then HandleDropdownChange(e, id, choice, all) else e
    case Clear => HandleClear(e)
  }

  /** A token whose text agrees with its kind: operands are listed symbols,
      numbers are text the number patterns accept, and only a tag carries a
      suggestion. */
  predicate TextFitsKind(t: Token) {
    && (t.kind == Operand ==> IsOperandSymbol(t.value))
    && (t.kind == Number ==> IsDecimal(t.value) || IsFraction(t.value))
    && (t.kind != Tag ==> t.suggestion.None?)
  }

  /** What every formula the editor builds satisfies: values and operands
      alternate, ids are distinct, each token's text fits its kind, and only
      tags carry a suggestion. */
  ghost predicate WellFormed(f: seq<Token>) {
    && Alternating(f)
    && UniqueTokenIds(f)
    && forall i :: 0 <= i < |f| ==> TextFitsKind(f[i])
  }

  /** The token a key press appends fits its kind. */
  lemma CommittedTextFits(input: string, kind: Kind, id: Id, s: Option<Suggestion>)
    requires kind == GetTagType(Trim(input))
    requires kind != Tag ==> s.None?
    ensures TextFitsKind(Token(id, Trim(input), kind, s))
  {
    TrimIdempotent(input);
  }

  /** Appending a token of an accepted kind, with a fresh id and fitting
      text, keeps a formula well formed. */
  lemma AppendKeepsWellFormed(f: seq<Token>, t: Token)
    requires WellFormed(f) && t.id !in TokenIds(f) && TextFitsKind(t)
    requires IsValidNextType(t.kind, LastKind(f))
    ensures WellFormed(f + [t])
  {
    ValidNextKeepsAlternation(f, t);
    var g := f + [t];
    assert g == AddTag(f, t.id, t.value, t.kind, t.suggestion);
    forall i | 0 <= i < |g| ensures TextFitsKind(g[i]) {
      if i < |f| { assert g[i] == f[i]; }
    }
  }

  /** Every prefix of a well-formed formula is well formed. */
  lemma PrefixWellFormed(f: seq<Token>, k: nat)
    requires WellFormed(f) && k <= |f|
    ensures WellFormed(f[..k]) && TokenIds(f[..k]) <= TokenIds(f)
  {
    var g := f[..k];
    assert forall i :: 0 <= i < k ==> g[i] == f[i];
    assert TokenIds(g) <= TokenIds(f) by {
      forall x | x in TokenIds(g) ensures x in TokenIds(f) {
        var i :| 0 <= i < |g| && g[i].id == x;
        assert f[i].id == x;
      }
    }
  }

  /** With distinct ids, Backspace on blank input removes exactly the last
      token. */
  lemma BackspaceDropsLast(e: Editor, all: seq<Suggestion>, freshId: Id)
    requires Trim(e.input) == "" && |e.formula| > 0 && UniqueTokenIds(e.formula)
    ensures HandleKeyDown(e, Backspace, all, freshId).formula == e.formula[..|e.formula| - 1]
  {
    RemoveLast(e.formula);
  }

  /** Removing the id shared by the first and last of three tokens leaves
      only the middle one. */
  lemma RemoveSharedId(a: Token, o: Token, b: Token)
    requires a.id == b.id && o.id != b.id
    ensures RemoveTag([a, o, b], b.id) == [o]
  {
    var r := RemoveTag([a, o, b], b.id);
    assert multiset(r) == multiset([o]) by {
      forall t ensures multiset(r)[t] == multiset([o])[t] {
        assert multiset([a, o, b]) == multiset{a, o, b};
      }
    }
    assert |r| == 1 by {
      assert |multiset(r)| == |r|;
    }
    assert r[0] in multiset(r);
  }

  /** As written, ids made from the clock repeat when two tokens are added
      within one millisecond. Backspace then removes both: a value and the
      operand after it go together, instead of the operand alone. */
  lemma SameMillisecondBackspace(e: Editor, a: Token, o: Token, all: seq<Suggestion>, freshId: Id)
    requires a.kind != Operand && o.kind == Operand && a.id == o.id
    requires Trim(e.input) == "" && e.formula == [a, o]
    ensures HandleKeyDown(e, Backspace, all, freshId).formula == []
    ensures HandleKeyDown(e, Backspace, all, freshId).formula != e.formula[..|e.formula| - 1]
  {
    var r := RemoveTag([a, o], o.id);
    assert e.formula[1] == o && e.formula[..1] == [a];
    assert multiset(r) == multiset{} by {
      forall t ensures multiset(r)[t] == 0 {
        assert multiset([a, o]) == multiset{a, o};
      }
    }
    assert |r| == |multiset(r)|;
  }

  lemma AlternatingTriple(a: Token, o: Token, b: Token)
    requires a.kind != Operand && o.kind == Operand && b.kind != Operand
    ensures Alternating([a, o, b])
  {
    var f := [a, o, b];
    forall i | 0 <= i < 3
      ensures f[i].kind == Operand <==> i % 2 == 1
    {
      if i == 0 {
        assert f[i] == a;
      } else if i == 1 {
        assert f[i] == o;
      } else {
        assert f[i] == b;
      }
    }
  }

  /** With a clock set back between additions, the first and last of three
      tokens can share an id that the middle one does not. Backspace then
      removes the first token too and leaves a lone operand: the alternation
      is broken. */
  lemma SharedIdBackspace(e: Editor, a: Token, o: Token, b: Token, all: seq<Suggestion>, freshId: Id)
    requires a.kind != Operand && o.kind == Operand && b.kind != Operand
    requires a.id == b.id && o.id != b.id
    requires Trim(e.input) == "" && e.formula == [a, o, b]
    ensures Alternating(e.formula)
    ensures HandleKeyDown(e, Backspace, all, freshId).formula == [o]
    ensures !Alternating([o])
  {
    AlternatingTriple(a, o, b);
    assert e.formula[2] == b;
    RemoveSharedId(a, o, b);
    assert [o][0] == o;
  }

  /** A key press keeps the formula well formed, given a fresh id. */
  lemma KeyDownKeepsWellFormed(e: Editor, key: Key, all: seq<Suggestion>, freshId: Id)
    requires WellFormed(e.formula) && freshId !in TokenIds(e.formula)
    ensures WellFormed(HandleKeyDown(e, key, all, freshId).formula)
    ensures TokenIds(HandleKeyDown(e, key, all, freshId).formula) <= TokenIds(e.formula) + {freshId}
  {
    var f := e.formula;
    var r := HandleKeyDown(e, key, all, freshId);
    if Trim(e.input) == "" {
      if key == Backspace && |f| > 0 {
        BackspaceDropsLast(e, all, freshId);
        PrefixWellFormed(f, |f| - 1);
      }
    } else if r != e {
      var t := r.formula[|f|];
      assert r.formula == f + [t];
      CommittedTextFits(e.input, t.kind, freshId, t.suggestion);
      AppendKeepsWellFormed(f, t);
    }
  }

  /** A suggestion click keeps the formula well formed, given a fresh id. */
  lemma ClickKeepsWellFormed(e: Editor, s: Suggestion, freshId: Id)
    requires WellFormed(e.formula) && freshId !in TokenIds(e.formula)
    ensures WellFormed(HandleSuggestionClick(e, s, freshId).formula)
    ensures TokenIds(HandleSuggestionClick(e, s, freshId).formula) <= TokenIds(e.formula) + {freshId}
  {
    var f := e.formula;
    var r := HandleSuggestionClick(e, s, freshId);
    if r != e {
      var t := r.formula[|f|];
      assert r.formula == f + [t];
      AppendKeepsWellFormed(f, t);
    }
  }

  /** Every event keeps the formula well formed, given a fresh id for the
      token it may add; the only id it can introduce is that one. */
  lemma DispatchKeepsWellFormed(e: Editor, ev: Event, all: seq<Suggestion>)
    requires WellFormed(e.formula)
    requires Mints(ev) ==> ev.freshId !in TokenIds(e.formula)
    ensures WellFormed(Dispatch(e, ev, all).formula)
    ensures Mints(ev) ==> TokenIds(Dispatch(e, ev, all).formula) <= TokenIds(e.formula) + {ev.freshId}
    ensures !Mints(ev) ==> TokenIds(Dispatch(e, ev, all).formula) <= TokenIds(e.formula)
  {
    match ev
    case Type(_) =>
    case Press(key, freshId) =>
      KeyDownKeepsWellFormed(e, key, all, freshId);
    case Click(s, freshId) =>
      ClickKeepsWellFormed(e, s, freshId);
    case Pick(id, choice) =>
      if IsTagId(e.formula, id) {
        PickKeepsWellFormed(e, id, choice, all);
      }
    case Clear =>
  }

  lemma PickKeepsWellFormed(e: Editor, id: Id, choice: Option<string>, all: seq<Suggestion>)
    requires WellFormed(e.formula) && IsTagId(e.formula, id)
    ensures WellFormed(HandleDropdownChange(e, id, choice, all).formula)
    ensures TokenIds(HandleDropdownChange(e, id, choice, all).formula) == TokenIds(e.formula)
  {
    var f := e.formula;
    var g := HandleDropdownChange(e, id, choice, all).formula;
    var k :| 0 <= k < |f| && f[k].id == id && f[k].kind == Tag;
    SameShape(f, g);
    forall i | 0 <= i < |g| ensures TextFitsKind(g[i]) {
      if f[i].id == id {
        assert i == k;
      } else {
        assert g[i] == f[i];
      }
    }
  }

  /** Two formulas with the same ids and kinds position by position. */
  lemma SameShape(f: seq<Token>, g: seq<Token>)
    requires |g| == |f| && forall i :: 0 <= i < |f| ==> g[i].id == f[i].id && g[i].kind == f[i].kind
    ensures Alternating(g) == Alternating(f) && UniqueTokenIds(g) == UniqueTokenIds(f) && TokenIds(g) == TokenIds(f)
  {
  }

  /** The result line has a value for every well-formed formula without a
      fraction over zero. */
  lemma WellFormedHasValues(f: seq<Token>)
    requires WellFormed(f)
    requires forall i :: 0 <= i < |f| && f[i].kind == Number ==> !Evaluator.ZeroDenominator(f[i].value)
    ensures Evaluator.AllHaveValues(f)
  {
    forall i | 0 <= i < |f| ensures Evaluator.HasValue(f[i]) {
      if f[i].kind == Number {
        assert TextFitsKind(f[i]);
        Evaluator.NumberTextParses(f[i].value);
      }
    }
  }

  // ---------------------------------------------------------------------
  // Sessions.
  // ---------------------------------------------------------------------

  /** The editor after the events of `evs`, from a blank start. */
  function Replay(evs: seq<Event>, all: seq<Suggestion>): Editor
    decreases |evs|
  {
    if |evs| == 0 then Start else Dispatch(Replay(evs[..|evs| - 1], all), evs[|evs| - 1], all)
  }

  function MintedIds(evs: seq<Event>): set<Id> {
    set i | 0 <= i < |evs| && Mints(evs[i]) :: evs[i].freshId
  }

  /** Each event that may add a token carries its own id. */
  predicate DistinctMints(evs: seq<Event>) {
    forall i, j :: 0 <= i < j < |evs| && Mints(evs[i]) && Mints(evs[j]) ==> evs[i].freshId != evs[j].freshId
  }

  /** Any session whose new ids are distinct builds a well-formed formula
      whose ids all came from its events. */
  lemma {:induction false} ReplayWellFormed(evs: seq<Event>, all: seq<Suggestion>)
    requires DistinctMints(evs)
    ensures WellFormed(Replay(evs, all).formula)
    ensures TokenIds(Replay(evs, all).formula) <= MintedIds(evs)
    decreases |evs|
  {
    if |evs| > 0 {
      var n := |evs|;
      var prior, ev := evs[..n - 1], evs[n - 1];
      assert DistinctMints(prior) by {
        assert forall i :: 0 <= i < n - 1 ==> prior[i] == evs[i];
      }
      ReplayWellFormed(prior, all);
      var e := Replay(prior, all);
      assert MintedIds(prior) <= MintedIds(evs) by {
        forall x | x in MintedIds(prior) ensures x in MintedIds(evs) {
          var i :| 0 <= i < n - 1 && Mints(prior[i]) && prior[i].freshId == x;
          assert evs[i] == prior[i];
        }
      }
      if Mints(ev) {
        assert ev.freshId !in MintedIds(prior) by {
          assert forall i :: 0 <= i < n - 1 ==> prior[i] == evs[i];
        }
        assert ev.freshId in MintedIds(evs);
      }
      DispatchKeepsWellFormed(e, ev, all);
    }
  }

}
