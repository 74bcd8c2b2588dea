/**
 * The formula store (src/store/formulaStore.ts): an ordered list of tokens
 * with append, remove-by-id, update-by-id and clear, each a pure function
 * from the old list to the new one. The store itself validates nothing.
 */
module FormulaStore {

  import opened Wrappers
  import Seqs
  import Autocomplete

  type Id = Autocomplete.Id
  type Suggestion = Autocomplete.Suggestion

  /** The `type` of a formula element. */
  datatype Kind = Tag | Operand | Number

  /** A formula element (`Tag` in the source): a tag's `value` is its display
      name; an operand's or number's is the text as typed. */
  datatype Token = Token(id: Id, value: string, kind: Kind, suggestion: Option<Suggestion>)

  function TokenIds(f: seq<Token>): set<Id> {
    set i | 0 <= i < |f| :: f[i].id
  }

  predicate UniqueTokenIds(f: seq<Token>) {
    forall i, j :: 0 <= i < j < |f| ==> f[i].id != f[j].id
  }

  /** `addTag`: the new token goes at the end, the rest is untouched. The id
      is supplied by the caller (the source uses the clock). */
  function AddTag(f: seq<Token>, id: Id, value: string, kind: Kind, suggestion: Option<Suggestion>): (r: seq<Token>)
    ensures |r| == |f| + 1 && r[..|f|] == f
    ensures r[|f|] == Token(id, value, kind, suggestion)
    ensures TokenIds(r) == TokenIds(f) + {id}
    ensures id !in TokenIds(f) && UniqueTokenIds(f) ==> UniqueTokenIds(r)
  {
    var r := f + [Token(id, value, kind, suggestion)];
    assert TokenIds(r) == TokenIds(f) + {id} by {
      assert forall i :: 0 <= i < |f| ==> r[i] == f[i];
      assert r[|f|].id == id;
    }
    r
  }

  /** `removeTag`: every token carrying `id` goes; the others stay, in order. */
  function RemoveTag(f: seq<Token>, id: Id): (r: seq<Token>)
    ensures forall t :: t in r <==> t in f && t.id != id
    ensures forall t :: multiset(r)[t] == if t.id != id then multiset(f)[t] else 0
    ensures Seqs.IsSubsequence(r, f)
    ensures id !in TokenIds(f) ==> r == f
  {
    if id !in TokenIds(f) then
      Seqs.FilterKeepsAll(f, (t: Token) => t.id != id);
      Seqs.Filter(f, (t: Token) => t.id != id)
    else
      Seqs.Filter(f, (t: Token) => t.id != id)
  }

  /** `updateTag`: tokens carrying `id` take the new value and suggestion
      (an absent suggestion clears the old one); position, id and kind of
      every token are kept, and every other token is unchanged. */
  function UpdateTag(f: seq<Token>, id: Id, value: string, suggestion: Option<Suggestion>): (r: seq<Token>)
    ensures |r| == |f|
    ensures forall i :: 0 <= i < |f| ==> r[i].id == f[i].id && r[i].kind == f[i].kind
    ensures forall i :: 0 <= i < |f| && f[i].id == id ==> r[i].value == value && r[i].suggestion == suggestion
    ensures forall i :: 0 <= i < |f| && f[i].id != id ==> r[i] == f[i]
    ensures id !in TokenIds(f) ==> r == f
  {
    seq(|f|, i requires 0 <= i < |f| => if f[i].id == id then f[i].(value := value, suggestion := suggestion) else f[i])
  }

  /** `clearFormula`: the empty formula, whatever came before. */
  function ClearFormula(f: seq<Token>): (r: seq<Token>)
    ensures |r| == 0
  {
    []
  }

  /** Adding a token with a fresh id and then removing that id gives back the
      formula exactly. */
  lemma AddThenRemove(f: seq<Token>, id: Id, value: string, kind: Kind, suggestion: Option<Suggestion>)
    requires id !in TokenIds(f)
    ensures RemoveTag(AddTag(f, id, value, kind, suggestion), id) == f
  {
    var t := Token(id, value, kind, suggestion);
    var p := (x: Token) => x.id != id;
    assert AddTag(f, id, value, kind, suggestion) == f + [t];
    Seqs.FilterConcat(f, [t], p);
    Seqs.FilterKeepsAll(f, p);
    assert Seqs.Filter([t], p) == [];
  }

  /** With unique ids, removing the last token's id drops exactly that token. */
  lemma RemoveLast(f: seq<Token>)
    requires |f| > 0 && UniqueTokenIds(f)
    ensures RemoveTag(f, f[|f| - 1].id) == f[..|f| - 1]
  {
    var init := f[..|f| - 1];
    var last := f[|f| - 1];
    assert last.id !in TokenIds(init);
    assert init + [last] == f;
    AddThenRemove(init, last.id, last.value, last.kind, last.suggestion);
  }

  /** Updating twice with the same arguments is the same as updating once. */
  lemma UpdateIdempotent(f: seq<Token>, id: Id, value: string, suggestion: Option<Suggestion>)
    ensures UpdateTag(UpdateTag(f, id, value, suggestion), id, value, suggestion) == UpdateTag(f, id, value, suggestion)
  {
  }

}
