/**
 * The client-side post-processing of `fetchSuggestions`
 * (src/api/autocomplete.ts): the fetched list is deduplicated through a
 * JavaScript `Map` keyed by id and then filtered by a case-insensitive
 * substring match of the query against name or category. The HTTP request
 * itself is not modelled: its response is the `fetched` parameter.
 */
module Autocomplete {

  import opened Text
  import Seqs

  type Id = string

  /** An autocomplete entity. Its `value` is taken to be already numeric. */
  datatype Suggestion = Suggestion(id: Id, name: string, category: string, value: real)

  function SuggestionIds(s: seq<Suggestion>): set<Id> {
    set i | 0 <= i < |s| :: s[i].id
  }

  predicate UniqueSuggestionIds(s: seq<Suggestion>) {
    forall i, j :: 0 <= i < j < |s| ==> s[i].id != s[j].id
  }

  /** Index of the first entry with id `id`. */
  function FirstIndex(s: seq<Suggestion>, id: Id): (k: nat)
    requires id in SuggestionIds(s)
    ensures k < |s| && s[k].id == id
    ensures forall j :: 0 <= j < k ==> s[j].id != id
  {
    FirstIndexFrom(s, id, 0)
  }

  function FirstIndexFrom(s: seq<Suggestion>, id: Id, from: nat): (k: nat)
    requires from <= |s|
    requires exists i :: from <= i < |s| && s[i].id == id
    ensures from <= k < |s| && s[k].id == id
    ensures forall j :: from <= j < k ==> s[j].id != id
    decreases |s| - from
  {
    if s[from].id == id then from else FirstIndexFrom(s, id, from + 1)
  }

  /** Index of the last entry with id `id`. */
  function LastIndex(s: seq<Suggestion>, id: Id): (k: nat)
    requires id in SuggestionIds(s)
    ensures k < |s| && s[k].id == id
    ensures forall j :: k < j < |s| ==> s[j].id != id
  {
    LastIndexBefore(s, id, |s|)
  }

  function LastIndexBefore(s: seq<Suggestion>, id: Id, bound: nat): (k: nat)
    requires bound <= |s|
    requires exists i :: 0 <= i < bound && s[i].id == id
    ensures k < bound && s[k].id == id
    ensures forall j :: k < j < bound ==> s[j].id != id
    decreases bound
  {
    if s[bound - 1].id == id then bound - 1 else LastIndexBefore(s, id, bound - 1)
  }

  /** `Map.prototype.set` on the entries of a Map, kept in insertion order:
      an existing key keeps its position and takes the new value; a new key
      goes to the end. */
  function MapSet(entries: seq<Suggestion>, item: Suggestion): seq<Suggestion> {
    if item.id in SuggestionIds(entries) then entries[FirstIndex(entries, item.id) := item]
    else entries + [item]
  }

  /** What `Array.from(new Map(s.map(item => [item.id, item])).values())`
      yields, stated without reference to how it is built: each id of `s`
      appears exactly once, ordered by the position of its first occurrence
      in `s`, holding the LAST entry of `s` with that id. */
  ghost predicate IsDedupOf(r: seq<Suggestion>, s: seq<Suggestion>) {
    UniqueSuggestionIds(r) && SuggestionIds(r) == SuggestionIds(s) && HoldsLastEntries(r, s) && InFirstSeenOrder(r, s)
  }

  ghost predicate HoldsLastEntries(r: seq<Suggestion>, s: seq<Suggestion>) {
    forall k :: 0 <= k < |r| ==> r[k].id in SuggestionIds(s) && r[k] == s[LastIndex(s, r[k].id)]
  }

  ghost predicate InFirstSeenOrder(r: seq<Suggestion>, s: seq<Suggestion>) {
    forall i, j :: 0 <= i < j < |r| ==>
      (r[i].id in SuggestionIds(s) && r[j].id in SuggestionIds(s) && FirstIndex(s, r[i].id) < FirstIndex(s, r[j].id))
  }

  /** The deduplication step of `fetchSuggestions`: one `MapSet` per entry. */
  function Dedup(s: seq<Suggestion>): (r: seq<Suggestion>)
    ensures IsDedupOf(r, s)
    decreases |s|
  {
    if |s| == 0 then []
    else
      var init := s[..|s| - 1];
      var x := s[|s| - 1];
      assert s == init + [x];
      var d := Dedup(init);
      if x.id in SuggestionIds(d) then
        MapSetReplaces(init, x, d);
        MapSet(d, x)
      else
        MapSetAppends(init, x, d);
        MapSet(d, x)
  }

  /** `MapSet` of an id already present overwrites that entry in place. */
  lemma MapSetReplaces(s: seq<Suggestion>, x: Suggestion, d: seq<Suggestion>)
    requires IsDedupOf(d, s) && x.id in SuggestionIds(d)
    ensures IsDedupOf(MapSet(d, x), s + [x])
  {
    var j := FirstIndex(d, x.id);
    var r := d[j := x];
    assert MapSet(d, x) == r;
    IdsReplace(d, j, x);
    IdsSnoc(s, x);
    assert UniqueSuggestionIds(r) by {
      assert forall k :: 0 <= k < |r| ==> r[k].id == d[k].id;
    }
    ReplaceHoldsLastEntries(s, x, d, j);
    ReplaceKeepsOrder(s, x, d, j);
  }

  lemma ReplaceHoldsLastEntries(s: seq<Suggestion>, x: Suggestion, d: seq<Suggestion>, j: nat)
    requires HoldsLastEntries(d, s) && j < |d| && d[j].id == x.id && UniqueSuggestionIds(d)
    ensures HoldsLastEntries(d[j := x], s + [x])
  {
    var t := s + [x];
    var r := d[j := x];
    SnocLastIndex(s, x);
    forall k | 0 <= k < |r|
      ensures r[k].id in SuggestionIds(t) && r[k] == t[LastIndex(t, r[k].id)]
    {
      if k != j {
        assert r[k] == d[k] && d[k].id != x.id;
        assert t[LastIndex(s, d[k].id)] == s[LastIndex(s, d[k].id)];
      }
    }
  }

  lemma ReplaceKeepsOrder(s: seq<Suggestion>, x: Suggestion, d: seq<Suggestion>, j: nat)
    requires InFirstSeenOrder(d, s) && j < |d| && d[j].id == x.id
    ensures InFirstSeenOrder(d[j := x], s + [x])
  {
    var t := s + [x];
    var r := d[j := x];
    SnocFirstIndex(s, x);
    forall i, k | 0 <= i < k < |r|
      ensures r[i].id in SuggestionIds(t) && r[k].id in SuggestionIds(t) && FirstIndex(t, r[i].id) < FirstIndex(t, r[k].id)
    {
      assert r[i].id == d[i].id && r[k].id == d[k].id;
    }
  }

  /** `MapSet` of a new id appends it. */
  lemma MapSetAppends(s: seq<Suggestion>, x: Suggestion, d: seq<Suggestion>)
    requires IsDedupOf(d, s) && x.id !in SuggestionIds(d)
    ensures IsDedupOf(MapSet(d, x), s + [x])
  {
    assert MapSet(d, x) == d + [x];
    IdsSnoc(d, x);
    IdsSnoc(s, x);
    AppendKeepsUniqueIds(d, x);
    AppendHoldsLastEntries(s, x, d);
    AppendKeepsFirstSeenOrder(s, x, d);
  }

  lemma AppendKeepsUniqueIds(d: seq<Suggestion>, x: Suggestion)
    requires UniqueSuggestionIds(d) && x.id !in SuggestionIds(d)
    ensures UniqueSuggestionIds(d + [x])
  {
    var r := d + [x];
    forall i, k | 0 <= i < k < |r|
      ensures r[i].id != r[k].id
    {
      assert r[i] == d[i];
      if k == |d| {
        assert d[i].id in SuggestionIds(d);
      } else {
        assert r[k] == d[k];
      }
    }
  }

  lemma AppendHoldsLastEntries(s: seq<Suggestion>, x: Suggestion, d: seq<Suggestion>)
    requires HoldsLastEntries(d, s) && SuggestionIds(d) == SuggestionIds(s) && x.id !in SuggestionIds(d)
    requires SuggestionIds(s + [x]) == SuggestionIds(s) + {x.id}
    ensures HoldsLastEntries(d + [x], s + [x])
  {
    var t, r := s + [x], d + [x];
    SnocLastIndex(s, x);
    forall k | 0 <= k < |r|
      ensures r[k].id in SuggestionIds(t) && r[k] == t[LastIndex(t, r[k].id)]
    {
      if k < |d| {
        assert r[k] == d[k] && d[k].id in SuggestionIds(d);
        assert t[LastIndex(s, d[k].id)] == s[LastIndex(s, d[k].id)];
      }
    }
  }

  lemma AppendKeepsFirstSeenOrder(s: seq<Suggestion>, x: Suggestion, d: seq<Suggestion>)
    requires InFirstSeenOrder(d, s) && SuggestionIds(d) == SuggestionIds(s) && x.id !in SuggestionIds(d)
    requires SuggestionIds(s + [x]) == SuggestionIds(s) + {x.id}
    ensures InFirstSeenOrder(d + [x], s + [x])
  {
    var t, r := s + [x], d + [x];
    SnocFirstIndex(s, x);
    forall i, k | 0 <= i < k < |r|
      ensures r[i].id in SuggestionIds(t) && r[k].id in SuggestionIds(t) && FirstIndex(t, r[i].id) < FirstIndex(t, r[k].id)
    {
      assert r[i] == d[i] && d[i].id in SuggestionIds(d);
      if k < |d| {
        assert r[k] == d[k];
      }
    }
  }

  lemma IdsSnoc(s: seq<Suggestion>, x: Suggestion)
    ensures SuggestionIds(s + [x]) == SuggestionIds(s) + {x.id}
  {
    var t := s + [x];
    forall id | id in SuggestionIds(t)
      ensures id in SuggestionIds(s) + {x.id}
    {
      var i :| 0 <= i < |t| && t[i].id == id;
      if i < |s| {
        assert s[i].id == id;
      }
    }
    forall id | id in SuggestionIds(s)
      ensures id in SuggestionIds(t)
    {
      var i :| 0 <= i < |s| && s[i].id == id;
      assert t[i].id == id;
    }
    assert t[|s|].id == x.id;
  }

  lemma IdsReplace(d: seq<Suggestion>, j: nat, x: Suggestion)
    requires j < |d| && d[j].id == x.id
    ensures SuggestionIds(d[j := x]) == SuggestionIds(d)
  {
    var r := d[j := x];
    forall id | id in SuggestionIds(r)
      ensures id in SuggestionIds(d)
    {
      var i :| 0 <= i < |r| && r[i].id == id;
      assert d[i].id == id;
    }
    forall id | id in SuggestionIds(d)
      ensures id in SuggestionIds(r)
    {
      var i :| 0 <= i < |d| && d[i].id == id;
      assert r[i].id == id;
    }
  }

  /** Appending an entry does not move the first position of an id already
      present; a new id is first seen at the end. */
  lemma SnocFirstIndex(s: seq<Suggestion>, x: Suggestion)
    ensures forall id :: id in SuggestionIds(s) ==> id in SuggestionIds(s + [x]) && FirstIndex(s + [x], id) == FirstIndex(s, id)
    ensures x.id !in SuggestionIds(s) ==> x.id in SuggestionIds(s + [x]) && FirstIndex(s + [x], x.id) == |s|
  {
    var t := s + [x];
    IdsSnoc(s, x);
    forall id | id in SuggestionIds(s)
      ensures FirstIndex(t, id) == FirstIndex(s, id)
    {
      var b := FirstIndex(s, id);
      assert t[b].id == id;
    }
    assert t[|s|].id == x.id;
  }

  /** Appending an entry makes it the last one with its id and moves no other
      id's last position. */
  lemma SnocLastIndex(s: seq<Suggestion>, x: Suggestion)
    ensures x.id in SuggestionIds(s + [x]) && LastIndex(s + [x], x.id) == |s|
    ensures forall id :: id in SuggestionIds(s) && id != x.id ==> id in SuggestionIds(s + [x]) && LastIndex(s + [x], id) == LastIndex(s, id)
  {
    var t := s + [x];
    IdsSnoc(s, x);
    assert t[|s|].id == x.id;
    forall id | id in SuggestionIds(s) && id != x.id
      ensures LastIndex(t, id) == LastIndex(s, id)
    {
      var b := LastIndex(s, id);
      assert t[b].id == id;
    }
  }

  /** Whether `s` survives the filter for a non-empty query. */
  predicate MatchesQuery(s: Suggestion, query: string) {
    Contains(ToLower(s.name), ToLower(query)) || Contains(ToLower(s.category), ToLower(query))
  }

  /** The `filter` step: an empty query keeps everything; otherwise an entry
      is kept exactly when the lower-cased query occurs in its lower-cased
      name or category. Order is preserved. */
  function FilterByQuery(s: seq<Suggestion>, query: string): (r: seq<Suggestion>)
    ensures query == "" ==> r == s
    ensures query != "" ==> forall x :: x in r <==> x in s && MatchesQuery(x, query)
    ensures query != "" ==> forall x :: multiset(r)[x] == if MatchesQuery(x, query) then multiset(s)[x] else 0
    ensures Seqs.IsSubsequence(r, s)
  {
    if query == "" then
      Seqs.SubsequenceReflexive(s);
      s
    else
      Seqs.Filter(s, x => MatchesQuery(x, query))
  }

  /** A subsequence of a list with unique ids has unique ids. */
  lemma {:induction false} SubsequenceKeepsUniqueIds(a: seq<Suggestion>, b: seq<Suggestion>)
    requires Seqs.IsSubsequence(a, b) && UniqueSuggestionIds(b)
    ensures UniqueSuggestionIds(a)
    decreases |b|
  {
    if |a| > 0 {
      assert forall j :: 1 <= j < |b| ==> b[j] == b[1..][j - 1];
      if a[0] == b[0] && Seqs.IsSubsequence(a[1..], b[1..]) {
        SubsequenceKeepsUniqueIds(a[1..], b[1..]);
        Seqs.SubsequenceMembers(a[1..], b[1..]);
        forall j | 1 <= j < |a|
          ensures a[0].id != a[j].id
        {
          assert a[j] == a[1..][j - 1];
          assert a[j] in b[1..];
        }
      } else {
        SubsequenceKeepsUniqueIds(a, b[1..]);
      }
    }
  }

  /** What `fetchSuggestions(query)` returns once the server has answered
      with `fetched`. */
  function FetchSuggestions(fetched: seq<Suggestion>, query: string): (r: seq<Suggestion>)
    ensures UniqueSuggestionIds(r)
    ensures forall x :: x in r ==> x.id in SuggestionIds(fetched)
    ensures Seqs.IsSubsequence(r, Dedup(fetched))
    ensures query == "" ==> r == Dedup(fetched)
    ensures query != "" ==> forall x :: x in r <==> x in Dedup(fetched) && MatchesQuery(x, query)
  {
    var d := Dedup(fetched);
    var r := FilterByQuery(d, query);
    SubsequenceKeepsUniqueIds(r, d);
    Seqs.SubsequenceMembers(r, d);
    r
  }

  /** Two entries with the same id: the first one's position, the second
      one's contents. */
  lemma DuplicateKeepsLastEntry(a: Suggestion, b: Suggestion, c: Suggestion)
    requires a.id == b.id && c.id != a.id
    ensures Dedup([a, c, b]) == [b, c]
  {
    DedupFreshPair(a, c);
    DedupSnoc([a, c], b);
    assert [a, c] + [b] == [a, c, b];
    assert a.id in SuggestionIds([a, c]) && FirstIndex([a, c], b.id) == 0;
  }

  /** A single entry is its own de-duplication. */
  lemma DedupSingle(a: Suggestion)
    ensures Dedup([a]) == [a]
  {
    var none: seq<Suggestion> := [];
    DedupSnoc(none, a);
    assert none + [a] == [a] && SuggestionIds(none) == {};
  }

  /** Two entries with different ids are kept as they are. */
  lemma DedupFreshPair(a: Suggestion, c: Suggestion)
    requires c.id != a.id
    ensures Dedup([a, c]) == [a, c]
  {
    DedupSingle(a);
    DedupSnoc([a], c);
    assert [a] + [c] == [a, c];
    assert c.id !in SuggestionIds([a]);
    assert MapSet([a], c) == [a, c];
  }

  /** `Dedup` is one `MapSet` per entry, in order. */
  lemma DedupSnoc(s: seq<Suggestion>, x: Suggestion)
    ensures Dedup(s + [x]) == MapSet(Dedup(s), x)
  {
    assert (s + [x])[..|s|] == s;
  }

  /** The de-duplicated list has one entry per distinct id of the input. */
  lemma DedupCount(s: seq<Suggestion>)
    ensures |Dedup(s)| == |SuggestionIds(s)|
  {
    UniqueIdsCount(Dedup(s));
  }

  lemma {:induction false} UniqueIdsCount(s: seq<Suggestion>)
    requires UniqueSuggestionIds(s)
    ensures |SuggestionIds(s)| == |s|
    decreases |s|
  {
    if |s| > 0 {
      var init := s[..|s| - 1];
      UniqueIdsCount(init);
      assert SuggestionIds(s) == SuggestionIds(init) + {s[|s| - 1].id};
      assert s[|s| - 1].id !in SuggestionIds(init);
    }
  }

}
