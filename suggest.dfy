/** lib/NextNoteSuggestModal.ts: the suggestion modal.  Its `options` and
    `onSelect` are fixed at construction, so it is a value here; the callback
    is a function whose result stands for what the callback does. */
module Suggest {
  import opened Wrappers
  import opened Text
  import opened Notes

  /** The filter's test: the lowercased basename includes the lowercased query. */
  predicate Matches(file: Note, query: string) {
    Contains(Lower(file.basename), Lower(query))
  }

  /** `a` is `b` with some elements left out, the rest in their order. */
  predicate IsSubsequence<T(==)>(a: seq<T>, b: seq<T>)
    decreases |b|
  {
    a == [] || (b != [] && ((a[0] == b[0] && IsSubsequence(a[1..], b[1..])) || IsSubsequence(a, b[1..])))
  }

  /** `options.filter(file => Matches(file, query))`: the result holds
      exactly the options that match.  That it keeps their order and their
      multiplicities is `FilterKeepsOrder` and `FilterCounts`. */
  function Filter(options: seq<Note>, query: string): (r: seq<Note>)
    ensures |r| <= |options|
    ensures forall f :: f in r <==> f in options && Matches(f, query)
  {
    if options == [] then []
    else
      var rest := Filter(options[1..], query);
      assert options == [options[0]] + options[1..];
      if Matches(options[0], query) then [options[0]] + rest else rest
  }

  /** The filtered options appear in the order they have in `options`. */
  lemma {:induction false} FilterKeepsOrder(options: seq<Note>, query: string)
    ensures IsSubsequence(Filter(options, query), options)
    decreases |options|
  {
    if options != [] {
      FilterKeepsOrder(options[1..], query);
      var rest := Filter(options[1..], query);
      if Matches(options[0], query) {
        assert ([options[0]] + rest)[1..] == rest;
      }
    }
  }

  /** Each matching option is kept as often as it occurs, any other not at all. */
  lemma {:induction false} FilterCounts(options: seq<Note>, query: string)
    ensures forall f :: multiset(Filter(options, query))[f] == if Matches(f, query) then multiset(options)[f] else 0
    decreases |options|
  {
    if options != [] {
      FilterCounts(options[1..], query);
      assert options == [options[0]] + options[1..];
      assert multiset(options) == multiset([options[0]]) + multiset(options[1..]);
    }
  }

  datatype NextNoteSuggestModal<A> = NextNoteSuggestModal(options: seq<Note>, onSelect: Note -> A) {

    /** The options the query selects: exactly those whose basename contains
        the query ignoring case, each as often as in `options`, in order. */
    function GetSuggestions(query: string): (r: seq<Note>)
      ensures |r| <= |options|
      ensures IsSubsequence(r, options)
      ensures forall f :: f in r <==> f in options && Matches(f, query)
      ensures forall f :: multiset(r)[f] == if Matches(f, query) then multiset(options)[f] else 0
    {
      FilterKeepsOrder(options, query);
      FilterCounts(options, query);
      Filter(options, query)
    }

    /** Choosing a suggestion hands that very file to `onSelect`. */
    function OnChooseSuggestion(file: Note): (r: A)
      ensures r == onSelect(file)
    {
      onSelect(file)
    }
  }

  /** The empty query keeps every option. */
  lemma {:induction false} FilterEmptyQuery(options: seq<Note>)
    ensures Filter(options, "") == options
  {
    if options != [] {
      assert Lower("") == "";
      assert Matches(options[0], "");
      FilterEmptyQuery(options[1..]);
    }
  }

  /** An empty query suggests all options, unchanged. */
  lemma EmptyQuerySuggestsAll<A>(modal: NextNoteSuggestModal<A>)
    ensures modal.GetSuggestions("") == modal.options
  {
    FilterEmptyQuery(modal.options);
  }

  /** The filter depends on the query only through its lowercase form. */
  lemma {:induction false} FilterByLowerQuery(options: seq<Note>, q1: string, q2: string)
    requires Lower(q1) == Lower(q2)
    ensures Filter(options, q1) == Filter(options, q2)
  {
    if options != [] {
      FilterByLowerQuery(options[1..], q1, q2);
    }
  }

  /** Queries that differ only in letter case give the same suggestions. */
  lemma CaseInsensitiveQuery<A>(modal: NextNoteSuggestModal<A>, q1: string, q2: string)
    requires SameIgnoringCase(q1, q2)
    ensures modal.GetSuggestions(q1) == modal.GetSuggestions(q2)
  {
    assert Lower(q1) == Lower(q2);
    FilterByLowerQuery(modal.options, q1, q2);
  }

  /** Whatever the user picks from the suggestions of any query is one of the
      modal's options, and it is what `onSelect` receives. */
  lemma PickedSuggestionIsOption<A>(modal: NextNoteSuggestModal<A>, query: string, k: nat)
    requires k < |modal.GetSuggestions(query)|
    ensures var f := modal.GetSuggestions(query)[k];
      f in modal.options && Matches(f, query) && modal.OnChooseSuggestion(f) == modal.onSelect(f)
  {
    var f := modal.GetSuggestions(query)[k];
    assert f in modal.GetSuggestions(query);
  }

  /** What the user does in an open modal: type `query`, then choose the
      suggestion at position `index` of the list shown. */
  datatype Pick = Pick(query: string, index: nat)

  /** The `k`-th option, counting from 0, among those the query selects:
      None when the query selects `k` options or fewer. */
  function PickAmong(options: seq<Note>, query: string, k: nat): (r: Option<Note>)
    ensures r.Some? ==> r.value in options && Matches(r.value, query)
    decreases |options|
  {
    if options == [] then None
    else if Matches(options[0], query) then
      if k == 0 then Some(options[0]) else PickAmong(options[1..], query, k - 1)
    else PickAmong(options[1..], query, k)
  }

  /** The pick is the suggestion at its position in the list the query shows. */
  lemma {:induction false} PickAmongIsSuggestion(options: seq<Note>, query: string, k: nat)
    ensures PickAmong(options, query, k) ==
      if k < |Filter(options, query)| then Some(Filter(options, query)[k]) else None
    decreases |options|
  {
    if options != [] {
      if !Matches(options[0], query) {
        PickAmongIsSuggestion(options[1..], query, k);
      } else if k > 0 {
        PickAmongIsSuggestion(options[1..], query, k - 1);
      }
      FilterStep(options, query, k);
    }
  }

  /** How the filter's `k`-th item relates to the filter of the tail. */
  lemma FilterStep(options: seq<Note>, query: string, k: nat)
    requires options != []
    ensures var shown := Filter(options, query);
      var rest := Filter(options[1..], query);
      if Matches(options[0], query) then
        (k == 0 ==> |shown| > 0 && shown[0] == options[0]) &&
        (k > 0 ==> (k < |shown| <==> k - 1 < |rest|) && (k < |shown| ==> shown[k] == rest[k - 1]))
      else shown == rest
  {
  }

  /** The note a suggestion modal over `options` passes on for the user's
      answer; None when the modal is closed without a choice, which a pick
      beyond the suggestions shown also amounts to.  The chosen note is
      always one of the options. */
  function Chosen(options: seq<Note>, answer: Option<Pick>): (r: Option<Note>)
    ensures r.Some? ==> answer.Some? && r.value in options && Matches(r.value, answer.value.query)
  {
    match answer
    case None => None
    case Some(p) => PickAmong(options, p.query, p.index)
  }

  /** A choice is what the modal does: `onChooseSuggestion` on the picked
      item of `getSuggestions(query)`, with a callback that passes the file
      on (as `resolve` and `openFile` do).  A pick beyond the suggestions
      shown chooses nothing. */
  lemma ChosenByModal(options: seq<Note>, p: Pick)
    ensures var modal := NextNoteSuggestModal(options, (f: Note) => f);
      var shown := modal.GetSuggestions(p.query);
      Chosen(options, Some(p)) ==
        if p.index < |shown| then Some(modal.OnChooseSuggestion(shown[p.index])) else None
  {
    PickAmongIsSuggestion(options, p.query, p.index);
  }

  /** Every option can be chosen: with the empty query, the pick at `k` is
      the `k`-th option. */
  lemma EveryOptionChoosable(options: seq<Note>, k: nat)
    requires k < |options|
    ensures Chosen(options, Some(Pick("", k))) == Some(options[k])
  {
    FilterEmptyQuery(options);
    PickAmongIsSuggestion(options, "", k);
  }
}
