/**
 * The two comboboxes of the search panel: committee numbers (the whole list
 * fetched once) and committee heads (fetched for each debounced query). Both
 * filter the list they hold by a case-insensitive substring test and toggle
 * the selected value.
 */
module Combobox {
  import opened Wrappers
  import opened Text

  /** The case-insensitive test of `filtered`: the lower-cased item contains the lower-cased
    * query. */
  predicate MatchesQuery(item: string, query: string) {
    Contains(ToLower(item), ToLower(query))
  }

  /** `filtered`: the items matching the query, in their order. */
  function Filtered(items: seq<string>, query: string): (r: seq<string>)
    ensures |r| <= |items|
    ensures forall x :: x in r <==> x in items && MatchesQuery(x, query)
  {
    if items == [] then []
    else (if MatchesQuery(items[0], query) then [items[0]] else []) + Filtered(items[1..], query)
  }

  /** Every string contains the empty one. */
  lemma ContainsEmpty(s: string)
    ensures Contains(s, "")
  {
    assert StartsWith(s, "");
  }

  /** An empty query shows the whole list, in order. */
  lemma {:induction false} EmptyQueryShowsAll(items: seq<string>)
    ensures Filtered(items, "") == items
  {
    if items != [] {
      ContainsEmpty(ToLower(items[0]));
      assert ToLower("") == "";
      EmptyQueryShowsAll(items[1..]);
    }
  }

  /** Filtering what is already filtered changes nothing. */
  lemma {:induction false} FilteredIdempotent(items: seq<string>, query: string)
    ensures Filtered(Filtered(items, query), query) == Filtered(items, query)
  {
    if items != [] {
      FilteredIdempotent(items[1..], query);
      if MatchesQuery(items[0], query) {
        var f := Filtered(items, query);
        assert f == [items[0]] + Filtered(items[1..], query);
        assert f[0] == items[0] && f[1..] == Filtered(items[1..], query);
        assert Filtered(f, query) == [items[0]] + Filtered(Filtered(items[1..], query), query);
      } else {
        assert [] + Filtered(items[1..], query) == Filtered(items[1..], query);
        assert Filtered(items, query) == Filtered(items[1..], query);
      }
    }
  }

  /** `handleSelect`: choosing the current value clears it; any other choice becomes the value. */
  function Select(value: Option<string>, selected: string): (r: string)
    ensures r == "" <==> value == Some(selected) || selected == ""
    ensures r != "" ==> r == selected
  {
    if value == Some(selected) then "" else selected
  }

  /** Choosing the same item twice from no selection leaves nothing selected. */
  lemma SelectTwiceClears(selected: string)
    ensures Select(Some(Select(None, selected)), selected) == ""
  {
  }

  /** What the committee-head fetch came to: an abort (the query changed meanwhile), a non-OK
    * status or another failure, or a JSON body whose list may not be an array (None) and
    * whose count may be missing (None). */
  datatype HeadsOutcome = Aborted | NotOk | Thrown | HeadsBody(list: Option<seq<string>>, count: Option<int>)

  /** `CommitteeBossNameComoboxComponent`. */
  class HeadsCombobox {
    var names: seq<string>
    var totalCount: int
    var isLoading: bool
    var open: bool

    constructor()
      ensures names == [] && totalCount == 0 && !isLoading && !open
    {
      names, totalCount := [], 0;
      isLoading, open := false, false;
    }

    /** The fetch effect for one debounced query. An empty query clears the list without a
      * request; an abort leaves the list alone; any other failure clears it; a body replaces
      * it, a non-array list counting as empty and a missing count as 0. */
    method FetchEffect(debouncedQuery: string, outcome: HeadsOutcome)
      modifies this
      ensures open == old(open)
      ensures debouncedQuery == "" ==> names == [] && totalCount == 0 && isLoading == old(isLoading)
      ensures debouncedQuery != "" ==> !isLoading
      ensures debouncedQuery != "" && outcome.Aborted? ==> names == old(names) && totalCount == old(totalCount)
      ensures debouncedQuery != "" && (outcome.NotOk? || outcome.Thrown?) ==> names == [] && totalCount == 0
      ensures debouncedQuery != "" && outcome.HeadsBody? ==>
                names == outcome.list.GetOr([]) && totalCount == outcome.count.GetOr(0)
    {
      if debouncedQuery == "" {
        names, totalCount := [], 0;
        return;
      }
      isLoading := true;
      match outcome {
        case HeadsBody(list, count) =>
          names := if list.Some? then list.value else [];
          totalCount := if count.Some? && count.value != 0 then count.value else 0;
        case Aborted =>
        case _ =>
          names, totalCount := [], 0;
      }
      isLoading := false;
    }

    /** `handleSelect`: hands the toggled value to the parent and closes the popover. */
    method HandleSelect(value: Option<string>, selected: string) returns (change: string)
      modifies this
      ensures change == Select(value, selected) && !open
      ensures names == old(names) && totalCount == old(totalCount) && isLoading == old(isLoading)
    {
      change := if value == Some(selected) then "" else selected;
      open := false;
    }
  }

  /** What the committee-number fetch came to: a failure (network or JSON), or a body. No
    * status check is made, so an error body is read like any other. */
  datatype NumbersOutcome = NumbersFailed | NumbersBody(list: Option<seq<string>>, count: Option<int>)

  /** `CommitteeNoComboboxComponent`. */
  class NumbersCombobox {
    var numbers: seq<string>
    var totalCount: int
    var isLoading: bool
    var open: bool

    constructor()
      ensures numbers == [] && totalCount == 0 && !isLoading && !open
    {
      numbers, totalCount := [], 0;
      isLoading, open := false, false;
    }

    /** The fetch effect: a failure gives an empty list and count 0; a body replaces both, with
      * the same defaults. Loading is off afterwards. */
    method FetchEffect(outcome: NumbersOutcome)
      modifies this
      ensures !isLoading && open == old(open)
      ensures outcome.NumbersFailed? ==> numbers == [] && totalCount == 0
      ensures outcome.NumbersBody? ==> numbers == outcome.list.GetOr([]) && totalCount == outcome.count.GetOr(0)
    {
      isLoading := true;
      match outcome {
        case NumbersBody(list, count) =>
          numbers := if list.Some? then list.value else [];
          totalCount := if count.Some? && count.value != 0 then count.value else 0;
        case NumbersFailed =>
          numbers, totalCount := [], 0;
      }
      isLoading := false;
    }

    /** `handleSelect`. */
    method HandleSelect(value: Option<string>, selected: string) returns (change: string)
      modifies this
      ensures change == Select(value, selected) && !open
      ensures numbers == old(numbers) && totalCount == old(totalCount) && isLoading == old(isLoading)
    {
      change := if value == Some(selected) then "" else selected;
      open := false;
    }
  }
}
