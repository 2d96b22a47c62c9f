/**
  The search dialog of the Polaris documentation site. Search results come
  back grouped by category; the dialog lists them group after group, keeps a
  cursor on one of them that the arrow keys move, and on Enter closes and
  navigates to the result under the cursor. Each rendered result learns from
  a context whether it is the one under the cursor.
*/
module GlobalSearch {
  import opened Wrappers

  /** One search hit. Its `meta` payload only feeds the rendering of the
      result and is not modelled. */
  datatype SearchResult = SearchResult(id: string, url: string)

  /** The results of one category (components, foundations, tokens, icons). */
  datatype ResultGroup = ResultGroup(category: string, results: seq<SearchResult>)

  // ---------------------------------------------------------------------
  // The results in rendered order

  /** The results of every group, group after group: what the `forEach`
      loop over the groups builds up, one group appended per iteration. */
  function Flatten(groups: seq<ResultGroup>): seq<SearchResult> {
    if groups == [] then []
    else Flatten(groups[..|groups| - 1]) + groups[|groups| - 1].results
  }

  /** The number of results, summed group by group from the front. */
  function TotalCount(groups: seq<ResultGroup>): nat {
    if groups == [] then 0 else |groups[0].results| + TotalCount(groups[1..])
  }

  /** Flattening respects concatenation of the group list. */
  lemma {:induction false} FlattenAppend(a: seq<ResultGroup>, b: seq<ResultGroup>)
    ensures Flatten(a + b) == Flatten(a) + Flatten(b)
  {
    if b == [] {
      assert a + b == a;
    } else {
      var front, last := b[..|b| - 1], b[|b| - 1];
      assert (a + b)[..|a + b| - 1] == a + front;
      assert (a + b)[|a + b| - 1] == last;
      assert Flatten(a + b) == Flatten(a + front) + last.results;
      FlattenAppend(a, front);
      assert Flatten(b) == Flatten(front) + last.results;
    }
  }

  /** The result count is the sum of the group lengths. */
  lemma {:induction false} FlattenLength(groups: seq<ResultGroup>)
    ensures |Flatten(groups)| == TotalCount(groups)
  {
    if groups != [] {
      assert groups == [groups[0]] + groups[1..];
      FlattenAppend([groups[0]], groups[1..]);
      assert [groups[0]][..0] == [];
      FlattenLength(groups[1..]);
    }
  }

  /** A result is listed exactly when some group holds it. */
  lemma {:induction false} FlattenMembership(groups: seq<ResultGroup>, r: SearchResult)
    ensures r in Flatten(groups) <==> exists i :: 0 <= i < |groups| && r in groups[i].results
  {
    if groups != [] {
      var front := groups[..|groups| - 1];
      FlattenMembership(front, r);
      if r in Flatten(groups) && r !in groups[|groups| - 1].results {
        var i :| 0 <= i < |front| && r in front[i].results;
        assert groups[i] == front[i];
      }
      if exists i :: 0 <= i < |groups| && r in groups[i].results {
        var i :| 0 <= i < |groups| && r in groups[i].results;
        if i < |front| {
          assert front[i] == groups[i];
        }
      }
    }
  }

  /** Result `k` of group `i` sits in the list after all the results of the
      groups before it: groups keep their order and each keeps its own. */
  lemma FlattenPosition(groups: seq<ResultGroup>, i: nat, k: nat)
    requires i < |groups| && k < |groups[i].results|
    ensures TotalCount(groups[..i]) + k < |Flatten(groups)|
    ensures Flatten(groups)[TotalCount(groups[..i]) + k] == groups[i].results[k]
  {
    var before, rest := groups[..i], groups[i..];
    assert groups == before + rest;
    FlattenAppend(before, rest);
    FlattenLength(before);
    FlattenFirstGroup(rest);
    assert rest[0] == groups[i];
  }

  /** The list starts with the results of the first group. */
  lemma FlattenFirstGroup(groups: seq<ResultGroup>)
    requires groups != []
    ensures Flatten(groups) == groups[0].results + Flatten(groups[1..])
  {
    assert groups == [groups[0]] + groups[1..];
    FlattenAppend([groups[0]], groups[1..]);
    assert [groups[0]][..0] == [];
  }

  // ---------------------------------------------------------------------
  // The cursor

  const ArrowDown := "ArrowDown"
  const ArrowUp := "ArrowUp"
  const Enter := "Enter"

  /** The cursor lies in `[0, max(count - 1, 0)]`: on a result, or at 0 when
      there are none. */
  predicate InRange(index: int, count: int) {
    0 <= index <= Max(count - 1, 0)
  }

  function Min(a: int, b: int): int { if a <= b then a else b }
  function Max(a: int, b: int): int { if a <= b then b else a }

  /** The cursor after the key with the given `code`, over `count` results. */
  function StepIndex(code: string, index: int, count: int): (next: int)
    ensures InRange(index, count) ==> InRange(next, count)
    ensures -1 <= next - index <= 1
    ensures code != ArrowDown && code != ArrowUp ==> next == index
  {
    if code == ArrowDown then (if index < count - 1 then index + 1 else index)
    else if code == ArrowUp then (if index > 0 then index - 1 else index)
    else index
  }

  /** The cursor after a sequence of keys. */
  function Replay(codes: seq<string>, index: int, count: int): int {
    if codes == [] then index else Replay(codes[1..], StepIndex(codes[0], index, count), count)
  }

  /** Whatever keys are pressed, a cursor that starts in range, as it does at
      0, stays in range. */
  lemma {:induction false} ReplayKeepsInRange(codes: seq<string>, index: int, count: int)
    requires InRange(index, count)
    ensures InRange(Replay(codes, index, count), count)
  {
    if codes != [] {
      ReplayKeepsInRange(codes[1..], StepIndex(codes[0], index, count), count);
    }
  }

  /** `n` presses of the same key. */
  function Presses(code: string, n: nat): (codes: seq<string>)
    ensures |codes| == n && forall j :: 0 <= j < n ==> codes[j] == code
  {
    if n == 0 then [] else [code] + Presses(code, n - 1)
  }

  /** ArrowDown walks down one result per press and stops on the last one. */
  lemma {:induction false} ArrowDownStopsAtLast(n: nat, index: int, count: int)
    requires InRange(index, count)
    ensures Replay(Presses(ArrowDown, n), index, count) == Min(index + n, Max(count - 1, 0))
  {
    if n > 0 {
      var next := StepIndex(ArrowDown, index, count);
      assert Presses(ArrowDown, n)[1..] == Presses(ArrowDown, n - 1);
      ArrowDownStopsAtLast(n - 1, next, count);
    }
  }

  /** ArrowUp walks up one result per press and stops on the first one. */
  lemma {:induction false} ArrowUpStopsAtFirst(n: nat, index: int, count: int)
    requires InRange(index, count)
    ensures Replay(Presses(ArrowUp, n), index, count) == Max(index - n, 0)
  {
    if n > 0 {
      var next := StepIndex(ArrowUp, index, count);
      assert Presses(ArrowUp, n)[1..] == Presses(ArrowUp, n - 1);
      ArrowUpStopsAtFirst(n - 1, next, count);
    }
  }

  /** ArrowUp undoes an ArrowDown that moved, and ArrowDown undoes an ArrowUp
      that moved. */
  lemma ArrowKeysUndoEachOther(index: int, count: int)
    requires InRange(index, count)
    ensures StepIndex(ArrowDown, index, count) != index ==>
              StepIndex(ArrowUp, StepIndex(ArrowDown, index, count), count) == index
    ensures StepIndex(ArrowUp, index, count) != index ==>
              StepIndex(ArrowDown, StepIndex(ArrowUp, index, count), count) == index
  {
  }

  // ---------------------------------------------------------------------
  // The current item and the attributes of each result

  /** The id of the result under the cursor, or `''` when the cursor is off
      the list. An empty id also reads as `''`, which is the same value. */
  function CurrentItemId(flat: seq<SearchResult>, index: int): (id: string)
    ensures 0 <= index < |flat| ==> id == flat[index].id
    ensures !(0 <= index < |flat|) ==> id == ""
  {
    if 0 <= index < |flat| && flat[index].id != "" then flat[index].id else ""
  }

  /** What a rendered result reads from its context: its own id and the id
      of the current item. The default context has both empty. */
  datatype SearchContext = SearchContext(id: string, currentItemId: string)

  const DefaultContext := SearchContext("", "")

  /** The attributes a result spreads onto its element. */
  datatype ResultAttributes = ResultAttributes(
    id: string,
    isGlobalSearchResult: bool,   // data-is-global-search-result
    isCurrentResult: bool,        // data-is-current-result
    tabIndex: int)

  /** Nothing outside a result's context (empty id); otherwise the result's
      attributes, marked current exactly when its id is the current item's. */
  function UseGlobalSearchResult(context: SearchContext): (attrs: Option<ResultAttributes>)
    ensures attrs.None? <==> context.id == ""
    ensures attrs.Some? ==>
      attrs.value.id == context.id && attrs.value.isGlobalSearchResult && attrs.value.tabIndex == -1 &&
      (attrs.value.isCurrentResult <==> context.currentItemId == context.id)
  {
    if context.id == "" then None
    else Some(ResultAttributes(context.id, true, context.currentItemId == context.id, -1))
  }

  /** A result rendered outside any provider reads the default context and
      gets no attributes. */
  lemma DefaultContextYieldsNothing()
    ensures UseGlobalSearchResult(DefaultContext) == None
  {
  }

  /** The context every listed result is rendered in. */
  function ResultContext(flat: seq<SearchResult>, index: int, j: nat): SearchContext
    requires j < |flat|
  {
    SearchContext(flat[j].id, CurrentItemId(flat, index))
  }

  predicate IdsDistinctAndNonEmpty(flat: seq<SearchResult>) {
    (forall j :: 0 <= j < |flat| ==> flat[j].id != "") &&
    (forall j, k :: 0 <= j < k < |flat| ==> flat[j].id != flat[k].id)
  }

  /** With distinct non-empty ids, the result under the cursor is the only
      one marked current, and none is marked when the cursor is off the list. */
  lemma ExactlyOneCurrentResult(flat: seq<SearchResult>, index: int, j: nat)
    requires IdsDistinctAndNonEmpty(flat) && j < |flat|
    ensures UseGlobalSearchResult(ResultContext(flat, index, j)).Some?
    ensures UseGlobalSearchResult(ResultContext(flat, index, j)).value.isCurrentResult <==> j == index
  {
    if 0 <= index < |flat| && j != index {
      assert flat[j].id != flat[index].id by {
        if j < index {} else {}
      }
    }
  }

  // ---------------------------------------------------------------------
  // The dialog's state

  /** The state of the dialog. `navigations` records, oldest first, the URLs
      handed to the router. */
  class SearchDialog {
    var searchResults: seq<ResultGroup>
    var isOpen: bool
    var currentResultIndex: int
    var navigations: seq<string>

    /** The cursor is on a listed result, or at 0 when there are none. */
    ghost predicate Valid()
      reads this
    {
      InRange(currentResultIndex, |Flatten(searchResults)|)
    }

    /** Closed, no results, cursor at 0. */
    constructor()
      ensures searchResults == [] && !isOpen && currentResultIndex == 0 && navigations == []
      ensures Valid()
    {
      searchResults := [];
      isOpen := false;
      currentResultIndex := 0;
      navigations := [];
    }

    /** The results in the order they are rendered. */
    method ResultsInRenderedOrder() returns (flat: seq<SearchResult>)
      ensures flat == Flatten(searchResults)
    {
      flat := [];
      var i := 0;
      while i < |searchResults|
        invariant 0 <= i <= |searchResults|
        invariant flat == Flatten(searchResults[..i])
      {
        assert searchResults[..i + 1][..i] == searchResults[..i];
        flat := flat + searchResults[i].results;
        i := i + 1;
      }
      assert searchResults[..i] == searchResults;
    }

    /** The number of results over all groups. */
    method SearchResultsCount() returns (count: nat)
      ensures count == TotalCount(searchResults)
    {
      var flat := ResultsInRenderedOrder();
      FlattenLength(searchResults);
      count := |flat|;
    }

    /** A new search starts: the cursor goes back to the first result. */
    method StartSearch()
      modifies this
      ensures currentResultIndex == 0
      ensures searchResults == old(searchResults) && isOpen == old(isOpen) && navigations == old(navigations)
      ensures Valid()
    {
      currentResultIndex := 0;
    }

    /** The response to a search arrives: its groups replace the results and
        the cursor goes back to the first of them. */
    method ShowResults(results: seq<ResultGroup>)
      modifies this
      ensures searchResults == results && currentResultIndex == 0
      ensures isOpen == old(isOpen) && navigations == old(navigations)
      ensures Valid()
    {
      searchResults := results;
      currentResultIndex := 0;
    }

    /** The response to a search arrives and its groups replace the results,
        while the cursor stays where the keys left it. */
    method ShowResultsKeepingCursor(results: seq<ResultGroup>)
      modifies this
      ensures searchResults == results
      ensures currentResultIndex == old(currentResultIndex) && isOpen == old(isOpen) && navigations == old(navigations)
    {
      searchResults := results;
    }

    /** A key released in the dialog. ArrowDown and ArrowUp move the cursor
        within the list and report whether they moved it (the default action
        is then prevented); Enter on a non-empty list closes the dialog and
        navigates to the result under the cursor, which must then be on the
        list (off it, reading the result's URL throws); other keys do
        nothing. */
    method HandleKeyboardNavigation(code: string) returns (defaultPrevented: bool)
      modifies this
      requires code == Enter && Flatten(searchResults) != [] ==> 0 <= currentResultIndex < |Flatten(searchResults)|
      ensures old(Valid()) ==> Valid()
      ensures searchResults == old(searchResults)
      ensures currentResultIndex == StepIndex(code, old(currentResultIndex), |Flatten(searchResults)|)
      ensures defaultPrevented <==> currentResultIndex != old(currentResultIndex)
      ensures code == Enter && |Flatten(searchResults)| > 0 ==>
                !isOpen && navigations == old(navigations) + [Flatten(searchResults)[currentResultIndex].url]
      ensures !(code == Enter && |Flatten(searchResults)| > 0) ==>
                isOpen == old(isOpen) && navigations == old(navigations)
    {
      var flat := ResultsInRenderedOrder();
      var n := SearchResultsCount();
      var count: int := n;
      FlattenLength(searchResults);
      defaultPrevented := false;
      if code == ArrowDown {
        if currentResultIndex < count - 1 {
          currentResultIndex := currentResultIndex + 1;
          defaultPrevented := true;
        }
      } else if code == ArrowUp {
        if currentResultIndex > 0 {
          currentResultIndex := currentResultIndex - 1;
          defaultPrevented := true;
        }
      } else if code == Enter {
        if |flat| > 0 {
          isOpen := false;
          var url := flat[currentResultIndex].url;
          navigations := navigations + [url];
        }
      }
    }
  }

  // ---------------------------------------------------------------------
  // A slow response leaves the cursor past the end of the list

  /** Four results from a first search, two from the next. */
  const FirstResults := [ResultGroup("components", [SearchResult("a", "/a"), SearchResult("b", "/b"),
                                                    SearchResult("c", "/c"), SearchResult("d", "/d")])]
  const NextResults := [ResultGroup("components", [SearchResult("e", "/e"), SearchResult("f", "/f")])]

  /** The first search has shown four results; the next search starts and
      resets the cursor; before its response arrives ArrowDown is pressed
      three times over the four results still shown; then the two new results
      arrive and the cursor is left on position 3 of a two-result list, which
      the cursor invariant forbids and which Enter would read past the end of. */
  method SlowResponseScenario() returns (d: SearchDialog)
    ensures TotalCount(d.searchResults) == 2 && d.currentResultIndex == 3
    ensures !d.Valid()
  {
    d := new SearchDialog();
    d.ShowResultsKeepingCursor(FirstResults);
    FlattenLength(FirstResults);
    assert TotalCount(FirstResults) == 4;
    d.StartSearch();
    var _ := d.HandleKeyboardNavigation(ArrowDown);
    var _ := d.HandleKeyboardNavigation(ArrowDown);
    var _ := d.HandleKeyboardNavigation(ArrowDown);
    assert TotalCount(NextResults) == 2;
    d.ShowResultsKeepingCursor(NextResults);
  }

  /** After the slow response the arrow keys still act on the stranded
      cursor (ArrowUp moves it from 3 to 2, still past the end), and typing
      again starts a new search that brings it back to the first result. */
  method RecoveryAfterSlowResponse() returns (d: SearchDialog)
    ensures TotalCount(d.searchResults) == 2 && d.currentResultIndex == 0
    ensures d.Valid()
  {
    d := new SearchDialog();
    d.ShowResultsKeepingCursor(FirstResults);
    FlattenLength(FirstResults);
    assert TotalCount(FirstResults) == 4;
    d.StartSearch();
    var _ := d.HandleKeyboardNavigation(ArrowDown);
    var _ := d.HandleKeyboardNavigation(ArrowDown);
    var _ := d.HandleKeyboardNavigation(ArrowDown);
    assert TotalCount(NextResults) == 2;
    d.ShowResultsKeepingCursor(NextResults);
    var moved := d.HandleKeyboardNavigation(ArrowUp);
    assert moved && d.currentResultIndex == 2;
    d.StartSearch();
  }

  /** With the cursor reset when the response is shown, the same presses
      leave the cursor on the last of the two new results, and Enter
      navigates to it. */
  method ResetOnResponseScenario() returns (d: SearchDialog)
    ensures TotalCount(d.searchResults) == 2 && d.currentResultIndex == 1
    ensures d.Valid() && !d.isOpen && d.navigations == ["/f"]
  {
    d := new SearchDialog();
    d.ShowResults(FirstResults);
    d.StartSearch();
    var _ := d.HandleKeyboardNavigation(ArrowDown);
    var _ := d.HandleKeyboardNavigation(ArrowDown);
    var _ := d.HandleKeyboardNavigation(ArrowDown);
    d.ShowResults(NextResults);
    assert TotalCount(NextResults) == 2;
    var _ := d.HandleKeyboardNavigation(ArrowDown);
    var _ := d.HandleKeyboardNavigation(ArrowDown);
    var _ := d.HandleKeyboardNavigation(Enter);
    assert Flatten(NextResults) == NextResults[0].results;
  }
}
