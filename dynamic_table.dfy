/**
 * The generic table with pagination: cell formatting (word truncation, the
 * status colour, the late-days colour), the column list and widths, and the
 * row of page buttons with ellipses around a window of at most five pages.
 */
module DynamicTable {
  import opened Wrappers
  import opened Text

  // ---------------------------------------------------------------------------
  // Cell formatting

  /** `truncateText`: the empty text stays empty; a text of at most `maxWords` space-separated
    * words is kept whole; a longer one shows a proper prefix of itself, its first `maxWords`
    * words, followed by "...". */
  function TruncateText(text: string, maxWords: nat): (r: string)
    ensures text == "" ==> r == ""
    ensures |Split(text, ' ')| <= maxWords ==> r == text
    ensures text != "" && |Split(text, ' ')| > maxWords ==>
              exists n :: 0 <= n < |text| && r == text[..n] + "..."
    ensures text != "" && |Split(text, ' ')| > maxWords ==>
              r == Join(Split(text, ' ')[..maxWords], " ") + "..."
  {
    if text == "" then ""
    else
      var words := Split(text, ' ');
      if |words| <= maxWords then text
      else
        JoinSplit(text, ' ');
        JoinPrefix(words, maxWords, " ");
        var shown := Join(words[..maxWords], " ");
        assert shown == text[..|shown|];
        shown + "..."
  }

  /** The first `k` words, joined, are a prefix of all of them joined, and a shorter one when
    * a word is left out after a kept one. */
  lemma {:induction false} JoinPrefix(words: seq<string>, k: nat, sep: string)
    requires k <= |words| && |sep| > 0
    ensures |Join(words[..k], sep)| <= |Join(words, sep)|
    ensures Join(words[..k], sep) == Join(words, sep)[..|Join(words[..k], sep)|]
    ensures 0 < k < |words| ==> |Join(words[..k], sep)| < |Join(words, sep)|
  {
    if k == 0 {
    } else if k == |words| {
      assert words[..k] == words;
    } else if k == 1 {
      assert words[..1] == [words[0]];
    } else {
      JoinPrefix(words[1..], k - 1, sep);
      assert words[..k][1..] == words[1..][..k - 1];
    }
  }

  /** Two words with a limit of one show the first word and the ellipsis. */
  lemma TruncateTwoWords()
    ensures TruncateText("a b", 1) == "a..."
  {
    assert Split("a b", ' ') == ["a", "b"] by {
      assert IndexOf("a b", ' ') == 1;
      assert "a b"[2..] == "b";
      assert "a b"[..1] == "a";
    }
    assert ["a", "b"][..1] == ["a"];
  }

  const TruncatedFields: seq<string> := ["notes", "directoryName", "subject", "bookAction"]

  predicate ShouldTruncate(key: string) { key in TruncatedFields }

  const Done := "منجز"
  const InProgress := "قيد الانجاز"
  const UnderReview := "مداولة"

  const GreenStatus := "bg-green-200 text-black text-lg font-extrabold"
  const RedStatus := "bg-red-200 text-black text-lg font-extrabold"
  const GrayStatus := "bg-gray-200 text-black text-lg font-extrabold"
  const DefaultStatus := "bg-gray-200 text-gray-700 text-lg font-extrabold"

  /** `getStatusBackgroundColor`: the status, trimmed and lower-cased (a missing one is ""),
    * picks one of three classes, and anything else the default. */
  function StatusClass(status: Option<string>): (r: string)
    ensures status.None? ==> r == DefaultStatus
    ensures status.Some? && ToLower(Trim(status.value)) == Done ==> r == GreenStatus
    ensures status.Some? && ToLower(Trim(status.value)) == InProgress ==> r == RedStatus
    ensures status.Some? && ToLower(Trim(status.value)) == UnderReview ==> r == GrayStatus
    ensures r == DefaultStatus <==>
              status.None? || ToLower(Trim(status.value)) !in {Done, InProgress, UnderReview}
  {
    var normalized := if status.Some? then ToLower(Trim(status.value)) else "";
    if normalized == Done then GreenStatus
    else if normalized == InProgress then RedStatus
    else if normalized == UnderReview then GrayStatus
    else DefaultStatus
  }

  /** Surrounding whitespace never changes the colour. */
  lemma StatusIgnoresPadding(s: string)
    ensures StatusClass(Some(s)) == StatusClass(Some(Trim(s)))
  {
    TrimIdempotent(s);
  }

  /** The late-days badge: red above three days, yellow above one, green otherwise; a value
    * that is not a number (NaN, None here) compares false both times and is green. */
  function LateDaysClass(days: Option<real>): (r: string)
    ensures r == "bg-red-400" <==> days.Some? && days.value > 3.0
    ensures r == "bg-yellow-200" <==> days.Some? && 1.0 < days.value <= 3.0
    ensures r == "bg-green-200" <==> days.None? || days.value <= 1.0
  {
    if days.Some? && days.value > 3.0 then "bg-red-400"
    else if days.Some? && days.value > 1.0 then "bg-yellow-200"
    else "bg-green-200"
  }

  // ---------------------------------------------------------------------------
  // Columns

  /** The width of a data column: the first matching rule wins. */
  function ColumnWidth(key: string): (w: int)
    ensures ShouldTruncate(key) ==> w == 200
    ensures !ShouldTruncate(key) && key in ["bookNo", "bookDate", "bookStatus", "incomingDate"] ==> w == 100
    ensures !ShouldTruncate(key) && key in ["username", "countOfLateBooks", "currentDate"] ==> w == 150
    ensures key == "bookType" ==> w == 70
    ensures (!ShouldTruncate(key) && key !in ["bookNo", "bookDate", "bookStatus", "incomingDate"]
             && key !in ["username", "countOfLateBooks", "currentDate", "bookType"]) ==> w == 120
    ensures w in {200, 100, 150, 70, 120}
  {
    if ShouldTruncate(key) then 200
    else if key in ["bookNo", "bookDate", "bookStatus", "incomingDate"] then 100
    else if key == "username" || key == "countOfLateBooks" then 150
    else if key == "currentDate" then 150
    else if key == "bookType" then 70
    else 120
  }

  datatype ColumnSpec = ColumnSpec(id: string, size: int)

  const ActionsColumn := ColumnSpec("actions", 120)

  function KeptKeys(keys: seq<string>, exclude: seq<string>): (r: seq<string>)
    ensures |r| <= |keys|
    ensures forall k :: k in r <==> k in keys && k !in exclude
  {
    if keys == [] then []
    else (if keys[0] !in exclude then [keys[0]] else []) + KeptKeys(keys[1..], exclude)
  }

  /** The columns: none for empty data; otherwise the first row's keys not excluded, in order,
    * each with its width, and then the actions column. */
  function Columns(firstRowKeys: Option<seq<string>>, exclude: seq<string>): (r: seq<ColumnSpec>)
    ensures firstRowKeys.None? <==> r == []
    ensures firstRowKeys.Some? ==>
              && |r| == |KeptKeys(firstRowKeys.value, exclude)| + 1
              && r[|r| - 1] == ActionsColumn
              && forall i :: 0 <= i < |r| - 1 ==>
                   r[i].id == KeptKeys(firstRowKeys.value, exclude)[i] && r[i].size == ColumnWidth(r[i].id)
  {
    if firstRowKeys.None? then []
    else
      var keys := KeptKeys(firstRowKeys.value, exclude);
      seq(|keys|, i requires 0 <= i < |keys| => ColumnSpec(keys[i], ColumnWidth(keys[i]))) + [ActionsColumn]
  }

  /** An excluded key never becomes a column. */
  lemma ExcludedNeverShown(keys: seq<string>, exclude: seq<string>, k: string)
    requires k in exclude
    ensures forall i :: 0 <= i < |Columns(Some(keys), exclude)| - 1 ==> Columns(Some(keys), exclude)[i].id != k
  {
    var kept := KeptKeys(keys, exclude);
    assert forall i :: 0 <= i < |kept| ==> kept[i] in kept;
  }

  // ---------------------------------------------------------------------------
  // Page buttons (`renderPagination`)

  datatype PageItem = PageButton(n: int, current: bool) | Ellipsis

  const MaxVisibleButtons := 5

  function Max(a: int, b: int): int { if a >= b then a else b }
  function Min(a: int, b: int): int { if a <= b then a else b }

  /** The last numbered button of the window. */
  function EndPage(page: int, totalPages: int): int {
    Min(totalPages, Max(1, page - MaxVisibleButtons / 2) + MaxVisibleButtons - 1)
  }

  /** The first numbered button: moved back when the window ran into the last page. */
  function StartPage(page: int, totalPages: int): int {
    var start := Max(1, page - MaxVisibleButtons / 2);
    var end := EndPage(page, totalPages);
    if end - start + 1 < MaxVisibleButtons then Max(1, end - MaxVisibleButtons + 1) else start
  }

  /** The numbered buttons from `a` to `b`. */
  function Buttons(a: int, b: int, page: int): (r: seq<PageItem>)
    decreases b - a
    ensures |r| == if a <= b then b - a + 1 else 0
    ensures forall i :: 0 <= i < |r| ==> r[i] == PageButton(a + i, a + i == page)
  {
    if b < a then [] else Buttons(a, b - 1, page) + [PageButton(b, b == page)]
  }

  function Leading(start: int, page: int): seq<PageItem> {
    if start > 1 then [PageButton(1, page == 1)] + (if start > 2 then [Ellipsis] else []) else []
  }

  function Trailing(end: int, totalPages: int, page: int): seq<PageItem> {
    if end < totalPages then (if end < totalPages - 1 then [Ellipsis] else []) + [PageButton(totalPages, totalPages == page)]
    else []
  }

  function PageItems(page: int, totalPages: int): seq<PageItem> {
    var start, end := StartPage(page, totalPages), EndPage(page, totalPages);
    Leading(start, page) + Buttons(start, end, page) + Trailing(end, totalPages, page)
  }

  /** `renderPagination`: the buttons pushed one by one, and the two navigation buttons'
    * disabled flags. */
  method RenderPagination(page: int, totalPages: int) returns (items: seq<PageItem>, prevDisabled: bool, nextDisabled: bool)
    ensures items == PageItems(page, totalPages)
    ensures prevDisabled <==> page == 1
    ensures nextDisabled <==> page == totalPages
  {
    var startPage, endPage := Window(page, totalPages);
    var lead := PushLeading(startPage, page);
    items := PushButtons(lead, startPage, endPage, page);
    items := PushTrailing(items, endPage, totalPages, page);
    prevDisabled := page == 1;
    nextDisabled := page == totalPages;
  }

  /** The window of numbered buttons: five pages around the current one, moved back when it
    * runs into the last page. */
  method Window(page: int, totalPages: int) returns (startPage: int, endPage: int)
    ensures startPage == StartPage(page, totalPages) && endPage == EndPage(page, totalPages)
  {
    startPage := Max(1, page - MaxVisibleButtons / 2);
    endPage := Min(totalPages, startPage + MaxVisibleButtons - 1);
    if endPage - startPage + 1 < MaxVisibleButtons {
      startPage := Max(1, endPage - MaxVisibleButtons + 1);
    }
  }

  /** The loop that pushes one numbered button per page of the window. */
  method PushButtons(before: seq<PageItem>, startPage: int, endPage: int, page: int) returns (items: seq<PageItem>)
    ensures items == before + Buttons(startPage, endPage, page)
  {
    items := before;
    var i := startPage;
    while i <= endPage
      invariant startPage <= i <= Max(startPage, endPage + 1)
      invariant items == before + Buttons(startPage, i - 1, page)
      decreases endPage - i
    {
      assert Buttons(startPage, i, page) == Buttons(startPage, i - 1, page) + [PageButton(i, i == page)];
      items := items + [PageButton(i, i == page)];
      i := i + 1;
    }
  }

  /** The first page and its ellipsis, pushed before the window. */
  method PushLeading(startPage: int, page: int) returns (items: seq<PageItem>)
    ensures items == Leading(startPage, page)
  {
    items := [];
    if startPage > 1 {
      items := items + [PageButton(1, 1 == page)];
      if startPage > 2 {
        items := items + [Ellipsis];
      }
    }
  }

  /** The ellipsis and the last page, pushed after the window. */
  method PushTrailing(before: seq<PageItem>, endPage: int, totalPages: int, page: int) returns (items: seq<PageItem>)
    ensures items == before + Trailing(endPage, totalPages, page)
  {
    items := before;
    if endPage < totalPages {
      if endPage < totalPages - 1 {
        items := items + [Ellipsis];
      }
      items := items + [PageButton(totalPages, totalPages == page)];
    }
  }

  /** For a page inside the range, the window holds the page, stays inside the range, and
    * numbers five pages, or all of them when there are fewer. */
  lemma WindowFacts(page: int, totalPages: int)
    requires 1 <= page <= totalPages
    ensures var s, e := StartPage(page, totalPages), EndPage(page, totalPages);
      && 1 <= s <= page <= e <= totalPages
      && e - s + 1 == Min(MaxVisibleButtons, totalPages)
  {
  }

  /** The page numbers shown, in order. */
  function Numbers(items: seq<PageItem>): (r: seq<int>)
    ensures |r| <= |items|
  {
    if items == [] then []
    else (if items[0].PageButton? then [items[0].n] else []) + Numbers(items[1..])
  }

  lemma {:induction false} NumbersAppend(a: seq<PageItem>, b: seq<PageItem>)
    ensures Numbers(a + b) == Numbers(a) + Numbers(b)
  {
    if a == [] {
      assert a + b == b;
    } else {
      var x: seq<int> := if a[0].PageButton? then [a[0].n] else [];
      assert (a + b)[0] == a[0] && (a + b)[1..] == a[1..] + b;
      assert Numbers(a + b) == x + Numbers(a[1..] + b);
      NumbersAppend(a[1..], b);
      assert x + (Numbers(a[1..]) + Numbers(b)) == (x + Numbers(a[1..])) + Numbers(b);
    }
  }

  lemma {:induction false} NumbersOfButtons(a: int, b: int, page: int)
    ensures Numbers(Buttons(a, b, page)) == seq(if a <= b then b - a + 1 else 0, i => a + i)
    decreases b - a
  {
    if a <= b {
      NumbersOfButtons(a, b - 1, page);
      NumbersAppend(Buttons(a, b - 1, page), [PageButton(b, b == page)]);
      assert Numbers([PageButton(b, b == page)]) == [b];
    }
  }

  lemma NumbersOfLeading(start: int, page: int)
    ensures Numbers(Leading(start, page)) == if start > 1 then [1] else []
  {
    if start > 1 {
      assert Numbers([PageButton(1, page == 1)]) == [1];
      if start > 2 {
        NumbersAppend([PageButton(1, page == 1)], [Ellipsis]);
        assert Numbers([Ellipsis]) == [];
      }
    }
  }

  lemma NumbersOfTrailing(end: int, totalPages: int, page: int)
    ensures Numbers(Trailing(end, totalPages, page)) == if end < totalPages then [totalPages] else []
  {
    if end < totalPages {
      assert Numbers([PageButton(totalPages, totalPages == page)]) == [totalPages];
      if end < totalPages - 1 {
        NumbersAppend([Ellipsis], [PageButton(totalPages, totalPages == page)]);
        assert Numbers([Ellipsis]) == [];
      }
    }
  }

  predicate Increasing(xs: seq<int>) {
    forall i, j :: 0 <= i < j < |xs| ==> xs[i] < xs[j]
  }

  /** The numbers the buttons show: page 1 if the window starts later, the window, and the
    * last page if the window ends earlier. */
  function WindowNumbers(s: int, e: int, totalPages: int): seq<int>
    requires s <= e
  {
    (if s > 1 then [1] else []) + seq(e - s + 1, i => s + i) + (if e < totalPages then [totalPages] else [])
  }

  lemma NumbersOfItems(page: int, totalPages: int)
    requires 1 <= page <= totalPages
    ensures StartPage(page, totalPages) <= EndPage(page, totalPages)
    ensures Numbers(PageItems(page, totalPages)) == WindowNumbers(StartPage(page, totalPages), EndPage(page, totalPages), totalPages)
  {
    var s, e := StartPage(page, totalPages), EndPage(page, totalPages);
    WindowFacts(page, totalPages);
    var lead, mid, tail := Leading(s, page), Buttons(s, e, page), Trailing(e, totalPages, page);
    NumbersAppend(lead + mid, tail);
    NumbersAppend(lead, mid);
    NumbersOfButtons(s, e, page);
    NumbersOfLeading(s, page);
    NumbersOfTrailing(e, totalPages, page);
  }

  /** The window's numbers rise strictly from 1 to the last page. */
  lemma WindowNumbersIncreasing(s: int, e: int, totalPages: int)
    requires 1 <= s <= e <= totalPages
    ensures var ns := WindowNumbers(s, e, totalPages);
      Increasing(ns) && ns[0] == 1 && ns[|ns| - 1] == totalPages
  {
    var ns := WindowNumbers(s, e, totalPages);
    var l := if s > 1 then 1 else 0;
    forall k | 0 <= k < |ns|
      ensures ns[k] == if k < l then 1 else if k < l + e - s + 1 then s + k - l else totalPages
    {
    }
  }

  /** For a page inside the range, the numbered buttons run strictly upward from page 1 to the
    * last page and include the current one: no page is offered twice and none is out of
    * range. */
  lemma PageNumbersIncreasing(page: int, totalPages: int)
    requires 1 <= page <= totalPages
    ensures var ns := Numbers(PageItems(page, totalPages));
      && Increasing(ns) && page in ns
      && ns[0] == 1 && ns[|ns| - 1] == totalPages
  {
    var s, e := StartPage(page, totalPages), EndPage(page, totalPages);
    WindowFacts(page, totalPages);
    NumbersOfItems(page, totalPages);
    WindowNumbersIncreasing(s, e, totalPages);
    var ns := WindowNumbers(s, e, totalPages);
    var l := if s > 1 then 1 else 0;
    assert ns[l + page - s] == page;
  }
}
