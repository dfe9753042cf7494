/**
 * The employee multi-select: the list of selected employee ids the parent owns,
 * the search term typed into it, the toggle / remove / clear-all actions with
 * their optional cap, the request sent to the autocomplete endpoint, the hint
 * shown above the results and the label on the trigger button. Then the dialog
 * around it, which edits a temporary copy of the parent's selection and hands
 * it back only on save.
 */
module EmployeeSelect {
  import opened Wrappers
  import opened Text
  import EmployeeService

  // ---------------------------------------------------------------------------
  // Selection actions

  /** `value.filter(id => id !== empID)`. */
  function Without(value: seq<int>, id: int): (r: seq<int>)
    ensures id !in r
    ensures multiset(r) == multiset(value)[id := 0]
  {
    if value == [] then []
    else
      assert value == [value[0]] + value[1..];
      var rest := Without(value[1..], id);
      if value[0] == id then rest else [value[0]] + rest
  }

  /** Removing an id that is not selected changes nothing. */
  lemma {:induction false} WithoutAbsent(value: seq<int>, id: int)
    requires id !in value
    ensures Without(value, id) == value
  {
    if value != [] {
      WithoutAbsent(value[1..], id);
    }
  }

  /** Filtering distributes over concatenation. */
  lemma {:induction false} WithoutAppend(a: seq<int>, b: seq<int>, id: int)
    ensures Without(a + b, id) == Without(a, id) + Without(b, id)
  {
    if a != [] {
      var ab := a + b;
      assert ab != [] && ab[0] == a[0] && ab[1..] == a[1..] + b;
      WithoutAppend(a[1..], b, id);
      if a[0] == id {
        assert Without(ab, id) == Without(a[1..] + b, id);
        assert Without(a, id) == Without(a[1..], id);
      } else {
        assert Without(ab, id) == [a[0]] + Without(a[1..] + b, id);
        assert Without(a, id) == [a[0]] + Without(a[1..], id);
      }
    } else {
      assert a + b == b;
    }
  }

  /** `maxSelections && value.length >= maxSelections`: a missing or zero cap never blocks. */
  predicate CapReached(value: seq<int>, maxSelections: Option<int>) {
    maxSelections.Some? && maxSelections.value != 0 && |value| >= maxSelections.value
  }

  /** The outcome of a toggle: the list handed to `onChange` (None: it is not called), and
    * whether the search box is cleared. */
  datatype Toggled = Toggled(change: Option<seq<int>>, clearSearch: bool)

  /** `handleEmployeeToggle`: a selected employee is removed; otherwise it is appended unless
    * the cap is reached. */
  function Toggle(value: seq<int>, empID: int, maxSelections: Option<int>): (r: Toggled)
    ensures empID in value ==>
              r.change.Some? && empID !in r.change.value && !r.clearSearch
              && multiset(r.change.value) == multiset(value)[empID := 0]
    ensures empID !in value && CapReached(value, maxSelections) ==> r == Toggled(None, false)
    ensures empID !in value && !CapReached(value, maxSelections) ==>
              r.change == Some(value + [empID]) && r.clearSearch
  {
    if empID in value then Toggled(Some(Without(value, empID)), false)
    else if CapReached(value, maxSelections) then Toggled(None, false)
    else Toggled(Some(value + [empID]), true)
  }

  /** Adding an employee and toggling it again restores the selection. */
  lemma ToggleTwiceRestores(value: seq<int>, empID: int, maxSelections: Option<int>)
    requires empID !in value && !CapReached(value, maxSelections)
    ensures Toggle(Toggle(value, empID, maxSelections).change.value, empID, maxSelections).change == Some(value)
  {
    WithoutAppend(value, [empID], empID);
    WithoutAbsent(value, empID);
    assert [empID][1..] == [];
    assert Without([empID], empID) == [];
    var added := Toggle(value, empID, maxSelections).change.value;
    assert added == value + [empID];
    assert empID in added;
    assert Without(added, empID) == value;
  }

  /** What the component keeps: the parent's list and its own search term. */
  datatype Selection = Selection(value: seq<int>, searchTerm: string)

  datatype Action = ToggleEmployee(empID: int) | RemoveEmployee(id: int) | ClearAll | Type(term: string)

  /** One user action, applied as the component applies it (`onChange` then replaces `value`). */
  function Step(s: Selection, a: Action, maxSelections: Option<int>): (r: Selection)
    ensures a.RemoveEmployee? ==> a.id !in r.value && r.searchTerm == s.searchTerm
    ensures a.ClearAll? ==> r == Selection([], "")
    ensures a.Type? ==> r == s.(searchTerm := a.term)
    ensures a.ToggleEmployee? ==> (a.empID in r.value <==> a.empID !in s.value && !CapReached(s.value, maxSelections))
  {
    match a
    case ToggleEmployee(id) =>
      var t := Toggle(s.value, id, maxSelections);
      Selection(if t.change.Some? then t.change.value else s.value,
                if t.clearSearch then "" else s.searchTerm)
    case RemoveEmployee(id) => s.(value := Without(s.value, id))
    case ClearAll => Selection([], "")
    case Type(term) => s.(searchTerm := term)
  }

  predicate NoDuplicates(xs: seq<int>) {
    forall i, j :: 0 <= i < j < |xs| ==> xs[i] != xs[j]
  }

  /** A positive cap bounds the selection; a missing, zero or negative one bounds nothing. */
  predicate WithinCap(value: seq<int>, maxSelections: Option<int>) {
    maxSelections.Some? && maxSelections.value > 0 ==> |value| <= maxSelections.value
  }

  lemma {:induction false} WithoutKeepsDistinct(value: seq<int>, id: int)
    requires NoDuplicates(value)
    ensures NoDuplicates(Without(value, id)) && |Without(value, id)| <= |value|
  {
    if value != [] {
      WithoutKeepsDistinct(value[1..], id);
      var rest := Without(value[1..], id);
      assert multiset(rest) == multiset(value[1..])[id := 0];
      assert value[0] !in value[1..];
      assert value[0] !in multiset(value[1..]);
      assert value[0] !in multiset(rest);
    }
  }

  /** Starting from a selection without repeats and within the cap, no action creates a
    * repeat or exceeds the cap. */
  lemma StepKeepsSelectionValid(s: Selection, a: Action, maxSelections: Option<int>)
    requires NoDuplicates(s.value) && WithinCap(s.value, maxSelections)
    ensures NoDuplicates(Step(s, a, maxSelections).value)
    ensures WithinCap(Step(s, a, maxSelections).value, maxSelections)
  {
    match a
    case ToggleEmployee(id) =>
      if id in s.value {
        WithoutKeepsDistinct(s.value, id);
      } else if !CapReached(s.value, maxSelections) {
        var v := s.value + [id];
        assert forall i :: 0 <= i < |s.value| ==> v[i] == s.value[i];
      }
    case RemoveEmployee(id) => WithoutKeepsDistinct(s.value, id);
    case ClearAll =>
    case Type(_) =>
  }

  // ---------------------------------------------------------------------------
  // Searching

  /** The request the autocomplete query sends for the debounced term: nothing for a blank
    * term, otherwise the trimmed term with a limit of fifty. */
  datatype AutocompleteRequest = AutocompleteRequest(q: string, limit: int)

  function RequestFor(debounced: string): (r: Option<AutocompleteRequest>)
    ensures r.None? <==> IsBlank(debounced)
    ensures r.Some? ==> r.value.limit == 50 && !IsBlank(r.value.q) && Trim(r.value.q) == r.value.q
  {
    if Trim(debounced) == [] then None
    else
      TrimIdempotent(debounced);
      Some(AutocompleteRequest(Trim(debounced), 50))
  }

  /** The hint above the results: none for a blank term, an exact employee-number search for
    * an all-digit trimmed term (`/^\d+$/`), a name-prefix search otherwise. */
  datatype SearchHint = ExactNumber | NamePrefix

  function HintFor(searchTerm: string): (r: Option<SearchHint>)
    ensures r.None? <==> IsBlank(searchTerm)
    ensures r == Some(ExactNumber) <==> EmployeeService.IsDigits(Trim(searchTerm))
  {
    if Trim(searchTerm) == [] then None
    else if AllDigits(Trim(searchTerm)) then Some(ExactNumber)
    else Some(NamePrefix)
  }

  /** The hint tells the truth about the request sent for the same (settled) term: an exact
    * number hint means the endpoint matches `employee_desc` exactly, a prefix hint means it
    * matches the start of the trimmed name. */
  lemma HintAgreesWithEndpoint(term: string, e: EmployeeService.Employee)
    requires HintFor(term).Some?
    ensures RequestFor(term).Some?
    ensures HintFor(term) == Some(ExactNumber) ==>
              (EmployeeService.AutoMatches(Trim(RequestFor(term).value.q), e)
               <==> e.desc == Some(DecimalValue(Trim(term))))
    ensures HintFor(term) == Some(NamePrefix) ==>
              (EmployeeService.AutoMatches(Trim(RequestFor(term).value.q), e)
               <==> e.name.Some? && StartsWith(Trim(e.name.value), Trim(term)))
  {
    TrimIdempotent(term);
  }

  /** The selected employees shown as chips: each id is fetched on its own and the failed
    * fetches are dropped, in the order of the selection. */
  function LoadSelected(value: seq<int>, fetch: int -> Option<EmployeeService.EmployeeOut>): (r: seq<EmployeeService.EmployeeOut>)
    ensures |r| <= |value|
    ensures forall e :: e in r <==> exists id :: id in value && fetch(id) == Some(e)
  {
    if value == [] then []
    else
      var rest := LoadSelected(value[1..], fetch);
      assert forall id :: id in value <==> id == value[0] || id in value[1..];
      match fetch(value[0])
      case Some(e) => [e] + rest
      case None => rest
  }

  // ---------------------------------------------------------------------------
  // The trigger button

  const Loading := "جارٍ التحميل..."
  const SelectedSuffix := " موظف محدد"

  /** `getButtonPlaceholder`; None when the one selected employee has no name. */
  function ButtonPlaceholder(isLoadingSelected: bool, value: seq<int>,
                             selected: seq<EmployeeService.EmployeeOut>, placeholder: string): (r: Option<string>)
    ensures isLoadingSelected ==> r == Some(Loading)
    ensures !isLoadingSelected && value == [] ==> r == Some(placeholder)
    ensures !isLoadingSelected && |value| == 1 && selected != [] ==> r == selected[0].name
    ensures !isLoadingSelected && (|value| > 1 || (|value| == 1 && selected == [])) ==>
              exists count :: AllDigits(count) && count != [] && DecimalValue(count) == |value|
                             && r == Some(count + SelectedSuffix)
  {
    if isLoadingSelected then Some(Loading)
    else if |value| == 0 then Some(placeholder)
    else if |value| == 1 && selected != [] then selected[0].name
    else
      var count := NatToDecimal(|value|);
      DecimalRoundTrip(|value|);
      Some(count + SelectedSuffix)
  }

  // ---------------------------------------------------------------------------
  // The selection dialog

  const AtLeastOneWarning := "الرجاء اختيار موظف واحد على الأقل"

  /** What the dialog hands out: the selection passed to the parent, and its toasts. */
  datatype DialogEvent = EmployeesSelected(ids: seq<int>) | Warning(message: string) | Success(message: string)

  function SavedMessage(n: nat): string {
    "تم حفظ " + NatToDecimal(n) + " موظف"
  }

  /** `EmployeeSelectionDialog`: whether it is open, the temporary selection it edits, and
    * the calls it has made (to `onEmployeesSelected` and to the toasts). */
  class SelectionDialog {
    var open: bool
    var temp: seq<int>
    var events: seq<DialogEvent>

    /** Nothing empty is ever handed to the parent. */
    predicate Valid()
      reads this
    {
      forall i :: 0 <= i < |events| ==> events[i].EmployeesSelected? ==> events[i].ids != []
    }

    /** `disabled={tempSelectedIDs.length === 0}` on the save button. */
    function SaveDisabled(): (r: bool)
      reads this
      ensures r <==> temp == []
    {
      |temp| == 0
    }

    constructor(selected: seq<int>)
      ensures Valid()
      ensures !open && temp == selected && events == []
    {
      open := false;
      temp := selected;
      events := [];
    }

    /** `handleDialogOpen`: start from the parent's current selection. */
    method HandleDialogOpen(selected: seq<int>)
      modifies this
      ensures open && temp == selected && events == old(events)
    {
      temp := selected;
      open := true;
    }

    /** The multi-select inside the dialog edits the temporary selection only. */
    method HandleChange(ids: seq<int>)
      modifies this
      ensures temp == ids && open == old(open) && events == old(events)
    {
      temp := ids;
    }

    /** `handleSave`: an empty selection is refused with a warning and the dialog stays as it
      * is; otherwise the selection goes to the parent once and the dialog closes. */
    method HandleSave()
      requires Valid()
      modifies this
      ensures Valid()
      ensures temp == old(temp)
      ensures old(temp) == [] ==> open == old(open) && events == old(events) + [Warning(AtLeastOneWarning)]
      ensures old(temp) != [] ==>
                !open && events == old(events) + [EmployeesSelected(old(temp)), Success(SavedMessage(|old(temp)|))]
    {
      if |temp| == 0 {
        events := events + [Warning(AtLeastOneWarning)];
        return;
      }
      events := events + [EmployeesSelected(temp), Success(SavedMessage(|temp|))];
      open := false;
    }

    /** `handleCancel`: drop the edits and close; the parent hears nothing. */
    method HandleCancel(selected: seq<int>)
      modifies this
      ensures !open && temp == selected && events == old(events)
    {
      temp := selected;
      open := false;
    }

    /** `onOpenChange={setOpen}`: the dialog opened or closed by its own controls. */
    method HandleOpenChange(isOpen: bool)
      modifies this
      ensures open == isOpen && temp == old(temp) && events == old(events)
    {
      open := isOpen;
    }
  }
}
