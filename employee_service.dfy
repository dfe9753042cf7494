/**
 * The employee service: the search by name or `employee_desc`, the look-up by
 * id, the autocomplete that dispatches on an all-digit term, and the members
 * of a committee. Every result row is formatted the same way, with the gender
 * code turned into its Arabic name.
 *
 * A table is a sequence of employees in storage order. `ORDER BY name` sorts by
 * `rank`, the place of a name (NULL included) in the database's collation, and
 * keeps storage order among equal names; SQL `LIKE` is modelled as a plain
 * substring or prefix test.
 */
module EmployeeService {
  import opened Wrappers
  import opened Text
  import FormCommon
  import CommitteeService

  datatype Employee = Employee(empID: int, name: Option<string>, desc: Option<int>, gender: Option<int>)

  /** The dictionary each service method returns for an employee. */
  datatype EmployeeOut = EmployeeOut(empID: int, name: Option<string>, desc: Option<int>,
                                     gender: Option<int>, genderName: Option<string>)

  const Male := "ذكر"
  const Female := "أنثى"

  /** Gender code 1 is male, 2 is female, anything else (NULL included) has no name. */
  function GenderName(g: Option<int>): (r: Option<string>)
    ensures r == Some(Male) <==> g == Some(1)
    ensures r == Some(Female) <==> g == Some(2)
    ensures r.None? <==> g != Some(1) && g != Some(2)
  {
    if g == Some(1) then Some(Male) else if g == Some(2) then Some(Female) else None
  }

  function Format(e: Employee): EmployeeOut {
    EmployeeOut(e.empID, e.name, e.desc, e.gender, GenderName(e.gender))
  }

  function FormatAll(es: seq<Employee>): (r: seq<EmployeeOut>)
    ensures |r| == |es|
    ensures forall i :: 0 <= i < |es| ==> r[i] == Format(es[i])
  {
    seq(|es|, i requires 0 <= i < |es| => Format(es[i]))
  }

  /** The `formatted_employees.append` loop of `searchEmployees` and `getAllEmployees`: one
    * dictionary per employee, in order, its gender name chosen by an `if`/`elif`. */
  method FormatEmployees(es: seq<Employee>) returns (out: seq<EmployeeOut>)
    ensures |out| == |es|
    ensures forall i :: 0 <= i < |es| ==>
              && out[i].empID == es[i].empID && out[i].name == es[i].name
              && out[i].desc == es[i].desc && out[i].gender == es[i].gender
              && out[i].genderName == GenderName(es[i].gender)
    ensures out == FormatAll(es)
  {
    out := [];
    for k := 0 to |es|
      invariant out == FormatAll(es[..k])
    {
      var emp := es[k];
      var genderName: Option<string> := None;
      if emp.gender == Some(1) {
        genderName := Some(Male);
      } else if emp.gender == Some(2) {
        genderName := Some(Female);
      }
      out := out + [EmployeeOut(emp.empID, emp.name, emp.desc, emp.gender, genderName)];
      assert es[..k + 1] == es[..k] + [emp];
    }
    assert es[..|es|] == es;
  }

  // ---------------------------------------------------------------------------
  // `ORDER BY name`

  /** The rank a collation gives each name. */
  type Collation = Option<string> -> int

  ghost predicate NameSorted(es: seq<Employee>, rank: Collation) {
    forall i, j :: 0 <= i < j < |es| ==> rank(es[i].name) <= rank(es[j].name)
  }

  /** Puts `e` before the first employee whose name does not rank below it. */
  function InsertByName(e: Employee, es: seq<Employee>, rank: Collation): (r: seq<Employee>)
    ensures multiset(r) == multiset(es) + multiset{e}
  {
    if es == [] || rank(e.name) <= rank(es[0].name) then [e] + es
    else
      assert es == [es[0]] + es[1..];
      [es[0]] + InsertByName(e, es[1..], rank)
  }

  /** Inserting into a sorted sequence keeps it sorted. */
  lemma {:induction false} InsertSorted(e: Employee, es: seq<Employee>, rank: Collation)
    requires NameSorted(es, rank)
    ensures NameSorted(InsertByName(e, es, rank), rank)
  {
    if es == [] || rank(e.name) <= rank(es[0].name) {
      ConsSorted(e, es, rank);
    } else {
      var rest := InsertByName(e, es[1..], rank);
      assert es == [es[0]] + es[1..];
      InsertSorted(e, es[1..], rank);
      forall k | 0 <= k < |rest| ensures rank(es[0].name) <= rank(rest[k].name) {
        assert rest[k] in multiset(es[1..]) + multiset{e};
      }
      ConsSorted(es[0], rest, rank);
    }
  }

  lemma ConsSorted(x: Employee, es: seq<Employee>, rank: Collation)
    requires NameSorted(es, rank)
    requires forall k :: 0 <= k < |es| ==> rank(x.name) <= rank(es[k].name)
    ensures NameSorted([x] + es, rank)
  {
    var r := [x] + es;
    forall i, j | 0 <= i < j < |r| ensures rank(r[i].name) <= rank(r[j].name) {
      if i > 0 {
        assert r[i] == es[i - 1] && r[j] == es[j - 1];
      } else {
        assert r[j] == es[j - 1];
      }
    }
  }

  /** `ORDER BY name ASC`: the same employees, sorted by the rank of their names. */
  function SortByName(es: seq<Employee>, rank: Collation): (r: seq<Employee>)
    ensures multiset(r) == multiset(es)
    ensures NameSorted(r, rank)
  {
    if es == [] then []
    else
      assert es == [es[0]] + es[1..];
      InsertSorted(es[0], SortByName(es[1..], rank), rank);
      InsertByName(es[0], SortByName(es[1..], rank), rank)
  }

  /** The formatted rows of a sorted sequence are sorted too, and hold exactly its employees. */
  lemma FormatSorted(es: seq<Employee>, rank: Collation)
    ensures NameSorted(es, rank) ==>
              forall i, j :: 0 <= i < j < |es| ==> rank(FormatAll(es)[i].name) <= rank(FormatAll(es)[j].name)
    ensures forall x :: x in FormatAll(es) <==> exists e :: e in es && x == Format(e)
  {
    var out := FormatAll(es);
    forall x | x in out ensures exists e :: e in es && x == Format(e) {
      var i :| 0 <= i < |out| && out[i] == x;
      assert es[i] in es;
    }
    forall e | e in es ensures Format(e) in out {
      var i :| 0 <= i < |es| && es[i] == e;
      assert out[i] == Format(e);
    }
  }

  // ---------------------------------------------------------------------------
  // `searchEmployees`

  /** Python `str.isdigit()` on ASCII text: non-empty and all digits. */
  predicate IsDigits(s: string) { s != [] && AllDigits(s) }

  /** The `where` clause `searchEmployees` chooses. */
  datatype EmployeeFilter = ByNumber(term: string) | ByName(term: string) | ByDesc(desc: int) | Everyone

  /** A usable search term (`search_term and search_term.strip()`) wins; `employee_desc`
    * only applies without one. */
  function SearchFilter(searchTerm: Option<string>, employeeDesc: Option<int>): (f: EmployeeFilter)
    ensures searchTerm.Some? && !IsBlank(searchTerm.value) ==>
              f == (if IsDigits(Trim(searchTerm.value)) then ByNumber(Trim(searchTerm.value)) else ByName(Trim(searchTerm.value)))
    ensures (searchTerm.None? || IsBlank(searchTerm.value)) ==>
              f == (if employeeDesc.Some? then ByDesc(employeeDesc.value) else Everyone)
  {
    if searchTerm.Some? && Trim(searchTerm.value) != "" then
      var v := Trim(searchTerm.value);
      if IsDigits(v) then ByNumber(v) else ByName(v)
    else if employeeDesc.Some? then ByDesc(employeeDesc.value)
    else Everyone
  }

  /** A usable term makes `employee_desc` irrelevant. */
  lemma SearchTermTakesPrecedence(term: string, d1: Option<int>, d2: Option<int>)
    requires !IsBlank(term)
    ensures SearchFilter(Some(term), d1) == SearchFilter(Some(term), d2)
    ensures !SearchFilter(Some(term), d1).ByDesc? && !SearchFilter(Some(term), d1).Everyone?
  {
  }

  /** Whether an employee satisfies the filter: a numeric term matches the number exactly or
    * its decimal text as a substring, a text term matches the trimmed name as a substring;
    * NULL columns match nothing. */
  predicate Satisfies(f: EmployeeFilter, e: Employee) {
    match f
    case ByNumber(v) =>
      AllDigits(v)
      && e.desc.Some? && (e.desc.value == DecimalValue(v) || Contains(FormCommon.IntToString(e.desc.value), v))
    case ByName(v) => e.name.Some? && Contains(Trim(e.name.value), v)
    case ByDesc(d) => e.desc == Some(d)
    case Everyone => true
  }

  function Select(table: seq<Employee>, f: EmployeeFilter): (r: seq<Employee>)
    ensures |r| <= |table|
    ensures forall e :: e in r <==> e in table && Satisfies(f, e)
  {
    if table == [] then []
    else (if Satisfies(f, table[0]) then [table[0]] else []) + Select(table[1..], f)
  }

  lemma {:induction false} SelectEveryone(table: seq<Employee>)
    ensures Select(table, Everyone) == table
  {
    if table != [] {
      SelectEveryone(table[1..]);
    }
  }

  /** `searchEmployees`: the rows the chosen filter selects, ordered by name, formatted. */
  method SearchEmployees(table: seq<Employee>, searchTerm: Option<string>, employeeDesc: Option<int>, rank: Collation)
    returns (out: seq<EmployeeOut>)
    ensures out == FormatAll(SortByName(Select(table, SearchFilter(searchTerm, employeeDesc)), rank))
    ensures forall x :: x in out <==>
              exists e :: e in table && Satisfies(SearchFilter(searchTerm, employeeDesc), e) && x == Format(e)
    ensures forall i, j :: 0 <= i < j < |out| ==> rank(out[i].name) <= rank(out[j].name)
    ensures (searchTerm.None? || IsBlank(searchTerm.value)) && employeeDesc.None? ==>
              out == FormatAll(SortByName(table, rank))
  {
    var employees := SortByName(Select(table, SearchFilter(searchTerm, employeeDesc)), rank);
    if (searchTerm.None? || IsBlank(searchTerm.value)) && employeeDesc.None? {
      SelectEveryone(table);
    }
    FormatSorted(employees, rank);
    SortedMembers(Select(table, SearchFilter(searchTerm, employeeDesc)), rank);
    out := FormatEmployees(employees);
  }

  /** Sorting keeps exactly the same employees. */
  lemma SortedMembers(es: seq<Employee>, rank: Collation)
    ensures forall e :: e in SortByName(es, rank) <==> e in es
  {
    var r := SortByName(es, rank);
    forall e ensures e in r <==> e in es {
      assert e in r <==> e in multiset(r);
    }
  }

  /** `getAllEmployees`: every employee ordered by name, formatted like a search result. */
  method GetAllEmployees(table: seq<Employee>, rank: Collation) returns (out: seq<EmployeeOut>)
    ensures out == FormatAll(SortByName(table, rank))
    ensures out == FormatAll(SortByName(Select(table, SearchFilter(None, None)), rank))
  {
    SelectEveryone(table);
    out := FormatEmployees(SortByName(table, rank));
  }

  /** A numeric search term finds the employee with that number even when it is written
    * with leading zeros, which no substring of the number's own text matches. */
  lemma LeadingZerosStillFound()
    ensures Satisfies(ByNumber("007"), Employee(1, None, Some(7), None))
    ensures !Contains(FormCommon.IntToString(7), "007")
  {
    assert DecimalValue("007") == 7 by {
      assert "007"[..2] == "00" && "00"[..1] == "0";
    }
    assert FormCommon.IntToString(7) == "7";
  }

  // ---------------------------------------------------------------------------
  // `getEmployeeById`

  function GetEmployeeById(table: seq<Employee>, id: int): (r: Option<EmployeeOut>)
    ensures r.None? <==> forall e :: e in table ==> e.empID != id
    ensures r.Some? ==> exists e :: e in table && e.empID == id && r.value == Format(e)
  {
    if table == [] then None
    else if table[0].empID == id then Some(Format(table[0]))
    else GetEmployeeById(table[1..], id)
  }

  // ---------------------------------------------------------------------------
  // `autocompleteEmployeeName`

  /** The autocomplete match: an all-digit term is an exact `employee_desc`, any other term a
    * prefix of the trimmed name. */
  predicate AutoMatches(term: string, e: Employee) {
    if IsDigits(term) then e.desc == Some(DecimalValue(term))
    else e.name.Some? && StartsWith(Trim(e.name.value), term)
  }

  function AutoSelect(table: seq<Employee>, term: string): (r: seq<Employee>)
    ensures |r| <= |table|
    ensures forall e :: e in r <==> e in table && AutoMatches(term, e)
  {
    if table == [] then []
    else (if AutoMatches(term, table[0]) then [table[0]] else []) + AutoSelect(table[1..], term)
  }

  function Take<T>(xs: seq<T>, n: nat): (r: seq<T>)
    ensures |r| <= n && |r| <= |xs|
    ensures |xs| <= n ==> r == xs
    ensures r == xs[..|r|]
  {
    if |xs| <= n then xs else xs[..n]
  }

  /** The matches the autocomplete limits: an all-digit term keeps storage order, a name
    * prefix is ordered by name. */
  function AutoOrdered(table: seq<Employee>, term: string, rank: Collation): (r: seq<Employee>)
    ensures forall e :: e in r <==> e in table && AutoMatches(term, e)
    ensures !IsDigits(term) ==> NameSorted(r, rank)
  {
    if IsDigits(term) then AutoSelect(table, term)
    else
      SortedMembers(AutoSelect(table, term), rank);
      SortByName(AutoSelect(table, term), rank)
  }

  /** A missing or blank query gives no rows; otherwise at most `limit` rows matching the
    * trimmed term, the first ones by name for a name prefix. */
  function Autocomplete(table: seq<Employee>, query: Option<string>, limit: nat, rank: Collation): (r: seq<EmployeeOut>)
    ensures query.None? || IsBlank(query.value) ==> r == []
    ensures |r| <= limit
    ensures query.Some? && !IsBlank(query.value) ==>
              forall x :: x in r ==> exists e :: e in table && AutoMatches(Trim(query.value), e) && x == Format(e)
    ensures query.Some? && !IsBlank(query.value) && !IsDigits(Trim(query.value)) ==>
              forall i, j :: 0 <= i < j < |r| ==> rank(r[i].name) <= rank(r[j].name)
  {
    if query.None? || Trim(query.value) == "" then []
    else
      var term := Trim(query.value);
      var ordered := AutoOrdered(table, term, rank);
      var found := Take(ordered, limit);
      assert forall e :: e in found ==> e in ordered;
      assert !IsDigits(term) ==> NameSorted(found, rank);
      FormatSorted(found, rank);
      FormatAll(found)
  }

  /** Under the limit, every matching employee is suggested. */
  lemma AutocompleteComplete(table: seq<Employee>, query: string, limit: nat, rank: Collation, e: Employee)
    requires !IsBlank(query) && |AutoSelect(table, Trim(query))| <= limit
    requires e in table && AutoMatches(Trim(query), e)
    ensures Format(e) in Autocomplete(table, Some(query), limit, rank)
  {
    var ordered := AutoOrdered(table, Trim(query), rank);
    assert |ordered| == |AutoSelect(table, Trim(query))| by {
      if !IsDigits(Trim(query)) {
        assert |multiset(ordered)| == |multiset(AutoSelect(table, Trim(query)))|;
      }
    }
    var i :| 0 <= i < |ordered| && ordered[i] == e;
    assert Autocomplete(table, Some(query), limit, rank)[i] == Format(e);
  }

  /** Over the limit, a name prefix suggests the first names: a matching employee whose name
    * ranks below a suggested one is suggested too. */
  lemma AutocompleteFirstByName(table: seq<Employee>, query: string, limit: nat, rank: Collation,
                                e: Employee, i: nat)
    requires !IsBlank(query) && !IsDigits(Trim(query))
    requires e in table && AutoMatches(Trim(query), e)
    requires i < |Autocomplete(table, Some(query), limit, rank)|
    requires rank(e.name) < rank(Autocomplete(table, Some(query), limit, rank)[i].name)
    ensures Format(e) in Autocomplete(table, Some(query), limit, rank)
  {
    var ordered := AutoOrdered(table, Trim(query), rank);
    var r := Autocomplete(table, Some(query), limit, rank);
    var found := Take(ordered, limit);
    assert r == FormatAll(found);
    var j :| 0 <= j < |ordered| && ordered[j] == e;
    assert r[i].name == ordered[i].name;
    assert r[j] == Format(e);
  }

  /** A digit term finds exactly the employee numbers, so any employee it finds is also found
    * by the search with the same term. */
  lemma AutocompleteWithinSearch(term: string, e: Employee)
    requires IsDigits(term) && AutoMatches(term, e)
    ensures Satisfies(ByNumber(term), e)
  {
  }

  // ---------------------------------------------------------------------------
  // `getCommitteeEmployeesMethod`

  /** A row of the committee/employee junction table. */
  datatype Link = Link(committeeID: int, empID: int)

  function LinkCount(links: seq<Link>, committeeId: int, empID: int): (n: nat)
    ensures n > 0 <==> Link(committeeId, empID) in links
  {
    if links == [] then 0
    else (if links[0] == Link(committeeId, empID) then 1 else 0) + LinkCount(links[1..], committeeId, empID)
  }

  /** The join: each employee once per junction row tying it to the committee, in storage
    * order. */
  function Members(employees: seq<Employee>, links: seq<Link>, committeeId: int): (r: seq<Employee>)
    ensures forall e :: e in r <==> e in employees && Link(committeeId, e.empID) in links
  {
    if employees == [] then []
    else
      var e := employees[0];
      var copies := seq(LinkCount(links, committeeId, e.empID), _ => e);
      assert forall x :: x in copies <==> x == e && Link(committeeId, e.empID) in links by {
        if Link(committeeId, e.empID) in links { assert copies[0] == e; }
      }
      copies + Members(employees[1..], links, committeeId)
  }

  /** A database failure is answered 500, an unknown committee 404, and otherwise the members
    * come back ordered by name and formatted. */
  function CommitteeEmployees(committeeIds: set<int>, employees: seq<Employee>, links: seq<Link>,
                              committeeId: int, dbError: Option<string>, rank: Collation)
    : (r: Result<seq<EmployeeOut>, CommitteeService.HttpError>)
    ensures dbError.Some? ==> r == Err(CommitteeService.HttpError(500, "Database error: " + dbError.value))
    ensures dbError.None? ==> (r.Err? <==> committeeId !in committeeIds)
    ensures r.Err? && dbError.None? ==>
              r.error == CommitteeService.HttpError(404, "Committee with ID " + FormCommon.IntToString(committeeId) + " not found")
    ensures r.Ok? ==> forall x :: x in r.value <==>
              exists e :: e in employees && Link(committeeId, e.empID) in links && x == Format(e)
    ensures r.Ok? ==> forall i, j :: 0 <= i < j < |r.value| ==> rank(r.value[i].name) <= rank(r.value[j].name)
  {
    if dbError.Some? then Err(CommitteeService.HttpError(500, "Database error: " + dbError.value))
    else if committeeId !in committeeIds then
      Err(CommitteeService.NotFound(committeeId))
    else
      var m := SortByName(Members(employees, links, committeeId), rank);
      SortedMembers(Members(employees, links, committeeId), rank);
      FormatSorted(m, rank);
      Ok(FormatAll(m))
  }
}
