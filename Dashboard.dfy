/**
 * The dashboard's state and its command handlers, with the DOM taken out:
 * the roster list, the active filter and search term, the id being edited,
 * and a stand-in for the `employees` entry of `localStorage`.
 */
module Dashboard {
  import opened Wrappers
  import opened Text
  import opened Sequences
  import opened Employees
  import Query
  import Stats
  import opened Validation
  import Export

  /** A skill checkbox: its `value` and whether it is ticked. */
  datatype Checkbox = Checkbox(value: string, checked: bool)

  /** The add form's controls: the three validated inputs, the skill boxes and the certified box. */
  datatype EmployeeForm = EmployeeForm(
    name: Field,
    email: Field,
    department: Field,
    skills: seq<Checkbox>,
    certified: bool)

  /** The controls `validateForm` walks, in document order. */
  function Controls(form: EmployeeForm): seq<Field> {
    [form.name, form.email, form.department]
  }

  /** The edit form's current values. */
  datatype EditForm = EditForm(
    name: string,
    email: string,
    department: string,
    skills: seq<Checkbox>,
    certified: bool)

  predicate IsTicked(b: Checkbox) {
    b.checked
  }

  /** The boxes' values, in order. */
  function Values(boxes: seq<Checkbox>): (r: seq<string>)
    ensures |r| == |boxes|
    ensures forall i :: 0 <= i < |boxes| ==> r[i] == boxes[i].value
  {
    seq(|boxes|, i requires 0 <= i < |boxes| => boxes[i].value)
  }

  /** The values of the ticked boxes, in document order. */
  function CheckedValues(boxes: seq<Checkbox>): (r: seq<string>)
    ensures |r| <= |boxes|
  {
    if boxes == [] then []
    else
      var rest := CheckedValues(boxes[..|boxes| - 1]);
      var last := boxes[|boxes| - 1];
      if last.checked then rest + [last.value] else rest
  }

  lemma ValuesAppend(a: seq<Checkbox>, b: seq<Checkbox>)
    ensures Values(a + b) == Values(a) + Values(b)
  {
    assert forall i :: 0 <= i < |a + b| ==> Values(a + b)[i] == (Values(a) + Values(b))[i];
  }

  /**
   * The collected skills are the `filter` of the boxes by their tick, mapped to
   * their values: one per ticked box, in document order.
   */
  lemma {:induction false} CheckedValuesIsFilterMap(boxes: seq<Checkbox>)
    ensures CheckedValues(boxes) == Values(Keep(boxes, IsTicked))
  {
    if boxes != [] {
      var n := |boxes|;
      var p, last := boxes[..n - 1], boxes[n - 1];
      var tail := if IsTicked(last) then [last] else [];
      assert boxes == p + [last];
      calc {
        CheckedValues(boxes);
        CheckedValues(p) + Values(tail);
        { CheckedValuesIsFilterMap(p); }
        Values(Keep(p, IsTicked)) + Values(tail);
        { ValuesAppend(Keep(p, IsTicked), tail); }
        Values(Keep(p, IsTicked) + tail);
        { KeepSnoc(p, last, IsTicked); }
        Values(Keep(boxes, IsTicked));
      }
    }
  }

  lemma CheckedValueMember(boxes: seq<Checkbox>, s: string)
    ensures s in CheckedValues(boxes) <==>
      exists i :: 0 <= i < |boxes| && boxes[i].checked && boxes[i].value == s
  {
    CheckedValuesIsFilterMap(boxes);
    var kept := Keep(boxes, IsTicked);
    var vals := Values(kept);
    if s in CheckedValues(boxes) {
      var j :| 0 <= j < |vals| && vals[j] == s;
      assert kept[j] in kept;
      assert kept[j] in boxes && IsTicked(kept[j]);
      var i :| 0 <= i < |boxes| && boxes[i] == kept[j];
      assert boxes[i].checked && boxes[i].value == s;
    }
    if exists i :: 0 <= i < |boxes| && boxes[i].checked && boxes[i].value == s {
      var i :| 0 <= i < |boxes| && boxes[i].checked && boxes[i].value == s;
      assert boxes[i] in boxes && IsTicked(boxes[i]);
      assert boxes[i] in kept;
      var j :| 0 <= j < |kept| && kept[j] == boxes[i];
      assert vals[j] == s;
    }
  }

  /** A value is collected exactly when some ticked box carries it. */
  lemma CheckedValuesSpec(boxes: seq<Checkbox>)
    ensures forall s :: s in CheckedValues(boxes) <==>
      exists i :: 0 <= i < |boxes| && boxes[i].checked && boxes[i].value == s
  {
    forall s: string {
      CheckedValueMember(boxes, s);
    }
  }

  /** The `forEach` that pushes each ticked box's value onto `selectedSkills`. */
  method CollectCheckedSkills(boxes: seq<Checkbox>) returns (skills: seq<string>)
    ensures skills == CheckedValues(boxes)
  {
    skills := [];
    var i := 0;
    while i < |boxes|
      invariant 0 <= i <= |boxes|
      invariant skills == CheckedValues(boxes[..i])
    {
      assert boxes[..i + 1][..i] == boxes[..i];
      if boxes[i].checked {
        skills := skills + [boxes[i].value];
      }
      i := i + 1;
    }
    assert boxes[..i] == boxes;
  }

  class Roster {
    var employees: seq<Employee>
    var currentFilter: string
    var currentSearchTerm: string
    var editingEmployeeId: Option<int>
    /** The `employees` entry of `localStorage`: `None` when the key is absent. */
    var stored: Option<seq<Employee>>

    /** The state before `init` runs, over whatever the storage holds. */
    constructor (storage: Option<seq<Employee>>)
      ensures employees == [] && currentFilter == "All" && currentSearchTerm == ""
      ensures editingEmployeeId == None && stored == storage
    {
      employees := [];
      currentFilter := "All";
      currentSearchTerm := "";
      editingEmployeeId := None;
      stored := storage;
    }

    /** `saveEmployees`: the stored copy becomes the current list. */
    method SaveEmployees()
      modifies this`stored
      ensures stored == Some(employees)
    {
      stored := Some(employees);
    }

    /**
     * `loadEmployees`: any stored list is taken as it is (a saved empty list is
     * the non-empty text "[]", so it stays empty); only an absent entry installs
     * and saves the seed roster.
     */
    method LoadEmployees()
      modifies this`employees, this`stored
      ensures old(stored).Some? ==> employees == old(stored).value && stored == old(stored)
      ensures old(stored).None? ==> employees == Seed() && stored == Some(Seed())
      ensures stored == Some(employees)
    {
      if stored.Some? {
        employees := stored.value;
      } else {
        employees := Seed();
        SaveEmployees();
      }
    }

    /** The filter buttons' handler. */
    method SetFilter(filter: string)
      modifies this`currentFilter
      ensures currentFilter == filter
    {
      currentFilter := filter;
    }

    /** The search bar's `input` handler: the raw text is kept; normalizing happens in the view. */
    method SetSearch(term: string)
      modifies this`currentSearchTerm
      ensures currentSearchTerm == term
    {
      currentSearchTerm := term;
    }

    /** What `filterAndRender` shows for the current state. */
    function CurrentView(): (r: seq<Employee>)
      reads this
      ensures IsSubsequence(r, employees)
      ensures forall e :: e in r <==> e in employees && Query.Shown(e, currentFilter, currentSearchTerm)
    {
      Query.ViewSpec(employees, currentFilter, currentSearchTerm);
      Query.View(employees, currentFilter, currentSearchTerm)
    }

    /** What `updateStats` shows: always over the whole list, never the view. */
    function CurrentStatistics(): (r: Stats.Statistics)
      reads this
      ensures r.total == |employees|
      ensures r.certifiedCount + r.nonCertifiedCount == r.total
    {
      Stats.ComputeStatistics(employees)
    }

    /** The text `exportToCSV` downloads: the whole list, never the view. */
    function CsvExport(): (r: string)
      reads this
      ensures (forall i :: 0 <= i < |employees| ==> Export.FreeOf(employees[i], '\n')) ==>
        |Split(r, '\n')| == 1 + |employees|
    {
      if forall i :: 0 <= i < |employees| ==> Export.FreeOf(employees[i], '\n') then
        Export.CsvLines(employees);
        Export.CsvText(employees)
      else
        Export.CsvText(employees)
    }

    /**
     * `addEmployee`: on a failed `validateForm` nothing changes; otherwise one
     * record with the given id, trimmed name and e-mail, untrimmed department,
     * ticked skills and certified flag is appended and the list saved.
     */
    method AddEmployee(form: EmployeeForm, id: int) returns (added: bool)
      modifies this`employees, this`stored
      ensures added == FormValid(Controls(form))
      ensures !added ==> employees == old(employees) && stored == old(stored)
      ensures added ==> employees == old(employees) + [Employee(id, Trim(form.name.value), Trim(form.email.value),
                                                                form.department.value, CheckedValues(form.skills),
                                                                form.certified)]
      ensures added ==> stored == Some(employees)
      ensures added && Inspected(form.name) ==> employees[|employees| - 1].name != []
      ensures added && Inspected(form.email) && form.email.inputType == EmailInput ==>
        EmailShaped(employees[|employees| - 1].email)
      ensures added && UniqueIds(old(employees)) && !HasId(old(employees), id) ==> UniqueIds(employees)
    {
      var ok, _ := ValidateForm(Controls(form));
      if !ok {
        added := false;
        return;
      }
      assert Controls(form)[0] == form.name && Controls(form)[1] == form.email;
      var skills := CollectCheckedSkills(form.skills);
      var e := Employee(id, Trim(form.name.value), Trim(form.email.value), form.department.value, skills, form.certified);
      employees := employees + [e];
      SaveEmployees();
      added := true;
    }

    /**
     * `deleteEmployee`: without confirmation nothing changes; with it, every
     * record carrying the id is dropped, the rest keep their order, and the list
     * is saved.
     */
    method DeleteEmployee(id: int, confirmed: bool)
      modifies this`employees, this`stored
      ensures !confirmed ==> employees == old(employees) && stored == old(stored)
      ensures confirmed ==> employees == WithoutId(old(employees), id) && stored == Some(employees)
      ensures confirmed ==> forall e :: e in employees <==> e in old(employees) && e.id != id
      ensures confirmed && !HasId(old(employees), id) ==> employees == old(employees)
      ensures UniqueIds(old(employees)) ==> UniqueIds(employees)
    {
      if confirmed {
        if !HasId(employees, id) {
          WithoutAbsentId(employees, id);
        }
        if UniqueIds(employees) {
          SubsequenceKeepsUniqueIds(WithoutId(employees, id), employees);
        }
        employees := WithoutId(employees, id);
        SaveEmployees();
      }
    }

    /**
     * `openEditModal`: the id is recorded before the lookup, so it stays set even
     * when no record has it; the found record is what the edit form is filled with.
     */
    method OpenEditModal(id: int) returns (loaded: Option<Employee>)
      modifies this`editingEmployeeId
      ensures editingEmployeeId == Some(id)
      ensures loaded == FindById(employees, id)
      ensures loaded.None? <==> !HasId(employees, id)
      ensures loaded.Some? ==> loaded.value in employees && loaded.value.id == id
    {
      editingEmployeeId := Some(id);
      FindByIdSpec(employees, id);
      loaded := FindById(employees, id);
    }

    /**
     * `handleEditSubmit`: every record whose id equals the one being edited gets
     * the form's trimmed name and e-mail, untrimmed department, ticked skills and
     * certified flag, keeping its id; the rest are untouched; the list is saved
     * and the editing marker cleared.
     */
    method HandleEditSubmit(form: EditForm)
      modifies this`employees, this`stored, this`editingEmployeeId
      ensures employees == ReplaceById(old(employees), old(editingEmployeeId),
                                       Details(Trim(form.name), Trim(form.email), form.department,
                                               CheckedValues(form.skills), form.certified))
      ensures |employees| == |old(employees)|
      ensures forall i :: 0 <= i < |employees| ==> employees[i].id == old(employees)[i].id
      ensures forall i :: 0 <= i < |employees| && old(editingEmployeeId) != Some(old(employees)[i].id) ==>
        employees[i] == old(employees)[i]
      ensures UniqueIds(old(employees)) ==> UniqueIds(employees)
      ensures stored == Some(employees) && editingEmployeeId == None
    {
      var skills := CollectCheckedSkills(form.skills);
      var details := Details(Trim(form.name), Trim(form.email), form.department, skills, form.certified);
      employees := ReplaceById(employees, editingEmployeeId, details);
      SaveEmployees();
      editingEmployeeId := None;
    }
  }

  /** `init`'s first step: a fresh page over the given storage, after `loadEmployees`. */
  method Start(storage: Option<seq<Employee>>) returns (r: Roster)
    ensures fresh(r)
    ensures storage.Some? ==> r.employees == storage.value
    ensures storage.None? ==> r.employees == Seed()
    ensures r.stored == Some(r.employees)
    ensures r.currentFilter == "All" && r.currentSearchTerm == "" && r.editingEmployeeId == None
  {
    r := new Roster(storage);
    r.LoadEmployees();
  }

  /** Saving and then opening the page again reproduces the list, empty or not. */
  method ReloadAfterSave(r: Roster) returns (next: Roster)
    modifies r`stored
    ensures fresh(next)
    ensures next.employees == r.employees
  {
    r.SaveEmployees();
    next := Start(r.stored);
  }
}
