/**
 * The employee record, the seed roster, and the by-id list operations the
 * command handlers use: `find`, `filter` on a differing id, and `map` that
 * replaces the record with a given id.
 */
module Employees {
  import opened Wrappers
  import opened Sequences

  datatype Employee = Employee(
    id: int,
    name: string,
    email: string,
    department: string,
    skills: seq<string>,
    certified: bool)

  /** The fields an edit replaces: everything but the id. */
  datatype Details = Details(
    name: string,
    email: string,
    department: string,
    skills: seq<string>,
    certified: bool)

  /** The sample roster installed when nothing is stored. */
  function Seed(): (r: seq<Employee>)
    ensures |r| == 3
    ensures forall i :: 0 <= i < |r| ==> r[i].id == i + 1
    ensures UniqueIds(r)
  {
    [ Employee(1, "Aisha Khan", "aisha@technova.com", "HR", ["HTML", "CSS"], true),
      Employee(2, "Bob Smith", "bob@technova.com", "Engineering", ["JavaScript", "Python", "SQL"], false),
      Employee(3, "Charlie Jain", "charlie@technova.com", "Sales", ["CSS", "JavaScript"], true) ]
  }

  predicate HasId(es: seq<Employee>, id: int) {
    exists i :: 0 <= i < |es| && es[i].id == id
  }

  /** No two records share an id. */
  predicate UniqueIds(es: seq<Employee>) {
    forall i, j :: 0 <= i < j < |es| ==> es[i].id != es[j].id
  }

  /** The position of the record `find` returns for `id`: the first record carrying it. */
  function IndexOfId(es: seq<Employee>, id: int): (r: Option<nat>)
    ensures r.None? <==> !HasId(es, id)
    ensures r.Some? ==> r.value < |es| && es[r.value].id == id
    ensures r.Some? ==> forall j :: 0 <= j < r.value ==> es[j].id != id
  {
    if es == [] then None
    else if es[0].id == id then Some(0)
    else
      match IndexOfId(es[1..], id)
      case None =>
        assert forall i :: 1 <= i < |es| ==> es[i] == es[1..][i - 1];
        None
      case Some(k) => Some(k + 1)
  }

  /** `employees.find(emp => emp.id === id)`. */
  function FindById(es: seq<Employee>, id: int): (r: Option<Employee>)
    ensures r.None? <==> !HasId(es, id)
    ensures r.Some? ==> r.value in es && r.value.id == id
  {
    match IndexOfId(es, id)
    case None => None
    case Some(k) => Some(es[k])
  }

  /** What `find` returns: nothing exactly when no record has the id, and otherwise the first record that does. */
  lemma FindByIdSpec(es: seq<Employee>, id: int)
    ensures FindById(es, id).None? <==> !HasId(es, id)
    ensures FindById(es, id).Some? ==>
      exists k :: 0 <= k < |es| && es[k] == FindById(es, id).value && es[k].id == id
                  && forall j :: 0 <= j < k ==> es[j].id != id
  {
    var r := IndexOfId(es, id);
    if r.Some? {
      var k := r.value;
      assert es[k] == FindById(es, id).value;
    }
  }

  /** `employees.filter(emp => emp.id !== id)`. */
  function WithoutId(es: seq<Employee>, id: int): (r: seq<Employee>)
    ensures IsSubsequence(r, es)
    ensures forall e :: multiset(r)[e] == if e.id != id then multiset(es)[e] else 0
    ensures !HasId(r, id)
  {
    var r := Keep(es, (e: Employee) => e.id != id);
    assert forall i :: 0 <= i < |r| ==> r[i] in r;
    r
  }

  /** Removing an id no record carries changes nothing. */
  lemma WithoutAbsentId(es: seq<Employee>, id: int)
    requires !HasId(es, id)
    ensures WithoutId(es, id) == es
  {
    forall e | e in es ensures e.id != id {
      var i :| 0 <= i < |es| && es[i] == e;
    }
    KeepEverything(es, (e: Employee) => e.id != id);
  }

  /** Deleting records keeps the remaining ids distinct. */
  lemma {:induction false} SubsequenceKeepsUniqueIds(a: seq<Employee>, b: seq<Employee>)
    requires IsSubsequence(a, b) && UniqueIds(b)
    ensures UniqueIds(a)
    decreases |b|
  {
    if a != [] {
      if a[0] == b[0] && IsSubsequence(a[1..], b[1..]) {
        SubsequenceKeepsUniqueIds(a[1..], b[1..]);
        forall j | 1 <= j < |a| ensures a[0].id != a[j].id {
          assert a[j] == a[1..][j - 1];
          SubsequenceMembers(a[1..], b[1..], a[j]);
          var k :| 0 <= k < |b[1..]| && b[1..][k] == a[j];
          assert b[k + 1] == a[j];
        }
      } else {
        SubsequenceKeepsUniqueIds(a, b[1..]);
      }
    }
  }

  function WithDetails(id: int, d: Details): Employee {
    Employee(id, d.name, d.email, d.department, d.skills, d.certified)
  }

  /**
   * `employees.map(emp => emp.id === target ? {id: emp.id, ...details} : emp)`;
   * a `target` of `None` stands for JavaScript's `null`, which no id equals.
   */
  function ReplaceById(es: seq<Employee>, target: Option<int>, d: Details): (r: seq<Employee>)
    ensures |r| == |es|
    ensures forall i :: 0 <= i < |es| ==> r[i].id == es[i].id
    ensures forall i :: 0 <= i < |es| && target != Some(es[i].id) ==> r[i] == es[i]
    ensures forall i :: 0 <= i < |es| && target == Some(es[i].id) ==> r[i] == WithDetails(es[i].id, d)
  {
    seq(|es|, i requires 0 <= i < |es| =>
      if target == Some(es[i].id) then WithDetails(es[i].id, d) else es[i])
  }

  /** Applying the same edit twice has the effect of applying it once. */
  lemma ReplaceByIdIdempotent(es: seq<Employee>, target: Option<int>, d: Details)
    ensures ReplaceById(ReplaceById(es, target, d), target, d) == ReplaceById(es, target, d)
  {
  }

  /** An edit keeps the ids distinct, and with distinct ids it changes at most one record. */
  lemma ReplaceByIdChangesOne(es: seq<Employee>, target: Option<int>, d: Details)
    requires UniqueIds(es)
    ensures UniqueIds(ReplaceById(es, target, d))
    ensures forall i, j :: 0 <= i < j < |es| ==>
      ReplaceById(es, target, d)[i] == es[i] || ReplaceById(es, target, d)[j] == es[j]
  {
  }
}
