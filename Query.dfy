/**
 * The view pipeline of `filterAndRender`: a category stage on the full list,
 * then a free-text search stage on its result. Both stages keep order.
 */
module Query {
  import opened Text
  import opened Sequences
  import opened Employees

  /** Whether a record passes the category filter (`"All"`, `"Certified"` or a department). */
  predicate InCategory(e: Employee, filter: string) {
    if filter == "All" then true
    else if filter == "Certified" then e.certified
    else e.department == filter
  }

  /** The category stage of `filterAndRender`. */
  function CategoryStage(es: seq<Employee>, filter: string): (r: seq<Employee>)
    ensures IsSubsequence(r, es)
    ensures filter == "All" ==> r == es
    ensures filter == "Certified" ==>
      forall e :: multiset(r)[e] == if e.certified then multiset(es)[e] else 0
    ensures filter != "All" && filter != "Certified" ==>
      forall e :: multiset(r)[e] == if e.department == filter then multiset(es)[e] else 0
    ensures forall e :: multiset(r)[e] == if InCategory(e, filter) then multiset(es)[e] else 0
  {
    if filter == "All" then
      SubsequenceReflexive(es);
      es
    else if filter == "Certified" then
      Keep(es, (e: Employee) => e.certified)
    else
      Keep(es, (e: Employee) => e.department == filter)
  }

  /** The search term as the pipeline uses it: `toLowerCase().trim()`. */
  function NormalizedTerm(term: string): (r: string)
    ensures r == [] <==> forall i :: 0 <= i < |term| ==> IsSpace(term[i])
  {
    var low := Lower(term);
    assert forall i :: 0 <= i < |term| ==> (IsSpace(low[i]) <==> IsSpace(term[i]));
    Trim(low)
  }

  /** Some skill of the record, lower-cased, contains `t`. */
  predicate SkillMatches(e: Employee, t: string) {
    exists k :: 0 <= k < |e.skills| && Contains(Lower(e.skills[k]), t)
  }

  /** The search predicate: the lower-cased name or some lower-cased skill contains `t`. */
  predicate Matches(e: Employee, t: string) {
    Contains(Lower(e.name), t) || SkillMatches(e, t)
  }

  /** The search stage: an empty normalized term keeps everything. */
  function SearchStage(es: seq<Employee>, term: string): (r: seq<Employee>)
    ensures IsSubsequence(r, es)
    ensures NormalizedTerm(term) == [] ==> r == es
    ensures NormalizedTerm(term) != [] ==>
      forall e :: multiset(r)[e] == if Matches(e, NormalizedTerm(term)) then multiset(es)[e] else 0
  {
    var t := NormalizedTerm(term);
    if t == [] then SubsequenceReflexive(es); es else Keep(es, (e: Employee) => Matches(e, t))
  }

  /** What `filterAndRender` passes to `renderTable`. */
  function View(es: seq<Employee>, filter: string, term: string): (r: seq<Employee>)
    ensures IsSubsequence(r, es)
    ensures filter == "All" && NormalizedTerm(term) == [] ==> r == es
  {
    var c := CategoryStage(es, filter);
    SubsequenceTransitive(SearchStage(c, term), c, es);
    SearchStage(c, term)
  }

  /** A record is shown by the view pipeline. */
  predicate Shown(e: Employee, filter: string, term: string) {
    InCategory(e, filter) && (NormalizedTerm(term) == [] || Matches(e, NormalizedTerm(term)))
  }

  /**
   * The view is an order-preserving subsequence of the roster holding every copy
   * of each record that passes both stages and nothing else; in particular a
   * record the category stage rejects is never shown, whatever the search term.
   */
  lemma ViewSpec(es: seq<Employee>, filter: string, term: string)
    ensures IsSubsequence(View(es, filter, term), es)
    ensures forall e ::
              multiset(View(es, filter, term))[e] == if Shown(e, filter, term) then multiset(es)[e] else 0
    ensures forall e :: e in View(es, filter, term) <==> e in es && Shown(e, filter, term)
  {
    var c := CategoryStage(es, filter);
    SubsequenceTransitive(View(es, filter, term), c, es);
  }

  /** Searching for part of a record's name finds it whenever its category is active. */
  lemma NameSearchFinds(es: seq<Employee>, e: Employee, filter: string, term: string)
    requires e in es && InCategory(e, filter)
    requires NormalizedTerm(term) != [] && Contains(Lower(e.name), NormalizedTerm(term))
    ensures e in View(es, filter, term)
  {
    ViewSpec(es, filter, term);
  }
}
