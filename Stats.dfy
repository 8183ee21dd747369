/**
 * The figures `updateStats` computes over the full roster: the total, the
 * certified and non-certified counts and the most common skill.
 */
module Stats {
  import opened Sequences
  import opened Employees

  datatype Statistics = Statistics(
    total: nat,
    certifiedCount: nat,
    nonCertifiedCount: nat,
    mostCommonSkill: string)

  /** `employees.flatMap(emp => emp.skills)`. */
  function AllSkills(es: seq<Employee>): (r: seq<string>)
    ensures r == [] <==> forall i :: 0 <= i < |es| ==> es[i].skills == []
    ensures forall s :: s in r <==> exists i :: 0 <= i < |es| && s in es[i].skills
  {
    if es == [] then []
    else
      var rest := AllSkills(es[1..]);
      assert forall i :: 1 <= i < |es| ==> es[i] == es[1..][i - 1];
      es[0].skills + rest
  }

  /** The position of the first occurrence of `x` in `s`. */
  function FirstIndex(s: seq<string>, x: string): (k: nat)
    requires x in s
    ensures k < |s| && s[k] == x
    ensures forall j :: 0 <= j < k ==> s[j] != x
  {
    if s[0] == x then 0 else 1 + FirstIndex(s[1..], x)
  }

  /** Extending a sequence does not move the first occurrence of an element it already has. */
  lemma FirstIndexOfExtension(s: seq<string>, t: seq<string>, x: string)
    requires x in s
    ensures FirstIndex(s + t, x) == FirstIndex(s, x)
  {
    var a, b := FirstIndex(s + t, x), FirstIndex(s, x);
    assert (s + t)[b] == x;
    assert a <= b;
    assert s[a] == (s + t)[a];
  }

  /** The frequency map `skillCounts`, built by the same left-to-right `reduce`. */
  function Tally(s: seq<string>): (m: map<string, nat>)
    ensures m.Keys == set x | x in s
    ensures forall x :: x in m ==> m[x] == multiset(s)[x]
  {
    if s == [] then map[]
    else
      var p, k := s[..|s| - 1], s[|s| - 1];
      assert s == p + [k];
      var m := Tally(p);
      m[k := (if k in m then m[k] else 0) + 1]
  }

  /**
   * `Object.keys(skillCounts)`: the distinct skills in the order they were first
   * inserted (skill names are taken not to look like array indices, whose keys
   * JavaScript would enumerate first).
   */
  function KeyOrder(s: seq<string>): (keys: seq<string>)
    ensures forall x :: x in keys <==> x in s
    ensures |s| > 0 ==> |keys| > 0
  {
    if s == [] then []
    else
      var p, k := s[..|s| - 1], s[|s| - 1];
      assert s == p + [k];
      var keys := KeyOrder(p);
      if k in keys then keys else keys + [k]
  }

  /** The keys are distinct and listed by increasing first occurrence. */
  lemma {:induction false} KeyOrderIsFirstOccurrenceOrder(s: seq<string>)
    ensures forall i, j :: 0 <= i < j < |KeyOrder(s)| ==>
      FirstIndex(s, KeyOrder(s)[i]) < FirstIndex(s, KeyOrder(s)[j])
  {
    if s != [] {
      var p, k := s[..|s| - 1], s[|s| - 1];
      assert s == p + [k];
      KeyOrderIsFirstOccurrenceOrder(p);
      var keys := KeyOrder(p);
      forall x | x in p ensures FirstIndex(s, x) == FirstIndex(p, x) {
        FirstIndexOfExtension(p, [k], x);
      }
      if k !in keys {
        assert FirstIndex(s, k) == |p|;
      }
    }
  }

  lemma KeyOrderDistinct(s: seq<string>)
    ensures forall i, j :: 0 <= i < j < |KeyOrder(s)| ==> KeyOrder(s)[i] != KeyOrder(s)[j]
  {
    KeyOrderIsFirstOccurrenceOrder(s);
  }

  /** `r` occurs in `keys` at position `j` or later. */
  predicate OccursFrom(keys: seq<string>, j: int, r: string) {
    exists i :: j <= i < |keys| && 0 <= i && keys[i] == r
  }

  /** Every key has a count in `m`. */
  predicate AllCounted(keys: seq<string>, m: map<string, nat>) {
    forall j :: 0 <= j < |keys| ==> keys[j] in m
  }

  /** `keys.reduce((a, b) => m[a] > m[b] ? a : b)`, the left fold written on prefixes. */
  function ReduceToMostFrequent(keys: seq<string>, m: map<string, nat>): (r: string)
    requires |keys| > 0 && AllCounted(keys, m)
    ensures r in m
  {
    var n := |keys|;
    if n == 1 then keys[0]
    else
      assert AllCounted(keys[..n - 1], m) by {
        assert forall j :: 0 <= j < n - 1 ==> keys[..n - 1][j] == keys[j];
      }
      var a := ReduceToMostFrequent(keys[..n - 1], m);
      if m[a] > m[keys[n - 1]] then a else keys[n - 1]
  }

  /** The reduction keeps a key with the largest count, and that key is one of the keys. */
  lemma {:induction false} ReduceToMostFrequentIsMax(keys: seq<string>, m: map<string, nat>)
    requires |keys| > 0 && AllCounted(keys, m)
    ensures ReduceToMostFrequent(keys, m) in keys
    ensures forall j :: 0 <= j < |keys| ==> m[keys[j]] <= m[ReduceToMostFrequent(keys, m)]
  {
    var n := |keys|;
    if n > 1 {
      var p := keys[..n - 1];
      assert forall j :: 0 <= j < n - 1 ==> p[j] == keys[j];
      ReduceToMostFrequentIsMax(p, m);
    }
  }

  /**
   * A later key replaces the accumulator unless the accumulator's count is
   * strictly larger, so no key with the largest count comes after the result.
   */
  lemma {:induction false} ReduceToMostFrequentIsLast(keys: seq<string>, m: map<string, nat>)
    requires |keys| > 0 && AllCounted(keys, m)
    ensures forall j :: 0 <= j < |keys| && m[keys[j]] == m[ReduceToMostFrequent(keys, m)] ==>
      OccursFrom(keys, j, ReduceToMostFrequent(keys, m))
  {
    var r := ReduceToMostFrequent(keys, m);
    var n := |keys|;
    if n == 1 {
      assert OccursFrom(keys, 0, r);
    } else {
      var p, b := keys[..n - 1], keys[n - 1];
      assert forall j :: 0 <= j < n - 1 ==> p[j] == keys[j];
      var a := ReduceToMostFrequent(p, m);
      if m[a] > m[b] {
        ReduceToMostFrequentIsLast(p, m);
        forall j | 0 <= j < n && m[keys[j]] == m[r] ensures OccursFrom(keys, j, r) {
          var i :| j <= i < |p| && 0 <= i && p[i] == a;
          assert keys[i] == r;
        }
      } else {
        forall j | 0 <= j < n ensures OccursFrom(keys, j, r) {
          assert keys[n - 1] == r;
        }
      }
    }
  }

  /** The skill the frequency map and its key order select from a non-empty list of skills. */
  function MostFrequent(all: seq<string>): (r: string)
    requires all != []
    ensures r in all
  {
    var keys := KeyOrder(all);
    assert AllCounted(keys, Tally(all)) by {
      assert forall j :: 0 <= j < |keys| ==> keys[j] in keys;
    }
    ReduceToMostFrequent(keys, Tally(all))
  }

  /**
   * The selected skill occurs in the list, no skill occurs more often, and among
   * the skills that occur equally often it is the one whose first occurrence
   * comes last.
   */
  lemma MostFrequentSpec(all: seq<string>)
    requires all != []
    ensures MostFrequent(all) in all
    ensures forall s :: s in all ==> multiset(all)[s] <= multiset(all)[MostFrequent(all)]
    ensures forall s :: s in all && multiset(all)[s] == multiset(all)[MostFrequent(all)] ==>
      FirstIndex(all, s) <= FirstIndex(all, MostFrequent(all))
  {
    var keys, m := KeyOrder(all), Tally(all);
    assert AllCounted(keys, m) by {
      assert forall j :: 0 <= j < |keys| ==> keys[j] in keys;
    }
    ReduceToMostFrequentIsMax(keys, m);
    forall s | s in all
      ensures multiset(all)[s] <= multiset(all)[MostFrequent(all)]
      ensures multiset(all)[s] == multiset(all)[MostFrequent(all)] ==>
        FirstIndex(all, s) <= FirstIndex(all, MostFrequent(all))
    {
      MostFrequentBeats(all, s);
    }
  }

  /** `MostFrequentSpec` for one skill `s`. */
  lemma MostFrequentBeats(all: seq<string>, s: string)
    requires s in all
    ensures multiset(all)[s] <= multiset(all)[MostFrequent(all)]
    ensures multiset(all)[s] == multiset(all)[MostFrequent(all)] ==>
      FirstIndex(all, s) <= FirstIndex(all, MostFrequent(all))
  {
    var keys, m := KeyOrder(all), Tally(all);
    var r := MostFrequent(all);
    var j :| 0 <= j < |keys| && keys[j] == s;
    assert AllCounted(keys, m) by {
      assert forall j :: 0 <= j < |keys| ==> keys[j] in keys;
    }
    ReduceToMostFrequentIsMax(keys, m);
    assert m[keys[j]] <= m[r];
    if multiset(all)[s] == multiset(all)[r] {
      ReduceToMostFrequentIsLast(keys, m);
      assert OccursFrom(keys, j, r);
      var i :| j <= i < |keys| && 0 <= i && keys[i] == r;
      KeyOrderIsFirstOccurrenceOrder(all);
      assert i == j || FirstIndex(all, keys[j]) < FirstIndex(all, keys[i]);
    }
  }

  /** The `mostCommonSkill` shown by `updateStats`: `"N/A"` when nobody has a skill. */
  function MostCommonSkill(es: seq<Employee>): (r: string)
    ensures AllSkills(es) == [] ==> r == "N/A"
    ensures AllSkills(es) != [] ==> r in AllSkills(es)
  {
    var all := AllSkills(es);
    if all == [] then "N/A" else MostFrequent(all)
  }

  /**
   * With no skill present the result is `"N/A"`; otherwise it is a skill someone
   * has, no skill occurs more often, and among the skills that occur equally
   * often it is the one whose first occurrence comes last.
   */
  lemma MostCommonSkillSpec(es: seq<Employee>)
    ensures AllSkills(es) == [] ==> MostCommonSkill(es) == "N/A"
    ensures AllSkills(es) != [] ==>
      var all, r := AllSkills(es), MostCommonSkill(es);
      && r in all
      && (forall s :: s in all ==> multiset(all)[s] <= multiset(all)[r])
      && (forall s :: s in all && multiset(all)[s] == multiset(all)[r] ==> FirstIndex(all, s) <= FirstIndex(all, r))
  {
    var all := AllSkills(es);
    if all != [] {
      MostFrequentSpec(all);
    }
  }

  /** "N/A" is reported exactly when no record has a skill, unless some skill is literally named "N/A". */
  lemma NotApplicableIffNoSkills(es: seq<Employee>)
    requires "N/A" !in AllSkills(es)
    ensures MostCommonSkill(es) == "N/A" <==> forall i :: 0 <= i < |es| ==> es[i].skills == []
  {
    MostCommonSkillSpec(es);
  }

  /** `employees.filter(emp => emp.certified).length`. */
  function CertifiedCount(es: seq<Employee>): (n: nat)
    ensures n <= |es|
    ensures n == |Keep(es, (e: Employee) => e.certified)|
  {
    |Keep(es, (e: Employee) => e.certified)|
  }

  /** The figures `updateStats` displays. */
  function ComputeStatistics(es: seq<Employee>): (r: Statistics)
    ensures r.total == |es|
    ensures r.certifiedCount <= r.total
    ensures r.certifiedCount == CertifiedCount(es)
    ensures r.certifiedCount + r.nonCertifiedCount == r.total
    ensures r.mostCommonSkill == MostCommonSkill(es)
  {
    var c := CertifiedCount(es);
    var r := Statistics(|es|, c, |es| - c, MostCommonSkill(es));
    r
  }

  /** The non-certified count is zero exactly when every record is certified. */
  lemma NoneUncertifiedIffAllCertified(es: seq<Employee>)
    ensures ComputeStatistics(es).nonCertifiedCount == 0 <==> forall i :: 0 <= i < |es| ==> es[i].certified
  {
    var p := (e: Employee) => e.certified;
    if forall i :: 0 <= i < |es| ==> es[i].certified {
      KeepEverything(es, p);
    }
    if ComputeStatistics(es).nonCertifiedCount == 0 {
      SubsequenceOfSameLength(Keep(es, p), es);
      assert forall i :: 0 <= i < |es| ==> es[i] in Keep(es, p);
    }
  }

  /** The skills of the seed roster, in `flatMap` order. */
  lemma SeedSkills()
    ensures AllSkills(Seed()) == ["HTML", "CSS", "JavaScript", "Python", "SQL", "CSS", "JavaScript"]
  {
    var es := Seed();
    assert es[2..][1..] == [];
    assert AllSkills(es[2..]) == ["CSS", "JavaScript"];
    assert es[1..][1..] == es[2..];
    assert AllSkills(es[1..]) == ["JavaScript", "Python", "SQL", "CSS", "JavaScript"];
  }

  /** On the seed roster CSS and JavaScript both occur twice; the tie goes to JavaScript. */
  lemma SeedMostCommonSkill()
    ensures MostCommonSkill(Seed()) == "JavaScript"
  {
    var all := AllSkills(Seed());
    var r := MostCommonSkill(Seed());
    assert && r in all
           && multiset(all)["JavaScript"] <= multiset(all)[r]
           && (multiset(all)["JavaScript"] == multiset(all)[r] ==> FirstIndex(all, "JavaScript") <= FirstIndex(all, r))
    by {
      SeedSkills();
      MostCommonSkillSpec(Seed());
    }
    SeedSkills();
    SeedTieBreak(all, r);
  }

  /** The case analysis behind `SeedMostCommonSkill`: CSS ties with JavaScript but occurs first. */
  lemma SeedTieBreak(all: seq<string>, r: string)
    requires all == ["HTML", "CSS", "JavaScript", "Python", "SQL", "CSS", "JavaScript"]
    requires r in all && multiset(all)["JavaScript"] <= multiset(all)[r]
    requires multiset(all)["JavaScript"] == multiset(all)[r] ==> FirstIndex(all, "JavaScript") <= FirstIndex(all, r)
    ensures r == "JavaScript"
  {
    assert multiset(all)["JavaScript"] == 2;
    var i :| 0 <= i < |all| && all[i] == r;
  }
}
