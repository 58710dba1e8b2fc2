// The long-option table of client/src/ogrt-cmdline.c and the way check_long_opt
// looks a possibly abbreviated name up in it.
module LongOptions {
  import opened Wrappers

  const NO_ARGUMENT := 0
  const REQUIRED_ARGUMENT := 1

  // struct option.  A flag pointer is represented by the identity of the variable it
  // points to; None is the null pointer.  The table's terminating null entry is the end
  // of the sequence.
  datatype LongOption = LongOption(name: string, hasArg: int, flag: Option<nat>, val: int) {
    // What the caller of getopt can tell apart about an option.
    function Behaviour(): (int, Option<nat>, int) { (hasArg, flag, val) }
  }

  datatype Match = Found(index: nat) | Ambiguous | Unknown

  predicate Exact(table: seq<LongOption>, name: string, i: nat) {
    i < |table| && table[i].name == name
  }

  // name abbreviates (or equals) the i-th option's name
  predicate Abbreviates(table: seq<LongOption>, name: string, i: nat) {
    i < |table| && name <= table[i].name
  }

  // Some two options that name abbreviates behave differently.
  predicate Conflicting(table: seq<LongOption>, name: string) {
    exists i, j :: 0 <= i < j < |table| && Abbreviates(table, name, i) && Abbreviates(table, name, j) &&
                   table[i].Behaviour() != table[j].Behaviour()
  }

  // What a lookup may answer: the first exact match; failing that the first abbreviated
  // one, provided all abbreviated ones behave alike.
  ghost predicate Resolves(table: seq<LongOption>, name: string, m: Match) {
    match m
    case Found(i) =>
      || (Exact(table, name, i) && forall j: nat :: j < i ==> !Exact(table, name, j))
      || (&& (forall j: nat :: !Exact(table, name, j))
          && Abbreviates(table, name, i)
          && (forall j: nat :: j < i ==> !Abbreviates(table, name, j))
          && !Conflicting(table, name))
    case Ambiguous =>
      && (forall j: nat :: !Exact(table, name, j))
      && Conflicting(table, name)
    case Unknown =>
      forall j: nat :: !Abbreviates(table, name, j)
  }

  // The first index at or after i satisfying the given relation, or |table|.
  function FirstExact(table: seq<LongOption>, name: string, i: nat): (k: nat)
    requires i <= |table|
    ensures i <= k <= |table|
    ensures k < |table| ==> Exact(table, name, k)
    ensures forall j: nat :: i <= j < k ==> !Exact(table, name, j)
    decreases |table| - i
  {
    if i == |table| || Exact(table, name, i) then i else FirstExact(table, name, i + 1)
  }

  function FirstAbbreviated(table: seq<LongOption>, name: string, i: nat): (k: nat)
    requires i <= |table|
    ensures i <= k <= |table|
    ensures k < |table| ==> Abbreviates(table, name, k)
    ensures forall j: nat :: i <= j < k ==> !Abbreviates(table, name, j)
    decreases |table| - i
  {
    if i == |table| || Abbreviates(table, name, i) then i else FirstAbbreviated(table, name, i + 1)
  }

  // The answer as a value, for use in the reference parse.
  function Resolve(table: seq<LongOption>, name: string): (m: Match)
    ensures m.Found? ==> m.index < |table|
  {
    var e := FirstExact(table, name, 0);
    var a := FirstAbbreviated(table, name, 0);
    if e < |table| then Found(e)
    else if a == |table| then Unknown
    else if Conflicting(table, name) then Ambiguous
    else Found(a)
  }

  // A lookup has one answer only, and Resolve gives it.
  lemma ResolutionIsUnique(table: seq<LongOption>, name: string, m: Match)
    ensures Resolves(table, name, m) <==> m == Resolve(table, name)
  {
    var r := Resolve(table, name);
    assert forall i: nat :: Exact(table, name, i) ==> Abbreviates(table, name, i);
    if Resolves(table, name, m) && m.Found? && r.Found? {
      assert !(m.index < r.index) && !(r.index < m.index);
    }
  }

  // The single pass of check_long_opt over the table: it remembers the first abbreviated
  // match, notes a later one that behaves differently, and stops at an exact match.
  method LookUp(table: seq<LongOption>, name: string) returns (found: Option<nat>, ambig: bool, exact: bool)
    ensures (if ambig && !exact then Ambiguous else if found.Some? then Found(found.value) else Unknown)
            == Resolve(table, name)
    ensures found.Some? ==> found.value < |table|
    ensures ambig ==> found.Some?
  {
    found, ambig, exact := None, false, false;
    var i := 0;
    while i < |table|
      invariant 0 <= i <= |table|
      invariant forall j: nat :: j < i ==> !Exact(table, name, j)
      invariant found == None <==> forall j: nat :: j < i ==> !Abbreviates(table, name, j)
      invariant found.Some? ==> found.value < i && Abbreviates(table, name, found.value)
      invariant found.Some? ==> forall j: nat :: j < found.value ==> !Abbreviates(table, name, j)
      invariant ambig ==> Conflicting(table, name) && found.Some?
      invariant !ambig && found.Some? ==>
                  forall j: nat :: j < i && Abbreviates(table, name, j) ==>
                    table[j].Behaviour() == table[found.value].Behaviour()
      invariant !exact
    {
      if name <= table[i].name {
        assert Abbreviates(table, name, i);
        if |name| == |table[i].name| {
          found, exact := Some(i), true;
          assert Exact(table, name, i);
          break;
        } else if found == None {
          found := Some(i);
        } else if table[found.value].hasArg != table[i].hasArg
                  || table[found.value].flag != table[i].flag
                  || table[found.value].val != table[i].val {
          ambig := true;
        }
      }
      i := i + 1;
    }
    var m := if ambig && !exact then Ambiguous else if found.Some? then Found(found.value) else Unknown;
    ResolutionIsUnique(table, name, m);
  }

  ghost predicate DistinctNames(table: seq<LongOption>) {
    forall i, j :: 0 <= i < j < |table| ==> table[i].name != table[j].name
  }

  ghost predicate DistinctBehaviours(table: seq<LongOption>) {
    forall i, j :: 0 <= i < j < |table| ==> table[i].Behaviour() != table[j].Behaviour()
  }

  // What a lookup yields, with the option itself in place of its position.
  datatype Resolved = Chosen(option: LongOption) | Refused(why: Match)

  function Lookup(table: seq<LongOption>, name: string): Resolved {
    var m := Resolve(table, name);
    if m.Found? then Chosen(table[m.index]) else Refused(m)
  }

  // A reordering of a table has the same entries, each somewhere.
  lemma EntryIn(t1: seq<LongOption>, t2: seq<LongOption>, i: nat) returns (k: nat)
    requires multiset(t1) == multiset(t2) && i < |t1|
    ensures k < |t2| && t2[k] == t1[i]
  {
    assert t1[i] in multiset(t1);
    assert t1[i] in t2;
    k :| 0 <= k < |t2| && t2[k] == t1[i];
  }

  lemma ConflictSurvivesReordering(t1: seq<LongOption>, t2: seq<LongOption>, name: string)
    requires multiset(t1) == multiset(t2) && Conflicting(t1, name)
    ensures Conflicting(t2, name)
  {
    var i, j :| 0 <= i < j < |t1| && Abbreviates(t1, name, i) && Abbreviates(t1, name, j) &&
                t1[i].Behaviour() != t1[j].Behaviour();
    var p := EntryIn(t1, t2, i);
    var q := EntryIn(t1, t2, j);
    assert Abbreviates(t2, name, p) && Abbreviates(t2, name, q);
    assert p != q;
  }

  lemma ExactMatchSurvives(t1: seq<LongOption>, t2: seq<LongOption>, name: string, i: nat)
    requires multiset(t1) == multiset(t2) && DistinctNames(t1) && DistinctNames(t2)
    requires Exact(t1, name, i)
    ensures Lookup(t1, name) == Chosen(t1[i]) == Lookup(t2, name)
  {
    var k := EntryIn(t1, t2, i);
    assert Exact(t2, name, k);
    assert Exact(t1, name, Resolve(t1, name).index);
    assert Exact(t2, name, Resolve(t2, name).index);
  }

  lemma AbbreviationSurvives(t1: seq<LongOption>, t2: seq<LongOption>, name: string)
    requires multiset(t1) == multiset(t2)
    requires forall j: nat :: !Exact(t1, name, j)
    requires forall j: nat :: !Exact(t2, name, j)
    requires Resolve(t2, name).Found?
    requires !Conflicting(t1, name)
    ensures Lookup(t1, name).Chosen?
    ensures Lookup(t1, name).option.Behaviour() == Lookup(t2, name).option.Behaviour()
    ensures DistinctBehaviours(t1) ==> Lookup(t1, name) == Lookup(t2, name)
  {
    ResolutionIsUnique(t2, name, Resolve(t2, name));
    var k := EntryIn(t2, t1, Resolve(t2, name).index);
    assert Abbreviates(t1, name, k);
    var m := Resolve(t1, name);
    assert m.Found? && Abbreviates(t1, name, m.index) && m.index <= k;
  }

  // Reordering a table whose names are distinct changes neither whether a name resolves
  // nor how the option it resolves to behaves.  If no two options behave alike, it is the
  // very same option.
  lemma ReorderingInvariance(t1: seq<LongOption>, t2: seq<LongOption>, name: string)
    requires multiset(t1) == multiset(t2)
    requires DistinctNames(t1) && DistinctNames(t2)
    ensures Lookup(t1, name).Refused? || Lookup(t2, name).Refused? ==> Lookup(t1, name) == Lookup(t2, name)
    ensures Lookup(t1, name).Chosen? ==>
              && Lookup(t2, name).Chosen?
              && Lookup(t1, name).option.Behaviour() == Lookup(t2, name).option.Behaviour()
    ensures DistinctBehaviours(t1) ==> Lookup(t1, name) == Lookup(t2, name)
  {
    if i: nat :| Exact(t1, name, i) {
      ExactMatchSurvives(t1, t2, name, i);
    } else if i: nat :| Exact(t2, name, i) {
      ExactMatchSurvives(t2, t1, name, i);
    } else if Conflicting(t1, name) {
      ConflictSurvivesReordering(t1, t2, name);
    } else if Conflicting(t2, name) {
      ConflictSurvivesReordering(t2, t1, name);
    } else if Resolve(t2, name).Found? {
      AbbreviationSurvives(t1, t2, name);
    } else if Resolve(t1, name).Found? {
      AbbreviationSurvives(t2, t1, name);
    }
  }
}
