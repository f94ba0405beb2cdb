/** The phenotype table of Phenotype.java: accession name -> AgRenSeq score,
    more positive for more resistant accessions. A phenotype file is a
    sequence of lines: the name in the first tab field, score columns after
    it. Scores are reals, not IEEE doubles. */
module Phenotypes {
  import opened Text
  import opened Sums

  // ------------------------------------------------------------ score lines

  /** The fields that parse as numbers, in order; the others are left out. */
  function Numbers(fields: seq<string>): (r: seq<real>)
    ensures |r| <= |fields|
  {
    if fields == [] then []
    else
      var init := Numbers(fields[..|fields| - 1]);
      match ParseDecimal(fields[|fields| - 1])
      case Some(v) => init + [v]
      case None => init
  }

  function Total(xs: seq<real>): (r: real) {
    if xs == [] then 0.0 else Total(xs[..|xs| - 1]) + xs[|xs| - 1]
  }

  lemma NumbersStep(fields: seq<string>, n: nat)
    requires n < |fields|
    ensures Numbers(fields[..n + 1]) ==
            Numbers(fields[..n]) + (if ParseDecimal(fields[n]).Some? then [ParseDecimal(fields[n]).value] else [])
  {
    assert fields[..n + 1][..n] == fields[..n];
  }

  lemma TotalAppend(xs: seq<real>, v: real)
    ensures Total(xs + [v]) == Total(xs) + v
  {
    assert (xs + [v])[..|xs|] == xs;
  }

  /** One more field adds its value, if it has one, to the total and one
      to the count. */
  lemma ColumnStep(fields: seq<string>, i: nat)
    requires i < |fields|
    ensures var p := ParseDecimal(fields[i]);
      && Total(Numbers(fields[..i + 1])) == Total(Numbers(fields[..i])) + (if p.Some? then p.value else 0.0)
      && |Numbers(fields[..i + 1])| == |Numbers(fields[..i])| + (if p.Some? then 1 else 0)
  {
    NumbersStep(fields, i);
    var p := ParseDecimal(fields[i]);
    if p.Some? {
      TotalAppend(Numbers(fields[..i]), p.value);
    } else {
      assert Numbers(fields[..i]) + [] == Numbers(fields[..i]);
    }
  }

  /** The average of a non-empty sequence. */
  function Mean(xs: seq<real>): (r: real)
    requires xs != []
  {
    Total(xs) / |xs| as real
  }

  /** A line readScores can take: it has a first field, and at least one
      later field is numeric (with none, Java stores 0/0, which is NaN). */
  predicate Scorable(line: string) {
    var split := Split(line, '\t');
    |split| >= 1 && Numbers(split[1..]) != []
  }

  function LineName(line: string): (r: string)
    requires Scorable(line)
  {
    Split(line, '\t')[0]
  }

  /** The average of the numeric columns after the first. */
  function LineScore(line: string): (r: real)
    requires Scorable(line)
  {
    Mean(Numbers(Split(line, '\t')[1..]))
  }

  /** The (name, score) pair each line of a phenotype file puts. */
  function Entries(lines: seq<string>): (r: seq<(string, real)>)
    requires forall j :: 0 <= j < |lines| ==> Scorable(lines[j])
    ensures |r| == |lines|
  {
    seq(|lines|, j requires 0 <= j < |lines| && Scorable(lines[j]) => (LineName(lines[j]), LineScore(lines[j])))
  }

  /** The table after putting the entries in order. */
  function Assign(m: map<string, real>, entries: seq<(string, real)>): (r: map<string, real>) {
    if entries == [] then m
    else Assign(m, entries[..|entries| - 1])[entries[|entries| - 1].0 := entries[|entries| - 1].1]
  }

  /** A name is in the table after the entries iff it was before or some
      entry names it. */
  lemma {:induction false} AssignDomain(m: map<string, real>, entries: seq<(string, real)>, name: string)
    ensures name in Assign(m, entries) <==> name in m || exists j :: 0 <= j < |entries| && entries[j].0 == name
  {
    if entries != [] {
      var init := entries[..|entries| - 1];
      AssignDomain(m, init, name);
      if exists j :: 0 <= j < |entries| && entries[j].0 == name {
        var j :| 0 <= j < |entries| && entries[j].0 == name;
        if j < |init| {
          assert init[j].0 == name;
        }
      }
      if exists j :: 0 <= j < |init| && init[j].0 == name {
        var j :| 0 <= j < |init| && init[j].0 == name;
        assert entries[j].0 == name;
      }
    }
  }

  /** A later line overwrites an earlier one: a name's score is that of the
      last entry naming it. */
  lemma {:induction false} LastLineWins(m: map<string, real>, entries: seq<(string, real)>, j: nat)
    requires j < |entries|
    requires forall l :: j < l < |entries| ==> entries[l].0 != entries[j].0
    ensures entries[j].0 in Assign(m, entries)
    ensures Assign(m, entries)[entries[j].0] == entries[j].1
  {
    var last := |entries| - 1;
    if j < last {
      var init := entries[..last];
      assert init[j] == entries[j];
      LastLineWins(m, init, j);
    }
  }

  lemma {:induction false} TotalBounds(xs: seq<real>, lo: real, hi: real)
    requires forall i :: 0 <= i < |xs| ==> lo <= xs[i] <= hi
    ensures |xs| as real * lo <= Total(xs) <= |xs| as real * hi
  {
    if xs != [] {
      TotalBounds(xs[..|xs| - 1], lo, hi);
    }
  }

  /** The average of the score columns lies between their smallest and
      largest value. */
  lemma MeanBounds(xs: seq<real>, lo: real, hi: real)
    requires xs != []
    requires forall i :: 0 <= i < |xs| ==> lo <= xs[i] <= hi
    ensures lo <= Mean(xs) <= hi
  {
    TotalBounds(xs, lo, hi);
    var n := |xs| as real;
    assert Total(xs) / n >= (n * lo) / n;
    assert Total(xs) / n <= (n * hi) / n;
  }

  // ------------------------------------------------------------ name lists

  /** The name a list line contributes: the first tab field of the trimmed
      line (the empty name for a blank line). */
  function ListedName(line: string): (r: string) {
    FirstField(Trim(line), '\t')
  }

  /** ListedName is the first tab field of the trimmed line, as Java
      splits it. */
  lemma ListedNameSplit(line: string)
    ensures var split := Split(Trim(line), '\t');
      |split| >= 1 && split[0] == ListedName(line)
  {
    SplitFirst(Trim(line), '\t');
  }

  /** The names of all list lines. */
  function ListedNames(lines: seq<string>): (r: set<string>) {
    if lines == [] then {}
    else ListedNames(lines[..|lines| - 1]) + {ListedName(lines[|lines| - 1])}
  }

  /** A name is listed iff some line of the list gives it. */
  lemma {:induction false} ListedNamesMembers(lines: seq<string>, name: string)
    ensures name in ListedNames(lines) <==> exists j :: 0 <= j < |lines| && ListedName(lines[j]) == name
  {
    if lines != [] {
      var init := lines[..|lines| - 1];
      ListedNamesMembers(init, name);
      if name in ListedNames(init) {
        var j :| 0 <= j < |init| && ListedName(init[j]) == name;
        assert init[j] == lines[j];
      }
      if exists j :: 0 <= j < |lines| && ListedName(lines[j]) == name {
        var j :| 0 <= j < |lines| && ListedName(lines[j]) == name;
        if j < |init| {
          assert init[j] == lines[j];
        }
      }
    }
  }

  function Selected(m: map<string, real>, usable: set<string>): (r: map<string, real>) {
    map a | a in m && a in usable :: m[a]
  }

  function Removed(m: map<string, real>, unusable: set<string>): (r: map<string, real>) {
    map a | a in m && a !in unusable :: m[a]
  }

  /** Selecting and removing the same names split the table in two: no
      name in both, every name in one, scores unchanged. */
  lemma SelectRemovePartition(m: map<string, real>, names: set<string>)
    ensures Selected(m, names).Keys !! Removed(m, names).Keys
    ensures Selected(m, names).Keys + Removed(m, names).Keys == m.Keys
    ensures Selected(m, names).Keys == m.Keys * names
    ensures forall a :: a in Selected(m, names) ==> Selected(m, names)[a] == m[a]
    ensures forall a :: a in Removed(m, names) ==> Removed(m, names)[a] == m[a]
  {
  }

  // ------------------------------------------------------------ aggregates

  function Positives(m: map<string, real>): (r: set<string>) {
    set a | a in m && m[a] > 0.0
  }

  /** getMaxScore: the sum of the strictly positive scores. */
  ghost function MaxScore(m: map<string, real>): (r: real) {
    SumOf(m, Positives(m))
  }

  /** getTotalScore: the sum of all scores. */
  ghost function TotalScore(m: map<string, real>): (r: real) {
    SumOf(m, m.Keys)
  }

  lemma MaxScoreNonNegative(m: map<string, real>)
    ensures MaxScore(m) >= 0.0
  {
    SumNonNegative(m, Positives(m));
  }

  /** The total never exceeds the maximum: the other scores are at most 0. */
  lemma TotalAtMostMax(m: map<string, real>)
    ensures TotalScore(m) <= MaxScore(m)
  {
    var pos := Positives(m);
    var rest := m.Keys - pos;
    assert m.Keys == pos + rest;
    SumUnion(m, pos, rest);
    SumNonPositive(m, rest);
  }

  /** The scores of any set of accessions sum to at most the maximum. */
  lemma SubsetAtMostMax(m: map<string, real>, keys: set<string>)
    requires keys <= m.Keys
    ensures SumOf(m, keys) <= MaxScore(m)
  {
    var pos := Positives(m);
    var kp, kn := keys * pos, keys - pos;
    assert keys == kp + kn;
    SumUnion(m, kp, kn);
    SumNonPositive(m, kn);
    assert pos == kp + (pos - kp);
    SumUnion(m, kp, pos - kp);
    SumNonNegative(m, pos - kp);
  }

  // ------------------------------------------------------------ the class

  class Phenotype {
    var phenoScores: map<string, real>

    /** An empty table. */
    constructor ()
      ensures phenoScores == map[]
    {
      phenoScores := map[];
    }

    /** A table with the given scores. */
    constructor FromScores(phenoScores: map<string, real>)
      ensures this.phenoScores == phenoScores
    {
      this.phenoScores := phenoScores;
    }

    /** A table read from a phenotype file. */
    constructor FromFile(lines: seq<string>)
      requires forall j :: 0 <= j < |lines| ==> Scorable(lines[j])
      ensures phenoScores == Assign(map[], Entries(lines))
    {
      phenoScores := map[];
      new;
      ReadScores(lines);
    }

    /** readScores: each line puts its name with the average of its numeric
        columns, overwriting an earlier line of the same name. */
    method ReadScores(lines: seq<string>)
      requires forall j :: 0 <= j < |lines| ==> Scorable(lines[j])
      modifies this
      ensures phenoScores == Assign(old(phenoScores), Entries(lines))
    {
      ghost var entries := Entries(lines);
      for l := 0 to |lines|
        invariant phenoScores == Assign(old(phenoScores), entries[..l])
      {
        assert entries[..l + 1][..l] == entries[..l];
        var split := Split(lines[l], '\t');
        var d, count := ScoreColumns(split);
        phenoScores := phenoScores[split[0] := d / count as real];
      }
      assert entries[..|lines|] == entries;
    }

    /** The inner loop of readScores: the sum and the number of the fields
        after the first that parse as numbers. */
    method ScoreColumns(split: seq<string>) returns (d: real, count: nat)
      requires |split| >= 1
      ensures d == Total(Numbers(split[1..])) && count == |Numbers(split[1..])|
    {
      d, count := 0.0, 0;
      var fields := split[1..];
      for i := 0 to |fields|
        invariant d == Total(Numbers(fields[..i])) && count == |Numbers(fields[..i])|
      {
        ColumnStep(fields, i);
        var parsed := ParseDecimal(fields[i]);
        if parsed.Some? {
          d := d + parsed.value;
          count := count + 1;
        }
      }
      assert fields[..|fields|] == fields;
    }

    /** selectAccessions: keep only the names listed. */
    method SelectAccessions(lines: seq<string>)
      modifies this
      ensures phenoScores == Selected(old(phenoScores), ListedNames(lines))
    {
      var usable: set<string> := {};
      for l := 0 to |lines|
        invariant usable == ListedNames(lines[..l])
        invariant phenoScores == old(phenoScores)
      {
        assert lines[..l + 1][..l] == lines[..l];
        var split := Split(Trim(lines[l]), '\t');
        ListedNameSplit(lines[l]);
        var accession := split[0];
        usable := usable + {accession};
      }
      assert lines[..|lines|] == lines;
      var unusable: set<string> := {};
      var rest := phenoScores.Keys;
      while rest != {}
        invariant rest <= phenoScores.Keys
        invariant phenoScores == old(phenoScores)
        invariant unusable == set a | a in phenoScores && a !in rest && a !in usable
        decreases rest
      {
        var accession :| accession in rest;
        if accession !in usable {
          unusable := unusable + {accession};
        }
        rest := rest - {accession};
      }
      var toRemove := unusable;
      while toRemove != {}
        invariant toRemove <= unusable
        invariant phenoScores == old(phenoScores) - (unusable - toRemove)
        decreases toRemove
      {
        var accession :| accession in toRemove;
        phenoScores := phenoScores - {accession};
        toRemove := toRemove - {accession};
      }
      assert phenoScores == old(phenoScores) - unusable;
    }

    /** removeAccessions: drop the names listed; names not in the table
        are ignored. */
    method RemoveAccessions(lines: seq<string>)
      modifies this
      ensures phenoScores == Removed(old(phenoScores), ListedNames(lines))
    {
      for l := 0 to |lines|
        invariant phenoScores == old(phenoScores) - ListedNames(lines[..l])
      {
        assert lines[..l + 1][..l] == lines[..l];
        var split := Split(Trim(lines[l]), '\t');
        ListedNameSplit(lines[l]);
        var accession := split[0];
        phenoScores := phenoScores - {accession};
      }
      assert lines[..|lines|] == lines;
    }

    method GetMaxScore() returns (d: real)
      ensures d == MaxScore(phenoScores)
    {
      d := 0.0;
      var rest := phenoScores.Keys;
      while rest != {}
        invariant rest <= phenoScores.Keys
        invariant d == SumOf(phenoScores, Positives(phenoScores) - rest)
        decreases rest
      {
        var accession :| accession in rest;
        var e := phenoScores[accession];
        ghost var done := Positives(phenoScores) - rest;
        assert accession !in done;
        if e > 0.0 {
          SumRemove(phenoScores, done + {accession}, accession);
          assert done + {accession} - {accession} == done;
          d := d + e;
        }
        rest := rest - {accession};
        assert Positives(phenoScores) - rest == if e > 0.0 then done + {accession} else done;
      }
      assert Positives(phenoScores) - rest == Positives(phenoScores);
    }

    method GetTotalScore() returns (d: real)
      ensures d == TotalScore(phenoScores)
    {
      d := 0.0;
      var rest := phenoScores.Keys;
      while rest != {}
        invariant rest <= phenoScores.Keys
        invariant d == SumOf(phenoScores, phenoScores.Keys - rest)
        decreases rest
      {
        var accession :| accession in rest;
        var e := phenoScores[accession];
        ghost var done := phenoScores.Keys - rest;
        SumRemove(phenoScores, done + {accession}, accession);
        assert done + {accession} - {accession} == done;
        d := d + e;
        rest := rest - {accession};
        assert phenoScores.Keys - rest == done + {accession};
      }
      assert phenoScores.Keys - rest == phenoScores.Keys;
    }
  }
}
