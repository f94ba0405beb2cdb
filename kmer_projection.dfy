/** The association projector of KmerProjection.java. Candidate k-mers are
    the windows of the assembly contigs named in the contig list; each gets
    the association score of its matrix row (the sum of the phenotype
    scores of the accessions that have it), and the scores are reported per
    contig and per position. The assembly is a sequence of contigs, the
    contig list and the presence matrix are sequences of lines, and the
    reports are sequences of rows. */
module Projection {
  import opened Text
  import opened Sums
  import opened Kmer
  import opened BitSets
  import Matrix
  import opened Phenotypes

  /** A fasta entry of the assembly. */
  datatype Contig = Contig(id: string, sequence: string)

  /** A row of the per-contig report: the contig, its rank among the
      listed contigs, a distinct nonzero score and how many windows have
      it. */
  datatype ContigRow = ContigRow(id: string, rank: nat, score: real, count: nat)

  /** A row of the per-position report. */
  datatype PositionRow = PositionRow(id: string, position: nat, score: real)

  // ------------------------------------------------------------ k-mer size

  /** The index of the first line not starting with '#', or |lines|. */
  function FirstDataLine(lines: seq<string>): (n: nat)
    ensures n <= |lines|
    ensures forall j :: 0 <= j < n ==> StartsWith(lines[j], '#')
    ensures n < |lines| ==> !StartsWith(lines[n], '#')
  {
    if lines == [] || !StartsWith(lines[0], '#') then 0
    else
      var r := FirstDataLine(lines[1..]);
      assert forall j :: 1 <= j < 1 + r ==> lines[j] == lines[1..][j - 1];
      1 + r
  }

  /** setKmerSize: the length of the first field of the first line not
      starting with '#'; None where Java throws (no such line, or a line
      without fields). */
  function MatrixKmerSize(lines: seq<string>): (r: Option<nat>) {
    var n := FirstDataLine(lines);
    if n == |lines| || NoFields(lines[n], '\t') then None
    else Some(|Split(lines[n], '\t')[0]|)
  }

  /** The k-mer size read back from a written presence matrix with at
      least one k-mer is the matrix's k-mer size. */
  lemma KmerSizeOfWrittenMatrix(names: seq<string>, m: map<Key, set<nat>>, kmerSize: nat, order: seq<Key>)
    requires |names| >= 1 && m != map[]
    requires Matrix.WellFormed(m, kmerSize) && Matrix.Enumerates(order, m.Keys)
    ensures MatrixKmerSize(["#" + Join(names, ',')] + Matrix.DataLines(m, kmerSize, order)) == Some(kmerSize)
  {
    var lines := ["#" + Join(names, ',')] + Matrix.DataLines(m, kmerSize, order);
    var key :| key in m;
    assert order != [];
    Matrix.DataLinesAt(m, kmerSize, order, 0);
    var line := Matrix.DataLine(m, kmerSize, order[0]);
    assert lines[1] == line;
    Matrix.DataLineReadsBack(m, kmerSize, order[0]);
    DecodingAt(order[0], kmerSize);
    assert !StartsWith(line, '#') by {
      if kmerSize > 0 {
        assert line[0] == Decoding(order[0], kmerSize)[0];
      } else {
        assert line[0] == '\t';
      }
    }
    assert StartsWith(lines[0], '#');
    assert FirstDataLine(lines) == 1;
  }

  // ------------------------------------------------------------ contig list

  /** The contig names of a contig list: the first field of every line;
      None where Java throws, on a line without fields. */
  function NlrContigs(lines: seq<string>): (r: Option<set<string>>) {
    if lines == [] then Some({})
    else match NlrContigs(lines[..|lines| - 1])
      case None => None
      case Some(names) =>
        var split := Split(lines[|lines| - 1], '\t');
        if |split| == 0 then None else Some(names + {split[0]})
  }

  /** The contig list is read iff every line has a field, and then a name
      is listed iff it is the first field of some line. */
  lemma {:induction false} NlrContigsSpec(lines: seq<string>, name: string)
    ensures NlrContigs(lines).Some? <==> forall j :: 0 <= j < |lines| ==> !NoFields(lines[j], '\t')
    ensures NlrContigs(lines).Some? ==>
              (name in NlrContigs(lines).value <==>
               exists j :: 0 <= j < |lines| && Split(lines[j], '\t')[0] == name)
  {
    if lines != [] {
      var init := lines[..|lines| - 1];
      NlrContigsSpec(init, name);
      assert forall j :: 0 <= j < |init| ==> init[j] == lines[j];
      if NlrContigs(lines).Some? {
        if exists j :: 0 <= j < |lines| && Split(lines[j], '\t')[0] == name {
          var j :| 0 <= j < |lines| && Split(lines[j], '\t')[0] == name;
          if j < |init| {
            assert Split(init[j], '\t')[0] == name;
          }
        }
      }
    }
  }

  /** The contigs of the assembly whose id is in the list, in order. */
  function Listed(contigs: seq<Contig>, names: set<string>): (r: seq<Contig>)
    ensures |r| <= |contigs|
  {
    if contigs == [] then []
    else
      var init := Listed(contigs[..|contigs| - 1], names);
      var last := contigs[|contigs| - 1];
      if last.id in names then init + [last] else init
  }

  /** A contig is listed iff it is in the assembly and its id in the list. */
  lemma {:induction false} ListedMembers(contigs: seq<Contig>, names: set<string>, c: Contig)
    ensures c in Listed(contigs, names) <==> c in contigs && c.id in names
  {
    if contigs != [] {
      var init := contigs[..|contigs| - 1];
      ListedMembers(init, names, c);
      assert c in contigs <==> c in init || c == contigs[|contigs| - 1];
    }
  }

  lemma ListedStep(contigs: seq<Contig>, names: set<string>, i: nat)
    requires i < |contigs|
    ensures contigs[i].id in names ==> Listed(contigs[..i + 1], names) == Listed(contigs[..i], names) + [contigs[i]]
    ensures contigs[i].id !in names ==> Listed(contigs[..i + 1], names) == Listed(contigs[..i], names)
  {
    assert contigs[..i + 1][..i] == contigs[..i];
  }

  // ------------------------------------------------------------ windows

  /** The number of windows the loops visit: offsets 0 <= i < |s| - k.
      The last full window, at |s| - k, is not visited. */
  function Windows(s: string, k: nat): (n: nat)
    ensures n + k <= |s| || n == 0
  {
    if |s| > k then |s| - k else 0
  }

  /** The key of the window at offset i. */
  function WindowKey(s: string, k: nat, i: nat): (r: Key)
    requires i < Windows(s, k)
  {
    Encoding(s[i..i + k])
  }

  /** The keys of the first n windows. */
  function WindowKeys(s: string, k: nat, n: nat): (r: set<Key>)
    requires n <= Windows(s, k)
  {
    if n == 0 then {} else WindowKeys(s, k, n - 1) + {WindowKey(s, k, n - 1)}
  }

  /** A key is a window key iff some offset below n has it; with
      n = Windows(s, k) these are exactly the offsets 0 <= i < |s| - k. */
  lemma {:induction false} WindowKeysSpec(s: string, k: nat, n: nat, key: Key)
    requires n <= Windows(s, k)
    ensures key in WindowKeys(s, k, n) <==> exists i :: 0 <= i < n && WindowKey(s, k, i) == key
  {
    if n > 0 {
      WindowKeysSpec(s, k, n - 1, key);
      if key == WindowKey(s, k, n - 1) {
        assert exists i :: 0 <= i < n && WindowKey(s, k, i) == key;
      }
    }
  }

  /** The candidate keys readAssembly seeds from the given contigs. */
  function SeedKeys(contigs: seq<Contig>, k: nat): (keys: set<Key>) {
    if contigs == [] then {}
    else
      var last := contigs[|contigs| - 1];
      SeedKeys(contigs[..|contigs| - 1], k) + WindowKeys(last.sequence, k, Windows(last.sequence, k))
  }

  /** The association matrix with every seed key (re)set to 0. */
  function Seeded(am: map<Key, real>, seeds: set<Key>): (r: map<Key, real>) {
    map key | key in am.Keys + seeds :: if key in seeds then 0.0 else am[key]
  }

  lemma SeededStep(am: map<Key, real>, seeds: set<Key>, key: Key)
    ensures Seeded(am, seeds)[key := 0.0] == Seeded(am, seeds + {key})
  {
  }

  /** A contig no longer than k contributes no candidate. */
  lemma ShortContigSeedsNothing(contigs: seq<Contig>, c: Contig, k: nat)
    requires |c.sequence| <= k
    ensures SeedKeys(contigs + [c], k) == SeedKeys(contigs, k)
  {
    assert (contigs + [c])[..|contigs|] == contigs;
  }

  // ------------------------------------------------------------ scores

  /** The phenotype accessions that count for a presence vector: those in
      the header whose bit is set. */
  function Contributors(ph: map<string, real>, accessions: map<string, nat>, presence: set<nat>): (r: set<string>) {
    set a | a in ph && a in accessions && accessions[a] in presence
  }

  /** getAssociationScore: the sum of the phenotype scores of the
      contributing accessions. */
  ghost function AssociationScore(ph: map<string, real>, accessions: map<string, nat>, bits: string): (r: real) {
    SumOf(ph, Contributors(ph, accessions, Presence(bits)))
  }

  /** No score exceeds the phenotype's maximum score. */
  lemma AssociationScoreAtMostMax(ph: map<string, real>, accessions: map<string, nat>, bits: string)
    ensures AssociationScore(ph, accessions, bits) <= MaxScore(ph)
  {
    SubsetAtMostMax(ph, Contributors(ph, accessions, Presence(bits)));
  }

  /** A k-mer present in every phenotype accession scores the total score,
      a k-mer present in none scores 0. */
  lemma AssociationScoreExtremes(ph: map<string, real>, accessions: map<string, nat>, bits: string)
    ensures (forall a :: a in ph ==> a in accessions && accessions[a] < |bits| && bits[accessions[a]] == '1')
            ==> AssociationScore(ph, accessions, bits) == TotalScore(ph)
    ensures (forall i :: 0 <= i < |bits| ==> bits[i] != '1') ==> AssociationScore(ph, accessions, bits) == 0.0
  {
    var c := Contributors(ph, accessions, Presence(bits));
    if forall a :: a in ph ==> a in accessions && accessions[a] < |bits| && bits[accessions[a]] == '1' {
      assert c == ph.Keys;
    }
    if forall i :: 0 <= i < |bits| ==> bits[i] != '1' {
      assert c == {};
    }
  }

  /** Two accessions R1 (+5) and S1 (-2) in columns 0 and 1. */
  lemma AssociationScoreExample()
    ensures AssociationScore(map["R1" := 5.0, "S1" := -2.0], map["R1" := 0, "S1" := 1], "10") == 5.0
    ensures AssociationScore(map["R1" := 5.0, "S1" := -2.0], map["R1" := 0, "S1" := 1], "11") == 3.0
    ensures AssociationScore(map["R1" := 5.0, "S1" := -2.0], map["S1" := 0], "1") == -2.0
  {
    var ph := map["R1" := 5.0, "S1" := -2.0];
    var both := map["R1" := 0, "S1" := 1];
    assert Contributors(ph, both, Presence("10")) == {"R1"};
    SumRemove(ph, {"R1"}, "R1");
    assert Contributors(ph, both, Presence("11")) == {"R1", "S1"};
    SumRemove(ph, {"R1", "S1"}, "R1");
    assert {"R1", "S1"} - {"R1"} == {"S1"};
    SumRemove(ph, {"S1"}, "S1");
    assert Contributors(ph, map["S1" := 0], Presence("1")) == {"S1"};
  }

  // ------------------------------------------------------------ matrix rows

  function ForwardKey(line: string): (r: Key)
    requires !NoFields(line, '\t')
  {
    Encoding(Split(line, '\t')[0])
  }

  function ReverseKey(line: string): (r: Key)
    requires !NoFields(line, '\t')
  {
    Encoding(ReverseComplement(Split(line, '\t')[0]))
  }

  /** A data line throws in readMatrix when it has no field, or has only
      the k-mer field while its forward or reverse key is a candidate. */
  predicate RowThrows(keys: set<Key>, line: string) {
    !StartsWith(line, '#') &&
    (NoFields(line, '\t') ||
     (|Split(line, '\t')| == 1 && (ForwardKey(line) in keys || ReverseKey(line) in keys)))
  }

  /** The index of the first data line that throws, or |rows|. */
  function FirstThrowingRow(keys: set<Key>, rows: seq<string>): (n: nat)
    ensures n <= |rows|
    ensures forall j :: 0 <= j < n ==> !RowThrows(keys, rows[j])
    ensures n < |rows| ==> RowThrows(keys, rows[n])
  {
    if rows == [] || RowThrows(keys, rows[0]) then 0
    else
      var r := FirstThrowingRow(keys, rows[1..]);
      assert forall j :: 1 <= j < 1 + r ==> rows[j] == rows[1..][j - 1];
      1 + r
  }

  /** One matrix line applied to the association matrix: comment lines
      and lines whose keys are not candidates change nothing; otherwise
      the forward and the reverse key, where candidates, get the line's
      score. */
  ghost function ScoreRow(am: map<Key, real>, ph: map<string, real>, accessions: map<string, nat>,
                          line: string): (r: map<Key, real>)
    requires !RowThrows(am.Keys, line)
    ensures r.Keys == am.Keys
  {
    if StartsWith(line, '#') then am
    else
      var f, rev := ForwardKey(line), ReverseKey(line);
      if f !in am && rev !in am then am
      else
        var score := AssociationScore(ph, accessions, Split(line, '\t')[1]);
        var am1 := if f in am then am[f := score] else am;
        if rev in am then am1[rev := score] else am1
  }

  ghost function ScoreRows(am: map<Key, real>, ph: map<string, real>, accessions: map<string, nat>,
                           rows: seq<string>): (r: map<Key, real>)
    requires forall j :: 0 <= j < |rows| ==> !RowThrows(am.Keys, rows[j])
    ensures r.Keys == am.Keys
  {
    if rows == [] then am
    else ScoreRow(ScoreRows(am, ph, accessions, rows[..|rows| - 1]), ph, accessions, rows[|rows| - 1])
  }

  /** For one matrix line the forward and the reverse candidate, when
      present, both get the line's association score, and no other
      candidate changes. */
  lemma ScoreRowEffect(am: map<Key, real>, ph: map<string, real>, accessions: map<string, nat>,
                       line: string, key: Key)
    requires !RowThrows(am.Keys, line) && !StartsWith(line, '#') && key in am
    ensures var r := ScoreRow(am, ph, accessions, line);
      if key == ForwardKey(line) || key == ReverseKey(line)
      then |Split(line, '\t')| >= 2 && r[key] == AssociationScore(ph, accessions, Split(line, '\t')[1])
      else r[key] == am[key]
  {
  }

  // ------------------------------------------------------------ reports

  /** The nonzero score of the window at offset i, if it is a candidate. */
  function ScoreAt(am: map<Key, real>, s: string, k: nat, i: nat): (r: Option<real>)
    requires i < Windows(s, k)
  {
    var key := WindowKey(s, k, i);
    if key in am && am[key] != 0.0 then Some(am[key]) else None
  }

  /** The scores of the first n windows of a contig, by offset. */
  function WindowScores(am: map<Key, real>, s: string, k: nat, n: nat): (ws: seq<Option<real>>)
    requires n <= Windows(s, k)
    ensures |ws| == n
  {
    if n == 0 then [] else WindowScores(am, s, k, n - 1) + [ScoreAt(am, s, k, n - 1)]
  }

  lemma {:induction false} WindowScoresAt(am: map<Key, real>, s: string, k: nat, n: nat, i: nat)
    requires i < n <= Windows(s, k)
    ensures WindowScores(am, s, k, n)[i] == ScoreAt(am, s, k, i)
  {
    if i < n - 1 {
      WindowScoresAt(am, s, k, n - 1, i);
    }
  }

  /** The scores of all windows of a contig. */
  function AllWindowScores(am: map<Key, real>, s: string, k: nat): (ws: seq<Option<real>>)
    ensures |ws| == Windows(s, k)
  {
    WindowScores(am, s, k, Windows(s, k))
  }

  /** The per-position rows of the first n windows of a contig, given
      its window scores. */
  function Positions(id: string, ws: seq<Option<real>>, n: nat): (rows: seq<PositionRow>)
    requires n <= |ws|
    ensures |rows| <= n
  {
    if n == 0 then []
    else
      var rows := Positions(id, ws, n - 1);
      match ws[n - 1]
      case Some(v) => rows + [PositionRow(id, n - 1, v)]
      case None => rows
  }

  /** The histogram of writeAssociationScore over the first n windows:
      each distinct nonzero score with its number of windows. */
  function Hist(ws: seq<Option<real>>, n: nat): (r: map<real, nat>)
    requires n <= |ws|
  {
    if n == 0 then map[]
    else
      var h := Hist(ws, n - 1);
      match ws[n - 1]
      case Some(v) => h[v := (if v in h then h[v] else 0) + 1]
      case None => h
  }

  lemma PositionsStep(id: string, ws: seq<Option<real>>, i: nat)
    requires i < |ws|
    ensures Positions(id, ws, i + 1) ==
            Positions(id, ws, i) + (if ws[i].Some? then [PositionRow(id, i, ws[i].value)] else [])
  {
    if ws[i].None? {
      assert Positions(id, ws, i) + [] == Positions(id, ws, i);
    }
  }

  /** How many rows have this score. */
  function CountScore(rows: seq<PositionRow>, v: real): (r: nat) {
    if rows == [] then 0
    else CountScore(rows[..|rows| - 1], v) + (if rows[|rows| - 1].score == v then 1 else 0)
  }

  lemma CountScoreAppend(rows: seq<PositionRow>, row: PositionRow, v: real)
    ensures CountScore(rows + [row], v) == CountScore(rows, v) + (if row.score == v then 1 else 0)
  {
    assert (rows + [row])[..|rows|] == rows;
  }

  /** The per-position rows of a contig are exactly its windows with a
      nonzero candidate score, in increasing position. */
  lemma {:induction false} PositionsSpec(id: string, ws: seq<Option<real>>, n: nat)
    requires n <= |ws|
    ensures var rows := Positions(id, ws, n);
      (forall j :: 0 <= j < |rows| ==>
         rows[j].id == id && rows[j].position < n && ws[rows[j].position] == Some(rows[j].score)) &&
      (forall j, l :: 0 <= j < l < |rows| ==> rows[j].position < rows[l].position) &&
      (forall i :: 0 <= i < n && ws[i].Some? ==>
         exists j :: 0 <= j < |rows| && rows[j].position == i)
  {
    if n > 0 {
      PositionsSpec(id, ws, n - 1);
      var rows := Positions(id, ws, n - 1);
      forall i | 0 <= i < n && ws[i].Some?
        ensures exists j :: 0 <= j < |Positions(id, ws, n)| && Positions(id, ws, n)[j].position == i
      {
        if i < n - 1 {
          var j :| 0 <= j < |rows| && rows[j].position == i;
          assert Positions(id, ws, n)[j] == rows[j];
        } else {
          assert Positions(id, ws, n)[|rows|].position == i;
        }
      }
    }
  }

  /** The histogram counts the per-position rows: a score is in it iff
      some row has it, with the number of such rows. */
  lemma {:induction false} HistCountsPositions(id: string, ws: seq<Option<real>>, n: nat, v: real)
    requires n <= |ws|
    ensures var h := Hist(ws, n);
      var c := CountScore(Positions(id, ws, n), v);
      (v in h <==> c > 0) && (v in h ==> h[v] == c)
  {
    if n > 0 {
      HistCountsPositions(id, ws, n - 1, v);
      if ws[n - 1].Some? {
        CountsStep(Hist(ws, n - 1), Positions(id, ws, n - 1), PositionRow(id, n - 1, ws[n - 1].value), v);
      }
    }
  }

  /** Counting one more row keeps a histogram in step with the rows. */
  lemma CountsStep(h: map<real, nat>, rows: seq<PositionRow>, row: PositionRow, v: real)
    requires (v in h <==> CountScore(rows, v) > 0) && (v in h ==> h[v] == CountScore(rows, v))
    ensures var g := h[row.score := (if row.score in h then h[row.score] else 0) + 1];
      (v in g <==> CountScore(rows + [row], v) > 0) && (v in g ==> g[v] == CountScore(rows + [row], v))
  {
    CountScoreAppend(rows, row, v);
  }

  /** The histogram's counts add up to the number of windows with a
      nonzero score. */
  lemma {:induction false} HistTotal(id: string, ws: seq<Option<real>>, n: nat)
    requires n <= |ws|
    ensures var h := Hist(ws, n);
      CountSum(h, h.Keys) == |Positions(id, ws, n)|
  {
    if n > 0 {
      HistTotal(id, ws, n - 1);
      if ws[n - 1].Some? {
        CountSumBump(Hist(ws, n - 1), ws[n - 1].value);
      }
    }
  }

  /** The rows of one contig, one per histogram score in hash order. */
  function HistRows(id: string, rank: nat, h: map<real, nat>, scores: seq<real>): (rows: seq<ContigRow>)
    ensures |rows| == |scores|
  {
    // scores enumerates h's keys wherever the rows are written, so the 0 is never taken
    seq(|scores|, i requires 0 <= i < |scores| => ContigRow(id, rank, scores[i], if scores[i] in h then h[scores[i]] else 0))
  }

  /** scores lists every key of the histogram once: its hash order. */
  ghost predicate EnumeratesScores(scores: seq<real>, keys: set<real>) {
    (forall i :: 0 <= i < |scores| ==> scores[i] in keys) &&
    (forall v :: v in keys ==> v in scores) &&
    (forall i, j :: 0 <= i < j < |scores| ==> scores[i] != scores[j])
  }

  /** The histogram of a whole contig. */
  function ContigHist(am: map<Key, real>, c: Contig, k: nat): (r: map<real, nat>) {
    var ws := AllWindowScores(am, c.sequence, k);
    Hist(ws, |ws|)
  }

  /** writeAssociationScore's rows: the listed contigs in assembly order,
      the n-th with rank n, each with its histogram rows. */
  function ContigReport(am: map<Key, real>, listed: seq<Contig>, k: nat, orders: seq<seq<real>>): (rows: seq<ContigRow>)
    requires |orders| == |listed|
  {
    if listed == [] then []
    else
      var n := |listed| - 1;
      ContigReport(am, listed[..n], k, orders[..n]) +
      HistRows(listed[n].id, n + 1, ContigHist(am, listed[n], k), orders[n])
  }

  /** orders[c] is the hash order of the histogram of listed[c]. */
  ghost predicate HistOrders(am: map<Key, real>, listed: seq<Contig>, k: nat, orders: seq<seq<real>>) {
    |orders| == |listed| &&
    forall c :: 0 <= c < |listed| ==> EnumeratesScores(orders[c], ContigHist(am, listed[c], k).Keys)
  }

  lemma HistOrdersStep(am: map<Key, real>, listed: seq<Contig>, k: nat, orders: seq<seq<real>>,
                       c: Contig, scores: seq<real>)
    requires HistOrders(am, listed, k, orders)
    requires EnumeratesScores(scores, ContigHist(am, c, k).Keys)
    ensures HistOrders(am, listed + [c], k, orders + [scores])
  {
    forall j | 0 <= j < |listed| + 1
      ensures EnumeratesScores((orders + [scores])[j], ContigHist(am, (listed + [c])[j], k).Keys)
    {
      if j < |listed| {
        assert (orders + [scores])[j] == orders[j] && (listed + [c])[j] == listed[j];
      }
    }
  }

  lemma ContigReportStep(am: map<Key, real>, listed: seq<Contig>, k: nat, orders: seq<seq<real>>,
                         c: Contig, scores: seq<real>)
    requires |orders| == |listed|
    ensures ContigReport(am, listed + [c], k, orders + [scores]) ==
            ContigReport(am, listed, k, orders) + HistRows(c.id, |listed| + 1, ContigHist(am, c, k), scores)
  {
    assert (listed + [c])[..|listed|] == listed;
    assert (orders + [scores])[..|orders|] == orders;
  }

  /** Every row of the per-contig report names a listed contig by its
      rank, carries a score of that contig's histogram and its count. */
  lemma {:induction false} ContigReportRows(am: map<Key, real>, listed: seq<Contig>, k: nat, orders: seq<seq<real>>)
    requires |orders| == |listed|
    requires forall c :: 0 <= c < |listed| ==>
               forall i :: 0 <= i < |orders[c]| ==> orders[c][i] in ContigHist(am, listed[c], k)
    ensures forall row :: row in ContigReport(am, listed, k, orders) ==>
              1 <= row.rank <= |listed| && row.id == listed[row.rank - 1].id &&
              row.score in ContigHist(am, listed[row.rank - 1], k) &&
              row.count == ContigHist(am, listed[row.rank - 1], k)[row.score]
  {
    if listed != [] {
      var n := |listed| - 1;
      ContigReportRows(am, listed[..n], k, orders[..n]);
    }
  }

  /** The per-position rows: the listed contigs in assembly order, each
      with its per-position rows. */
  function PositionReport(am: map<Key, real>, listed: seq<Contig>, k: nat): (r: seq<PositionRow>) {
    if listed == [] then []
    else
      var c := listed[|listed| - 1];
      PositionReport(am, listed[..|listed| - 1], k) +
      ContigPositionRows(am, c, k)
  }

  /** The per-position rows of one whole contig. */
  function ContigPositionRows(am: map<Key, real>, c: Contig, k: nat): (r: seq<PositionRow>) {
    var ws := AllWindowScores(am, c.sequence, k);
    Positions(c.id, ws, |ws|)
  }

  lemma PositionReportStep(am: map<Key, real>, listed: seq<Contig>, k: nat, c: Contig)
    ensures PositionReport(am, listed + [c], k) ==
            PositionReport(am, listed, k) + ContigPositionRows(am, c, k)
  {
    assert (listed + [c])[..|listed|] == listed;
  }

  // ------------------------------------------------------------ the class

  class KmerProjection {
    /** The phenotype table, shared with the caller as in Java. */
    const phenotype: Phenotype
    const assembly: seq<Contig>
    const nlrList: seq<string>
    const presenceMatrix: seq<string>
    var associationMatrix: map<Key, real>
    var kmerSize: nat

    /** Java's constructor throws when setKmerSize does, so the matrix must
        have a data line with a field. */
    constructor (phenotype: Phenotype, assembly: seq<Contig>, nlrList: seq<string>, presenceMatrix: seq<string>)
      requires MatrixKmerSize(presenceMatrix).Some?
      ensures this.phenotype == phenotype && this.assembly == assembly
      ensures this.nlrList == nlrList && this.presenceMatrix == presenceMatrix
      ensures associationMatrix == map[] && kmerSize == MatrixKmerSize(presenceMatrix).value
    {
      this.phenotype := phenotype;
      this.assembly := assembly;
      this.nlrList := nlrList;
      this.presenceMatrix := presenceMatrix;
      associationMatrix := map[];
      kmerSize := 0;
      new;
      var ok := SetKmerSize();
    }

    /** setKmerSize: skip the '#' lines and take the length of the first
        field of the next line. ok is false where Java throws. */
    method SetKmerSize() returns (ok: bool)
      modifies this
      ensures ok <==> MatrixKmerSize(presenceMatrix).Some?
      ensures ok ==> kmerSize == MatrixKmerSize(presenceMatrix).value
      ensures !ok ==> kmerSize == old(kmerSize)
      ensures associationMatrix == old(associationMatrix)
    {
      var i := 0;
      while i < |presenceMatrix| && StartsWith(presenceMatrix[i], '#')
        invariant i <= FirstDataLine(presenceMatrix)
      {
        i := i + 1;
      }
      if i == |presenceMatrix| {
        return false;
      }
      var split := Split(presenceMatrix[i], '\t');
      if |split| == 0 {
        return false;
      }
      kmerSize := |split[0]|;
      return true;
    }

    /** The contig-list loop of readAssembly and writeAssociationScore. */
    method ReadNlrList() returns (nlrContigs: Option<set<string>>)
      ensures nlrContigs == NlrContigs(nlrList)
    {
      var names: set<string> := {};
      for l := 0 to |nlrList|
        invariant NlrContigs(nlrList[..l]) == Some(names)
      {
        assert nlrList[..l + 1][..l] == nlrList[..l];
        var split := Split(nlrList[l], '\t');
        if |split| == 0 {
          FirstNoneStaysNone(nlrList, l + 1);
          return None;
        }
        names := names + {split[0]};
      }
      assert nlrList[..|nlrList|] == nlrList;
      return Some(names);
    }

    /** readAssembly: seed every window key of the listed contigs with 0.
        ok is false where Java throws, in reading the contig list. */
    method ReadAssembly() returns (ok: bool)
      modifies this
      ensures ok <==> NlrContigs(nlrList).Some?
      ensures !ok ==> associationMatrix == old(associationMatrix)
      ensures ok ==> associationMatrix ==
                     Seeded(old(associationMatrix), SeedKeys(Listed(assembly, NlrContigs(nlrList).value), kmerSize))
      ensures kmerSize == old(kmerSize)
    {
      var nlrContigs := ReadNlrList();
      if nlrContigs.None? {
        return false;
      }
      var names := nlrContigs.value;
      for ci := 0 to |assembly|
        invariant associationMatrix == Seeded(old(associationMatrix), SeedKeys(Listed(assembly[..ci], names), kmerSize))
        invariant kmerSize == old(kmerSize)
      {
        assert assembly[..ci + 1][..ci] == assembly[..ci];
        var c := assembly[ci];
        if c.id !in names {
          continue;
        }
        SeedContig(c.sequence, old(associationMatrix), SeedKeys(Listed(assembly[..ci], names), kmerSize));
      }
      assert assembly[..|assembly|] == assembly;
      return true;
    }

    /** The window loop of readAssembly for one contig. */
    method SeedContig(sequence: string, ghost base: map<Key, real>, ghost seeds: set<Key>)
      requires associationMatrix == Seeded(base, seeds)
      modifies this
      ensures associationMatrix == Seeded(base, seeds + WindowKeys(sequence, kmerSize, Windows(sequence, kmerSize)))
      ensures kmerSize == old(kmerSize)
    {
      var i := 0;
      while i < |sequence| - kmerSize
        invariant 0 <= i <= Windows(sequence, kmerSize)
        invariant associationMatrix == Seeded(base, seeds + WindowKeys(sequence, kmerSize, i))
        invariant kmerSize == old(kmerSize)
      {
        var kmer := Encode(sequence[i..i + kmerSize]);
        SeededStep(base, seeds + WindowKeys(sequence, kmerSize, i), kmer);
        assert seeds + WindowKeys(sequence, kmerSize, i + 1) == seeds + WindowKeys(sequence, kmerSize, i) + {kmer};
        associationMatrix := associationMatrix[kmer := 0.0];
        i := i + 1;
      }
    }

    /** getAssociationScore: the bits of the presence column, then the sum
        over the phenotype accessions found in the header whose bit is
        set; an accession missing from the header is skipped. */
    method GetAssociationScore(presenceString: string, accessions: map<string, nat>) returns (associationScore: real)
      ensures associationScore == AssociationScore(phenotype.phenoScores, accessions, presenceString)
    {
      var presence := ParsePresence(presenceString);
      var ph := phenotype.phenoScores;
      ghost var contributors := Contributors(ph, accessions, presence);
      associationScore := 0.0;
      var rest := ph.Keys;
      while rest != {}
        invariant rest <= ph.Keys
        invariant associationScore == SumOf(ph, contributors - rest)
        decreases rest
      {
        var accession :| accession in rest;
        ghost var done := contributors - rest;
        assert accession !in done;
        if accession in accessions {
          var index := accessions[accession];
          if index in presence && accession in ph {
            SumRemove(ph, done + {accession}, accession);
            assert done + {accession} - {accession} == done;
            associationScore := associationScore + ph[accession];
          }
        }
        rest := rest - {accession};
        assert contributors - rest == if accession in contributors then done + {accession} else done;
      }
      assert contributors - rest == contributors;
    }

    /** readMatrix: the header names with their positions, then every data
        line scored in turn. Candidate keys are never added or removed. ok
        is false where Java throws: no header, an empty header, or a data
        line as RowThrows describes. */
    method ReadMatrix() returns (ok: bool)
      modifies this
      ensures kmerSize == old(kmerSize)
      ensures associationMatrix.Keys == old(associationMatrix).Keys
      ensures (|presenceMatrix| == 0 || presenceMatrix[0] == []) ==>
                !ok && associationMatrix == old(associationMatrix)
      ensures |presenceMatrix| > 0 && presenceMatrix[0] != [] ==>
                var accessions := Matrix.HeaderIndex(map[], Split(presenceMatrix[0][1..], ','));
                var rows := presenceMatrix[1..];
                var n := FirstThrowingRow(old(associationMatrix).Keys, rows);
                && (ok <==> n == |rows|)
                && associationMatrix == ScoreRows(old(associationMatrix), phenotype.phenoScores, accessions, rows[..n])
    {
      if |presenceMatrix| == 0 || presenceMatrix[0] == [] {
        return false;
      }
      var header := Split(presenceMatrix[0][1..], ',');
      var accessions := Matrix.HeaderTable(map[], header);
      var rows := presenceMatrix[1..];
      ghost var keys := associationMatrix.Keys;
      ok := true;
      var j := 0;
      while j < |rows|
        invariant j <= FirstThrowingRow(keys, rows)
        invariant associationMatrix == ScoreRows(old(associationMatrix), phenotype.phenoScores, accessions, rows[..j])
        invariant kmerSize == old(kmerSize)
      {
        assert rows[..j + 1][..j] == rows[..j];
        ok := ScoreLine(rows[j], accessions);
        if !ok {
          return;
        }
        j := j + 1;
      }
      assert rows[..|rows|] == rows;
    }

    /** One pass of the loop of readMatrix. The reverse key reuses the
        forward key's score unless that is 0, in which case it is computed
        again (to the same value). */
    method ScoreLine(line: string, accessions: map<string, nat>) returns (ok: bool)
      modifies this
      ensures ok <==> !RowThrows(old(associationMatrix).Keys, line)
      ensures ok ==> associationMatrix == ScoreRow(old(associationMatrix), phenotype.phenoScores, accessions, line)
      ensures !ok ==> associationMatrix == old(associationMatrix)
      ensures kmerSize == old(kmerSize)
    {
      if StartsWith(line, '#') {
        return true;
      }
      var split := Split(line, '\t');
      if |split| == 0 {
        return false;
      }
      var kmerF := Encode(split[0]);
      var kmerR := Encode(ReverseComplement(split[0]));
      var associationScore := 0.0;
      if kmerF in associationMatrix {
        if |split| < 2 {
          return false;
        }
        associationScore := GetAssociationScore(split[1], accessions);
        associationMatrix := associationMatrix[kmerF := associationScore];
      }
      if kmerR in associationMatrix {
        if associationScore == 0.0 {
          if |split| < 2 {
            return false;
          }
          associationScore := GetAssociationScore(split[1], accessions);
        }
        associationMatrix := associationMatrix[kmerR := associationScore];
      }
      return true;
    }

    /** The window loop of writeAssociationScore for one contig. */
    method ContigHistogram(c: Contig) returns (h: map<real, nat>)
      ensures h == ContigHist(associationMatrix, c, kmerSize)
    {
      ghost var ws := AllWindowScores(associationMatrix, c.sequence, kmerSize);
      var sequence := c.sequence;
      h := map[];
      var i := 0;
      while i < |sequence| - kmerSize
        invariant 0 <= i <= |ws|
        invariant h == Hist(ws, i)
      {
        var kmer := Encode(sequence[i..i + kmerSize]);
        assert kmer == WindowKey(sequence, kmerSize, i);
        WindowScoresAt(associationMatrix, sequence, kmerSize, |ws|, i);
        if kmer in associationMatrix && associationMatrix[kmer] != 0.0 {
          var associationScore := associationMatrix[kmer];
          var num := 0;
          if associationScore in h {
            num := h[associationScore];
          }
          num := num + 1;
          h := h[associationScore := num];
        }
        i := i + 1;
      }
    }

    /** The output loop of writeAssociationScore for one contig: a row per
        histogram entry, in hash order (`scores`). */
    method HistogramRows(id: string, rank: nat, h: map<real, nat>) returns (rows: seq<ContigRow>, ghost scores: seq<real>)
      ensures EnumeratesScores(scores, h.Keys)
      ensures rows == HistRows(id, rank, h, scores)
    {
      rows, scores := [], [];
      var rest := h.Items;
      while rest != {}
        invariant rest <= h.Items
        invariant forall i :: 0 <= i < |scores| ==> scores[i] in h && (scores[i], h[scores[i]]) !in rest
        invariant forall v :: v in h && (v, h[v]) !in rest ==> v in scores
        invariant forall i, j :: 0 <= i < j < |scores| ==> scores[i] != scores[j]
        invariant rows == HistRows(id, rank, h, scores)
        decreases rest
      {
        var entry :| entry in rest;
        var (score, num) := entry;
        rows := rows + [ContigRow(id, rank, score, num)];
        scores := scores + [score];
        rest := rest - {entry};
      }
    }

    /** writeAssociationScore: for every listed contig, in assembly order
        and ranked from 1, a row per distinct nonzero window score with
        its number of windows. ok is false where Java throws, in reading
        the contig list. */
    method WriteAssociationScore() returns (ok: bool, rows: seq<ContigRow>, ghost orders: seq<seq<real>>)
      ensures ok <==> NlrContigs(nlrList).Some?
      ensures !ok ==> rows == []
      ensures ok ==>
                var listed := Listed(assembly, NlrContigs(nlrList).value);
                && HistOrders(associationMatrix, listed, kmerSize, orders)
                && rows == ContigReport(associationMatrix, listed, kmerSize, orders)
    {
      var nlrContigs := ReadNlrList();
      if nlrContigs.None? {
        return false, [], [];
      }
      ok := true;
      rows, orders := ContigRows(nlrContigs.value);
    }

    /** The contig loop of writeAssociationScore, over the contigs whose id
        is among names. */
    method ContigRows(names: set<string>) returns (rows: seq<ContigRow>, ghost orders: seq<seq<real>>)
      ensures var listed := Listed(assembly, names);
        && HistOrders(associationMatrix, listed, kmerSize, orders)
        && rows == ContigReport(associationMatrix, listed, kmerSize, orders)
    {
      rows, orders := [], [];
      var contigCount := 0;
      ghost var listed: seq<Contig> := [];
      for ci := 0 to |assembly|
        invariant listed == Listed(assembly[..ci], names)
        invariant contigCount == |listed|
        invariant HistOrders(associationMatrix, listed, kmerSize, orders)
        invariant rows == ContigReport(associationMatrix, listed, kmerSize, orders)
      {
        ListedStep(assembly, names, ci);
        var c := assembly[ci];
        if c.id !in names {
          continue;
        }
        contigCount := contigCount + 1;
        rows, orders := AppendContig(c, contigCount, listed, orders, rows);
        listed := listed + [c];
      }
      assert assembly[..|assembly|] == assembly;
    }

    /** One listed contig of writeAssociationScore: its histogram rows,
        ranked after the contigs before it. */
    method AppendContig(c: Contig, contigCount: nat, ghost listed: seq<Contig>, ghost orders: seq<seq<real>>,
                        rows: seq<ContigRow>)
      returns (rows': seq<ContigRow>, ghost orders': seq<seq<real>>)
      requires contigCount == |listed| + 1
      requires HistOrders(associationMatrix, listed, kmerSize, orders)
      requires rows == ContigReport(associationMatrix, listed, kmerSize, orders)
      ensures HistOrders(associationMatrix, listed + [c], kmerSize, orders')
      ensures rows' == ContigReport(associationMatrix, listed + [c], kmerSize, orders')
    {
      var h := ContigHistogram(c);
      var segment, scores := HistogramRows(c.id, contigCount, h);
      ContigReportStep(associationMatrix, listed, kmerSize, orders, c, scores);
      HistOrdersStep(associationMatrix, listed, kmerSize, orders, c, scores);
      rows' := rows + segment;
      orders' := orders + [scores];
    }

    /** The window loop of writeAssociationScorePerPosition for one contig. */
    method ContigPositions(c: Contig) returns (rows: seq<PositionRow>)
      ensures rows == ContigPositionRows(associationMatrix, c, kmerSize)
    {
      ghost var ws := AllWindowScores(associationMatrix, c.sequence, kmerSize);
      var sequence := c.sequence;
      rows := [];
      var i := 0;
      while i < |sequence| - kmerSize
        invariant 0 <= i <= |ws|
        invariant rows == Positions(c.id, ws, i)
      {
        PositionsStep(c.id, ws, i);
        var kmer := Encode(sequence[i..i + kmerSize]);
        assert kmer == WindowKey(sequence, kmerSize, i);
        WindowScoresAt(associationMatrix, sequence, kmerSize, |ws|, i);
        if kmer in associationMatrix && associationMatrix[kmer] != 0.0 {
          rows := rows + [PositionRow(c.id, i, associationMatrix[kmer])];
        }
        i := i + 1;
      }
    }

    /** writeAssociationScorePerPosition: for every contig of the given
        list, in assembly order, a row per window with a nonzero candidate
        score, in increasing position. */
    method WriteAssociationScorePerPosition(contigList: set<string>) returns (rows: seq<PositionRow>)
      ensures rows == PositionReport(associationMatrix, Listed(assembly, contigList), kmerSize)
    {
      rows := [];
      for ci := 0 to |assembly|
        invariant rows == PositionReport(associationMatrix, Listed(assembly[..ci], contigList), kmerSize)
      {
        ListedStep(assembly, contigList, ci);
        var c := assembly[ci];
        if c.id !in contigList {
          continue;
        }
        var segment := ContigPositions(c);
        PositionReportStep(associationMatrix, Listed(assembly[..ci], contigList), kmerSize, c);
        rows := rows + segment;
      }
      assert assembly[..|assembly|] == assembly;
    }
  }

  /** Once the contig list fails it stays failed. */
  lemma {:induction false} FirstNoneStaysNone(lines: seq<string>, n: nat)
    requires 0 < n <= |lines| && NoFields(lines[n - 1], '\t')
    ensures NlrContigs(lines) == None
    decreases |lines|
  {
    if n < |lines| {
      FirstNoneStaysNone(lines[..|lines| - 1], n);
    }
  }
}
