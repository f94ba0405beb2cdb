/** The presence/absence matrix of KmerMatrix.java: a map from k-mer key to
    the set of indices of the accessions whose count dump holds the k-mer at
    or above the minimum count, the accession name -> index table, and one
    k-mer size. Files are sequences of lines; a Java exception ends the
    operation with ok == false and the state it had reached. */
module Matrix {
  import opened Text
  import opened Kmer
  import opened BitSets

  // ------------------------------------------------------------ dump lines

  /** How the loop of addKmerSet treats one line of a count dump. */
  datatype DumpLine = Throws | Skipped | Counted(kmer: string, count: int)

  /** A line throws when it has no field at all; it is skipped when its
      k-mer has another length than the matrix's, or its count is missing
      or not an int. */
  function ClassifyDumpLine(line: string, kmerSize: nat): (r: DumpLine) {
    var split := Split(line, '\t');
    if |split| == 0 then Throws
    else if |split[0]| != kmerSize || |split| < 2 then Skipped
    else match ParseInt(split[1])
      case None => Skipped
      case Some(count) => Counted(split[0], count)
  }

  /** The index of the first line with fewer than `fields` tab-separated
      fields, or |lines| when there is none. */
  function FirstShort(lines: seq<string>, fields: nat): (n: nat)
    ensures n <= |lines|
    ensures forall j :: 0 <= j < n ==> |Split(lines[j], '\t')| >= fields
    ensures n < |lines| ==> |Split(lines[n], '\t')| < fields
  {
    if lines == [] || |Split(lines[0], '\t')| < fields then 0
    else
      var r := FirstShort(lines[1..], fields);
      assert forall j :: 1 <= j < 1 + r ==> lines[j] == lines[1..][j - 1];
      1 + r
  }

  /** The k-mer size after reading a dump: the first line's k-mer length,
      but only when the matrix has none yet. */
  function DumpKmerSize(kmerSize: nat, lines: seq<string>): (r: nat) {
    if kmerSize == 0 && |lines| > 0 && !NoFields(lines[0], '\t')
    then |Split(lines[0], '\t')[0]| else kmerSize
  }

  /** Sets bit index on the vector of key, creating the vector if needed. */
  function AddBit(m: map<Key, set<nat>>, key: Key, index: nat): (r: map<Key, set<nat>>) {
    m[key := (if key in m then m[key] else {}) + {index}]
  }

  /** One dump line of accession `index` applied to the matrix. */
  function IngestLine(m: map<Key, set<nat>>, line: string, kmerSize: nat,
                      minCount: int, index: nat): (r: map<Key, set<nat>>)
  {
    var d := ClassifyDumpLine(line, kmerSize);
    if d.Counted? && d.count >= minCount then AddBit(m, Encoding(d.kmer), index) else m
  }

  /** The matrix after the given dump lines of accession `index`. */
  function IngestLines(m: map<Key, set<nat>>, lines: seq<string>, kmerSize: nat,
                       minCount: int, index: nat): (r: map<Key, set<nat>>)
  {
    if lines == [] then m
    else IngestLine(IngestLines(m, lines[..|lines| - 1], kmerSize, minCount, index),
                    lines[|lines| - 1], kmerSize, minCount, index)
  }

  lemma IngestLinesStep(m: map<Key, set<nat>>, lines: seq<string>, i: nat, kmerSize: nat,
                        minCount: int, index: nat)
    requires i < |lines|
    ensures IngestLines(m, lines[..i + 1], kmerSize, minCount, index)
         == IngestLine(IngestLines(m, lines[..i], kmerSize, minCount, index), lines[i], kmerSize, minCount, index)
  {
    assert lines[..i + 1][..i] == lines[..i];
  }

  /** The line is accepted, its count reaches minCount and its k-mer has
      this key. */
  predicate Records(line: string, kmerSize: nat, minCount: int, key: Key) {
    var d := ClassifyDumpLine(line, kmerSize);
    d.Counted? && d.count >= minCount && Encoding(d.kmer) == key
  }

  ghost predicate Seen(lines: seq<string>, kmerSize: nat, minCount: int, key: Key) {
    exists j :: 0 <= j < |lines| && Records(lines[j], kmerSize, minCount, key)
  }

  lemma SeenStep(lines: seq<string>, kmerSize: nat, minCount: int, key: Key)
    requires lines != []
    ensures Seen(lines, kmerSize, minCount, key) <==>
            Seen(lines[..|lines| - 1], kmerSize, minCount, key) ||
            Records(lines[|lines| - 1], kmerSize, minCount, key)
  {
    var init := lines[..|lines| - 1];
    if Seen(lines, kmerSize, minCount, key) {
      var j :| 0 <= j < |lines| && Records(lines[j], kmerSize, minCount, key);
      if j < |init| {
        assert Records(init[j], kmerSize, minCount, key);
      }
    }
    if Seen(init, kmerSize, minCount, key) {
      var j :| 0 <= j < |init| && Records(init[j], kmerSize, minCount, key);
      assert Records(lines[j], kmerSize, minCount, key);
    }
  }

  /** After ingestion a key is in the matrix iff it was or some line
      records it; bit `index` of a vector is set iff it was or some line
      records the key, and no other bit changes. */
  lemma {:induction false} IngestLinesSpec(m: map<Key, set<nat>>, lines: seq<string>, kmerSize: nat,
                                           minCount: int, index: nat, key: Key, bit: nat)
    ensures var r := IngestLines(m, lines, kmerSize, minCount, index);
      var seen := Seen(lines, kmerSize, minCount, key);
      (key in r <==> key in m || seen) &&
      (key in r ==> (bit in r[key] <==> (key in m && bit in m[key]) || (bit == index && seen)))
  {
    if lines != [] {
      IngestLinesSpec(m, lines[..|lines| - 1], kmerSize, minCount, index, key, bit);
      SeenStep(lines, kmerSize, minCount, key);
    }
  }

  /** The shape the round trip through the matrix file needs: every key
      has the matrix's k-mer length and every vector has a bit set. */
  ghost predicate WellFormed(m: map<Key, set<nat>>, kmerSize: nat) {
    forall key :: key in m ==> Below(key, kmerSize) && m[key] != {}
  }

  /** Ingesting a dump keeps the matrix well formed: only k-mers of the
      matrix's length are accepted, and a vector is only created with a
      bit in it. */
  lemma {:induction false} IngestKeepsWellFormed(m: map<Key, set<nat>>, lines: seq<string>, kmerSize: nat,
                                                 minCount: int, index: nat)
    requires WellFormed(m, kmerSize)
    ensures WellFormed(IngestLines(m, lines, kmerSize, minCount, index), kmerSize)
  {
    if lines != [] {
      IngestKeepsWellFormed(m, lines[..|lines| - 1], kmerSize, minCount, index);
      var d := ClassifyDumpLine(lines[|lines| - 1], kmerSize);
      if d.Counted? {
        EncodingBelow(d.kmer);
      }
    }
  }

  // ------------------------------------------------------------ accessions

  predicate Injective(accessions: map<string, nat>) {
    forall a, b :: a in accessions && b in accessions && a != b ==> accessions[a] != accessions[b]
  }

  /** The accession indices are exactly 0 .. n-1 for n accessions. */
  predicate Dense(accessions: map<string, nat>) {
    Injective(accessions) && forall a :: a in accessions ==> accessions[a] < |accessions|
  }

  /** Dense indices leave no gap: every index below n is used. */
  lemma DenseCoversRange(accessions: map<string, nat>)
    requires Dense(accessions)
    ensures forall i: nat :: i < |accessions| ==> i in accessions.Values
  {
    InjectiveValues(accessions);
    RangeSize(|accessions|);
    SubsetOfEqualSize(accessions.Values, Range(|accessions|));
  }

  lemma {:induction false} InjectiveValues(accessions: map<string, nat>)
    requires Injective(accessions)
    ensures |accessions.Values| == |accessions|
    decreases |accessions|
  {
    if accessions != map[] {
      var a :| a in accessions;
      var rest := accessions - {a};
      InjectiveValues(rest);
      assert rest.Values == accessions.Values - {accessions[a]} by {
        forall v | v in accessions.Values ensures v in rest.Values || v == accessions[a] {
          var b :| b in accessions && accessions[b] == v;
          if b != a {
            assert rest[b] == v;
          }
        }
      }
      assert |rest| == |accessions| - 1;
    }
  }

  /** The indices 0 .. n-1. */
  function Range(n: nat): (r: set<nat>)
    ensures forall i: nat :: i in r <==> i < n
  {
    if n == 0 then {} else Range(n - 1) + {n - 1}
  }

  lemma {:induction false} RangeSize(n: nat)
    ensures |Range(n)| == n
  {
    if n > 0 {
      RangeSize(n - 1);
      assert n - 1 !in Range(n - 1);
    }
  }

  lemma SubsetOfEqualSize<T>(a: set<T>, b: set<T>)
    requires a <= b && |a| == |b|
    ensures a == b
  {
    if a != b {
      assert exists x :: x in b && x !in a;
      var x :| x in b && x !in a;
      SubsetSize(a, b - {x});
    }
  }

  lemma {:induction false} SubsetSize<T>(a: set<T>, b: set<T>)
    requires a <= b
    ensures |a| <= |b|
    decreases a
  {
    if a != {} {
      var x :| x in a;
      SubsetSize(a - {x}, b - {x});
    }
  }

  /** Adding a new name keeps the indices dense: the new index is n. */
  lemma NewAccessionKeepsDense(accessions: map<string, nat>, name: string)
    requires Dense(accessions) && name !in accessions
    ensures Length(accessions.Values) == |accessions|
    ensures Dense(accessions[name := Length(accessions.Values)])
  {
    var n := |accessions|;
    DenseCoversRange(accessions);
    if n > 0 {
      assert n - 1 in accessions.Values;
    }
    LengthUnique(accessions.Values, n);
  }

  /** The table readPresenceMatrix builds from the header names: each name
      is mapped to its position, a later duplicate overwriting. */
  function HeaderIndex(accessions: map<string, nat>, names: seq<string>): (r: map<string, nat>) {
    if names == [] then accessions
    else HeaderIndex(accessions, names[..|names| - 1])[names[|names| - 1] := |names| - 1]
  }

  /** The header array of writePresenceMatrix: slot i holds the accession
      with index i, or Java's "null" when no accession has it. */
  predicate HeaderSlots(accessions: map<string, nat>, names: seq<string>) {
    |names| == |accessions| &&
    forall i: nat :: i < |names| ==>
      if i in accessions.Values then names[i] in accessions && accessions[names[i]] == i
      else names[i] == "null"
  }

  // ------------------------------------------------------------ reduction

  /** A presence count survives reduceMatrix when it is neither below the
      threshold nor above the accession count minus the threshold. */
  predicate InBand(count: int, threshold: int, accessionCount: int) {
    !(count < threshold || accessionCount - threshold < count)
  }

  function Reduced(m: map<Key, set<nat>>, threshold: int, accessionCount: int): (r: map<Key, set<nat>>) {
    map key | key in m && InBand(|m[key]|, threshold, accessionCount) :: m[key]
  }

  /** Reduction adds no key, keeps the survivors' vectors and leaves every
      survivor with threshold <= count <= n - threshold; reducing again
      changes nothing. */
  lemma ReducedBand(m: map<Key, set<nat>>, threshold: int, n: int)
    ensures var r := Reduced(m, threshold, n);
      r.Keys <= m.Keys &&
      (forall key :: key in r ==> r[key] == m[key] && threshold <= |r[key]| <= n - threshold) &&
      Reduced(r, threshold, n) == r
  {
  }

  // ------------------------------------------------------------ file format

  /** One data line: the decoded k-mer, a tab, the presence column. */
  function DataLine(m: map<Key, set<nat>>, kmerSize: nat, key: Key): (line: string)
    requires key in m
  {
    Decoding(key, kmerSize) + "\t" + BitString(m[key])
  }

  function DataLines(m: map<Key, set<nat>>, kmerSize: nat, order: seq<Key>): (lines: seq<string>)
    requires forall i :: 0 <= i < |order| ==> order[i] in m
    ensures |lines| == |order|
  {
    if order == [] then []
    else DataLines(m, kmerSize, order[..|order| - 1]) + [DataLine(m, kmerSize, order[|order| - 1])]
  }

  lemma {:induction false} DataLinesAt(m: map<Key, set<nat>>, kmerSize: nat, order: seq<Key>, i: nat)
    requires forall j :: 0 <= j < |order| ==> order[j] in m
    requires i < |order|
    ensures DataLines(m, kmerSize, order)[i] == DataLine(m, kmerSize, order[i])
  {
    var init := order[..|order| - 1];
    if i < |init| {
      DataLinesAt(m, kmerSize, init, i);
    }
  }

  /** order lists every key of the set once: the hash order of the map. */
  ghost predicate Enumerates(order: seq<Key>, keys: set<Key>) {
    (forall key :: key in keys <==> key in order) &&
    (forall i, j :: 0 <= i < j < |order| ==> order[i] != order[j])
  }

  /** A data line read back: the key of its first field, the bits of its
      second. */
  function ReadRow(m: map<Key, set<nat>>, line: string): (r: map<Key, set<nat>>)
    requires |Split(line, '\t')| >= 2
  {
    var split := Split(line, '\t');
    m[Encoding(split[0]) := Presence(split[1])]
  }

  function ReadRows(m: map<Key, set<nat>>, rows: seq<string>): (r: map<Key, set<nat>>)
    requires forall j :: 0 <= j < |rows| ==> |Split(rows[j], '\t')| >= 2
  {
    if rows == [] then m
    else ReadRow(ReadRows(m, rows[..|rows| - 1]), rows[|rows| - 1])
  }

  /** A written data line reads back as its own key and vector. */
  lemma DataLineReadsBack(m: map<Key, set<nat>>, kmerSize: nat, key: Key)
    requires key in m && Below(key, kmerSize) && m[key] != {}
    ensures var split := Split(DataLine(m, kmerSize, key), '\t');
      split == [Decoding(key, kmerSize), BitString(m[key])] &&
      Encoding(split[0]) == key && Presence(split[1]) == m[key]
  {
    var d := Decoding(key, kmerSize);
    var bits := BitString(m[key]);
    DecodingAt(key, kmerSize);
    PresenceOfBitString(m[key]);
    assert '\t' !in d;
    assert '\t' !in bits;
    SplitTwoFields(d, '\t', bits);
    assert DataLine(m, kmerSize, key) == d + ['\t'] + bits;
    EncodeDecode(key, kmerSize);
    assert Truncated(key, kmerSize) == key;
  }

  lemma {:induction false} DataLinesReadBack(m: map<Key, set<nat>>, kmerSize: nat, order: seq<Key>)
    requires forall key :: key in m ==> Below(key, kmerSize) && m[key] != {}
    requires forall i :: 0 <= i < |order| ==> order[i] in m
    ensures var rows := DataLines(m, kmerSize, order);
      (forall j :: 0 <= j < |rows| ==> |Split(rows[j], '\t')| == 2) &&
      ReadRows(map[], rows) == map key | key in order :: m[key]
  {
    if order != [] {
      var init, last := order[..|order| - 1], order[|order| - 1];
      DataLinesReadBack(m, kmerSize, init);
      DataLineReadsBack(m, kmerSize, last);
      var rows := DataLines(m, kmerSize, order);
      assert rows[..|rows| - 1] == DataLines(m, kmerSize, init);
      assert (map key | key in order :: m[key]) == (map key | key in init :: m[key])[last := m[last]];
    }
  }

  lemma {:induction false} HeaderIndexOfSlots(accessions: map<string, nat>, names: seq<string>, j: nat)
    requires Dense(accessions) && HeaderSlots(accessions, names) && j <= |names|
    ensures HeaderIndex(map[], names[..j]) == map a | a in accessions && accessions[a] < j :: accessions[a]
  {
    DenseCoversRange(accessions);
    if j > 0 {
      HeaderIndexOfSlots(accessions, names, j - 1);
      assert names[..j][..j - 1] == names[..j - 1];
      var a := names[j - 1];
      assert j - 1 in accessions.Values;
      assert a in accessions && accessions[a] == j - 1;
    }
  }

  /** The header line written from the slot names reads back as the
      accession table. */
  lemma HeaderReadsBack(accessions: map<string, nat>, names: seq<string>)
    requires Dense(accessions) && |accessions| >= 1
    requires forall a :: a in accessions ==> a != [] && ',' !in a
    requires HeaderSlots(accessions, names)
    ensures var header := "#" + Join(names, ',');
      header[1..] == Join(names, ',') && HeaderIndex(map[], Split(header[1..], ',')) == accessions
  {
    DenseCoversRange(accessions);
    forall i | 0 <= i < |names| ensures ',' !in names[i] && names[i] != [] {
      assert i in accessions.Values;
    }
    SplitJoin(names, ',');
    var header := "#" + Join(names, ',');
    assert header[1..] == Join(names, ',');
    HeaderIndexOfSlots(accessions, names, |names|);
    assert names[..|names|] == names;
  }

  /** The data lines, in any enumeration of the keys, read back as the
      matrix, and none of them is short. */
  lemma RowsReadBack(m: map<Key, set<nat>>, kmerSize: nat, order: seq<Key>)
    requires forall key :: key in m ==> Below(key, kmerSize) && m[key] != {}
    requires Enumerates(order, m.Keys)
    ensures var rows := DataLines(m, kmerSize, order);
      FirstShort(rows, 2) == |rows| && ReadRows(map[], rows) == m
  {
    var rows := DataLines(m, kmerSize, order);
    DataLinesReadBack(m, kmerSize, order);
    NoneShort(rows, 2);
    EnumeratedMap(m, order);
  }

  /** A map rebuilt from an enumeration of its keys is the map itself. */
  lemma EnumeratedMap<V>(m: map<Key, V>, order: seq<Key>)
    requires Enumerates(order, m.Keys)
    ensures (map key | key in order :: m[key]) == m
  {
    var read := map key | key in order :: m[key];
    assert read.Keys == m.Keys;
  }

  /** When every line has enough fields, none is the first short one. */
  lemma NoneShort(lines: seq<string>, fields: nat)
    requires forall j :: 0 <= j < |lines| ==> |Split(lines[j], '\t')| >= fields
    ensures FirstShort(lines, fields) == |lines|
  {
  }

  /** The lines writePresenceMatrix produces, read by readPresenceMatrix
      into a fresh matrix, give back the same name -> index table and the
      same key -> vector map. This needs dense indices, names that are
      non-empty and free of commas, keys of the declared length and no
      empty vector (a data line with an empty presence column has one
      field, and reading it throws). */
  lemma WriteReadRoundTrip(accessions: map<string, nat>, m: map<Key, set<nat>>, kmerSize: nat,
                           names: seq<string>, order: seq<Key>)
    requires Dense(accessions) && |accessions| >= 1
    requires forall a :: a in accessions ==> a != [] && ',' !in a
    requires HeaderSlots(accessions, names)
    requires forall key :: key in m ==> Below(key, kmerSize) && m[key] != {}
    requires Enumerates(order, m.Keys)
    ensures var lines := ["#" + Join(names, ',')] + DataLines(m, kmerSize, order);
      var rows := lines[1..];
      && lines[0] != []
      && HeaderIndex(map[], Split(lines[0][1..], ',')) == accessions
      && FirstShort(rows, 2) == |rows|
      && ReadRows(map[], rows) == m
  {
    HeaderReadsBack(accessions, names);
    RowsReadBack(m, kmerSize, order);
    var lines := ["#" + Join(names, ',')] + DataLines(m, kmerSize, order);
    assert lines[1..] == DataLines(m, kmerSize, order);
  }

  /** The header loop of readPresenceMatrix: each name gets its position,
      a later repetition overriding an earlier one. */
  method HeaderTable(base: map<string, nat>, header: seq<string>) returns (table: map<string, nat>)
    ensures table == HeaderIndex(base, header)
  {
    table := base;
    for i := 0 to |header|
      invariant table == HeaderIndex(base, header[..i])
    {
      assert header[..i + 1][..i] == header[..i];
      table := table[header[i] := i];
    }
    assert header[..|header|] == header;
  }

  // ------------------------------------------------------------ the class

  class KmerMatrix {
    var kmerMatrix: map<Key, set<nat>>
    var accessions: map<string, nat>
    var kmerSize: nat

    constructor ()
      ensures kmerMatrix == map[] && accessions == map[] && kmerSize == 0
    {
      kmerMatrix := map[];
      accessions := map[];
      kmerSize := 0;
    }

    /** The scan of addKmerSet for the next accession index: one more than
        the largest index in use, 0 for an empty table. */
    method NextAccessionIndex() returns (accessionIndex: nat)
      ensures accessionIndex == Length(accessions.Values)
      ensures forall a :: a in accessions ==> accessions[a] < accessionIndex
    {
      var maxAccessionIndex: int := -1;
      var rest := accessions.Keys;
      while rest != {}
        invariant rest <= accessions.Keys
        invariant forall a :: a in accessions && a !in rest ==> accessions[a] <= maxAccessionIndex
        invariant maxAccessionIndex >= 0 ==> maxAccessionIndex in accessions.Values
        invariant maxAccessionIndex >= -1
        decreases rest
      {
        var key :| key in rest;
        var index := accessions[key];
        if index > maxAccessionIndex {
          maxAccessionIndex := index;
        }
        rest := rest - {key};
      }
      accessionIndex := maxAccessionIndex + 1;
      forall i | i in accessions.Values ensures i < accessionIndex {
        var a :| a in accessions && accessions[a] == i;
      }
      LengthUnique(accessions.Values, accessionIndex);
    }

    /** addKmerSet: register the accession under the next index (even for
        an empty dump, overwriting the index of a known name), take the
        k-mer size from the first line when the matrix has none, then set
        the accession's bit for every accepted line whose count reaches
        minCount. ok is false where Java throws: on a line with no field. */
    method AddKmerSet(lines: seq<string>, minCount: int, accession: string) returns (ok: bool)
      modifies this
      ensures accessions == old(accessions)[accession := Length(old(accessions).Values)]
      ensures kmerSize == DumpKmerSize(old(kmerSize), lines)
      ensures ok <==> FirstShort(lines, 1) == |lines|
      ensures kmerMatrix == IngestLines(old(kmerMatrix), lines[..FirstShort(lines, 1)], kmerSize,
                                        minCount, Length(old(accessions).Values))
    {
      var accessionIndex := NextAccessionIndex();
      accessions := accessions[accession := accessionIndex];
      ok := TakeKmerSize(lines);
      if !ok {
        assert lines[..0] == [];
        return;
      }
      var i := 0;
      while i < |lines|
        invariant i <= FirstShort(lines, 1)
        invariant accessions == old(accessions)[accession := accessionIndex]
        invariant kmerSize == DumpKmerSize(old(kmerSize), lines)
        invariant kmerMatrix == IngestLines(old(kmerMatrix), lines[..i], kmerSize, minCount, accessionIndex)
      {
        IngestLinesStep(old(kmerMatrix), lines, i, kmerSize, minCount, accessionIndex);
        ok := AddDumpLine(lines[i], minCount, accessionIndex);
        if !ok {
          return;
        }
        i := i + 1;
      }
      assert lines[..|lines|] == lines;
    }

    /** The k-mer size of addKmerSet: the first field of the first line,
        when the matrix has none yet. ok is false where Java throws: a
        first line with no field. */
    method TakeKmerSize(lines: seq<string>) returns (ok: bool)
      modifies this
      ensures ok <==> |lines| == 0 || !NoFields(lines[0], '\t')
      ensures kmerSize == DumpKmerSize(old(kmerSize), lines)
      ensures accessions == old(accessions) && kmerMatrix == old(kmerMatrix)
    {
      if |lines| > 0 {
        var first := Split(lines[0], '\t');
        if |first| == 0 {
          return false;
        }
        if kmerSize == 0 {
          kmerSize := |first[0]|;
        }
      }
      return true;
    }

    /** One pass of the loop of addKmerSet. */
    method AddDumpLine(line: string, minCount: int, accessionIndex: nat) returns (ok: bool)
      modifies this
      ensures ok <==> !NoFields(line, '\t')
      ensures accessions == old(accessions) && kmerSize == old(kmerSize)
      ensures ok ==> kmerMatrix == IngestLine(old(kmerMatrix), line, kmerSize, minCount, accessionIndex)
      ensures !ok ==> kmerMatrix == old(kmerMatrix)
    {
      var split := Split(line, '\t');
      if |split| == 0 {
        return false;
      }
      ok := true;
      if |split[0]| != kmerSize {
        return;
      }
      var kmer := Encode(split[0]);
      if |split| < 2 {
        return;
      }
      var parsed := ParseInt(split[1]);
      if parsed.None? {
        return;
      }
      var kmerCount := parsed.value;
      if kmerCount >= minCount {
        kmerMatrix := kmerMatrix[kmer := (if kmer in kmerMatrix then kmerMatrix[kmer] else {}) + {accessionIndex}];
      }
    }

    /** reduceMatrix: drop every k-mer whose presence count is below the
        threshold or above the accession count minus the threshold. */
    method ReduceMatrix(threshold: int)
      modifies this
      ensures kmerMatrix == Reduced(old(kmerMatrix), threshold, |old(accessions)|)
      ensures accessions == old(accessions) && kmerSize == old(kmerSize)
    {
      var removable: set<Key> := {};
      var rest := kmerMatrix.Keys;
      while rest != {}
        invariant rest <= kmerMatrix.Keys
        invariant kmerMatrix == old(kmerMatrix)
        invariant accessions == old(accessions) && kmerSize == old(kmerSize)
        invariant removable == set key | key in kmerMatrix && key !in rest &&
                                         !InBand(|kmerMatrix[key]|, threshold, |accessions|)
        decreases rest
      {
        var kmer :| kmer in rest;
        var count := Cardinality(kmerMatrix[kmer]);
        if count < threshold || |accessions| - threshold < count {
          removable := removable + {kmer};
        }
        rest := rest - {kmer};
      }
      var toRemove := removable;
      while toRemove != {}
        invariant toRemove <= removable
        invariant kmerMatrix == old(kmerMatrix) - (removable - toRemove)
        invariant accessions == old(accessions) && kmerSize == old(kmerSize)
        decreases toRemove
      {
        var kmer :| kmer in toRemove;
        kmerMatrix := kmerMatrix - {kmer};
        toRemove := toRemove - {kmer};
      }
      assert kmerMatrix == old(kmerMatrix) - removable;
    }

    /** The array of writePresenceMatrix that puts each accession name at
        its index; it fails, as Java throws, on an index not below the
        number of accessions. */
    method AccessionSlots() returns (ok: bool, slots: seq<Option<string>>)
      ensures ok <==> forall a :: a in accessions ==> accessions[a] < |accessions|
      ensures ok ==> |slots| == |accessions|
      ensures ok ==> forall i: nat :: i < |slots| ==>
                       (slots[i].Some? <==> i in accessions.Values) &&
                       (slots[i].Some? ==> slots[i].value in accessions && accessions[slots[i].value] == i)
    {
      var n := |accessions|;
      var accessionString := new Option<string>[n](_ => None);
      var rest := accessions.Keys;
      while rest != {}
        invariant rest <= accessions.Keys
        invariant forall a :: a in accessions && a !in rest ==>
                    accessions[a] < n && accessionString[accessions[a]].Some?
        invariant forall i :: 0 <= i < n && accessionString[i].Some? ==>
                    accessionString[i].value in accessions && accessions[accessionString[i].value] == i
        decreases rest
      {
        var accession :| accession in rest;
        var index := accessions[accession];
        if index >= n {
          return false, [];
        }
        accessionString[index] := Some(accession);
        rest := rest - {accession};
      }
      ok, slots := true, accessionString[..];
      forall i: nat | i < n && i in accessions.Values ensures slots[i].Some? {
        var a :| a in accessions && accessions[a] == i;
      }
    }

    /** One data line per key of the matrix, in hash order. */
    method WriteDataLines() returns (lines: seq<string>, ghost order: seq<Key>)
      ensures Enumerates(order, kmerMatrix.Keys)
      ensures lines == DataLines(kmerMatrix, kmerSize, order)
    {
      lines, order := [], [];
      var keys := kmerMatrix.Keys;
      while keys != {}
        invariant keys <= kmerMatrix.Keys
        invariant forall key :: key in order <==> key in kmerMatrix && key !in keys
        invariant forall i, j :: 0 <= i < j < |order| ==> order[i] != order[j]
        invariant lines == DataLines(kmerMatrix, kmerSize, order)
        decreases keys
      {
        var kmer :| kmer in keys;
        var decoded := Decode(kmer, kmerSize);
        var bits := WriteBits(kmerMatrix[kmer]);
        assert (order + [kmer])[..|order|] == order;
        lines := lines + [decoded + "\t" + bits];
        order := order + [kmer];
        keys := keys - {kmer};
      }
    }

    /** writePresenceMatrix: the header "#" and the names joined by commas
        in index order, then one data line per key in hash order (`order`).
        It fails, as Java throws, when there is no accession or an index is
        not below the number of accessions. */
    method WritePresenceMatrix() returns (ok: bool, lines: seq<string>, ghost names: seq<string>,
                                          ghost order: seq<Key>)
      ensures ok <==> |accessions| >= 1 && forall a :: a in accessions ==> accessions[a] < |accessions|
      ensures !ok ==> lines == []
      ensures ok ==> HeaderSlots(accessions, names) && Enumerates(order, kmerMatrix.Keys) &&
                     lines == ["#" + Join(names, ',')] + DataLines(kmerMatrix, kmerSize, order)
    {
      names, order := [], [];
      var slots;
      ok, slots := AccessionSlots();
      var n := |accessions|;
      if !ok || n == 0 {
        return false, [], [], [];
      }
      names := seq(n, i requires 0 <= i < n => if slots[i].Some? then slots[i].value else "null");
      var s := "";
      for i := 0 to n
        invariant s == Prefixed(names[..i], ',')
      {
        assert names[..i + 1][..i] == names[..i];
        var name := if slots[i].Some? then slots[i].value else "null";
        s := s + "," + name;
      }
      assert names[..n] == names;
      var data;
      data, order := WriteDataLines();
      lines := ["#" + s[1..]] + data;
    }

    /** readPresenceMatrix: put every header name with its position into
        the table, then every data line's key with its vector into the
        matrix. It does not skip data lines starting with '#' and does not
        set kmerSize. ok is false where Java throws: no header, an empty
        header, or a data line with fewer than two fields. */
    method ReadPresenceMatrix(lines: seq<string>) returns (ok: bool)
      modifies this
      ensures kmerSize == old(kmerSize)
      ensures (|lines| == 0 || lines[0] == []) ==>
                !ok && accessions == old(accessions) && kmerMatrix == old(kmerMatrix)
      ensures |lines| > 0 && lines[0] != [] ==>
                var rows := lines[1..];
                var n := FirstShort(rows, 2);
                && (ok <==> n == |rows|)
                && accessions == HeaderIndex(old(accessions), Split(lines[0][1..], ','))
                && kmerMatrix == ReadRows(old(kmerMatrix), rows[..n])
    {
      if |lines| == 0 || lines[0] == [] {
        return false;
      }
      var header := Split(lines[0][1..], ',');
      accessions := HeaderTable(accessions, header);
      var rows := lines[1..];
      var j := 0;
      while j < |rows|
        invariant j <= FirstShort(rows, 2)
        invariant kmerMatrix == ReadRows(old(kmerMatrix), rows[..j])
        invariant accessions == HeaderIndex(old(accessions), header) && kmerSize == old(kmerSize)
      {
        assert rows[..j + 1][..j] == rows[..j];
        ok := ReadDataLine(rows[j]);
        if !ok {
          return;
        }
        j := j + 1;
      }
      assert rows[..|rows|] == rows;
      return true;
    }

    /** One pass of the data loop of readPresenceMatrix. */
    method ReadDataLine(line: string) returns (ok: bool)
      modifies this
      ensures ok <==> |Split(line, '\t')| >= 2
      ensures ok ==> kmerMatrix == ReadRow(old(kmerMatrix), line)
      ensures !ok ==> kmerMatrix == old(kmerMatrix)
      ensures accessions == old(accessions) && kmerSize == old(kmerSize)
    {
      var split := Split(line, '\t');
      if |split| < 2 {
        return false;
      }
      var kmer := Encode(split[0]);
      var presence := ParsePresence(split[1]);
      kmerMatrix := kmerMatrix[kmer := presence];
      return true;
    }
  }
}
