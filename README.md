# AgRenSeq data structures in Dafny

AgRenSeq associates k-mers with a phenotype so that it can find resistance
genes. Its data structures package has four parts:

- `Kmer` packs a k-mer into a bit set and unpacks it. Base i sets bit 2i
  for A or C and bit 2i+1 for A or G, so T sets neither bit.
- `KmerMatrix` builds the presence/absence matrix. It reads one k-mer count
  dump per accession and keeps the k-mers of the right length that were seen
  often enough. It can also drop k-mers that too few or too many accessions
  share, write the matrix as `#name,name,...` followed by one line
  `KMER<TAB>0101...` per k-mer, and read such a file back.
- `Phenotype` reads the phenotype score of each accession. A score is the
  mean of the numeric columns of its line. It can restrict the scores to a
  list of accessions or remove a list, and it returns the largest possible
  association score (the sum of the positive scores) and the total score.
- `KmerProjection` seeds an association matrix with every k-mer window but
  the last of the NLR contigs of an assembly. For each matrix row whose k-mer or reverse
  complement was seeded, it stores the sum of the scores of the accessions
  that have that k-mer. It then reports, per contig, a histogram of the
  window scores, and one row per window with a non-zero score.

The Dafny modules follow that structure:

- `Text` models the parts of `String` the code relies on: `split` (trailing
  empty fields dropped), `trim`, `toUpperCase`, `Integer.parseInt` and
  `Double.parseDouble` on plain decimals.
- `Sums` holds the sums over maps that the score definitions use.
- `BitSets` models `java.util.BitSet` as the set of its set bits, and its
  `'0'`/`'1'` rendering.
- `Kmer` models the codec.
- `Matrix` models `KmerMatrix`.
- `Phenotypes` models `Phenotype`.
- `Projection` models `KmerProjection`.

Each class whose fields change in place is a Dafny `class` with those fields.
Its methods keep the source's loops and are proved against specification
functions. Lemmas about those functions state what the program promises.

Files are given as sequences of lines. An exception is a returned `ok ==
false`, and the method then states the object's state at the point of the
throw. `HashMap`/`HashSet` iteration order is unspecified, so each method
that writes output in that order also returns a ghost enumeration of the
keys. The contract states the output in terms of that enumeration.

## Model

| member | source | states |
|---|---|---|
| Kmer.Encode | src/agrenseqDataStructures/Kmer.java:48-66 | The key of a k-mer sets bit 2i for A/C and bit 2i+1 for A/G at each upper-cased position, and no bit at or above 2k. |
| Kmer.EncodingBit | src/agrenseqDataStructures/Kmer.java:52-62 | Bit 2i (2i+1) is in the key exactly when position i exists and its upper-cased base is A or C (A or G). |
| Kmer.EncodingBelow | src/agrenseqDataStructures/Kmer.java:52-62 | A k-mer of length k sets no bit at or above 2k. |
| Kmer.Decode | src/agrenseqDataStructures/Kmer.java:79-99 | Decoding yields exactly k characters, each of them A, C, G or T, read from bits 2i and 2i+1. |
| Kmer.DecodingAt | src/agrenseqDataStructures/Kmer.java:82-96 | Character i of the decoding is A, C, G or T according to bits 2i and 2i+1 (both set gives A, only the low bit C, only the high bit G, neither T). |
| Kmer.DecodingIgnoresHighBits | src/agrenseqDataStructures/Kmer.java:82-96 | Decoding to length k depends only on the bits below 2k. |
| Kmer.DecodeEncode | src/agrenseqDataStructures/Kmer.java:48-99 | Round trip: decoding the key of a nucleotide string at its length gives the upper-cased string. |
| Kmer.EncodeDecode | src/agrenseqDataStructures/Kmer.java:48-99 | Round trip: encoding a decoding gives back the key with its bits at or above 2k removed. |
| Kmer.AppendNonBase | src/agrenseqDataStructures/Kmer.java:55-61 | A character that is not A, C or G sets no bit, and it decodes as T. |
| Kmer.TrailingTsInvisible | src/agrenseqDataStructures/Kmer.java:55-61 | Trailing T's do not change the key; only the stated length records them. |
| Kmer.EncodingIgnoresCase | src/agrenseqDataStructures/Kmer.java:52 | Two strings equal up to case have the same key. |
| Kmer.Complement | src/agrenseqDataStructures/Kmer.java:36-39 | complement decodes the key at length k, reverse-complements it and encodes it again; the result sets no bit at or above 2k. |
| Kmer.ComplementInvolution | src/agrenseqDataStructures/Kmer.java:36-39 | complement keeps keys below 2k, and complementing twice gives back the key. |
| Kmer.ReverseKeyIsComplement | src/agrenseqDataStructures/Kmer.java:36-39 | The key of the reverse complement of a k-mer is the complement of its key. |
| Kmer.PalindromeSelfComplement | src/agrenseqDataStructures/Kmer.java:36-39 | A k-mer equal to its reverse complement has a self-complementary key. |
| Kmer.SelfComplementIsPalindrome | src/agrenseqDataStructures/Kmer.java:36-39 | A k-mer whose key is its own complement is, upper-cased, its own reverse complement: forward and reverse keys coincide only for reverse-palindromic k-mers. |
| Kmer.ReverseComplement | src/agrenseqDataStructures/Kmer.java:37 | The reverse complement of a sequence has its length; with ReverseComplementTwice it is its own inverse, and with ReverseComplementOfBases it maps A/C/G/T strings to A/C/G/T strings. |
| Kmer.ReverseComplementOfBases | src/agrenseqDataStructures/KmerProjection.java:186 | The reverse complement of an upper-case A/C/G/T k-mer is again made of A, C, G and T only. |
| Kmer.ReverseComplementTwice | src/agrenseqDataStructures/Kmer.java:37 | Reverse-complementing twice gives back the sequence. |
| BitSets.Cardinality | src/agrenseqDataStructures/KmerMatrix.java:276-281 | Counting the set bits below length() gives the size of the set. |
| BitSets.WriteBits | src/agrenseqDataStructures/KmerMatrix.java:200-206 | The written presence string is the bit string of the set, of length BitSet.length(). |
| BitSets.ParsePresence | src/agrenseqDataStructures/KmerMatrix.java:249-254 | Parsing a presence string sets exactly the positions that hold '1'. |
| BitSets.PresenceOfBitString | src/agrenseqDataStructures/KmerMatrix.java:200-206 | Parsing the written string gives back the set; it is empty only for the empty set and consists of 0s and 1s. |
| Matrix.KmerMatrix.constructor | src/agrenseqDataStructures/KmerMatrix.java:46-50 | A new matrix has no k-mers, no accessions and k-mer size 0. |
| Matrix.KmerMatrix.NextAccessionIndex | src/agrenseqDataStructures/KmerMatrix.java:69-78 | The new accession's index is one more than the largest index in use, and 0 when there is none. |
| Matrix.NewAccessionKeepsDense | src/agrenseqDataStructures/KmerMatrix.java:69-79 | When the indices are 0..n-1, the next index is n, and adding a new accession keeps them dense. |
| Matrix.KmerMatrix.AddKmerSet | src/agrenseqDataStructures/KmerMatrix.java:66-160 | Registers the accession at the next index. It takes the k-mer size from the first dump line, then ingests the lines up to the first with no field; it fails exactly when such a line exists. |
| Matrix.KmerMatrix.TakeKmerSize | src/agrenseqDataStructures/KmerMatrix.java:98-110 | A matrix with no k-mer size yet (0) takes the length of the first field of the first line; a size already set is kept, as is any size on an empty dump. It fails exactly when the first line has no field. |
| Matrix.KmerMatrix.AddDumpLine | src/agrenseqDataStructures/KmerMatrix.java:121-155 | One dump line sets the accession's bit for its k-mer when the k-mer has the current size and its count parses and reaches the minimum; a line with no field throws. |
| Matrix.IngestLinesSpec | src/agrenseqDataStructures/KmerMatrix.java:121-155 | After ingesting, a key is present exactly when it was before or some line records it; the accession's bit is set exactly when some line records the key. |
| Matrix.IngestKeepsWellFormed | src/agrenseqDataStructures/KmerMatrix.java:124-152 | Ingesting keeps every stored key within the k-mer size and every presence set non-empty. |
| Matrix.KmerMatrix.ReduceMatrix | src/agrenseqDataStructures/KmerMatrix.java:269-293 | Keeps exactly the k-mers present in at least threshold and at most accessions-threshold accessions, with their presence sets unchanged. |
| Matrix.ReducedBand | src/agrenseqDataStructures/KmerMatrix.java:269-293 | Reduction only removes k-mers, every kept k-mer lies in the band, and reducing twice is the same as once. |
| Matrix.KmerMatrix.AccessionSlots | src/agrenseqDataStructures/KmerMatrix.java:182-187 | The accession array is filled by index; it fails exactly when some index is not below the accession count. |
| Matrix.KmerMatrix.WriteDataLines | src/agrenseqDataStructures/KmerMatrix.java:196-209 | Writes one decoded-k-mer, tab, presence-string line per key, in an enumeration of the keys. |
| Matrix.KmerMatrix.WritePresenceMatrix | src/agrenseqDataStructures/KmerMatrix.java:177-213 | Writes the "#" header of the names in index order ("null" for an index no accession holds), followed by the data lines; it fails, writing nothing, exactly when there is no accession or an index is out of range. |
| Matrix.HeaderTable | src/agrenseqDataStructures/KmerMatrix.java:240-243 | Reading the header maps each name to its column, a repeated name keeping its last column. |
| Matrix.HeaderIndexOfSlots | src/agrenseqDataStructures/KmerMatrix.java:188-194 | Reading the first j header names gives back the accessions whose index is below j. |
| Matrix.DataLineReadsBack | src/agrenseqDataStructures/KmerMatrix.java:196-209 | A written data line splits into the decoded k-mer and the presence string, which encode and parse back to the key and its presence set. |
| Matrix.DataLinesReadBack | src/agrenseqDataStructures/KmerMatrix.java:245-256 | Reading the written data lines gives back the matrix restricted to the enumerated keys. |
| Matrix.HeaderReadsBack | src/agrenseqDataStructures/KmerMatrix.java:240-243 | Reading a written header gives back the accession indices. |
| Matrix.RowsReadBack | src/agrenseqDataStructures/KmerMatrix.java:245-256 | Every written data line has two fields, and reading them all gives back the matrix. |
| Matrix.WriteReadRoundTrip | src/agrenseqDataStructures/KmerMatrix.java:177-258 | Round trip: reading a written presence matrix, with comma-free names and well-formed keys, gives back the accession indices and the matrix. |
| Matrix.KmerMatrix.ReadPresenceMatrix | src/agrenseqDataStructures/KmerMatrix.java:225-258 | With no first line, or an empty one, it throws and changes nothing. Otherwise the header names are added by column and the rows are read up to the first with fewer than two fields; it fails exactly when such a row exists. |
| Matrix.KmerMatrix.ReadDataLine | src/agrenseqDataStructures/KmerMatrix.java:246-255 | A row with two fields replaces its k-mer's entry with the parsed presence; a shorter row throws and changes nothing. |
| Phenotypes.Phenotype.constructor | src/agrenseqDataStructures/Phenotype.java:30-32 | A new phenotype has no scores. |
| Phenotypes.Phenotype.FromScores | src/agrenseqDataStructures/Phenotype.java:43-47 | The phenotype holds the given scores. |
| Phenotypes.Phenotype.FromFile | src/agrenseqDataStructures/Phenotype.java:59-64 | The phenotype holds the scores read from the lines. |
| Phenotypes.Phenotype.ReadScores | src/agrenseqDataStructures/Phenotype.java:86-109 | Each line assigns its first field the mean of its numeric later fields, later lines overwriting earlier ones. |
| Phenotypes.Phenotype.ScoreColumns | src/agrenseqDataStructures/Phenotype.java:96-102 | The sum and count of the fields after the first that parse as numbers. |
| Phenotypes.ColumnStep | src/agrenseqDataStructures/Phenotype.java:97-101 | One field adds its value and one to the count when it parses, and nothing when parsing throws. |
| Phenotypes.MeanBounds | src/agrenseqDataStructures/Phenotype.java:104 | A line's score lies between the smallest and largest of its numbers. |
| Phenotypes.AssignDomain | src/agrenseqDataStructures/Phenotype.java:104 | After reading, an accession has a score exactly when it had one before or some line names it. |
| Phenotypes.LastLineWins | src/agrenseqDataStructures/Phenotype.java:104 | An accession's score comes from the last line that names it. |
| Phenotypes.ListedNameSplit | src/agrenseqDataStructures/Phenotype.java:125 | Splitting a trimmed line never throws, and its first field is the listed name. |
| Phenotypes.ListedNamesMembers | src/agrenseqDataStructures/Phenotype.java:122-128 | A name is listed exactly when it is the first field of some trimmed line. |
| Phenotypes.Phenotype.SelectAccessions | src/agrenseqDataStructures/Phenotype.java:120-144 | Only the accessions named in the list keep their scores. |
| Phenotypes.Phenotype.RemoveAccessions | src/agrenseqDataStructures/Phenotype.java:152-163 | The accessions named in the list lose their scores, and the others keep them. |
| Phenotypes.SelectRemovePartition | src/agrenseqDataStructures/Phenotype.java:120-163 | Selecting and removing the same list split the accessions into two disjoint parts, and neither changes a score. |
| Phenotypes.Phenotype.GetMaxScore | src/agrenseqDataStructures/Phenotype.java:171-181 | Returns the sum of the positive scores. |
| Phenotypes.Phenotype.GetTotalScore | src/agrenseqDataStructures/Phenotype.java:190-199 | Returns the sum of all scores. |
| Phenotypes.MaxScoreNonNegative | src/agrenseqDataStructures/Phenotype.java:171-181 | The largest possible association score is never negative. |
| Phenotypes.TotalAtMostMax | src/agrenseqDataStructures/Phenotype.java:171-199 | The total score never exceeds the largest possible score. |
| Phenotypes.SubsetAtMostMax | src/agrenseqDataStructures/Phenotype.java:171-181 | The scores of any set of accessions sum to at most the largest possible score. |
| Projection.KmerProjection.constructor | src/agrenseqDataStructures/KmerProjection.java:64-73 | Keeps the inputs and an empty association matrix, and sets the k-mer size from the matrix file. |
| Projection.KmerProjection.SetKmerSize | src/agrenseqDataStructures/KmerProjection.java:87-110 | The k-mer size is the length of the first field of the first line that does not start with '#'. It fails, keeping the old size, when there is no such line or that line has no field. |
| Projection.KmerSizeOfWrittenMatrix | src/agrenseqDataStructures/KmerProjection.java:87-110 | Reading the k-mer size of a written, non-empty presence matrix gives back its k-mer size. |
| Projection.KmerProjection.ReadNlrList | src/agrenseqDataStructures/KmerProjection.java:125-130 | Returns the set of first fields of the NLR list lines. |
| Projection.NlrContigsSpec | src/agrenseqDataStructures/KmerProjection.java:125-130 | Reading the NLR list succeeds exactly when every line has a field, and then a name is in the set exactly when it is some line's first field. |
| Projection.ListedMembers | src/agrenseqDataStructures/KmerProjection.java:134-136 | A contig is visited exactly when it is in the assembly and its identifier is listed. |
| Projection.WindowKeysSpec | src/agrenseqDataStructures/KmerProjection.java:139-142 | The seeded keys of a contig are exactly the keys of its windows 0 .. length-k-1. |
| Projection.KmerProjection.ReadAssembly | src/agrenseqDataStructures/KmerProjection.java:121-146 | Puts 0.0 under every window key of every listed contig, keeping the entries of other keys. It fails, changing nothing, when the NLR list has a line with no field. |
| Projection.KmerProjection.SeedContig | src/agrenseqDataStructures/KmerProjection.java:139-142 | Seeding a contig adds its window keys to the seeded set. |
| Projection.SeededStep | src/agrenseqDataStructures/KmerProjection.java:141 | Putting 0.0 under a key is the same as adding that key to the seeds. |
| Projection.ShortContigSeedsNothing | src/agrenseqDataStructures/KmerProjection.java:139 | A contig no longer than k seeds no key. |
| Projection.KmerProjection.GetAssociationScore | src/agrenseqDataStructures/KmerProjection.java:217-242 | The score is the sum of the phenotype scores of the accessions whose column holds '1'. |
| Projection.AssociationScoreAtMostMax | src/agrenseqDataStructures/KmerProjection.java:217-242 | No association score exceeds the phenotype's largest possible score. |
| Projection.AssociationScoreExtremes | src/agrenseqDataStructures/KmerProjection.java:217-242 | When every scored accession is present the score is the total score, and when none is present it is 0. |
| Projection.AssociationScoreExample | src/agrenseqDataStructures/KmerProjection.java:217-242 | Worked scores for two accessions and for an unindexed one. |
| Projection.KmerProjection.ReadMatrix | src/agrenseqDataStructures/KmerProjection.java:156-204 | With no header, or an empty one, it throws and changes nothing. Otherwise it scores the rows up to the first that throws, never adding a key; it fails exactly when a row throws. |
| Projection.KmerProjection.ScoreLine | src/agrenseqDataStructures/KmerProjection.java:179-199 | A non-comment row stores its score under its k-mer and its reverse complement, wherever those were seeded. It throws on a row with no field, or with a seeded k-mer but no second field. |
| Projection.ScoreRowEffect | src/agrenseqDataStructures/KmerProjection.java:183-197 | A row changes exactly the seeded entries of its k-mer and its reverse complement, each to the row's association score. |
| Projection.KmerProjection.ContigHistogram | src/agrenseqDataStructures/KmerProjection.java:283-296 | The histogram counts each non-zero score over the contig's windows. |
| Projection.HistCountsPositions | src/agrenseqDataStructures/KmerProjection.java:283-296 | A score is in the histogram exactly when some reported window position has it, and its count is the number of such positions. |
| Projection.HistTotal | src/agrenseqDataStructures/KmerProjection.java:283-296 | The histogram's counts add up to the number of windows with a non-zero score. |
| Projection.KmerProjection.HistogramRows | src/agrenseqDataStructures/KmerProjection.java:298-303 | Writes one row per histogram entry, in an enumeration of its scores, with the count stored for that score. |
| Projection.KmerProjection.AppendContig | src/agrenseqDataStructures/KmerProjection.java:280-304 | Appending one contig's rows extends the report by that contig with the next rank. |
| Projection.KmerProjection.ContigRows | src/agrenseqDataStructures/KmerProjection.java:276-305 | The rows are the report of the listed contigs in assembly order, ranked from 1. |
| Projection.KmerProjection.WriteAssociationScore | src/agrenseqDataStructures/KmerProjection.java:261-308 | Reads the NLR list and writes the report of the listed contigs; it fails, writing nothing, exactly when the list has a line with no field. |
| Projection.ContigReportRows | src/agrenseqDataStructures/KmerProjection.java:283-303 | Every report row names a listed contig by its rank, with a score from that contig's histogram and that score's count. |
| Projection.KmerProjection.ContigPositions | src/agrenseqDataStructures/KmerProjection.java:336-343 | One row per window with a non-zero score, in position order. |
| Projection.PositionsSpec | src/agrenseqDataStructures/KmerProjection.java:336-343 | The rows name the contig, are in increasing position order, carry the window's score, and cover every scored window. |
| Projection.KmerProjection.WriteAssociationScorePerPosition | src/agrenseqDataStructures/KmerProjection.java:326-347 | The rows are the position rows of the listed contigs, in assembly order. |
| Projection.PositionReportStep | src/agrenseqDataStructures/KmerProjection.java:332-345 | One more contig appends exactly its own position rows. |

## Left out

- File and gzip I/O, `BufferedReader` and `BufferedWriter`: files are sequences of lines and the written files are returned as sequences of lines or rows.
- `FastaReader` (the assembly reader) is not part of this model: the assembly is a sequence of contigs, each an identifier and a sequence.
- Kmer.ReverseComplement: models `BioSequence.getReverseComplementarySequence` by its meaning, since `BioSequence` is not part of this model. It is assumed to reverse the sequence and pair A-T and C-G, keeping lower case as lower case, and to leave any other character (N, IUPAC codes) unchanged; for matrix rows holding such characters this assumption decides the reverse key and whether the row throws in readMatrix.
- `PhenotypeStemRust`, `KmerMatrix.main` and the command-line front ends are not part of this model.
- Console diagnostics and the counters of malformed lines that only feed them.
- `Phenotype.getPhenotypes` has no member of its own: callers read the `phenoScores` field.
- Phenotypes.Phenotype.ReadScores: requires each line to be scorable (a first field and at least one numeric column). Otherwise the Java divides by zero in floating point and stores NaN, or throws on a line of tabs only.
- Phenotypes.Phenotype.FromFile: carries the same requirement as ReadScores, for the same reason.
- Phenotypes.Phenotype.FromScores: the Java keeps a reference to the caller's map, and the model keeps a copy of its value, so later changes through that reference are not modelled.
- Projection.KmerProjection.constructor: the Java throws when the matrix file has no k-mer line; the model requires such a line.
- Scores are exact reals rather than IEEE doubles. There is no rounding, NaN, infinity or negative zero, and the histogram compares scores as reals rather than as boxed `Double`s.
- `Double.parseDouble` accepts only optionally signed decimals with an optional fraction (no exponents, hex, `NaN`, `Infinity` or type suffixes). `Integer.parseInt` accepts only ASCII digits, and upper-casing only ASCII letters.
- Java `int` overflow of counters and indices is not modelled; `Integer.parseInt` rejects values outside the 32-bit range.
- `HashMap` and `HashSet` iteration order: written rows are stated for a ghost enumeration of the keys, not a particular order.
