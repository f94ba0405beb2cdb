/** The 2-bit k-mer codec of Kmer.java. Base i of a k-mer occupies bits 2i
    (set for A and C) and 2i+1 (set for A and G): A = 11, C = 10, G = 01,
    T = 00, low bit first. A key is the set of its set bits, so like the
    Java BitSet it carries no length: trailing T's leave no trace. */
module Kmer {
  import opened Text

  /** A k-mer as the positions of the set bits of its BitSet. */
  type Key = set<nat>

  /** The bit 2i of a base: A or C. */
  predicate LowBit(c: char) {
    c == 'A' || c == 'C'
  }

  /** The bit 2i+1 of a base: A or G. */
  predicate HighBit(c: char) {
    c == 'A' || c == 'G'
  }

  /** The bits that upper-case character c sets as base number i. */
  function BaseBits(c: char, i: nat): (r: set<nat>) {
    (if LowBit(c) then {2 * i} else {}) + (if HighBit(c) then {2 * i + 1} else {})
  }

  /** convert(String): the key of a k-mer, upper-cased first. */
  function Encoding(s: string): (key: Key)
  {
    if s == [] then {}
    else Encoding(s[..|s| - 1]) + BaseBits(UpperChar(s[|s| - 1]), |s| - 1)
  }

  /** The decoding table: the base whose low and high bits are these. */
  function Base(low: bool, high: bool): (r: char) {
    if low then (if high then 'A' else 'C') else (if high then 'G' else 'T')
  }

  /** convert(BitSet, int): the k bases read from bits 0 .. 2k-1. */
  function Decoding(b: Key, k: nat): (s: string)
  {
    if k == 0 then []
    else Decoding(b, k - 1) + [Base(2 * (k - 1) in b, 2 * (k - 1) + 1 in b)]
  }

  predicate IsBase(c: char) {
    c == 'A' || c == 'C' || c == 'G' || c == 'T'
  }

  /** A sequence over a, c, g, t in either case. */
  predicate IsNucleotides(s: string) {
    forall i :: 0 <= i < |s| ==> IsBase(UpperChar(s[i]))
  }

  /** A key whose bits all lie below 2k, the bits a k-mer can set. */
  predicate Below(b: Key, k: nat) {
    forall p :: p in b ==> p < 2 * k
  }

  /** The bits of b below 2k. */
  function Truncated(b: Key, k: nat): (r: Key) {
    set p | p in b && p < 2 * k
  }

  /** Watson-Crick pairing, kept in the case of its input; other characters
      are left as they are. */
  function ComplementBase(c: char): (r: char) {
    match c
    case 'A' => 'T'
    case 'T' => 'A'
    case 'C' => 'G'
    case 'G' => 'C'
    case 'a' => 't'
    case 't' => 'a'
    case 'c' => 'g'
    case 'g' => 'c'
    case _ => c
  }

  /** BioSequence.getReverseComplementarySequence by its meaning: reverse,
      then pair each base, keeping its case; a character that is not a, c, g
      or t in either case (N, IUPAC codes) is kept as it is. */
  function ReverseComplement(s: string): (r: string)
    ensures |r| == |s|
  {
    seq(|s|, i requires 0 <= i < |s| => ComplementBase(s[|s| - 1 - i]))
  }

  /** complement(BitSet, int): decode, reverse-complement, encode again. */
  function Complement(b: Key, k: nat): (r: Key)
    ensures Below(r, k)
  {
    DecodingAt(b, k);
    EncodingBelow(ReverseComplement(Decoding(b, k)));
    Encoding(ReverseComplement(Decoding(b, k)))
  }

  // ------------------------------------------------------------ the codec

  /** Bit 2i of the key is set exactly when upper-cased character i is A or
      C, and bit 2i+1 exactly when it is A or G. */
  lemma {:induction false} EncodingBit(s: string, i: nat)
    ensures 2 * i in Encoding(s) <==> i < |s| && LowBit(UpperChar(s[i]))
    ensures 2 * i + 1 in Encoding(s) <==> i < |s| && HighBit(UpperChar(s[i]))
  {
    if s != [] {
      var init := s[..|s| - 1];
      EncodingBit(init, i);
      if i < |init| {
        assert s[i] == init[i];
      }
    }
  }

  /** No bit from 2|s| on is set. */
  lemma {:induction false} EncodingBelow(s: string)
    ensures Below(Encoding(s), |s|)
  {
    if s != [] {
      EncodingBelow(s[..|s| - 1]);
    }
  }

  /** Decoding gives exactly k characters, each A, C, G or T, character i
      being the table entry for bits 2i and 2i+1. */
  lemma {:induction false} DecodingAt(b: Key, k: nat)
    ensures |Decoding(b, k)| == k
    ensures forall i :: 0 <= i < k ==> Decoding(b, k)[i] == Base(2 * i in b, 2 * i + 1 in b)
    ensures forall i :: 0 <= i < k ==> IsBase(Decoding(b, k)[i])
  {
    if k > 0 {
      DecodingAt(b, k - 1);
    }
  }

  /** Decoding only looks at the bits below 2k. */
  lemma {:induction false} DecodingIgnoresHighBits(b: Key, c: Key, k: nat)
    requires forall p: nat :: p < 2 * k ==> (p in b <==> p in c)
    ensures Decoding(b, k) == Decoding(c, k)
  {
    if k > 0 {
      DecodingIgnoresHighBits(b, c, k - 1);
      assert 2 * (k - 1) < 2 * k && 2 * (k - 1) + 1 < 2 * k;
    }
  }

  lemma BaseOfBits(c: char)
    requires IsBase(c)
    ensures Base(LowBit(c), HighBit(c)) == c
  {
  }

  /** Round trip from the string: decoding with the string's own length
      gives it back, upper-cased. */
  lemma DecodeEncode(s: string)
    requires IsNucleotides(s)
    ensures Decoding(Encoding(s), |s|) == Upper(s)
  {
    var e := Encoding(s);
    DecodingAt(e, |s|);
    forall i | 0 <= i < |s|
      ensures Decoding(e, |s|)[i] == Upper(s)[i]
    {
      EncodingBit(s, i);
      BaseOfBits(UpperChar(s[i]));
    }
  }

  /** Round trip from the key: encoding the decoded string gives back the
      bits below 2k, and drops the others. */
  lemma EncodeDecode(b: Key, k: nat)
    ensures Encoding(Decoding(b, k)) == Truncated(b, k)
  {
    var d := Decoding(b, k);
    DecodingAt(b, k);
    EncodingBelow(d);
    forall p: nat
      ensures p in Encoding(d) <==> p in Truncated(b, k)
    {
      var i := p / 2;
      EncodingBit(d, i);
      if i < k {
        assert UpperChar(d[i]) == d[i];
      }
      assert p == 2 * i || p == 2 * i + 1;
    }
  }

  /** A character that is not A, C or G in either case sets no bits, so it
      decodes as T: appending it leaves the key as it was. */
  lemma {:induction false} AppendNonBase(s: string, c: char)
    requires !LowBit(UpperChar(c)) && !HighBit(UpperChar(c))
    ensures Encoding(s + [c]) == Encoding(s)
    ensures Decoding(Encoding(s + [c]), |s| + 1) == Decoding(Encoding(s), |s|) + "T"
  {
    var e := Encoding(s);
    EncodingSnoc(s, c);
    assert BaseBits(UpperChar(c), |s|) == {};
    EncodingBelow(s);
    assert Decoding(e, |s| + 1) == Decoding(e, |s|) + [Base(2 * |s| in e, 2 * |s| + 1 in e)];
  }

  /** Encoding one more character adds exactly its two bits. */
  lemma EncodingSnoc(s: string, c: char)
    ensures Encoding(s + [c]) == Encoding(s) + BaseBits(UpperChar(c), |s|)
  {
    assert (s + [c])[..|s|] == s;
  }

  function Ts(n: nat): (r: string) {
    seq(n, _ => 'T')
  }

  /** Trailing T's never change the key: only the declared length tells
      how many of them a key stands for. */
  lemma {:induction false} TrailingTsInvisible(s: string, n: nat)
    ensures Encoding(s + Ts(n)) == Encoding(s)
  {
    if n > 0 {
      assert s + Ts(n) == (s + Ts(n - 1)) + ['T'];
      AppendNonBase(s + Ts(n - 1), 'T');
      TrailingTsInvisible(s, n - 1);
    } else {
      assert s + Ts(0) == s;
    }
  }

  /** Two strings that agree up to case have the same key. */
  lemma {:induction false} EncodingIgnoresCase(s: string, t: string)
    requires |s| == |t|
    requires forall i :: 0 <= i < |s| ==> UpperChar(s[i]) == UpperChar(t[i])
    ensures Encoding(s) == Encoding(t)
  {
    EncodingBelow(s);
    EncodingBelow(t);
    forall p: nat ensures p in Encoding(s) <==> p in Encoding(t) {
      var i := p / 2;
      EncodingBit(s, i);
      EncodingBit(t, i);
      assert p == 2 * i || p == 2 * i + 1;
    }
  }

  // ------------------------------------------------------ reverse complement

  lemma ReverseComplementTwice(s: string)
    ensures ReverseComplement(ReverseComplement(s)) == s
  {
    var r := ReverseComplement(s);
    forall i | 0 <= i < |s| ensures ReverseComplement(r)[i] == s[i] {
      assert r[|s| - 1 - i] == ComplementBase(s[i]);
      ComplementBaseTwice(s[i]);
    }
  }

  lemma ComplementBaseTwice(c: char)
    ensures ComplementBase(ComplementBase(c)) == c
    ensures IsBase(c) ==> IsBase(ComplementBase(c))
  {
  }

  /** The reverse complement of an upper-case sequence of bases is one. */
  lemma ReverseComplementOfBases(s: string)
    requires forall i :: 0 <= i < |s| ==> IsBase(s[i])
    ensures forall i :: 0 <= i < |s| ==> IsBase(ReverseComplement(s)[i])
  {
    forall i | 0 <= i < |s| ensures IsBase(ReverseComplement(s)[i]) {
      ComplementBaseTwice(s[|s| - 1 - i]);
    }
  }

  /** Pairing commutes with upper-casing on bases of either case. */
  lemma ComplementUpper(c: char)
    requires IsBase(UpperChar(c))
    ensures UpperChar(ComplementBase(c)) == ComplementBase(UpperChar(c))
  {
  }

  /** complement is an involution on keys of length k, and its result is
      again a key of length k. */
  lemma ComplementInvolution(b: Key, k: nat)
    requires Below(b, k)
    ensures Below(Complement(b, k), k)
    ensures Complement(Complement(b, k), k) == b
  {
    var d := Decoding(b, k);
    DecodingAt(b, k);
    var r := ReverseComplement(d);
    ReverseComplementOfBases(d);
    var c := Encoding(r);
    EncodingBelow(r);
    assert IsNucleotides(r);
    DecodeEncode(r);
    assert Upper(r) == r;
    assert Decoding(c, k) == r;
    ReverseComplementTwice(d);
    EncodeDecode(b, k);
    assert Truncated(b, k) == b;
  }

  /** What readMatrix computes for the reverse strand of a k-mer read from
      the matrix file is complement of its key. */
  lemma ReverseKeyIsComplement(w: string)
    requires IsNucleotides(w)
    ensures Encoding(ReverseComplement(w)) == Complement(Encoding(w), |w|)
  {
    DecodeEncode(w);
    var u := Upper(w);
    var rw, ru := ReverseComplement(w), ReverseComplement(u);
    forall i | 0 <= i < |w| ensures UpperChar(rw[i]) == UpperChar(ru[i]) {
      var c := w[|w| - 1 - i];
      ComplementUpper(c);
      assert ru[i] == ComplementBase(UpperChar(c));
    }
    EncodingIgnoresCase(rw, ru);
  }

  /** The forward and reverse keys coincide for a reverse-palindromic
      k-mer. */
  lemma PalindromeSelfComplement(w: string)
    requires IsNucleotides(w) && ReverseComplement(w) == w
    ensures Complement(Encoding(w), |w|) == Encoding(w)
  {
    ReverseKeyIsComplement(w);
  }

  /** Conversely, a k-mer whose key is its own complement is, once
      upper-cased, its own reverse complement: the forward and reverse keys
      coincide only for reverse-palindromic k-mers. */
  lemma {:induction false} SelfComplementIsPalindrome(w: string)
    requires IsNucleotides(w) && Complement(Encoding(w), |w|) == Encoding(w)
    ensures ReverseComplement(Upper(w)) == Upper(w)
  {
    DecodeEncode(w);
    ReverseComplementOfBases(Upper(w));
    assert IsNucleotides(ReverseComplement(Upper(w)));
    DecodeEncode(ReverseComplement(Upper(w)));
  }

  // ------------------------------------------------------------ the loops

  /** convert(String), as the loop that sets two bits per character. */
  method Encode(kmer: string) returns (key: Key)
    ensures key == Encoding(kmer)
    ensures Below(key, |kmer|)
  {
    var a := Upper(kmer);
    key := {};
    for i := 0 to |a|
      invariant key == Encoding(kmer[..i])
      invariant Below(key, i)
    {
      var index := i * 2;
      if a[i] == 'A' || a[i] == 'C' {
        key := key + {index};
      }
      if a[i] == 'A' || a[i] == 'G' {
        key := key + {index + 1};
      }
      assert kmer[..i + 1][..i] == kmer[..i];
    }
    assert kmer[..|a|] == kmer;
  }

  /** convert(BitSet, int), as the loop that appends one base per bit pair. */
  method Decode(key: Key, kmerSize: nat) returns (s: string)
    ensures s == Decoding(key, kmerSize)
    ensures |s| == kmerSize && forall i :: 0 <= i < |s| ==> IsBase(s[i])
  {
    s := [];
    var i := 0;
    while i < kmerSize * 2
      invariant i % 2 == 0 && i <= kmerSize * 2
      invariant s == Decoding(key, i / 2)
    {
      if i in key {
        if i + 1 in key {
          s := s + "A";
        } else {
          s := s + "C";
        }
      } else {
        if i + 1 in key {
          s := s + "G";
        } else {
          s := s + "T";
        }
      }
      i := i + 2;
    }
    DecodingAt(key, kmerSize);
  }
}
