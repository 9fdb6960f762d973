/** The standard genetic code (NCBI translation table 1) over DNA coding-strand
    codons, with "Stop" for the three stop codons, and its lookup.

    The source keeps the code as a 64-entry dictionary from codon strings to
    amino-acid codes. Here the dictionary is `Entry`, a match on the three
    letters with one case per dictionary entry, in the source's order; a
    string is a key exactly when `Entry` gives `Some`. */
module CodonTable {
  import opened Outcomes

  const STOP := "Stop"

  /** The twenty amino-acid codes of the standard code. */
  const AMINO_ACID_CODES: seq<string> := [
    "Ala", "Arg", "Asn", "Asp", "Cys", "Gln", "Glu", "Gly", "His", "Ile",
    "Leu", "Lys", "Met", "Phe", "Pro", "Ser", "Thr", "Trp", "Tyr", "Val"
  ]

  const AMINO_ACIDS: set<string> := set a | a in AMINO_ACID_CODES

  /** An upper-case DNA base. */
  predicate IsBase(c: char) {
    c == 'A' || c == 'C' || c == 'G' || c == 'T'
  }

  /** A three-letter word over the upper-case DNA alphabet. */
  predicate IsCodon(w: string) {
    |w| == 3 && IsBase(w[0]) && IsBase(w[1]) && IsBase(w[2])
  }

  /** The dictionary entry for the key made of the letters a, b, c. */
  function Entry(a: char, b: char, c: char): Option<string> {
    match (a, b, c)
      case ('T', 'T', 'T') => Some("Phe") case ('T', 'T', 'C') => Some("Phe")
      case ('T', 'T', 'A') => Some("Leu") case ('T', 'T', 'G') => Some("Leu")
      case ('C', 'T', 'T') => Some("Leu") case ('C', 'T', 'C') => Some("Leu")
      case ('C', 'T', 'A') => Some("Leu") case ('C', 'T', 'G') => Some("Leu")
      case ('A', 'T', 'T') => Some("Ile") case ('A', 'T', 'C') => Some("Ile")
      case ('A', 'T', 'A') => Some("Ile") case ('A', 'T', 'G') => Some("Met")
      case ('G', 'T', 'T') => Some("Val") case ('G', 'T', 'C') => Some("Val")
      case ('G', 'T', 'A') => Some("Val") case ('G', 'T', 'G') => Some("Val")
      case ('T', 'C', 'T') => Some("Ser") case ('T', 'C', 'C') => Some("Ser")
      case ('T', 'C', 'A') => Some("Ser") case ('T', 'C', 'G') => Some("Ser")
      case ('C', 'C', 'T') => Some("Pro") case ('C', 'C', 'C') => Some("Pro")
      case ('C', 'C', 'A') => Some("Pro") case ('C', 'C', 'G') => Some("Pro")
      case ('A', 'C', 'T') => Some("Thr") case ('A', 'C', 'C') => Some("Thr")
      case ('A', 'C', 'A') => Some("Thr") case ('A', 'C', 'G') => Some("Thr")
      case ('G', 'C', 'T') => Some("Ala") case ('G', 'C', 'C') => Some("Ala")
      case ('G', 'C', 'A') => Some("Ala") case ('G', 'C', 'G') => Some("Ala")
      case ('T', 'A', 'T') => Some("Tyr") case ('T', 'A', 'C') => Some("Tyr")
      case ('T', 'A', 'A') => Some("Stop") case ('T', 'A', 'G') => Some("Stop")
      case ('C', 'A', 'T') => Some("His") case ('C', 'A', 'C') => Some("His")
      case ('C', 'A', 'A') => Some("Gln") case ('C', 'A', 'G') => Some("Gln")
      case ('A', 'A', 'T') => Some("Asn") case ('A', 'A', 'C') => Some("Asn")
      case ('A', 'A', 'A') => Some("Lys") case ('A', 'A', 'G') => Some("Lys")
      case ('G', 'A', 'T') => Some("Asp") case ('G', 'A', 'C') => Some("Asp")
      case ('G', 'A', 'A') => Some("Glu") case ('G', 'A', 'G') => Some("Glu")
      case ('T', 'G', 'T') => Some("Cys") case ('T', 'G', 'C') => Some("Cys")
      case ('T', 'G', 'A') => Some("Stop") case ('T', 'G', 'G') => Some("Trp")
      case ('C', 'G', 'T') => Some("Arg") case ('C', 'G', 'C') => Some("Arg")
      case ('C', 'G', 'A') => Some("Arg") case ('C', 'G', 'G') => Some("Arg")
      case ('A', 'G', 'T') => Some("Ser") case ('A', 'G', 'C') => Some("Ser")
      case ('A', 'G', 'A') => Some("Arg") case ('A', 'G', 'G') => Some("Arg")
      case ('G', 'G', 'T') => Some("Gly") case ('G', 'G', 'C') => Some("Gly")
      case ('G', 'G', 'A') => Some("Gly") case ('G', 'G', 'G') => Some("Gly")
      case _ => None
  }

  /** `CodonTable.translate`: the dictionary lookup with `None` for a missing key. */
  function Translate(codon: string): (aa: Option<string>)
    ensures aa.Some? <==> IsCodon(codon)
    ensures aa.Some? ==> aa.value == STOP || aa.value in AMINO_ACIDS
  {
    if |codon| == 3 then Entry(codon[0], codon[1], codon[2]) else None
  }

  /** The bases in the order the table lists them (first, second and third
      letter each run through T, C, A, G). */
  const TABLE_ORDER := "TCAG"

  /** The i-th codon in TCAG order. */
  function TableCodon(i: nat): (w: string)
    requires i < 64
    ensures IsCodon(w)
  {
    [TABLE_ORDER[i / 16], TABLE_ORDER[i / 4 % 4], TABLE_ORDER[i % 4]]
  }

  function BaseIndex(c: char): (k: nat)
    requires IsBase(c)
    ensures k < 4 && TABLE_ORDER[k] == c
  {
    if c == 'T' then 0 else if c == 'C' then 1 else if c == 'A' then 2 else 3
  }

  /** Position of a codon in TCAG order: inverse of TableCodon. */
  function CodonIndex(w: string): (i: nat)
    requires IsCodon(w)
    ensures i < 64 && TableCodon(i) == w
  {
    var a, b, c := BaseIndex(w[0]), BaseIndex(w[1]), BaseIndex(w[2]);
    assert (16 * a + 4 * b + c) / 16 == a && (16 * a + 4 * b + c) / 4 % 4 == b && (16 * a + 4 * b + c) % 4 == c;
    16 * a + 4 * b + c
  }

  lemma {:induction false} CodonIndexOfTableCodon(i: nat)
    requires i < 64
    ensures CodonIndex(TableCodon(i)) == i
  {
    var w := TableCodon(i);
    var a, b, c := BaseIndex(w[0]), BaseIndex(w[1]), BaseIndex(w[2]);
    assert a == i / 16 && b == i / 4 % 4 && c == i % 4;
  }

  /** All 64 codons in TCAG order. */
  const ALL_CODONS: seq<string> := seq(64, i requires 0 <= i < 64 => TableCodon(i))

  /** The keys of the dictionary. */
  ghost const TABLE_KEYS: set<string> := set w | w in ALL_CODONS

  /** A string is a key exactly when it is a codon, and exactly then does the
      lookup find it. */
  lemma TableKeysAreCodons(w: string)
    ensures w in TABLE_KEYS <==> IsCodon(w)
    ensures w in TABLE_KEYS <==> Translate(w).Some?
  {
    if IsCodon(w) {
      assert ALL_CODONS[CodonIndex(w)] == w;
    }
  }

  /** A sequence without repetitions has as many distinct elements as it is long. */
  lemma {:induction false} DistinctCount<T>(xs: seq<T>)
    requires forall i, j | 0 <= i < j < |xs| :: xs[i] != xs[j]
    ensures |set x | x in xs| == |xs|
  {
    if |xs| > 0 {
      var init := xs[..|xs| - 1];
      DistinctCount(init);
      assert (set x | x in xs) == (set x | x in init) + {xs[|xs| - 1]};
    }
  }

  /** The dictionary has exactly 64 keys. */
  lemma TableHas64Keys()
    ensures |TABLE_KEYS| == 64
  {
    forall i, j | 0 <= i < j < 64 ensures ALL_CODONS[i] != ALL_CODONS[j] {
      CodonIndexOfTableCodon(i);
      CodonIndexOfTableCodon(j);
    }
    DistinctCount(ALL_CODONS);
  }

  /** "Stop" is the value of exactly the keys TAA, TAG and TGA. */
  lemma StopCodons(w: string)
    ensures Translate(w) == Some(STOP) <==> w == "TAA" || w == "TAG" || w == "TGA"
  {
    if |w| == 3 {
      assert w == [w[0], w[1], w[2]];
    }
  }

  /** ATG is the only codon for methionine and TGG the only one for tryptophan. */
  lemma SingleCodonAminoAcids(w: string)
    ensures Translate(w) == Some("Met") <==> w == "ATG"
    ensures Translate(w) == Some("Trp") <==> w == "TGG"
  {
    if |w| == 3 {
      assert w == [w[0], w[1], w[2]];
    }
  }

  /** The twenty amino-acid codes are distinct three-letter codes, none of
      them "Stop". */
  lemma AminoAcidCodes()
    ensures |AMINO_ACIDS| == 20
    ensures forall a | a in AMINO_ACIDS :: |a| == 3 && a != STOP
  {
    forall i, j | 0 <= i < j < 20 ensures AMINO_ACID_CODES[i] != AMINO_ACID_CODES[j] {
      var x, y := AMINO_ACID_CODES[i], AMINO_ACID_CODES[j];
      assert x[0] != y[0] || x[1] != y[1] || x[2] != y[2];
    }
    DistinctCount(AMINO_ACID_CODES);
  }

  /** One codon for each amino-acid code, in the order of AMINO_ACID_CODES. */
  const SAMPLE_CODONS: seq<string> := [
    "GCT", "CGT", "AAT", "GAT", "TGT", "CAA", "GAA", "GGT", "CAT", "ATT",
    "TTA", "AAA", "ATG", "TTT", "CCT", "TCT", "ACT", "TGG", "TAT", "GTT"
  ]

  /** Every amino-acid code and "Stop" is the value of some key: together with
      the postcondition of Translate, the values of the dictionary are exactly
      the twenty codes and "Stop". */
  lemma EveryValueIsUsed(a: string)
    requires a in AMINO_ACIDS || a == STOP
    ensures exists w :: Translate(w) == Some(a)
  {
    if a == STOP {
      assert Translate("TAA") == Some(a);
    } else {
      var i :| 0 <= i < 20 && AMINO_ACID_CODES[i] == a;
      SampleCodonTranslates(i);
    }
  }

  lemma SampleCodonTranslates(i: nat)
    requires i < 20
    ensures Translate(SAMPLE_CODONS[i]) == Some(AMINO_ACID_CODES[i])
  {
    if i < 5 {
    } else if i < 10 {
    } else if i < 15 {
    } else {
    }
  }
}
