/** Nucleotide utilities: normalising raw input, checking the DNA alphabet,
    the position-aligned complementary strand and the RNA display form. */
module NucleotideUtils {
  import opened Outcomes
  import opened PyStrings
  import opened CodonTable

  /** What FormatSequence produces: no whitespace, no lower-case letter, no 'U'. */
  predicate IsFormatted(s: string) {
    forall i | 0 <= i < |s| :: !IsWhitespace(s[i]) && !IsLower(s[i]) && s[i] != 'U'
  }

  /** `format_sequence`: drop whitespace, upper-case, then turn every 'U' into 'T'. */
  function FormatSequence(s: string): (r: string)
    ensures |r| <= |s|
    ensures IsFormatted(r)
  {
    Replace(Upper(StripWhitespace(s)), 'U', 'T')
  }

  /** What FormatSequence does to one character that it keeps. */
  function NormalizeChar(c: char): char {
    if UpperChar(c) == 'U' then 'T' else UpperChar(c)
  }

  lemma {:induction false} StripWhitespaceConcat(a: string, b: string)
    ensures StripWhitespace(a + b) == StripWhitespace(a) + StripWhitespace(b)
  {
    if |a| == 0 {
      assert a + b == b;
    } else {
      assert (a + b)[0] == a[0];
      assert (a + b)[1..] == a[1..] + b;
      StripWhitespaceConcat(a[1..], b);
    }
  }

  /** FormatSequence works character by character: it distributes over
      concatenation and, on one character, drops it if it is whitespace and
      otherwise upper-cases it and maps 'U' to 'T'. So it keeps the
      non-whitespace characters in order. */
  lemma FormatConcat(a: string, b: string)
    ensures FormatSequence(a + b) == FormatSequence(a) + FormatSequence(b)
  {
    StripWhitespaceConcat(a, b);
    var wa, wb := StripWhitespace(a), StripWhitespace(b);
    assert Upper(wa + wb) == Upper(wa) + Upper(wb);
    assert Replace(Upper(wa) + Upper(wb), 'U', 'T')
        == Replace(Upper(wa), 'U', 'T') + Replace(Upper(wb), 'U', 'T');
  }

  lemma FormatChar(c: char)
    ensures FormatSequence([c]) == if IsWhitespace(c) then [] else [NormalizeChar(c)]
  {
    assert [c][1..] == [];
  }

  lemma {:induction false} StripWhitespaceKeeps(s: string)
    requires forall i | 0 <= i < |s| :: !IsWhitespace(s[i])
    ensures StripWhitespace(s) == s
  {
    if |s| > 0 {
      StripWhitespaceKeeps(s[1..]);
    }
  }

  /** The formatted strings are exactly the fixed points of FormatSequence. */
  lemma FormatFixedPoints(s: string)
    ensures IsFormatted(s) <==> FormatSequence(s) == s
  {
    if IsFormatted(s) {
      StripWhitespaceKeeps(s);
      assert Upper(s) == s;
    }
  }

  /** `format_sequence` is idempotent. */
  lemma FormatIdempotent(s: string)
    ensures FormatSequence(FormatSequence(s)) == FormatSequence(s)
  {
    FormatFixedPoints(FormatSequence(s));
  }

  lemma FormatExamples()
    ensures FormatSequence("atg cgt") == "ATGCGT"
    ensures FormatSequence("AUG") == "ATG"
  {
  }

  /** The input "  A uuuu tgcg    ", written as its two halves: formatting
      each half and joining them gives the formatted whole. */
  lemma FormatLongExample()
    ensures FormatSequence("  A uuuu" + " tgcg    ") == "ATTTTTGCG"
  {
    FormatHalves();
    FormatConcat("  A uuuu", " tgcg    ");
  }

  lemma FormatHalves()
    ensures FormatSequence("  A uuuu") == "ATTTT"
    ensures FormatSequence(" tgcg    ") == "TGCG"
  {
  }

  /** `is_nucleotide_valid`: the upper-cased string is one of "A", "T", "C", "G". */
  predicate IsNucleotideValid(n: string) {
    Upper(n) in {"A", "T", "C", "G"}
  }

  /** Exactly the one-letter strings A, T, C, G in either case are valid. */
  lemma NucleotideValidIff(n: string)
    ensures IsNucleotideValid(n) <==> n in {"A", "T", "C", "G", "a", "t", "c", "g"}
  {
    if |n| == 1 {
      assert n == [n[0]];
      assert Upper(n) == [UpperChar(n[0])];
    }
  }

  /** `is_sequence_valid`: every character of the upper-cased sequence, as a
      one-character string, passes is_nucleotide_valid. */
  predicate IsSequenceValid(s: string) {
    var u := Upper(s);
    forall i | 0 <= i < |u| :: IsNucleotideValid([u[i]])
  }

  predicate IsDnaLetter(c: char) {
    c in "ACGTacgt"
  }

  /** A sequence is valid exactly when each of its characters is a DNA
      letter of either case; in particular the empty sequence is valid. */
  lemma SequenceValidIff(s: string)
    ensures IsSequenceValid(s) <==> forall i | 0 <= i < |s| :: IsDnaLetter(s[i])
  {
    var u := Upper(s);
    forall i | 0 <= i < |s|
      ensures IsNucleotideValid([u[i]]) <==> IsDnaLetter(s[i])
    {
      NucleotideValidIff([u[i]]);
    }
  }

  lemma SequenceValidExamples()
    ensures IsSequenceValid("ATGCGT")
    ensures !IsSequenceValid("ATGX")
    ensures IsSequenceValid("")
  {
    SequenceValidIff("ATGCGT");
    SequenceValidIff("ATGX");
    assert !IsDnaLetter("ATGX"[3]);
  }

  /** The base-pairing dictionary used for the complementary strand. */
  const COMPLEMENT: map<char, char> := map['A' := 'T', 'T' := 'A', 'C' := 'G', 'G' := 'C']

  /** The dictionary pairs the four upper-case bases and nothing else, A with
      T and C with G, and pairing is its own inverse without fixed points. */
  lemma ComplementPairs(c: char)
    ensures c in COMPLEMENT <==> IsBase(c)
    ensures COMPLEMENT['A'] == 'T' && COMPLEMENT['C'] == 'G'
    ensures c in COMPLEMENT ==> COMPLEMENT[c] in COMPLEMENT && COMPLEMENT[COMPLEMENT[c]] == c && COMPLEMENT[c] != c
  {
  }

  /** `get_complementary_sequence`: each base replaced by its partner, in the
      same order (not reversed); the lookup of any other character, lower
      case included, fails on the first such character. */
  function GetComplementarySequence(s: string): (r: Result<string>)
    ensures r.Ok? <==> forall i | 0 <= i < |s| :: s[i] in COMPLEMENT
    ensures r.Ok? ==> |r.value| == |s| && forall i | 0 <= i < |s| :: r.value[i] == COMPLEMENT[s[i]]
    ensures r.Err? ==> exists i | 0 <= i < |s| :: s[i] !in COMPLEMENT && r.error == InvalidNucleotide(s[i])
                                                && forall j | 0 <= j < i :: s[j] in COMPLEMENT
  {
    if |s| == 0 then Ok([])
    else if s[0] !in COMPLEMENT then Err(InvalidNucleotide(s[0]))
    else match GetComplementarySequence(s[1..])
      case Err(e) => Err(e)
      case Ok(rest) => Ok([COMPLEMENT[s[0]]] + rest)
  }

  /** Complementing twice gives back any upper-case DNA sequence. */
  lemma ComplementInvolution(s: string)
    requires forall i | 0 <= i < |s| :: IsBase(s[i])
    ensures GetComplementarySequence(s).Ok?
    ensures GetComplementarySequence(GetComplementarySequence(s).value) == Ok(s)
  {
    var c := GetComplementarySequence(s).value;
    forall i | 0 <= i < |s| ensures c[i] in COMPLEMENT && COMPLEMENT[c[i]] == s[i] {
      ComplementPairs(s[i]);
    }
    var d := GetComplementarySequence(c).value;
    assert |d| == |s|;
    assert forall i | 0 <= i < |s| :: d[i] == s[i];
    assert d == s;
  }

  lemma ComplementExamples()
    ensures GetComplementarySequence("ATGCGT") == Ok("TACGCA")
    ensures GetComplementarySequence("ATgC") == Err(InvalidNucleotide('g'))
  {
    var c := GetComplementarySequence("ATGCGT").value;
    assert c == "TACGCA";
  }

  /** `get_arn_sequence`: the RNA display form, every 'T' turned into 'U'. */
  function GetArnSequence(s: string): (r: string)
    ensures |r| == |s|
    ensures forall i | 0 <= i < |s| :: r[i] == (if s[i] == 'T' then 'U' else s[i])
    ensures forall i | 0 <= i < |s| :: r[i] != 'T'
  {
    Replace(s, 'T', 'U')
  }

  /** Formatting the RNA form of a formatted sequence gives the sequence back. */
  lemma ArnRoundTrip(s: string)
    requires IsFormatted(s)
    ensures FormatSequence(GetArnSequence(s)) == s
  {
    var rna := GetArnSequence(s);
    assert forall i | 0 <= i < |s| :: !IsWhitespace(rna[i]);
    StripWhitespaceKeeps(rna);
    assert Upper(rna) == rna;
  }
}
