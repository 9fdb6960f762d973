/** Locating the start codon and translating the reading frame that begins
    there into a list of amino-acid codes. */
module Translator {
  import opened Outcomes
  import opened NucleotideUtils
  import opened CodonTable

  const CODON_LENGTH := 3
  const START_CODON := "ATG"

  /** An "ATG" begins at index i of s. */
  predicate StartsAt(s: string, i: int) {
    0 <= i && i + CODON_LENGTH <= |s| && s[i..i + CODON_LENGTH] == START_CODON
  }

  /** `s.find("ATG", i)`: the first occurrence at or after i, or -1. */
  function FindFrom(s: string, i: nat): (r: int)
    requires i <= |s|
    decreases |s| - i
    ensures r == -1 <==> forall j | i <= j < |s| :: !StartsAt(s, j)
    ensures r != -1 ==> i <= r && StartsAt(s, r) && forall j | i <= j < r :: !StartsAt(s, j)
  {
    if i + CODON_LENGTH > |s| then -1
    else if s[i..i + CODON_LENGTH] == START_CODON then assert StartsAt(s, i); i
    else FindFrom(s, i + 1)
  }

  /** `find_start_codon`: -1 exactly when "ATG" occurs nowhere in s, and
      otherwise the smallest index where it begins, in any reading frame. */
  function FindStartCodon(s: string): (r: int)
    ensures -1 <= r < |s|
    ensures r == -1 <==> forall j | 0 <= j < |s| :: !StartsAt(s, j)
    ensures r != -1 ==> StartsAt(s, r) && forall j | 0 <= j < r :: !StartsAt(s, j)
  {
    FindFrom(s, 0)
  }

  lemma FindStartCodonExamples()
    ensures FindStartCodon("CATGA") == 1
    ensures FindStartCodon("ATATG") == 2
    ensures FindStartCodon("AUG") == -1
  {
    assert StartsAt("CATGA", 1);
    assert !StartsAt("CATGA", 0) by { assert "CATGA"[0..3][0] == 'C'; }
    assert StartsAt("ATATG", 2);
    assert !StartsAt("ATATG", 0) by { assert "ATATG"[0..3][2] == 'A'; }
    assert !StartsAt("ATATG", 1) by { assert "ATATG"[1..4][0] == 'T'; }
    assert !StartsAt("AUG", 0) by { assert "AUG"[0..3][1] == 'U'; }
  }

  /** The codon at index i: `s[i:i + 3]` for a whole codon. */
  function CodonAt(s: string, i: nat): string
    requires i + CODON_LENGTH <= |s|
  {
    s[i..i + CODON_LENGTH]
  }

  /** Prefix an outcome with the codes already read; failures pass through. */
  function Prepend(p: seq<string>, r: Result<seq<string>>): Result<seq<string>> {
    match r
      case Err(e) => Err(e)
      case Ok(q) => Ok(p + q)
  }

  lemma PrependNothing(r: Result<seq<string>>)
    ensures Prepend([], r) == r
  {
    if r.Ok? {
      assert [] + r.value == r.value;
    }
  }

  lemma PrependAppend(p: seq<string>, aa: string, r: Result<seq<string>>)
    ensures Prepend(p, Prepend([aa], r)) == Prepend(p + [aa], r)
  {
    if r.Ok? {
      assert p + ([aa] + r.value) == (p + [aa]) + r.value;
    }
  }

  /** What the loop reads from index i on: whole codons only, each looked up
      in the table, a missing key failing on that codon, "Stop" ending the
      reading after it is recorded. */
  function ReadFrame(s: string, i: nat): (r: Result<seq<string>>)
    decreases |s| - i
  {
    if i + CODON_LENGTH > |s| then Ok([])
    else match Translate(CodonAt(s, i))
      case None => Err(InvalidCodon(CodonAt(s, i)))
      case Some(aa) =>
        if aa == STOP then Ok([STOP]) else Prepend([aa], ReadFrame(s, i + CODON_LENGTH))
  }

  /** `translate_dna_to_protein` as a value: no start codon gives the empty
      list before anything is checked; otherwise the whole sequence must pass
      the alphabet check, and the frame from the first "ATG" is read. */
  function ProteinOf(s: string): Result<seq<string>> {
    var start := FindStartCodon(s);
    if start == -1 then Ok([])
    else if !IsSequenceValid(s) then Err(InvalidSequence)
    else ReadFrame(s, start)
  }

  /** `translate_dna_to_protein`: the codon loop with its early exit on "Stop". */
  method TranslateDnaToProtein(s: string) returns (r: Result<seq<string>>)
    ensures r == ProteinOf(s)
  {
    var start := FindStartCodon(s);
    if start == -1 {
      return Ok([]);
    }
    if !IsSequenceValid(s) {
      return Err(InvalidSequence);
    }
    var protein: seq<string> := [];
    var i: nat := start;
    PrependNothing(ReadFrame(s, i));
    while i + CODON_LENGTH <= |s|
      invariant ReadFrame(s, start) == Prepend(protein, ReadFrame(s, i))
      decreases |s| - i
    {
      var codon := CodonAt(s, i);
      var aa := Translate(codon);
      if aa.None? {
        return Err(InvalidCodon(codon));
      }
      ghost var before := protein;
      protein := protein + [aa.value];
      if aa.value == STOP {
        break;
      }
      i := i + CODON_LENGTH;
      PrependAppend(before, aa.value, ReadFrame(s, i));
    }
    if i + CODON_LENGTH > |s| {
      assert protein + [] == protein;
    }
    return Ok(protein);
  }

  /** The two edges of the start and alphabet checks: without "ATG" the result
      is the empty list whatever the characters, and with "ATG" a character
      outside ACGTacgt anywhere in the sequence is a failure. */
  lemma TranslateEdges(s: string)
    ensures (forall j | 0 <= j < |s| :: !StartsAt(s, j)) ==> ProteinOf(s) == Ok([])
    ensures ((exists j | 0 <= j < |s| :: StartsAt(s, j)) && (exists j | 0 <= j < |s| :: !IsDnaLetter(s[j])))
      ==> ProteinOf(s) == Err(InvalidSequence)
  {
    SequenceValidIff(s);
  }

  /** The shape of a successful reading from index i: element k is the
      lookup of the k-th whole codon from i, so there are at most
      (|s| - i) / 3 of them; "Stop" can only be the last element, and a
      reading that does not end in "Stop" used up every whole codon. */
  lemma {:induction false} ReadFrameOk(s: string, i: nat, p: seq<string>)
    requires i <= |s| && ReadFrame(s, i) == Ok(p)
    ensures |p| <= (|s| - i) / CODON_LENGTH
    ensures forall k | 0 <= k < |p| :: NthCodon(s, i, k) == Some(p[k])
    ensures forall k | 0 <= k < |p| - 1 :: p[k] != STOP
    ensures (|p| == 0 || p[|p| - 1] != STOP) ==> |p| == (|s| - i) / CODON_LENGTH
    decreases |s| - i
  {
    if i + CODON_LENGTH <= |s| {
      assert (|s| - i) / CODON_LENGTH == (|s| - (i + CODON_LENGTH)) / CODON_LENGTH + 1;
      ReadFrameStep(s, i, p);
      assert NthCodon(s, i, 0) == Some(p[0]);
      if p[0] != STOP {
        var j := i + CODON_LENGTH;
        ReadFrameOk(s, j, p[1..]);
        forall k | 0 < k < |p|
          ensures NthCodon(s, i, k) == Some(p[k])
        {
          NthCodonShift(s, i, k - 1);
          assert p[1..][k - 1] == p[k];
        }
      }
    } else {
      assert (|s| - i) / CODON_LENGTH == 0;
    }
  }

  /** A successful reading over a whole codon records that codon's entry
      first, and stops there exactly when it is "Stop". */
  lemma ReadFrameStep(s: string, i: nat, p: seq<string>)
    requires i + CODON_LENGTH <= |s| && ReadFrame(s, i) == Ok(p)
    ensures |p| > 0 && Translate(CodonAt(s, i)) == Some(p[0])
    ensures p[0] == STOP ==> p == [STOP]
    ensures p[0] != STOP ==> ReadFrame(s, i + CODON_LENGTH) == Ok(p[1..])
  {
    var aa := Translate(CodonAt(s, i)).value;
    if aa != STOP {
      assert p == [aa] + ReadFrame(s, i + CODON_LENGTH).value;
    }
  }

  /** The lookup of the m-th whole codon from index i. */
  function NthCodon(s: string, i: nat, m: nat): Option<string> {
    if i + CODON_LENGTH * m + CODON_LENGTH <= |s| then Translate(CodonAt(s, i + CODON_LENGTH * m)) else None
  }

  lemma NthCodonShift(s: string, i: nat, m: nat)
    ensures NthCodon(s, i, m + 1) == NthCodon(s, i + CODON_LENGTH, m)
  {
    assert i + CODON_LENGTH * (m + 1) == i + CODON_LENGTH + CODON_LENGTH * m;
  }

  /** The reading from i gets past k codons, each a key other than "Stop",
      and the next whole codon is not a key. */
  predicate FailsAt(s: string, i: nat, k: nat) {
    && (forall m | 0 <= m < k :: NthCodon(s, i, m).Some? && NthCodon(s, i, m) != Some(STOP))
    && i + CODON_LENGTH * k + CODON_LENGTH <= |s|
    && NthCodon(s, i, k).None?
  }

  /** A failed reading from index i names the first codon that is not a key;
      every codon before it is a key other than "Stop". */
  lemma {:induction false} ReadFrameErr(s: string, i: nat)
    requires ReadFrame(s, i).Err?
    ensures exists k: nat :: FailsAt(s, i, k) && ReadFrame(s, i).error == InvalidCodon(CodonAt(s, i + CODON_LENGTH * k))
    decreases |s| - i
  {
    if Translate(CodonAt(s, i)).None? {
      assert NthCodon(s, i, 0).None?;
      assert FailsAt(s, i, 0);
    } else {
      var j := i + CODON_LENGTH;
      ReadFrameErr(s, j);
      var k: nat :| FailsAt(s, j, k) && ReadFrame(s, j).error == InvalidCodon(CodonAt(s, j + CODON_LENGTH * k));
      FailsAtShift(s, i, k);
      assert ReadFrame(s, i).error == ReadFrame(s, j).error;
      assert j + CODON_LENGTH * k == i + CODON_LENGTH * (k + 1);
    }
  }

  lemma FailsAtShift(s: string, i: nat, k: nat)
    requires NthCodon(s, i, 0).Some? && NthCodon(s, i, 0) != Some(STOP)
    requires FailsAt(s, i + CODON_LENGTH, k)
    ensures FailsAt(s, i, k + 1)
  {
    forall m | 0 < m <= k + 1
      ensures NthCodon(s, i, m) == NthCodon(s, i + CODON_LENGTH, m - 1)
    {
      NthCodonShift(s, i, m - 1);
    }
  }

  /** The translation read from the first start codon has the shape above;
      its first element is always "Met". */
  lemma ProteinShape(s: string)
    requires ProteinOf(s).Ok? && FindStartCodon(s) != -1
    ensures var start, p := FindStartCodon(s), ProteinOf(s).value;
      && |p| >= 1 && p[0] == "Met"
      && |p| <= (|s| - start) / CODON_LENGTH
      && (forall k | 0 <= k < |p| :: NthCodon(s, start, k) == Some(p[k]))
      && (forall k | 0 <= k < |p| - 1 :: p[k] != STOP)
      && (p[|p| - 1] != STOP ==> |p| == (|s| - start) / CODON_LENGTH)
  {
    var start := FindStartCodon(s);
    ReadFrameOk(s, start, ProteinOf(s).value);
    assert CodonAt(s, start) == START_CODON;
  }

  /** Over the upper-case alphabet every codon read is a key, so the reading
      cannot fail. */
  lemma {:induction false} UpperCaseReadsFully(s: string, i: nat)
    requires forall j | 0 <= j < |s| :: IsBase(s[j])
    ensures ReadFrame(s, i).Ok?
    decreases |s| - i
  {
    if i + CODON_LENGTH <= |s| {
      assert IsCodon(CodonAt(s, i));
      UpperCaseReadsFully(s, i + CODON_LENGTH);
    }
  }

  /** A sequence over ACGT always translates. The alphabet check is
      case-insensitive while the table's keys are upper case, so a lower-case
      base inside a codon that is read still reaches the invalid-codon
      failure (see TranslateLowerCaseExample). */
  lemma UpperCaseTranslates(s: string)
    requires forall j | 0 <= j < |s| :: IsBase(s[j])
    ensures ProteinOf(s).Ok?
  {
    SequenceValidIff(s);
    var start := FindStartCodon(s);
    if start != -1 {
      UpperCaseReadsFully(s, start);
    }
  }

  lemma TranslateExample()
    ensures ProteinOf("ATGCGT") == Ok(["Met", "Arg"])
  {
    var s := "ATGCGT";
    assert StartsAt(s, 0);
    SequenceValidIff(s);
    assert CodonAt(s, 0) == "ATG" && CodonAt(s, 3) == "CGT";
    assert Translate("ATG") == Some("Met") && Translate("CGT") == Some("Arg");
    assert ReadFrame(s, 6) == Ok([]);
    assert ["Arg"] + [] == ["Arg"];
    assert ReadFrame(s, 3) == Ok(["Arg"]);
    assert ["Met"] + ["Arg"] == ["Met", "Arg"];
  }

  lemma TranslateInvalidExample()
    ensures ProteinOf("ATGX") == Err(InvalidSequence)
  {
    assert StartsAt("ATGX", 0);
    assert !IsDnaLetter("ATGX"[3]);
    TranslateEdges("ATGX");
  }

  /** A lower-case base inside a codon passes the alphabet check but is not
      a key of the table. */
  lemma TranslateLowerCaseExample()
    ensures ProteinOf("ATGaaa") == Err(InvalidCodon("aaa"))
  {
    var s := "ATGaaa";
    assert StartsAt(s, 0);
    SequenceValidIff(s);
    assert CodonAt(s, 0) == "ATG" && CodonAt(s, 3) == "aaa";
    assert ReadFrame(s, 3) == Err(InvalidCodon("aaa"));
  }

  /** The reading starts at the first "ATG", off the first frame, and stops
      after "Stop": the codon "aaa" after it, which is not a key, is never
      read. */
  lemma TranslateStopExample()
    ensures ProteinOf("CATGTAAaaa") == Ok(["Met", "Stop"])
  {
    var s := "CATGTAAaaa";
    assert FindStartCodon(s) == 1 by {
      assert StartsAt(s, 1);
      assert !StartsAt(s, 0) by { assert s[0..3][0] == 'C'; }
    }
    StopExampleValid();
    StopExampleFrame();
  }

  lemma StopExampleValid()
    ensures IsSequenceValid("CATGTAAaaa")
  {
    SequenceValidIff("CATGTAAaaa");
  }

  lemma StopExampleFrame()
    ensures ReadFrame("CATGTAAaaa", 1) == Ok(["Met", "Stop"])
  {
    var s := "CATGTAAaaa";
    assert CodonAt(s, 1) == "ATG" && CodonAt(s, 4) == "TAA";
    assert Translate("ATG") == Some("Met") && Translate("TAA") == Some(STOP);
    assert ReadFrame(s, 4) == Ok([STOP]);
    assert ["Met"] + [STOP] == ["Met", "Stop"];
  }
}
