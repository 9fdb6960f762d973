/** The three mutation operations: substitution, deletion and insertion of
    bases at 0-based positions of a sequence. Each builds a new string in a
    loop; each loop is proved against a specification function that says
    what the result is without reference to the loop. */
module Mutations {
  import opened Outcomes
  import opened PyStrings
  import opened Sorting
  import opened NucleotideUtils
  import opened CodonTable

  /** A 0-based position and a base, as the substitution and insertion lists
      hold them. */
  type Edit = (int, string)

  /** Index of the first element that fails ok, or -1 when all pass. */
  function FirstFailing<T>(xs: seq<T>, ok: T -> bool): (k: int)
    ensures -1 <= k < |xs|
    ensures k == -1 <==> forall j | 0 <= j < |xs| :: ok(xs[j])
    ensures k != -1 ==> !ok(xs[k]) && forall j | 0 <= j < k :: ok(xs[j])
  {
    if |xs| == 0 then -1
    else if !ok(xs[0]) then 0
    else
      var k := FirstFailing(xs[1..], ok);
      if k == -1 then -1 else k + 1
  }

  // ---------------------------------------------------------------------
  // Substitution

  /** A change the substitution loop accepts: a position inside the sequence
      and a valid base. */
  predicate ValidChange(s: string, c: Edit) {
    0 <= c.0 < |s| && IsNucleotideValid(c.1)
  }

  /** The one character a valid base becomes once upper-cased. */
  function BaseChar(n: string): (c: char)
    requires IsNucleotideValid(n)
    ensures Upper(n) == [c]
    ensures IsBase(c)
  {
    Upper(n)[0]
  }

  /** Index of the last change aimed at position j, or -1 when none is. */
  function LastChangeAt(cs: seq<Edit>, j: int): (k: int)
    ensures -1 <= k < |cs|
    ensures k == -1 <==> forall m | 0 <= m < |cs| :: cs[m].0 != j
    ensures k != -1 ==> cs[k].0 == j && forall m | k < m < |cs| :: cs[m].0 != j
  {
    if |cs| == 0 then -1
    else if cs[|cs| - 1].0 == j then |cs| - 1
    else LastChangeAt(cs[..|cs| - 1], j)
  }

  /** The sequence after the changes: a position named by some change holds
      the upper-cased base of the last change naming it, every other position
      keeps its character. */
  function Substituted(s: string, cs: seq<Edit>): (r: string)
    requires forall k | 0 <= k < |cs| :: ValidChange(s, cs[k])
    ensures |r| == |s|
  {
    seq(|s|, j requires 0 <= j < |s| => SubstitutedAt(s, cs, j))
  }

  function SubstitutedAt(s: string, cs: seq<Edit>, j: nat): char
    requires forall k | 0 <= k < |cs| :: ValidChange(s, cs[k])
    requires j < |s|
  {
    var k := LastChangeAt(cs, j);
    if k == -1 then s[j] else assert ValidChange(s, cs[k]); BaseChar(cs[k].1)
  }

  /** `mutation_change` as a value: the first change that is out of range or
      carries an invalid base is a failure; otherwise the last write to each
      position wins. */
  function ChangeSpec(s: string, cs: seq<Edit>): (r: Result<string>)
    ensures r.Ok? <==> forall k | 0 <= k < |cs| :: ValidChange(s, cs[k])
    ensures r.Ok? ==> |r.value| == |s|
  {
    var k := FirstFailing(cs, c => ValidChange(s, c));
    if k != -1 then Err(InvalidChange(cs[k].0, cs[k].1))
    else Ok(Substituted(s, cs))
  }

  lemma SubstitutedStep(s: string, cs: seq<Edit>, i: nat)
    requires i < |cs| && forall k | 0 <= k <= i :: ValidChange(s, cs[k])
    ensures var t, p := Substituted(s, cs[..i]), cs[i].0;
      Substituted(s, cs[..i + 1]) == t[..p] + Upper(cs[i].1) + t[p + 1..]
  {
    var t, p := Substituted(s, cs[..i]), cs[i].0;
    assert cs[..i + 1][..i] == cs[..i];
    var u := t[..p] + Upper(cs[i].1) + t[p + 1..];
    assert |u| == |s|;
    forall j | 0 <= j < |s|
      ensures Substituted(s, cs[..i + 1])[j] == u[j]
    {
      if j == p {
        assert u[j] == BaseChar(cs[i].1);
      } else {
        assert LastChangeAt(cs[..i + 1], j) == LastChangeAt(cs[..i], j);
      }
    }
  }

  /** With no changes applied, the sequence is unchanged. */
  lemma SubstitutedNone(s: string, cs: seq<Edit>)
    ensures Substituted(s, cs[..0]) == s
  {
    assert cs[..0] == [];
    forall j | 0 <= j < |s| ensures Substituted(s, [])[j] == s[j] {
      assert LastChangeAt([], j) == -1;
    }
  }

  lemma ChangeSpecFails(s: string, cs: seq<Edit>, i: nat)
    requires i < |cs| && !ValidChange(s, cs[i])
    requires forall k | 0 <= k < i :: ValidChange(s, cs[k])
    ensures ChangeSpec(s, cs) == Err(InvalidChange(cs[i].0, cs[i].1))
  {
    assert FirstFailing(cs, c => ValidChange(s, c)) == i;
  }

  /** `mutation_change`: reassign the sequence once per change, in list order. */
  method MutationChange(s: string, cs: seq<Edit>) returns (r: Result<string>)
    ensures r == ChangeSpec(s, cs)
  {
    var newSeq := s;
    SubstitutedNone(s, cs);
    for i := 0 to |cs|
      invariant forall k | 0 <= k < i :: ValidChange(s, cs[k])
      invariant newSeq == Substituted(s, cs[..i])
    {
      var (pos, nucleotide) := cs[i];
      if 0 <= pos < |s| && IsNucleotideValid(nucleotide) {
        SubstitutedStep(s, cs, i);
        newSeq := newSeq[..pos] + Upper(nucleotide) + newSeq[pos + 1..];
      } else {
        ChangeSpecFails(s, cs, i);
        return Err(InvalidChange(pos, nucleotide));
      }
    }
    assert cs[..|cs|] == cs;
    return Ok(newSeq);
  }

  lemma {:induction false} LastChangeAppend(cs: seq<Edit>, ds: seq<Edit>, j: int)
    ensures LastChangeAt(cs + ds, j)
         == if LastChangeAt(ds, j) != -1 then |cs| + LastChangeAt(ds, j) else LastChangeAt(cs, j)
    decreases |ds|
  {
    if |ds| == 0 {
      assert cs + ds == cs;
    } else {
      assert (cs + ds)[..|cs + ds| - 1] == cs + ds[..|ds| - 1];
      LastChangeAppend(cs, ds[..|ds| - 1], j);
    }
  }

  /** Applying a list of changes is applying its two halves one after the
      other: a failure in the first half is reported as is, and the second
      half is applied to the result of the first. */
  lemma ChangeSequential(s: string, cs: seq<Edit>, ds: seq<Edit>)
    ensures ChangeSpec(s, cs + ds) == match ChangeSpec(s, cs)
      case Err(e) => Err(e)
      case Ok(t) => ChangeSpec(t, ds)
  {
    var both := cs + ds;
    var k := FirstFailing(cs, c => ValidChange(s, c));
    if k != -1 {
      ChangeSpecFails(s, cs, k);
      ChangeSpecFails(s, both, k);
    } else {
      var t := Substituted(s, cs);
      var m := FirstFailing(ds, c => ValidChange(t, c));
      if m != -1 {
        ChangeSpecFails(t, ds, m);
        assert both[|cs| + m] == ds[m];
        ChangeSpecFails(s, both, |cs| + m);
      } else {
        SubstitutedAppend(s, cs, ds);
      }
    }
  }

  /** With every change valid, the changes of cs + ds are those of cs
      followed by those of ds. */
  lemma SubstitutedAppend(s: string, cs: seq<Edit>, ds: seq<Edit>)
    requires forall k | 0 <= k < |cs| :: ValidChange(s, cs[k])
    requires forall k | 0 <= k < |ds| :: ValidChange(Substituted(s, cs), ds[k])
    ensures ChangeSpec(s, cs + ds) == Ok(Substituted(Substituted(s, cs), ds))
  {
    var both, t := cs + ds, Substituted(s, cs);
    forall k | 0 <= k < |both| ensures ValidChange(s, both[k]) {
      if k >= |cs| {
        assert both[k] == ds[k - |cs|];
      }
    }
    forall j | 0 <= j < |s|
      ensures SubstitutedAt(s, both, j) == SubstitutedAt(t, ds, j)
    {
      LastChangeAppend(cs, ds, j);
      var k := LastChangeAt(ds, j);
      if k != -1 {
        assert both[|cs| + k] == ds[k];
      }
    }
    assert Substituted(s, both) == Substituted(t, ds);
  }

  /** Applying the same changes a second time changes nothing. */
  lemma ChangeIdempotent(s: string, cs: seq<Edit>)
    requires ChangeSpec(s, cs).Ok?
    ensures ChangeSpec(ChangeSpec(s, cs).value, cs) == ChangeSpec(s, cs)
  {
    var t := ChangeSpec(s, cs).value;
    assert forall k | 0 <= k < |cs| :: ValidChange(t, cs[k]);
    assert Substituted(t, cs) == t;
  }

  /** A single valid change writes its upper-cased base at its position. */
  lemma ChangeOne(s: string, c: Edit)
    ensures ChangeSpec(s, [c]) == if ValidChange(s, c) then Ok(s[..c.0] + Upper(c.1) + s[c.0 + 1..])
                                   else Err(InvalidChange(c.0, c.1))
  {
    if ValidChange(s, c) {
      SubstitutedNone(s, [c]);
      SubstitutedStep(s, [c], 0);
      assert [c][..1] == [c];
    }
  }

  lemma UpperBases()
    ensures Upper("A") == "A" && Upper("C") == "C" && Upper("G") == "G" && Upper("T") == "T"
    ensures Upper("t") == "T"
    ensures IsNucleotideValid("A") && IsNucleotideValid("C") && IsNucleotideValid("T")
  {
    assert Upper("A")[0] == 'A' && Upper("C")[0] == 'C' && Upper("G")[0] == 'G' && Upper("T")[0] == 'T';
    assert Upper("t")[0] == 'T';
  }

  lemma ChangeExamples()
    ensures ChangeSpec("ATGCGT", [(0, "T")]) == Ok("TTGCGT")
    ensures ChangeSpec("ATGCGT", [(4, "A")]) == Ok("ATGCAT")
    ensures ChangeSpec("ATGCGT", [(0, "T"), (4, "A")]) == Ok("TTGCAT")
    ensures ChangeSpec("ATGCGT", [(0, "T"), (4, "A"), (4, "C")]) == Ok("TTGCCT")
  {
    UpperBases();
    ChangeOne("ATGCGT", (0, "T"));
    assert "ATGCGT"[..0] + "T" + "ATGCGT"[1..] == "TTGCGT";
    ChangeOne("ATGCGT", (4, "A"));
    assert "ATGCGT"[..4] + "A" + "ATGCGT"[5..] == "ATGCAT";
    ChangeOne("TTGCGT", (4, "A"));
    assert "TTGCGT"[..4] + "A" + "TTGCGT"[5..] == "TTGCAT";
    ChangeOne("TTGCAT", (4, "C"));
    assert "TTGCAT"[..4] + "C" + "TTGCAT"[5..] == "TTGCCT";
    ChangeSequential("ATGCGT", [(0, "T")], [(4, "A")]);
    assert [(0, "T"), (4, "A")] == [(0, "T")] + [(4, "A")];
    ChangeSequential("ATGCGT", [(0, "T"), (4, "A")], [(4, "C")]);
    assert [(0, "T"), (4, "A"), (4, "C")] == [(0, "T"), (4, "A")] + [(4, "C")];
  }

  /** A lower-case base is accepted and written upper-cased; a position equal
      to the length fails. */
  lemma ChangeErrorExample()
    ensures ChangeSpec("ATGCGT", [(0, "t")]) == Ok("TTGCGT")
    ensures ChangeSpec("ATGCGT", [(0, "t"), (6, "A")]) == Err(InvalidChange(6, "A"))
  {
    NucleotideValidIff("t");
    ChangeOne("ATGCGT", (0, "t"));
    ChangeOne("TTGCGT", (6, "A"));
    UpperBases();
    assert "ATGCGT"[..0] + "T" + "ATGCGT"[1..] == "TTGCGT";
    ChangeSequential("ATGCGT", [(0, "t")], [(6, "A")]);
    assert [(0, "t"), (6, "A")] == [(0, "t")] + [(6, "A")];
  }

  // ---------------------------------------------------------------------
  // Deletion

  /** s without the characters at the indices in d, the others kept in order. */
  function RemoveIndices(s: string, d: set<int>): (r: string)
    ensures |r| <= |s|
  {
    if |s| == 0 then []
    else RemoveIndices(s[..|s| - 1], d) + (if |s| - 1 in d then [] else [s[|s| - 1]])
  }

  /** The listed positions as a set: `set(positions)`. */
  function PositionSet(positions: seq<int>): set<int> {
    set p | p in positions
  }

  function Identity(p: int): int {
    p
  }

  /** The positions as `sorted(set(positions))` orders them. */
  function SortedPositions(positions: seq<int>): (ps: seq<int>)
    ensures StrictlySortedBy(ps, Identity)
    ensures forall p | p in positions :: p in ps
    ensures forall p | p in ps :: p in positions
  {
    var ps := SortedSet(positions, Identity);
    assert StrictlySortedBy(ps, Identity) by {
      forall i, j | 0 <= i < j < |ps| ensures Identity(ps[i]) < Identity(ps[j]) {
        SortedAt(ps, Identity, i, j);
        DistinctAt(ps, i, j);
      }
    }
    ps
  }

  /** `mutation_delete` as a value: an empty list changes nothing; otherwise
      the positions are deduplicated and sorted and DeleteSorted applies. */
  function DeleteSpec(s: string, positions: seq<int>): (r: Result<string>)
  {
    if |positions| == 0 then Ok(s)
    else
      var ps := SortedPositions(positions);
      assert positions[0] in ps;
      DeleteSorted(s, ps)
  }

  /** Deletion at sorted positions: the smallest must not be negative and
      every other must lie inside the sequence (the smallest offending one is
      reported); then the characters at the positions are removed. */
  function DeleteSorted(s: string, ps: seq<int>): (r: Result<string>)
    requires |ps| > 0
  {
    if ps[0] < 0 then Err(NegativePosition(ps[0]))
    else
      var k := FirstFailing(ps[1..], p => 0 <= p < |s|);
      if k != -1 then Err(OutOfBounds(ps[k + 1]))
      else Ok(RemoveIndices(s, PositionSet(ps)))
  }

  /** Removing nothing in [a, b) keeps that stretch of s. */
  lemma {:induction false} RemoveRun(s: string, d: set<int>, a: nat, b: nat)
    requires a <= b <= |s|
    requires forall j | a <= j < b :: j !in d
    ensures RemoveIndices(s[..b], d) == RemoveIndices(s[..a], d) + s[a..b]
    decreases b - a
  {
    if a < b {
      RemoveRun(s, d, a, b - 1);
      assert s[..b][..b - 1] == s[..b - 1];
      assert s[a..b] == s[a..b - 1] + [s[b - 1]];
    }
  }

  /** A listed index contributes nothing. */
  lemma RemoveSkip(s: string, d: set<int>, a: nat)
    requires a < |s| && a in d
    ensures RemoveIndices(s[..a + 1], d) == RemoveIndices(s[..a], d)
  {
    assert s[..a + 1][..a] == s[..a];
  }

  /** The stretch strictly between two consecutive sorted positions holds no
      listed index. */
  lemma DeleteStep(s: string, d: set<int>, ps: seq<int>, i: nat)
    requires StrictlySortedBy(ps, Identity) && forall j | j in d :: j in ps
    requires 1 <= i < |ps| && 0 <= ps[i - 1] < ps[i] < |s| && ps[i - 1] in d
    ensures RemoveIndices(s[..ps[i]], d) == RemoveIndices(s[..ps[i - 1]], d) + s[ps[i - 1] + 1..ps[i]]
  {
    RemoveSkip(s, d, ps[i - 1]);
    forall m | 0 <= m < |ps| ensures ps[m] <= ps[i - 1] || ps[i] <= ps[m] {
      if m < i - 1 {
        StrictlySortedAt(ps, Identity, m, i - 1);
      } else if i < m {
        StrictlySortedAt(ps, Identity, i, m);
      }
    }
    RemoveRun(s, d, ps[i - 1] + 1, ps[i]);
  }

  /** Before the smallest position nothing is removed (the slice clamps). */
  lemma DeleteStart(s: string, d: set<int>, ps: seq<int>)
    requires StrictlySortedBy(ps, Identity) && forall j | j in d :: j in ps
    requires |ps| > 0 && 0 <= ps[0]
    ensures RemoveIndices(s[..Min(ps[0], |s|)], d) == Slice(s, 0, ps[0])
  {
    forall m | 0 < m < |ps| ensures ps[0] <= ps[m] {
      StrictlySortedAt(ps, Identity, 0, m);
    }
    RemoveRun(s, d, 0, Min(ps[0], |s|));
  }

  /** After the largest position nothing is removed (the slice clamps). */
  lemma DeleteFinish(s: string, d: set<int>, ps: seq<int>)
    requires StrictlySortedBy(ps, Identity) && forall j | j in d :: j in ps
    requires |ps| > 0 && 0 <= ps[|ps| - 1] && ps[|ps| - 1] in d
    ensures var last := ps[|ps| - 1];
      RemoveIndices(s[..Min(last, |s|)], d) + Slice(s, last + 1, |s|) == RemoveIndices(s, d)
  {
    var last := ps[|ps| - 1];
    if last < |s| {
      RemoveSkip(s, d, last);
      forall m | 0 <= m < |ps| - 1 ensures ps[m] <= last {
        StrictlySortedAt(ps, Identity, m, |ps| - 1);
      }
      RemoveRun(s, d, last + 1, |s|);
    }
    assert s[..|s|] == s;
  }

  lemma DeleteSortedOutOfBounds(s: string, ps: seq<int>, i: nat)
    requires 1 <= i < |ps| && 0 <= ps[0] && !(0 <= ps[i] < |s|)
    requires forall k | 1 <= k < i :: 0 <= ps[k] < |s|
    ensures DeleteSorted(s, ps) == Err(OutOfBounds(ps[i]))
  {
    assert FirstFailing(ps[1..], p => 0 <= p < |s|) == i - 1;
  }

  /** What survives of the first m characters. */
  ghost function Kept(s: string, ps: seq<int>, m: nat): string
    requires m <= |s|
  {
    RemoveIndices(s[..m], PositionSet(ps))
  }

  lemma DeleteInit(s: string, ps: seq<int>)
    requires StrictlySortedBy(ps, Identity)
    requires |ps| > 0 && 0 <= ps[0]
    ensures Slice(s, 0, ps[0]) == Kept(s, ps, Min(ps[0], |s|))
  {
    DeleteStart(s, PositionSet(ps), ps);
  }

  lemma DeleteLoopStep(s: string, ps: seq<int>, i: nat, kept: string)
    requires StrictlySortedBy(ps, Identity)
    requires 1 <= i < |ps| && 0 <= ps[i - 1] && 0 <= ps[i] < |s|
    requires kept == Kept(s, ps, Min(ps[i - 1], |s|))
    ensures 0 <= ps[i - 1] < ps[i]
    ensures kept + Slice(s, ps[i - 1] + 1, ps[i]) == Kept(s, ps, Min(ps[i], |s|))
  {
    StrictlySortedAt(ps, Identity, i - 1, i);
    DeleteStep(s, PositionSet(ps), ps, i);
  }

  lemma DeleteEnd(s: string, ps: seq<int>, kept: string)
    requires StrictlySortedBy(ps, Identity)
    requires |ps| > 0 && 0 <= ps[0] && forall k | 1 <= k < |ps| :: 0 <= ps[k] < |s|
    requires 0 <= ps[|ps| - 1] && kept == Kept(s, ps, Min(ps[|ps| - 1], |s|))
    ensures DeleteSorted(s, ps) == Ok(kept + Slice(s, ps[|ps| - 1] + 1, |s|))
  {
    DeleteFinish(s, PositionSet(ps), ps);
    assert FirstFailing(ps[1..], p => 0 <= p < |s|) == -1;
  }

  /** `mutation_delete`: keep the stretches between consecutive sorted
      positions, checking each position after the first as it goes. */
  method MutationDelete(s: string, positions: seq<int>) returns (r: Result<string>)
    ensures r == DeleteSpec(s, positions)
  {
    if |positions| == 0 {
      return Ok(s);
    }
    var ps := SortedPositions(positions);
    assert positions[0] in ps;
    if ps[0] < 0 {
      return Err(NegativePosition(ps[0]));
    }
    DeleteInit(s, ps);
    var newSeq := Slice(s, 0, ps[0]);
    for i := 1 to |ps|
      invariant forall k | 1 <= k < i :: 0 <= ps[k] < |s|
      invariant newSeq == Kept(s, ps, Min(ps[i - 1], |s|))
    {
      if 0 <= ps[i] < |s| {
        DeleteLoopStep(s, ps, i, newSeq);
        newSeq := newSeq + Slice(s, ps[i - 1] + 1, ps[i]);
      } else {
        DeleteSortedOutOfBounds(s, ps, i);
        r := Err(OutOfBounds(ps[i]));
        assert r == DeleteSorted(s, ps);
        return;
      }
    }
    StrictlySortedAt(ps, Identity, 0, |ps| - 1);
    DeleteEnd(s, ps, newSeq);
    r := Ok(newSeq + Slice(s, ps[|ps| - 1] + 1, |s|));
    assert r == DeleteSorted(s, ps);
  }

  /** Deletion succeeds exactly when it is given no positions, or when every
      position is non-negative and at most one of them lies past the end (a
      lone position past the end is tolerated because only the positions
      after the smallest are range-checked). */
  lemma DeleteSortedOkIff(s: string, ps: seq<int>)
    requires |ps| > 0
    ensures DeleteSorted(s, ps).Ok? <==> 0 <= ps[0] && forall k | 1 <= k < |ps| :: 0 <= ps[k] < |s|
  {
  }

  lemma DeleteOkIff(s: string, positions: seq<int>)
    ensures DeleteSpec(s, positions).Ok?
        <==> forall p | p in positions :: 0 <= p && (p < |s| || forall q | q in positions :: q == p)
  {
    if |positions| > 0 {
      var ps := SortedPositions(positions);
      assert positions[0] in ps;
      DeleteSortedOkIff(s, ps);
      if DeleteSpec(s, positions).Ok? {
        forall j | 0 < j < |ps| ensures ps[0] < ps[j] {
          StrictlySortedAt(ps, Identity, 0, j);
        }
        forall p | p in positions
          ensures 0 <= p && (p < |s| || forall q | q in positions :: q == p)
        {
          var m :| 0 <= m < |ps| && ps[m] == p;
          if m == 0 && |s| <= p {
            assert |ps| == 1;
          }
        }
      } else {
        var m: nat :| m < |ps| && (if m == 0 then ps[0] < 0 else !(0 <= ps[m] < |s|));
        assert ps[m] in positions;
        if 0 < m {
          StrictlySortedAt(ps, Identity, 0, m);
          assert ps[0] in positions && ps[0] != ps[m];
        }
      }
    }
  }

  /** Deletion reports one of two errors. */
  lemma DeleteErrorKinds(s: string, positions: seq<int>)
    requires DeleteSpec(s, positions).Err?
    ensures DeleteSpec(s, positions).error.NegativePosition? || DeleteSpec(s, positions).error.OutOfBounds?
  {
  }

  /** Every position is at least the first of the sorted positions. */
  lemma SortedPositionsMin(positions: seq<int>)
    requires |positions| > 0
    ensures var ps := SortedPositions(positions);
      |ps| > 0 && ps[0] in positions && forall q | q in positions :: ps[0] <= q
  {
    var ps := SortedPositions(positions);
    assert positions[0] in ps;
    forall q | q in positions ensures ps[0] <= q {
      var m :| 0 <= m < |ps| && ps[m] == q;
      if 0 < m {
        StrictlySortedAt(ps, Identity, 0, m);
      }
    }
  }

  /** A negative position is reported only when it is the smallest of all. */
  lemma DeleteNegative(s: string, positions: seq<int>, p: int)
    requires DeleteSpec(s, positions) == Err(NegativePosition(p))
    ensures p in positions && p < 0
    ensures forall q | q in positions :: p <= q
  {
    SortedPositionsMin(positions);
  }

  /** A position past the end is reported only when all positions are
      non-negative, a smaller position exists, and every smaller position
      other than the smallest of all lies inside the sequence. */
  lemma DeleteOutOfBounds(s: string, positions: seq<int>, p: int)
    requires DeleteSpec(s, positions) == Err(OutOfBounds(p))
    ensures p in positions && |s| <= p
    ensures forall q | q in positions :: 0 <= q
    ensures exists q | q in positions :: q < p
    ensures forall q | q in positions && q < p :: q < |s| || forall q' | q' in positions :: q <= q'
  {
    SortedPositionsMin(positions);
    var ps := SortedPositions(positions);
    var k := FirstFailing(ps[1..], x => 0 <= x < |s|);
    assert p == ps[k + 1];
    SortedOutOfBounds(s, ps, k);
    forall q | q in positions && q < p
      ensures q < |s| || forall q' | q' in positions :: q <= q'
    {
      var m :| 0 <= m < |ps| && ps[m] == q;
      if 0 < m {
        assert ps[m] < |s|;
      }
    }
  }

  /** In strictly ascending positions whose first is not negative, the one
      reported as out of range is past the end and above the first; those
      between the first and it are inside, those after it lie above it. */
  lemma SortedOutOfBounds(s: string, ps: seq<int>, k: int)
    requires StrictlySortedBy(ps, Identity) && |ps| > 0 && 0 <= ps[0]
    requires k != -1 && k == FirstFailing(ps[1..], x => 0 <= x < |s|)
    ensures |s| <= ps[k + 1] && ps[0] < ps[k + 1]
    ensures forall m | 0 < m <= k :: ps[m] < |s|
    ensures forall m | k + 1 < m < |ps| :: ps[k + 1] < ps[m]
  {
    StrictlySortedAt(ps, Identity, 0, k + 1);
    forall m | 0 < m <= k ensures ps[m] < |s| {
      assert ps[1..][m - 1] == ps[m];
    }
    forall m | k + 1 < m < |ps| ensures ps[k + 1] < ps[m] {
      StrictlySortedAt(ps, Identity, k + 1, m);
    }
  }

  /** The set of positions of s that are listed in d. */
  ghost function ListedIndices(n: int, d: set<int>): set<int> {
    set j | 0 <= j < n && j in d
  }

  /** Removal shortens s by the number of its positions that are listed. */
  lemma {:induction false} RemoveLength(s: string, d: set<int>)
    ensures |RemoveIndices(s, d)| == |s| - |ListedIndices(|s|, d)|
  {
    if |s| > 0 {
      var n := |s|;
      RemoveLength(s[..n - 1], d);
      if n - 1 in d {
        assert ListedIndices(n, d) == ListedIndices(n - 1, d) + {n - 1};
      } else {
        assert ListedIndices(n, d) == ListedIndices(n - 1, d);
      }
    } else {
      assert ListedIndices(0, d) == {};
    }
  }

  /** The positions below n that d does not list, in ascending order. */
  function KeptPositions(n: nat, d: set<int>): seq<nat> {
    if n == 0 then [] else KeptPositions(n - 1, d) + (if n - 1 in d then [] else [n - 1])
  }

  /** KeptPositions lists each unlisted position below n once, ascending. */
  lemma {:induction false} KeptPositionsSpec(n: nat, d: set<int>)
    ensures var idx := KeptPositions(n, d);
      && (forall k | 0 <= k < |idx| :: idx[k] < n && idx[k] !in d)
      && (forall k, l | 0 <= k < l < |idx| :: idx[k] < idx[l])
      && (forall j | 0 <= j < n && j !in d :: j in idx)
  {
    if n > 0 {
      KeptPositionsSpec(n - 1, d);
    }
  }

  /** Removal keeps exactly the characters at the unlisted positions, in
      their original order. */
  lemma {:induction false} RemoveKeeps(s: string, d: set<int>)
    ensures var r, idx := RemoveIndices(s, d), KeptPositions(|s|, d);
      |r| == |idx| && forall k | 0 <= k < |r| :: idx[k] < |s| && r[k] == s[idx[k]]
  {
    if |s| > 0 {
      var n := |s|;
      var init := s[..n - 1];
      RemoveKeeps(init, d);
      var r0, idx0 := RemoveIndices(init, d), KeptPositions(n - 1, d);
      var r, idx := RemoveIndices(s, d), KeptPositions(n, d);
      if n - 1 !in d {
        assert r == r0 + [s[n - 1]] && idx == idx0 + [n - 1];
      }
      forall k | 0 <= k < |r| ensures idx[k] < n && r[k] == s[idx[k]] {
        if k < |r0| {
          assert r[k] == r0[k] == init[idx0[k]];
        }
      }
    }
  }

  /** Sorting does not change which positions are listed. */
  lemma SortedPositionSet(positions: seq<int>)
    ensures PositionSet(SortedPositions(positions)) == PositionSet(positions)
  {
  }

  /** A successful deletion removes exactly the listed positions that lie
      inside the sequence. */
  lemma DeleteLength(s: string, positions: seq<int>)
    requires DeleteSpec(s, positions).Ok?
    ensures |DeleteSpec(s, positions).value| == |s| - |ListedIndices(|s|, PositionSet(positions))|
  {
    if |positions| > 0 {
      var ps := SortedPositions(positions);
      assert positions[0] in ps;
      SortedPositionSet(positions);
      RemoveLength(s, PositionSet(ps));
    } else {
      assert ListedIndices(|s|, PositionSet(positions)) == {};
    }
  }

  /** The result depends only on the set of positions: their order and any
      repetition make no difference. */
  lemma DeleteOrderFree(s: string, xs: seq<int>, ys: seq<int>)
    requires forall p | p in xs :: p in ys
    requires forall p | p in ys :: p in xs
    ensures DeleteSpec(s, xs) == DeleteSpec(s, ys)
  {
    if |xs| > 0 {
      assert xs[0] in xs;
    }
    if |ys| > 0 {
      assert ys[0] in ys;
    }
    var pxs, pys := SortedPositions(xs), SortedPositions(ys);
    forall p | p in pxs ensures p in pys {
      assert p in xs;
    }
    forall p | p in pys ensures p in pxs {
      assert p in ys;
    }
    SortedUnique(pxs, pys, Identity);
  }

  /** With no position inside the sequence nothing is removed. */
  lemma RemoveNone(s: string, d: set<int>)
    requires forall j | 0 <= j < |s| :: j !in d
    ensures RemoveIndices(s, d) == s
  {
    RemoveRun(s, d, 0, |s|);
    assert s[..0] == [] && s[..|s|] == s;
  }

  /** SortedPositions is determined by any strictly ascending list with the
      same members. */
  lemma SortedPositionsAre(positions: seq<int>, ps: seq<int>)
    requires StrictlySortedBy(ps, Identity)
    requires forall p | p in positions :: p in ps
    requires forall p | p in ps :: p in positions
    ensures SortedPositions(positions) == ps
  {
    var sorted := SortedPositions(positions);
    forall p | p in sorted ensures p in ps {
      assert p in positions;
    }
    forall p | p in ps ensures p in sorted {
      assert p in positions;
    }
    SortedUnique(sorted, ps, Identity);
  }

  /** The test cases of `mutation_delete` with a value or a ValueError. */
  lemma DeleteExamples()
    ensures DeleteSpec("ATGCGT", [0, 2]) == Ok("TCGT")
    ensures DeleteSpec("ATGCGT", [0, -4]) == Err(NegativePosition(-4))
  {
    DeleteExampleTwo();
    SortedPositionsAre([0, -4], [-4, 0]);
  }

  lemma DeleteExampleTwo()
    ensures DeleteSpec("ATGCGT", [0, 2]) == Ok("TCGT")
  {
    SortedPositionsAre([0, 2], [0, 2]);
    assert PositionSet([0, 2]) == {0, 2};
    RemoveExample();
  }

  lemma RemoveExample()
    ensures RemoveIndices("ATGCGT", {0, 2}) == "TCGT"
  {
    var s, d := "ATGCGT", {0, 2};
    RemoveSkip(s, d, 0);
    assert s[..0] == [];
    RemoveRun(s, d, 1, 2);
    RemoveSkip(s, d, 2);
    RemoveRun(s, d, 3, 6);
    assert s[..6] == s;
    assert s[1..2] == "T" && s[3..6] == "CGT";
  }

  /** A second position past the end fails; a lone one changes nothing, and
      neither does an empty list. */
  lemma DeleteEdgeExamples()
    ensures DeleteSpec("ATGCGT", [0, 6]) == Err(OutOfBounds(6))
    ensures DeleteSpec("ATGCGT", [6]) == Ok("ATGCGT")
    ensures DeleteSpec("ATGCGT", []) == Ok("ATGCGT")
  {
    var s := "ATGCGT";
    SortedPositionsAre([0, 6], [0, 6]);
    assert FirstFailing([0, 6][1..], p => 0 <= p < |s|) == 0;
    SortedPositionsAre([6], [6]);
    RemoveNone(s, PositionSet([6]));
  }

  /** A single deletion fails only when negative; inside the sequence it is
      `s[:p] + s[p+1:]`, and past the end it changes nothing (the last slice
      starts beyond the end and the first is clamped). */
  lemma DeleteOne(s: string, p: int)
    ensures DeleteSpec(s, [p]) == if p < 0 then Err(NegativePosition(p))
                                  else if p < |s| then Ok(s[..p] + s[p + 1..])
                                  else Ok(s)
  {
    SortedPositionsAre([p], [p]);
    if 0 <= p {
      assert FirstFailing([p][1..], q => 0 <= q < |s|) == -1;
      var d := PositionSet([p]);
      if p < |s| {
        assert d == {p};
        RemoveRun(s, d, 0, p);
        RemoveSkip(s, d, p);
        RemoveRun(s, d, p + 1, |s|);
        assert s[..0] == [] && s[..|s|] == s && s[0..p] == s[..p] && s[p + 1..|s|] == s[p + 1..];
        assert RemoveIndices(s[..0], d) == [];
        assert RemoveIndices(s, d) == s[..p] + s[p + 1..];
      } else {
        RemoveNone(s, d);
      }
    }
  }

  // ---------------------------------------------------------------------
  // Insertion

  /** An addition the insertion loop accepts after the first: a position
      inside the sequence and a valid base. */
  predicate ValidAddition(s: string, a: Edit) {
    0 <= a.0 < |s| && IsNucleotideValid(a.1)
  }

  function PositionOf(a: Edit): int {
    a.0
  }

  /** The additions as `sorted(set(additions), key=lambda x: x[0])` orders them. */
  function SortedAdditions(additions: seq<Edit>): (adds: seq<Edit>)
    ensures SortedBy(adds, PositionOf) && Distinct(adds)
    ensures |adds| > 0 <==> |additions| > 0
    ensures forall a | a in additions :: a in adds
    ensures forall a | a in adds :: a in additions
  {
    var adds := SortedSet(additions, PositionOf);
    assert |additions| > 0 ==> additions[0] in adds;
    adds
  }

  /** The upper-cased bases of the additions at position j, in list order. */
  function BasesAt(adds: seq<Edit>, j: int): string {
    if |adds| == 0 then []
    else
      var last := adds[|adds| - 1];
      BasesAt(adds[..|adds| - 1], j) + (if last.0 == j then Upper(last.1) else [])
  }

  /** The upper-cased bases of the additions at position j or later, in list order. */
  function BasesFrom(adds: seq<Edit>, j: int): string {
    if |adds| == 0 then []
    else
      var last := adds[|adds| - 1];
      BasesFrom(adds[..|adds| - 1], j) + (if j <= last.0 then Upper(last.1) else [])
  }

  /** The first n characters of s, each preceded by the bases added at its
      position. */
  function Woven(s: string, adds: seq<Edit>, n: nat): string
    requires n <= |s|
  {
    if n == 0 then [] else Woven(s, adds, n - 1) + BasesAt(adds, n - 1) + [s[n - 1]]
  }

  /** s with the bases of each addition inserted before the character at its
      position, bases at the same position in list order, and the bases of
      additions at or past the end appended. */
  function InsertBefore(s: string, adds: seq<Edit>): string {
    Woven(s, adds, |s|) + BasesFrom(adds, |s|)
  }

  /** `mutation_add` as a value: an empty list changes nothing; otherwise
      the additions are deduplicated and sorted by position and AddSorted
      applies. */
  function AddSpec(s: string, additions: seq<Edit>): (r: Result<string>)
  {
    var adds := SortedAdditions(additions);
    if |adds| == 0 then Ok(s) else AddSorted(s, adds)
  }

  /** Insertion of additions sorted by position: the smallest position must
      not be negative (its base is not checked) and every later addition must
      have a position inside the sequence and a valid base (the first that
      does not is reported); then every base is inserted. */
  function AddSorted(s: string, adds: seq<Edit>): (r: Result<string>)
    requires |adds| > 0
  {
    if adds[0].0 < 0 then Err(NegativePosition(adds[0].0))
    else
      var k := FirstFailing(adds[1..], a => ValidAddition(s, a));
      if k != -1 then Err(InvalidAddition(adds[k + 1].0, adds[k + 1].1))
      else Ok(InsertBefore(s, adds))
  }

  lemma {:induction false} BasesAtNone(adds: seq<Edit>, j: int)
    requires forall k | 0 <= k < |adds| :: adds[k].0 != j
    ensures BasesAt(adds, j) == []
  {
    if |adds| > 0 {
      BasesAtNone(adds[..|adds| - 1], j);
    }
  }

  lemma {:induction false} BasesFromNone(adds: seq<Edit>, j: int)
    requires forall k | 0 <= k < |adds| :: adds[k].0 < j
    ensures BasesFrom(adds, j) == []
  {
    if |adds| > 0 {
      BasesFromNone(adds[..|adds| - 1], j);
    }
  }

  lemma {:induction false} BasesFromIsAt(adds: seq<Edit>, j: int)
    requires forall k | 0 <= k < |adds| :: adds[k].0 <= j
    ensures BasesFrom(adds, j) == BasesAt(adds, j)
  {
    if |adds| > 0 {
      BasesFromIsAt(adds[..|adds| - 1], j);
    }
  }

  lemma BasesAppend(adds: seq<Edit>, x: Edit, j: int)
    ensures BasesAt(adds + [x], j) == BasesAt(adds, j) + (if x.0 == j then Upper(x.1) else [])
    ensures BasesFrom(adds + [x], j) == BasesFrom(adds, j) + (if j <= x.0 then Upper(x.1) else [])
  {
    assert (adds + [x])[..|adds|] == adds;
  }

  /** An addition at position n or later does not touch the first n characters. */
  lemma {:induction false} WovenIgnores(s: string, adds: seq<Edit>, x: Edit, n: nat)
    requires n <= |s| && n <= x.0
    ensures Woven(s, adds + [x], n) == Woven(s, adds, n)
  {
    if n > 0 {
      WovenIgnores(s, adds, x, n - 1);
      BasesAppend(adds, x, n - 1);
    }
  }

  /** Where no addition falls, s is copied unchanged. */
  lemma {:induction false} WovenRun(s: string, adds: seq<Edit>, a: nat, b: nat)
    requires a <= b <= |s|
    requires forall k | 0 <= k < |adds| :: !(a <= adds[k].0 < b)
    ensures Woven(s, adds, b) == Woven(s, adds, a) + s[a..b]
    decreases b - a
  {
    if a < b {
      WovenRun(s, adds, a, b - 1);
      BasesAtNone(adds, b - 1);
      assert s[a..b] == s[a..b - 1] + [s[b - 1]];
    }
  }

  /** Past the last position with additions, s is copied unchanged. */
  lemma WovenPast(s: string, adds: seq<Edit>, j: nat, b: nat)
    requires j < b <= |s|
    requires forall k | 0 <= k < |adds| :: adds[k].0 <= j
    ensures Woven(s, adds, b) == Woven(s, adds, j) + BasesAt(adds, j) + s[j..b]
  {
    WovenRun(s, adds, j + 1, b);
    var head := Woven(s, adds, j) + BasesAt(adds, j);
    assert Woven(s, adds, j + 1) == head + [s[j]];
    assert s[j..b] == [s[j]] + s[j + 1..b];
    AppendAssociates(head, [s[j]], s[j + 1..b]);
    assert Woven(s, adds, b) == head + s[j..b];
  }

  function Clamp(m: int, n: nat): (c: nat)
    ensures c <= n
  {
    if m < 0 then 0 else if n < m then n else m
  }

  /** What the insertion loop has built after the first i additions: s up to
      the i-th position with their bases woven in, then their bases at that
      position (or, when it lies past the end, at and after it). */
  ghost function Built(s: string, adds: seq<Edit>, i: nat): string
    requires 1 <= i <= |adds|
  {
    var m := Clamp(adds[i - 1].0, |s|);
    Woven(s, adds[..i], m) + BasesFrom(adds[..i], m)
  }

  lemma AddInit(s: string, adds: seq<Edit>)
    requires |adds| > 0 && 0 <= adds[0].0
    ensures Slice(s, 0, adds[0].0) + Upper(adds[0].1) == Built(s, adds, 1)
  {
    var m := Clamp(adds[0].0, |s|);
    assert adds[..1] == [] + [adds[0]];
    WovenIgnores(s, [], adds[0], m);
    WovenRun(s, [], 0, m);
    BasesAppend([], adds[0], m);
  }

  /** The source's first branch: at position 0 the base alone starts the result. */
  lemma AddInitAtZero(s: string, adds: seq<Edit>)
    requires |adds| > 0 && adds[0].0 == 0
    ensures Upper(adds[0].1) == Built(s, adds, 1)
  {
    AddInit(s, adds);
    assert Slice(s, 0, 0) == [];
    assert [] + Upper(adds[0].1) == Upper(adds[0].1);
  }

  lemma AddLoopStep(s: string, adds: seq<Edit>, i: nat, built: string)
    requires SortedBy(adds, PositionOf)
    requires 1 <= i < |adds| && 0 <= adds[0].0 && ValidAddition(s, adds[i])
    requires built == Built(s, adds, i)
    ensures 0 <= adds[i - 1].0 <= adds[i].0
    ensures built + Slice(s, adds[i - 1].0, adds[i].0) + Upper(adds[i].1) == Built(s, adds, i + 1)
  {
    SortedAt(adds, PositionOf, 0, i - 1);
    SortedAt(adds, PositionOf, i - 1, i);
    var prev := adds[..i];
    assert adds[..i + 1] == prev + [adds[i]];
    forall k | 0 <= k < |prev| ensures prev[k].0 <= adds[i - 1].0 {
      SortedAt(adds, PositionOf, k, i - 1);
    }
    WeaveStep(s, prev, adds[i - 1].0, adds[i]);
  }

  /** Adding x after additions none of which lies past position m0. */
  lemma WeaveStep(s: string, prev: seq<Edit>, m0: nat, x: Edit)
    requires |prev| > 0 && prev[|prev| - 1].0 == m0 && m0 <= x.0 < |s|
    requires forall k | 0 <= k < |prev| :: prev[k].0 <= m0
    ensures var m := x.0;
      Woven(s, prev, m0) + BasesFrom(prev, m0) + Slice(s, m0, m) + Upper(x.1)
        == Woven(s, prev + [x], m) + BasesFrom(prev + [x], m)
  {
    var m := x.0;
    var woven, bases := Woven(s, prev, m), BasesFrom(prev, m);
    WovenIgnores(s, prev, x, m);
    BasesAppend(prev, x, m);
    if m0 < m {
      WeaveGap(s, prev, m0, m);
    } else {
      assert Slice(s, m0, m) == [];
      AppendNothing(woven + bases);
    }
    AppendAssociates(woven, bases, Upper(x.1));
  }

  /** Concatenation regroups. */
  lemma AppendAssociates(a: string, b: string, c: string)
    ensures a + b + c == a + (b + c)
  {
  }

  /** Appending the empty sequence changes nothing. */
  lemma AppendNothing<T>(a: seq<T>)
    ensures a + [] == a
  {
  }

  lemma WeaveGap(s: string, prev: seq<Edit>, m0: nat, m: nat)
    requires m0 < m < |s|
    requires forall k | 0 <= k < |prev| :: prev[k].0 <= m0
    ensures Woven(s, prev, m0) + BasesFrom(prev, m0) + Slice(s, m0, m) == Woven(s, prev, m) + BasesFrom(prev, m)
  {
    WovenPast(s, prev, m0, m);
    BasesFromIsAt(prev, m0);
    BasesFromNone(prev, m);
    assert Slice(s, m0, m) == s[m0..m];
  }

  lemma AddSortedInvalid(s: string, adds: seq<Edit>, i: nat)
    requires 1 <= i < |adds| && 0 <= adds[0].0 && !ValidAddition(s, adds[i])
    requires forall k | 1 <= k < i :: ValidAddition(s, adds[k])
    ensures AddSorted(s, adds) == Err(InvalidAddition(adds[i].0, adds[i].1))
  {
    assert FirstFailing(adds[1..], a => ValidAddition(s, a)) == i - 1;
  }

  lemma AddEnd(s: string, adds: seq<Edit>, built: string)
    requires SortedBy(adds, PositionOf)
    requires |adds| > 0 && 0 <= adds[0].0 && forall k | 1 <= k < |adds| :: ValidAddition(s, adds[k])
    requires built == Built(s, adds, |adds|)
    ensures 0 <= adds[|adds| - 1].0
    ensures AddSorted(s, adds) == Ok(built + Slice(s, adds[|adds| - 1].0, |s|))
  {
    var n := |adds|;
    var last := adds[n - 1].0;
    SortedAt(adds, PositionOf, 0, n - 1);
    assert adds[..n] == adds;
    assert FirstFailing(adds[1..], a => ValidAddition(s, a)) == -1;
    forall k | 0 <= k < n ensures adds[k].0 <= last {
      SortedAt(adds, PositionOf, k, n - 1);
    }
    WeaveEnd(s, adds, last);
  }

  /** Copying the rest of s after the largest position completes the insertion. */
  lemma WeaveEnd(s: string, adds: seq<Edit>, last: nat)
    requires forall k | 0 <= k < |adds| :: adds[k].0 <= last
    ensures var m := Clamp(last, |s|);
      Woven(s, adds, m) + BasesFrom(adds, m) + Slice(s, last, |s|) == InsertBefore(s, adds)
  {
    if last < |s| {
      WovenPast(s, adds, last, |s|);
      BasesFromIsAt(adds, last);
      BasesFromNone(adds, |s|);
      assert Slice(s, last, |s|) == s[last..|s|];
    } else {
      assert Slice(s, last, |s|) == [];
    }
  }

  /** `mutation_add`: place the first base, then for each later addition
      copy the stretch since the previous position and add its base. */
  method MutationAdd(s: string, additions: seq<Edit>) returns (r: Result<string>)
    ensures r == AddSpec(s, additions)
  {
    var adds := SortedAdditions(additions);
    if |adds| == 0 {
      return Ok(s);
    }
    var newSeq;
    if adds[0].0 == 0 {
      AddInitAtZero(s, adds);
      newSeq := Upper(adds[0].1);
    } else if adds[0].0 < 0 {
      return Err(NegativePosition(adds[0].0));
    } else {
      AddInit(s, adds);
      newSeq := Slice(s, 0, adds[0].0) + Upper(adds[0].1);
    }
    r := AddLater(s, adds, newSeq);
  }

  /** The loop of `mutation_add` over the sorted additions after the first,
      whose base `first` already holds with the stretch before it. */
  method AddLater(s: string, adds: seq<Edit>, first: string) returns (r: Result<string>)
    requires SortedBy(adds, PositionOf)
    requires |adds| > 0 && 0 <= adds[0].0 && first == Built(s, adds, 1)
    ensures r == AddSorted(s, adds)
  {
    var newSeq := first;
    for i := 1 to |adds|
      invariant forall k | 1 <= k < i :: ValidAddition(s, adds[k])
      invariant newSeq == Built(s, adds, i)
    {
      var (pos, nucleotide) := adds[i];
      if 0 <= pos < |s| && IsNucleotideValid(nucleotide) {
        assert ValidAddition(s, adds[i]);
        AddLoopStep(s, adds, i, newSeq);
        newSeq := newSeq + Slice(s, adds[i - 1].0, pos) + Upper(nucleotide);
        assert newSeq == Built(s, adds, i + 1);
      } else {
        AddSortedInvalid(s, adds, i);
        return Err(InvalidAddition(pos, nucleotide));
      }
    }
    AddEnd(s, adds, newSeq);
    r := Ok(newSeq + Slice(s, adds[|adds| - 1].0, |s|));
  }

  /** Insertion succeeds exactly when the smallest position is not negative
      and every later addition is inside the sequence with a valid base. */
  lemma AddSortedOkIff(s: string, adds: seq<Edit>)
    requires |adds| > 0
    ensures AddSorted(s, adds).Ok? <==> 0 <= adds[0].0 && forall k | 1 <= k < |adds| :: ValidAddition(s, adds[k])
  {
  }

  /** When every addition is inside the sequence with a valid base, insertion succeeds. */
  lemma AddValidSucceeds(s: string, additions: seq<Edit>)
    requires forall a | a in additions :: ValidAddition(s, a)
    ensures AddSpec(s, additions).Ok?
  {
    var adds := SortedAdditions(additions);
    if |adds| > 0 {
      assert adds[0] in adds;
      forall k | 1 <= k < |adds| ensures ValidAddition(s, adds[k]) {
        assert adds[k] in adds;
      }
      AddSortedOkIff(s, adds);
    }
  }

  /** A negative position anywhere makes insertion fail: it is reported when
      it is the smallest, and otherwise the smallest is negative too. */
  lemma AddNegativeFails(s: string, additions: seq<Edit>, a: Edit)
    requires a in additions && a.0 < 0
    ensures AddSpec(s, additions).Err?
  {
    var adds := SortedAdditions(additions);
    assert a in adds;
    var m :| 0 <= m < |adds| && adds[m] == a;
    SortedAt(adds, PositionOf, 0, m);
  }

  /** Which error insertion reports: a negative position only as the
      smallest position of all, an invalid addition only when it is listed,
      out of range or with an invalid base, and no position is negative. */
  lemma AddErrors(s: string, additions: seq<Edit>)
    ensures AddSpec(s, additions).Err? ==> match AddSpec(s, additions).error
      case NegativePosition(p) =>
        p < 0 && (exists b :: (p, b) in additions) && forall a | a in additions :: p <= a.0
      case InvalidAddition(p, b) =>
        (p, b) in additions && !ValidAddition(s, (p, b)) && forall a | a in additions :: 0 <= a.0
      case _ => false
  {
    var adds := SortedAdditions(additions);
    if |adds| > 0 {
      assert adds[0] in adds;
      forall a | a in additions ensures adds[0].0 <= a.0 {
        assert a in adds;
        var m :| 0 <= m < |adds| && adds[m] == a;
        SortedAt(adds, PositionOf, 0, m);
      }
      if 0 <= adds[0].0 {
        var k := FirstFailing(adds[1..], a => ValidAddition(s, a));
        if k != -1 {
          assert adds[k + 1] in adds;
        }
      } else {
        assert (adds[0].0, adds[0].1) in additions;
      }
    }
  }

  /** The number of bases carried by the additions. */
  function BaseCount(adds: seq<Edit>): (n: nat)
    ensures (forall k | 0 <= k < |adds| :: |adds[k].1| == 1) ==> n == |adds|
  {
    if |adds| == 0 then 0 else BaseCount(adds[..|adds| - 1]) + |adds[|adds| - 1].1|
  }

  lemma {:induction false} BasesFromAll(adds: seq<Edit>)
    requires forall k | 0 <= k < |adds| :: 0 <= adds[k].0
    ensures |BasesFrom(adds, 0)| == BaseCount(adds)
  {
    if |adds| > 0 {
      BasesFromAll(adds[..|adds| - 1]);
    }
  }

  lemma {:induction false} BasesFromSplit(adds: seq<Edit>, j: int)
    ensures |BasesFrom(adds, j)| == |BasesAt(adds, j)| + |BasesFrom(adds, j + 1)|
  {
    if |adds| > 0 {
      BasesFromSplit(adds[..|adds| - 1], j);
    }
  }

  /** The woven prefix and the bases still to come hold every base once. */
  lemma {:induction false} WeaveLength(s: string, adds: seq<Edit>, n: nat)
    requires n <= |s| && forall k | 0 <= k < |adds| :: 0 <= adds[k].0
    ensures |Woven(s, adds, n)| + |BasesFrom(adds, n)| == n + BaseCount(adds)
  {
    if n == 0 {
      BasesFromAll(adds);
    } else {
      WeaveLength(s, adds, n - 1);
      BasesFromSplit(adds, n - 1);
      assert |Woven(s, adds, n)| == |Woven(s, adds, n - 1)| + |BasesAt(adds, n - 1)| + 1;
    }
  }

  /** A successful insertion lengthens s by the number of bases added, one
      per distinct addition when every base is a valid nucleotide. */
  lemma AddLength(s: string, additions: seq<Edit>)
    requires AddSpec(s, additions).Ok?
    ensures |AddSpec(s, additions).value| == |s| + BaseCount(SortedAdditions(additions))
    ensures (forall a | a in additions :: IsNucleotideValid(a.1))
        ==> |AddSpec(s, additions).value| == |s| + |SortedAdditions(additions)|
  {
    var adds := SortedAdditions(additions);
    if |adds| > 0 {
      forall k | 0 <= k < |adds| ensures 0 <= adds[k].0 {
        SortedAt(adds, PositionOf, 0, k);
      }
      WeaveLength(s, adds, |s|);
    }
    if forall a | a in additions :: IsNucleotideValid(a.1) {
      forall k | 0 <= k < |adds| ensures |adds[k].1| == 1 {
        assert adds[k] in adds;
        assert |Upper(adds[k].1)| == 1;
      }
    }
  }

  /** Python's `t[:i] + u + t[i:]`. */
  function InsertAt(t: string, i: nat, u: string): string
    requires i <= |t|
  {
    t[..i] + u + t[i..]
  }

  /** u sits at i in the result, with t before and after it. */
  lemma InsertAtParts(t: string, i: nat, u: string)
    requires i <= |t|
    ensures var r := InsertAt(t, i, u);
      |r| == |t| + |u| && r[..i] == t[..i] && r[i..i + |u|] == u && r[i + |u|..] == t[i..]
  {
  }

  /** With no additions, nothing is inserted. */
  lemma InsertNothing(s: string)
    ensures InsertBefore(s, []) == s
  {
    WovenRun(s, [], 0, |s|);
    assert s[0..|s|] == s;
  }

  /** Each addition lands at its own position shifted by the bases added
      before it: inserting the additions in position order is inserting
      their bases one after another, as `str` slicing would. */
  lemma InsertLast(s: string, adds: seq<Edit>, x: Edit)
    requires 0 <= x.0 <= |s|
    requires forall k | 0 <= k < |adds| :: 0 <= adds[k].0 <= x.0
    ensures x.0 + BaseCount(adds) <= |InsertBefore(s, adds)|
    ensures InsertBefore(s, adds + [x]) == InsertAt(InsertBefore(s, adds), x.0 + BaseCount(adds), Upper(x.1))
  {
    if x.0 < |s| {
      InsertLastInside(s, adds, x);
    } else {
      InsertLastAppends(s, adds, x);
    }
  }

  lemma InsertLastAppends(s: string, adds: seq<Edit>, x: Edit)
    requires x.0 == |s|
    requires forall k | 0 <= k < |adds| :: 0 <= adds[k].0
    ensures x.0 + BaseCount(adds) == |InsertBefore(s, adds)|
    ensures InsertBefore(s, adds + [x]) == InsertAt(InsertBefore(s, adds), x.0 + BaseCount(adds), Upper(x.1))
  {
    WeaveLength(s, adds, |s|);
    InsertLastAtEnd(s, adds, x);
    var t, t' := InsertBefore(s, adds), InsertBefore(s, adds + [x]);
    AppendNothing(t);
    AppendNothing(t + Upper(x.1));
    InsertAtJoin(t, t', t, [], Upper(x.1), |s| + BaseCount(adds));
    assert t' == InsertAt(t, |s| + BaseCount(adds), Upper(x.1));
  }

  lemma InsertLastInside(s: string, adds: seq<Edit>, x: Edit)
    requires 0 <= x.0 < |s|
    requires forall k | 0 <= k < |adds| :: 0 <= adds[k].0 <= x.0
    ensures x.0 + BaseCount(adds) <= |InsertBefore(s, adds)|
    ensures InsertBefore(s, adds + [x]) == InsertAt(InsertBefore(s, adds), x.0 + BaseCount(adds), Upper(x.1))
  {
    HeadLength(s, adds, x.0);
    InsertBeforeSplit(s, adds, x.0);
    InsertBeforeSplitLast(s, adds, x);
    var t, t' := InsertBefore(s, adds), InsertBefore(s, adds + [x]);
    var head, u, i := Woven(s, adds, x.0) + BasesAt(adds, x.0), Upper(x.1), x.0 + BaseCount(adds);
    InsertAtJoin(t, t', head, s[x.0..], u, i);
    assert t' == InsertAt(t, i, u);
  }

  /** Before the character at m come the first m characters and every base
      added at a position up to m. */
  lemma HeadLength(s: string, adds: seq<Edit>, m: nat)
    requires m < |s|
    requires forall k | 0 <= k < |adds| :: 0 <= adds[k].0 <= m
    ensures |Woven(s, adds, m) + BasesAt(adds, m)| == m + BaseCount(adds)
  {
    WeaveLength(s, adds, m);
    BasesFromIsAt(adds, m);
  }

  /** Inserting u where t splits into head and rest puts it between the two. */
  lemma InsertAtJoin(t: string, t': string, head: string, rest: string, u: string, i: nat)
    requires t == head + rest && t' == head + u + rest && i == |head|
    ensures i <= |t| && t' == InsertAt(t, i, u)
  {
    assert t[..i] == head && t[i..] == rest;
  }

  lemma InsertBeforeSplit(s: string, adds: seq<Edit>, m: nat)
    requires m < |s|
    requires forall k | 0 <= k < |adds| :: adds[k].0 <= m
    ensures InsertBefore(s, adds) == Woven(s, adds, m) + BasesAt(adds, m) + s[m..]
  {
    WovenPast(s, adds, m, |s|);
    BasesFromNone(adds, |s|);
    assert s[m..|s|] == s[m..];
  }

  lemma InsertBeforeSplitLast(s: string, adds: seq<Edit>, x: Edit)
    requires 0 <= x.0 < |s|
    requires forall k | 0 <= k < |adds| :: adds[k].0 <= x.0
    ensures InsertBefore(s, adds + [x]) == Woven(s, adds, x.0) + BasesAt(adds, x.0) + Upper(x.1) + s[x.0..]
  {
    var m := x.0;
    var ys := adds + [x];
    assert forall k | 0 <= k < |ys| :: ys[k].0 <= m;
    InsertBeforeSplit(s, ys, m);
    WovenIgnores(s, adds, x, m);
    BasesAppend(adds, x, m);
  }

  /** An addition at or past the end appends its base. */
  lemma InsertLastAtEnd(s: string, adds: seq<Edit>, x: Edit)
    requires |s| <= x.0
    ensures InsertBefore(s, adds + [x]) == InsertBefore(s, adds) + Upper(x.1)
  {
    WovenIgnores(s, adds, x, |s|);
    BasesAppend(adds, x, |s|);
  }

  /** SortedAdditions is determined by any list with the same members whose
      positions strictly ascend. */
  lemma SortedAdditionsAre(additions: seq<Edit>, adds: seq<Edit>)
    requires StrictlySortedBy(adds, PositionOf)
    requires forall a | a in additions :: a in adds
    requires forall a | a in adds :: a in additions
    requires forall a, b | a in additions && b in additions && a.0 == b.0 :: a == b
    ensures SortedAdditions(additions) == adds
  {
    SortedAdditionsStrict(additions);
    SortedUnique(SortedAdditions(additions), adds, PositionOf);
  }

  /** When no two different additions share a position, the sorted
      additions have strictly ascending positions. */
  lemma SortedAdditionsStrict(additions: seq<Edit>)
    requires forall a, b | a in additions && b in additions && a.0 == b.0 :: a == b
    ensures StrictlySortedBy(SortedAdditions(additions), PositionOf)
  {
    var adds := SortedAdditions(additions);
    forall i, j | 0 <= i < j < |adds| ensures PositionOf(adds[i]) < PositionOf(adds[j]) {
      assert adds[i] in additions && adds[j] in additions;
      DistinctAt(adds, i, j);
    }
  }

  /** When no two different additions share a position, the result depends
      only on the set of additions, not on their order or repetitions. */
  lemma AddOrderFree(s: string, xs: seq<Edit>, ys: seq<Edit>)
    requires forall a | a in xs :: a in ys
    requires forall a | a in ys :: a in xs
    requires forall a, b | a in xs && b in xs && a.0 == b.0 :: a == b
    ensures AddSpec(s, xs) == AddSpec(s, ys)
  {
    SortedAdditionsAre(ys, SortedAdditions(xs)) by {
      SortedAdditionsStrict(xs);
    }
  }

  /** A single addition is `s[:p] + base.upper() + s[p:]`, the position
      clamped to the end of s; its base is not checked. */
  lemma AddOne(s: string, a: Edit)
    ensures AddSpec(s, [a]) == if a.0 < 0 then Err(NegativePosition(a.0))
                               else Ok(InsertAt(s, Clamp(a.0, |s|), Upper(a.1)))
  {
    SortedAdditionsAre([a], [a]);
    if 0 <= a.0 {
      assert FirstFailing([a][1..], b => ValidAddition(s, b)) == -1;
      InsertOne(s, a);
    }
  }

  lemma InsertOne(s: string, a: Edit)
    requires 0 <= a.0
    ensures InsertBefore(s, [a]) == InsertAt(s, Clamp(a.0, |s|), Upper(a.1))
  {
    InsertNothing(s);
    assert [a] == [] + [a];
    if a.0 <= |s| {
      InsertLast(s, [], a);
    } else {
      InsertLastAtEnd(s, [], a);
      assert s[..|s|] == s && s[|s|..] == [];
    }
  }

  /** Deleting the base that a single addition inserted gives s back. */
  lemma AddThenDelete(s: string, a: Edit)
    requires 0 <= a.0 && |a.1| == 1
    ensures AddSpec(s, [a]).Ok?
    ensures DeleteSpec(AddSpec(s, [a]).value, [Clamp(a.0, |s|)]) == Ok(s)
  {
    AddOne(s, a);
    var i := Clamp(a.0, |s|);
    var t := InsertAt(s, i, Upper(a.1));
    SortedPositionsAre([i], [i]);
    assert PositionSet([i]) == {i};
    RemoveInserted(s, i, Upper(a.1));
  }

  lemma RemoveInserted(s: string, i: nat, u: string)
    requires i <= |s| && |u| == 1
    ensures RemoveIndices(InsertAt(s, i, u), {i}) == s
  {
    var t := InsertAt(s, i, u);
    var d := {i};
    InsertAtParts(s, i, u);
    RemoveRun(t, d, 0, i);
    RemoveSkip(t, d, i);
    RemoveRun(t, d, i + 1, |t|);
    assert t[..0] == [] && t[..|t|] == t;
    assert RemoveIndices(t[..i + 1], d) == s[..i] by {
      assert t[0..i] == s[..i];
    }
    assert t[i + 1..|t|] == s[i..];
    assert s[..i] + s[i..] == s;
  }

  /** The test case of `mutation_add`. */
  lemma AddExample()
    ensures AddSpec("ATGCGT", [(0, "T"), (2, "A")]) == Ok("TATAGCGT")
  {
    var s := "ATGCGT";
    var adds: seq<Edit> := [(0, "T"), (2, "A")];
    SortedAdditionsAre(adds, adds);
    UpperBases();
    assert ValidAddition(s, adds[1]);
    assert FirstFailing(adds[1..], a => ValidAddition(s, a)) == -1;
    AddExampleInsert();
  }

  lemma AddExampleInsert()
    ensures InsertBefore("ATGCGT", [(0, "T"), (2, "A")]) == "TATAGCGT"
  {
    var s, adds := "ATGCGT", [(0, "T"), (2, "A")];
    AddExampleFirst();
    InsertLast(s, [(0, "T")], (2, "A"));
    assert [(0, "T")] + [(2, "A")] == adds;
    AddExampleSecond();
  }

  lemma AddExampleFirst()
    ensures InsertBefore("ATGCGT", [(0, "T")]) == "TATGCGT"
  {
    var s := "ATGCGT";
    UpperBases();
    InsertOne(s, (0, "T"));
    assert InsertAt(s, 0, "T") == "TATGCGT";
  }

  lemma AddExampleSecond()
    ensures InsertAt("TATGCGT", 3, Upper("A")) == "TATAGCGT"
  {
    var t := "TATGCGT";
    UpperBases();
    assert InsertAt(t, 3, "A") == "TATAGCGT";
  }

  /** After the first addition, a position at the end is out of range. */
  lemma AddAtEndExample()
    ensures AddSpec("ATGCGT", [(0, "t"), (6, "A")]) == Err(InvalidAddition(6, "A"))
  {
    var s := "ATGCGT";
    var adds: seq<Edit> := [(0, "t"), (6, "A")];
    SortedAdditionsAre(adds, adds);
    assert !ValidAddition(s, adds[1]);
    assert FirstFailing(adds[1..], a => ValidAddition(s, a)) == 0;
  }

  /** The first addition may lie past the end, and its base is not checked. */
  lemma AddPastEndExample()
    ensures AddSpec("ATGCGT", [(9, "a")]) == Ok("ATGCGTA")
  {
    var s := "ATGCGT";
    AddOne(s, (9, "a"));
    assert Upper("a") == "A" by {
      assert Upper("a")[0] == 'A';
    }
    assert InsertAt(s, 6, "A") == "ATGCGTA";
  }

  lemma AddUncheckedExample()
    ensures AddSpec("ATGCGT", [(2, "x")]) == Ok("ATXGCGT")
  {
    var s := "ATGCGT";
    AddOne(s, (2, "x"));
    assert Upper("x") == "X" by {
      assert Upper("x")[0] == 'X';
    }
    assert InsertAt(s, 2, "X") == "ATXGCGT";
  }

  /** A negative position is found after sorting, wherever it was listed. */
  lemma AddNegativeExample()
    ensures AddSpec("ATGCGT", [(1, "A"), (-1, "C")]) == Err(NegativePosition(-1))
  {
    var s := "ATGCGT";
    SortedAdditionsAre([(1, "A"), (-1, "C")], [(-1, "C"), (1, "A")]);
  }
}
