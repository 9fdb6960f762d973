# dna-translation in Dafny

A model of the sequence logic of the `dna-translation` repository:

- the nucleotide utilities of `src/utils/utils.py`: normalising raw input, the
  single-base and whole-sequence alphabet checks, the position-aligned
  complementary strand and the RNA display form;
- the codon table of `src/utils/codon_table.py`: the 64 entries of the
  standard genetic code (NCBI translation table 1) with `"Stop"` for the
  three stop codons, and its lookup;
- the translator of `src/translator.py`: the start-codon search, the
  translation of the reading frame from the first `ATG`, and the three
  mutation operations (substitution, deletion and insertion of bases at
  0-based positions).

The utilities and the codon table are pure, so they are Dafny functions and
lemmas. In the translator, `find_start_codon` is a function. The translation
and the three mutation operations are methods with the source's loops. Each
method is proved against a specification function that states the result
without the loop:

| loop | specification |
|---|---|
| `Translator.TranslateDnaToProtein` | `ProteinOf` / `ReadFrame` |
| `Mutations.MutationChange` | `ChangeSpec` (last write wins) |
| `Mutations.MutationDelete` | `DeleteSpec` (remove these indices) |
| `Mutations.MutationAdd` (loop in `AddLater`) | `AddSpec` (insert before these indices) |

The lemmas then state the promised properties of those functions.

Files and modules:

- `outcomes.dfy` (`Outcomes`): `Option`, `Result` and `Error`.
  - A raised `ValueError` or `KeyError` becomes an `Err`.
  - The `Err` says which check refused the input and, where the source's
    message names one, the offending value (the whole-sequence alphabet
    check names none).
- `pystrings.dfy` (`PyStrings`): the Python `str` operations the code is
  built from, on ASCII characters:
  - `''.join(s.split())`;
  - `upper`;
  - single-character `replace`;
  - slicing, which clamps out-of-range bounds.
- `sorting.dfy` (`Sorting`): `sorted(set(xs), key=...)` as `SortedSet`.
- `utils.dfy` (`NucleotideUtils`), `codon_table.dfy` (`CodonTable`),
  `translator.dfy` (`Translator`), `mutations.dfy` (`Mutations`).

Python's clamping slices matter in two places, and the model keeps both:

- A single deletion position at or past the end returns the sequence
  unchanged. Only the positions after the smallest are range-checked.
- A single addition position at or past the end appends its base. The
  first addition's base is not checked either.

Where the code and its documentation differ, the model follows the code:

- The docstrings of the mutation functions call positions 1-based. The code
  indexes 0-based, so the model does too.
- The invalid-codon failure of `translate_dna_to_protein` is reachable.
  - `is_sequence_valid` accepts lower-case bases, but the table's keys are
    upper case.
  - So a lower-case base inside a codon that is read fails there
    (`TranslateLowerCaseExample`).
  - Over upper-case `ACGT` that failure cannot happen (`UpperCaseTranslates`).

## Model

| member | source | states |
|---|---|---|
| Sorting.SortedSet | src/translator.py:84 | `sorted(set(xs), key)`: sorted by the key, no element twice, and exactly the members of xs |
| Sorting.SortedUnique | src/translator.py:84 | two strictly key-sorted lists with the same members are equal, so the sorted set depends only on the members |
| NucleotideUtils.FormatSequence | src/utils/utils.py:15-16 | the formatted sequence has no whitespace, no lower-case letter and no 'U', and is no longer than the input |
| NucleotideUtils.FormatConcat | src/utils/utils.py:15-16 | formatting distributes over concatenation, so it works character by character and keeps the kept characters in order |
| NucleotideUtils.FormatChar | src/utils/utils.py:15-16 | on one character: whitespace is dropped, anything else is upper-cased with 'U' mapped to 'T' |
| NucleotideUtils.FormatFixedPoints | src/utils/utils.py:15-16 | a string is unchanged by formatting exactly when it has no whitespace, no lower-case letter and no 'U' |
| NucleotideUtils.FormatIdempotent | src/utils/utils.py:15-16 | formatting a formatted sequence changes nothing |
| NucleotideUtils.FormatExamples | tests/test_main.py:8-9 | "atg cgt" formats to "ATGCGT" and "AUG" to "ATG" |
| NucleotideUtils.FormatLongExample | tests/test_main.py:10 | "  A uuuu tgcg    " formats to "ATTTTTGCG" |
| NucleotideUtils.IsNucleotideValid | src/utils/utils.py:29-30 | `is_nucleotide_valid`: the upper-cased string is one of "A", "T", "C", "G", so multi-character and empty strings are refused |
| NucleotideUtils.NucleotideValidIff | src/utils/utils.py:29-30 | a base is valid exactly when it is one of the one-letter strings A, T, C, G in either case |
| NucleotideUtils.IsSequenceValid | src/utils/utils.py:42 | `is_sequence_valid`: every character of the upper-cased sequence, as a one-character string, passes `is_nucleotide_valid`; vacuously true for the empty sequence |
| NucleotideUtils.SequenceValidIff | src/utils/utils.py:42 | a sequence is valid exactly when each of its characters is a DNA letter of either case (so the empty sequence is valid) |
| NucleotideUtils.SequenceValidExamples | tests/test_main.py:12-14 | "ATGCGT" and "" are valid, "ATGX" is not |
| NucleotideUtils.ComplementPairs | src/utils/utils.py:54-59 | the pairing dictionary (`COMPLEMENT`) has exactly the keys A, C, G, T; it maps A to T and C to G, and pairing is its own inverse without fixed points, so also T to A and G to C |
| NucleotideUtils.GetComplementarySequence | src/utils/utils.py:60 | succeeds exactly when every character is a key. The result has the same length, and position i holds the partner of character i (no reversal). A failure names the first character that is not a key |
| NucleotideUtils.ComplementInvolution | src/utils/utils.py:54-60 | complementing an upper-case ACGT sequence twice gives it back |
| NucleotideUtils.ComplementExamples | tests/test_main.py:17 | "ATGCGT" complements to "TACGCA"; the lower-case 'g' in "ATgC" is a failure |
| NucleotideUtils.GetArnSequence | src/utils/utils.py:73 | same length; every 'T' becomes 'U' and every other character is unchanged, so no 'T' is left |
| NucleotideUtils.ArnRoundTrip | src/utils/utils.py:73 | formatting the RNA form of a formatted sequence turns every 'U' back into 'T' and gives the sequence back |
| CodonTable.Entry | src/utils/codon_table.py:7-24 | `CODON_TO_AMINE_TABLE`: one match case per dictionary entry, in the source's order and with its value, and None for any other three characters |
| CodonTable.Translate | src/utils/codon_table.py:26-37 | the lookup finds a value exactly for three-letter upper-case ACGT words (None for any other length, case or letter), and every value is "Stop" or one of the twenty amino-acid codes |
| CodonTable.TableKeysAreCodons | src/utils/codon_table.py:7-24 | the table's keys are exactly the three-letter words over ACGT, and exactly the strings the lookup finds |
| CodonTable.TableHas64Keys | src/utils/codon_table.py:7-24 | the table has 64 keys |
| CodonTable.StopCodons | src/utils/codon_table.py:16-20 | "Stop" is the value of TAA, TAG and TGA and of no other string |
| CodonTable.SingleCodonAminoAcids | src/utils/codon_table.py:10-20 | ATG is the only key for "Met" and TGG the only key for "Trp" |
| CodonTable.AminoAcidCodes | src/utils/codon_table.py:7-24 | the amino-acid codes are twenty distinct three-letter codes, none of them "Stop" |
| CodonTable.EveryValueIsUsed | src/utils/codon_table.py:7-24 | every amino-acid code and "Stop" is the value of some key |
| Translator.FindFrom | src/translator.py:14-15 | `str.find` from index i: -1 exactly when "ATG" starts at no index from i on; otherwise the smallest such index |
| Translator.FindStartCodon | src/translator.py:4-15 | -1 exactly when "ATG" occurs nowhere; otherwise the smallest index where "ATG" begins, in any frame |
| Translator.FindStartCodonExamples | src/translator.py:14-15 | "CATGA" gives 1, "ATATG" gives 2 (not frame-aligned), "AUG" gives -1 |
| Translator.TranslateDnaToProtein | src/translator.py:17-48 | the codon loop with its early exit on "Stop" returns exactly ProteinOf: no start codon gives [], a failed alphabet check fails, otherwise the frame from the first "ATG" is read |
| Translator.ProteinOf | src/translator.py:27-48 | `translate_dna_to_protein` as a value: no "ATG" anywhere gives [] before anything is checked; otherwise a sequence failing the alphabet check is InvalidSequence; otherwise the frame is read from the first "ATG" (ReadFrame) |
| Translator.ReadFrame | src/translator.py:36-46 | the frame from index i: fewer than three characters left gives []; a whole codon that is not a key fails with that codon; "Stop" is recorded and ends the reading; any other value is recorded and reading goes on three characters later |
| Translator.TranslateEdges | src/translator.py:29-34 | without "ATG" the result is [] whatever the characters; with "ATG" and a non-DNA character anywhere it is a failure |
| Translator.ReadFrameOk | src/translator.py:36-46 | element k of a successful reading is the lookup of the k-th whole codon, there are at most (len − start) / 3 elements, "Stop" can only be last, and a reading not ending in "Stop" used every whole codon |
| Translator.ReadFrameErr | src/translator.py:36-41 | a failed reading names the first codon that is not a key, and every codon before it is a key other than "Stop" |
| Translator.ProteinShape | src/translator.py:29-46 | a successful translation starts with "Met" and has the shape ReadFrameOk states, counted from the first start codon |
| Translator.UpperCaseTranslates | src/translator.py:33-41 | over upper-case ACGT the translation never fails, so the invalid-codon failure needs a lower-case base |
| Translator.TranslateExample | tests/test_main.py:21 | "ATGCGT" translates to ["Met", "Arg"] |
| Translator.TranslateInvalidExample | tests/test_main.py:22-23 | "ATGX" fails the alphabet check |
| Translator.TranslateLowerCaseExample | src/translator.py:38-41 | "ATGaaa" passes the alphabet check and fails on the codon "aaa" |
| Translator.TranslateStopExample | src/translator.py:43-46 | reading stops after "Stop", which is recorded; the unread rest is ignored |
| Mutations.LastChangeAt | src/translator.py:63-65 | the index of the last change aimed at a position, or -1 exactly when none is |
| Mutations.ChangeSpec | src/translator.py:62-68 | succeeds exactly when every change has a position inside the sequence and a valid base; a success has the input's length |
| Mutations.Substituted | src/translator.py:62-68 | a position named by some change holds the upper-cased base of the last change naming it, every other position keeps its character, and the length is kept |
| Mutations.SubstitutedStep | src/translator.py:65 | one loop step (`new_seq[:pos] + base.upper() + new_seq[pos+1:]`) moves the specification from the first i changes to the first i + 1 |
| Mutations.MutationChange | src/translator.py:50-68 | the substitution loop returns exactly ChangeSpec |
| Mutations.ChangeSequential | src/translator.py:63-67 | applying cs + ds applies cs and then ds to its result; a failure in cs is reported as is |
| Mutations.ChangeIdempotent | src/translator.py:62-68 | applying the same changes to their own result changes nothing |
| Mutations.ChangeOne | src/translator.py:64-67 | a single change writes its upper-cased base at its position when valid, and fails otherwise |
| Mutations.ChangeExamples | tests/test_main.py:26-29 | the four substitution test cases, including the last write winning at position 4 |
| Mutations.ChangeErrorExample | src/translator.py:64-67 | a lower-case base is accepted and written upper-cased ("t" at 0 gives "TTGCGT"); a position equal to the length fails |
| Mutations.SortedPositions | src/translator.py:84 | `sorted(set(positions))`: strictly ascending, with exactly the listed positions |
| Mutations.MutationDelete | src/translator.py:70-95 | the deletion loop returns exactly DeleteSpec |
| Mutations.DeleteSpec | src/translator.py:81-95 | an empty list gives the input back; otherwise the positions are deduplicated and sorted and DeleteSorted applies |
| Mutations.DeleteSorted | src/translator.py:86-95 | NegativePosition when the smallest position is negative; otherwise OutOfBounds for the first later position outside [0, len); otherwise the characters at the listed indices removed |
| Mutations.RemoveIndices | src/translator.py:89-95 | the sequence with every character whose index is listed dropped and the others kept in order, never longer than the input |
| Mutations.DeleteSortedOkIff | src/translator.py:86-94 | over the sorted positions: success exactly when the smallest is not negative and every other is inside the sequence |
| Mutations.DeleteOkIff | src/translator.py:81-94 | success exactly when every listed position is non-negative and inside the sequence, except that a position past the end is allowed when it is the only one listed |
| Mutations.DeleteErrorKinds | src/translator.py:86-94 | deletion fails only with a negative position or a position out of bounds |
| Mutations.SortedPositionsMin | src/translator.py:84-86 | the first sorted position is listed and is the smallest of them |
| Mutations.DeleteNegative | src/translator.py:86-87 | a reported negative position is listed, negative and the smallest of all |
| Mutations.DeleteOutOfBounds | src/translator.py:90-94 | a reported position is listed and past the end. All positions are non-negative, a smaller one exists, and every smaller one other than the smallest of all is inside the sequence |
| Mutations.RemoveLength | src/translator.py:89-95 | removal shortens the sequence by the number of its indices that are listed |
| Mutations.KeptPositionsSpec | src/translator.py:89-95 | the indices that survive are every unlisted index of the sequence, once each, in ascending order |
| Mutations.RemoveKeeps | src/translator.py:89-95 | character k of the result is the character at the k-th surviving index, so relative order is kept |
| Mutations.SortedPositionSet | src/translator.py:84 | sorting and deduplicating does not change which positions are listed |
| Mutations.DeleteLength | src/translator.py:84-95 | a successful deletion is shorter by the number of distinct listed positions inside the sequence |
| Mutations.DeleteOrderFree | src/translator.py:84 | the result depends only on the set of positions, not on their order or repetitions |
| Mutations.SortedPositionsAre | src/translator.py:84 | any strictly ascending list with the listed positions as members is the sorted set |
| Mutations.DeleteExamples | tests/test_main.py:32-34 | deleting [0, 2] from "ATGCGT" gives "TCGT"; [0, -4] fails on -4 |
| Mutations.DeleteEdgeExamples | src/translator.py:81-95 | [0, 6] on a six-letter sequence fails on 6, a lone 6 changes nothing, and an empty list changes nothing |
| Mutations.DeleteOne | src/translator.py:81-95 | a single deletion fails only when negative; inside the sequence it is `s[:p] + s[p+1:]`, and at or past the end it changes nothing |
| Mutations.SortedAdditions | src/translator.py:109 | `sorted(set(additions), key=position)`: sorted by position, no addition twice, exactly the listed additions |
| Mutations.MutationAdd | src/translator.py:97-126 | deduplicates and sorts the additions, places the first base by the zero, negative or other branch, then runs the loop; the result is exactly AddSpec |
| Mutations.AddLater | src/translator.py:121-126 | from the first base placed, the loop over the later additions (each range- and base-checked, the stretch since the previous position copied, its base added) and the tail slice return exactly AddSorted |
| Mutations.AddSpec | src/translator.py:109-126 | after deduplicating and sorting by position, an empty list gives the input back; otherwise AddSorted applies |
| Mutations.AddSorted | src/translator.py:114-126 | NegativePosition when the smallest position is negative (its base is not checked); otherwise InvalidAddition for the first later addition outside [0, len) or with an invalid base; otherwise every base inserted (InsertBefore) |
| Mutations.InsertBefore | src/translator.py:114-126 | each addition's upper-cased base inserted before the character at its position, bases at one position in list order, and the bases of positions at or past the end appended |
| Mutations.InsertAt | src/translator.py:119-126 | one insertion in Python's slicing, `t[:i] + u + t[i:]`, which is what each step of `add_mutation` amounts to once the earlier bases are in place (InsertLast) |
| Mutations.InsertAtParts | src/translator.py:119-126 | after inserting u at index i, the result is t's first i characters, then exactly u, then the rest of t, and its length is the sum of both lengths |
| Mutations.AddSortedOkIff | src/translator.py:114-125 | over the sorted additions: success exactly when the smallest position is not negative and every later addition is inside the sequence with a valid base |
| Mutations.AddValidSucceeds | src/translator.py:121-125 | additions that are all inside the sequence with valid bases always succeed |
| Mutations.AddNegativeFails | src/translator.py:114-117 | a negative position anywhere in the list makes insertion fail |
| Mutations.AddErrors | src/translator.py:109-125 | a reported negative position is listed and the smallest of all. A reported invalid addition is listed and is out of range or has an invalid base, and no position is negative. Nothing else is reported |
| Mutations.AddLength | src/translator.py:109-126 | a success is longer by the number of bases added: one per distinct addition when every base is valid |
| Mutations.InsertLast | src/translator.py:121-126 | inserting one more addition at a position at or above all earlier ones puts its base at that position shifted by the bases added before. So insertion in position order is repeated `t[:i] + base + t[i:]` |
| Mutations.SortedAdditionsAre | src/translator.py:109 | with distinct positions, any strictly ascending list with the same members is the sorted set |
| Mutations.SortedAdditionsStrict | src/translator.py:109 | with distinct positions, the sorted additions strictly ascend |
| Mutations.AddOrderFree | src/translator.py:109 | with distinct positions, the result depends only on the set of additions, not on their order or repetitions |
| Mutations.AddOne | src/translator.py:114-126 | a single addition fails when negative, and otherwise is `s[:p] + base.upper() + s[p:]` with p clamped to the length |
| Mutations.AddThenDelete | src/translator.py:70-126 | deleting the base that a single addition inserted gives the sequence back |
| Mutations.AddExample | tests/test_main.py:39 | adding [(0, "T"), (2, "A")] to "ATGCGT" gives "TATAGCGT" |
| Mutations.AddAtEndExample | src/translator.py:121-125 | after the first addition, a position equal to the length fails |
| Mutations.AddPastEndExample | src/translator.py:114-126 | a lone addition past the end appends its upper-cased base |
| Mutations.AddUncheckedExample | src/translator.py:114-119 | the first addition's base is not checked: "x" is inserted as "X" |
| Mutations.AddNegativeExample | src/translator.py:109-117 | a negative position is found after sorting, wherever it was listed |

## Left out

- `main.py` (argument parsing, printing in blocks, the 1-based to 0-based conversion of user input) is not part of this model. The mutation operations receive 0-based positions.
- Exception types and messages: every `ValueError` and `KeyError` is an `Err` whose `Error` names the failed check and, where the message names one, the offending value. The message text is not modelled.
- The `TypeError` from sorting a list that mixes numbers and strings (tests/test_main.py:35-36) comes from dynamic typing. In the model positions are integers, so it cannot arise.
- Unicode: `str.upper` and `str.split` are modelled on ASCII only. Upper-casing maps a-z to A-Z, and whitespace is the ASCII separators that `split` uses.
- Mutations.SortedAdditions: Python's `sorted(set(...))` leaves the order of two additions with the same position and different bases unspecified. The model keeps them in the order of their first occurrence, which is one of the orders Python may produce.
- Mutations.AddOrderFree: proved only when no two different additions share a position, because with such a tie the Python result depends on set iteration order.
- CodonTable.Translate: the dictionary is a `match` on the three letters, with one case per entry in the source's order, rather than a `map` value. `TABLE_KEYS` gives its key set.
