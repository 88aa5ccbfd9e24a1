# DNA string algorithms of bioinformatics_practice, modelled in Dafny

The repository is a set of small Python scripts for locating a bacterial
replication origin. Each script wraps one or two string algorithms in
argument parsing and file reading. This project models those algorithms
and proves what they compute:

- **Exact matching** (`exact_match.dfy`). `seq_position` lists every
  overlapping offset of a pattern. `pattern_count` counts the offsets and
  stops at the first short slice.
- **Approximate matching** (`approximate_match.dfy`). `pattern_mismatch`
  slides over the genome, shortening it by one character per step, and
  counts the windows within a Hamming-distance bound of the pattern.
- **Reverse complement** (`reverse_complement.dfy`). The chained `replace`
  calls become a per-character complement (A↔T, C↔G, anything else
  unchanged), followed by a reversal.
- **GC skew** (`skew.dfy`). `tally` builds the running G-minus-C profile.
  The minimum value and the list of its indices are computed from it.
- **k-mer frequency** (`frequency.dfy`, `ordered_table.dfy`).
  `pattern_frequency` fills an insertion-ordered dict. The script then takes
  `max(d, key=d.get)` and lists every key that has the maximal value.
- **Approximate most-frequent k-mers** (`motif_search.dfy`). `approx_pattern`
  scores each candidate window of the genome. problem9.py scores the forward
  strand only. problem10.py and Find_Replication_Origin.py add the reverse
  complement's score. It returns every candidate that ties for the maximum.
- **Replication-origin bounding boxes** (`origin.dfy`, `decimal.dfy`). The
  main block of Find_Replication_Origin.py cuts a ±window slice around every
  skew minimum, runs `approx_pattern` on it and files the result under
  `"ori" + str(i)`.
- **Clump finder** (`clump.dfy`). `clump_finder` slides over the k-mers with
  an insertion-ordered count table. At the window offset it records the key
  with the largest count, deletes the earliest-inserted key and moves the
  window on.
- **One-mismatch variants** (`variants.dfy`). `generator` overwrites each
  position of a copy of the pattern with every other base.

### How the model is built

- A Python dict is a sequence of `(key, value)` pairs with distinct keys, so
  insertion order is kept (module `OrderedTable`).
- `max(d, key=d.get)` is the first index with the largest value
  (`MaxIndex`).
- Both `pattern_frequency` and `approx_pattern` insert a key the first time
  they meet it, so their dicts list keys by first occurrence in the genome.
  Module `OccurrenceOrder` (`occurrence_order.dfy`) states that order and
  shows that selecting the maximal keys keeps it.
- Python's slice `s[a:b]` is `Origin.PySlice`: a negative bound counts from
  the end, every bound is clamped to the string, and a stop that does not
  lie beyond the start gives the empty string.
- `max` on an empty dict raises in Python. Here it is `Failure(EmptyMax)`
  from module `Wrappers`.
- Every loop of the source is a `method` with the same loop. Each method is
  proved equal to a recursive specification function, which builds the
  result the same way the loop does, one iteration at a time. The
  properties the code promises are proved as lemmas about those functions.
- `generator` keeps its mutable `pattern_copy` as a `char` array that the
  inner loop overwrites in place.
- Several functions are copied word for word into several scripts:
  `pattern_mismatch`, `reverse_complement`, `tally` and the two-strand
  `approx_pattern`. One definition serves every copy. Where a row below
  cites one copy, the same lines exist in the others.

### Where the code and its documentation disagree

The model follows the code in each case:

- `pattern_mismatch` in problem9.py documents a list of positions, but it
  returns their number (problem9.py:60, 79).
- `approx_pattern` documents "fewer than n mismatches". The code accepts a
  window whose mismatch count equals the bound (`count <= mismatches`).
- `approx_pattern` takes candidates from `range(len(genome) - pattern_len - 1)`.
  So the last two k-mer starts are never candidates, and a genome of at most
  `pattern_len + 1` characters makes `max` fail (`CandidateCount`).
- `pattern_count` gives `len(genome)` for the empty pattern, while
  `seq_position` gives `len(genome) + 1` offsets.
- `generator` accepts a `mismatches` argument but never reads it.
  `Variants.Generator` therefore has the same result for every value of it.

## Model

| member | source | states |
|---|---|---|
| `ReverseComplement.ComplementInvolution` | problem3.py:48-49 | complementing twice gives the character back; A, C, G, T map among themselves and every other character is left unchanged |
| `ReverseComplement.RevComp` | problem3.py:48-51 | `reverse_complement` (also problem10.py:93-96 and Find_Replication_Origin.py:121-126) keeps the input's length, and its character i is the complement of input character n-1-i |
| `ReverseComplement.RevCompPassesThrough` | problem3.py:48-51 | a character other than A, C, G, T (such as the spaces that replace newlines) reappears unchanged at the mirrored position |
| `ReverseComplement.RevCompNoPercent` | problem3.py:48-51 | a '%'-free input gives a '%'-free output, so the function can be applied again |
| `ReverseComplement.RevCompIsDna` | problem10.py:93-96 | the reverse complement of a string over A, C, G, T is again over A, C, G, T |
| `ReverseComplement.RevCompInvolution` | Find_Replication_Origin.py:121-126 | reverse-complementing twice gives the input back |
| `ReverseComplement.RevCompConcat` | problem3.py:48-51 | rc(s + t) == rc(t) + rc(s) |
| `Skew.SkewIsGMinusC` | problem6.py:47-57 | the skew after a string is its number of 'G' minus its number of 'C' |
| `Skew.SkewBounded` | problem6.py:47-57 | the skew after i characters lies between -i and i |
| `Skew.Tally` | Find_Replication_Origin.py:64-74 | `tally` returns len(genome)+1 values starting at 0; each step adds +1 for 'G', -1 for 'C' and 0 for anything else; the last value is #G - #C; every skew[i] lies in [-i, i] |
| `Skew.MinValue` | problem7.py:70 | `min(skew)` is an element of the profile and no larger than any element |
| `Skew.IndicesFrom` | problem7.py:71 | the comprehension from index `from` on lists exactly the indices holding the value, ascending |
| `Skew.MinList` | problem7.py:71 | `min_list` is non-empty and ascending, and holds exactly the indices whose value is the minimum |
| `Skew.SkewMinima` | problem7.py:70-73 | the minimum is at most 0 because skew[0] is 0, and every index in `min_list` lies in [0, len(genome)] |
| `ExactMatch.PositionsBelow` | problem4.py:56-58 | the offsets below n at which the pattern matches: each listed offset matches, every match is listed, strictly ascending |
| `ExactMatch.ExactPositionsSpec` | problem4.py:55-59 | `seq_position`'s offsets all match and lie within the genome, every match is found, they ascend strictly, there are none for a pattern longer than the genome, and for the empty pattern they are 0..len(genome) |
| `ExactMatch.SeqPosition` | problem4.py:55-59 | the loop returns exactly ExactPositions(genome, specified_seq) |
| `ExactMatch.EmptyPatternPositions` | problem4.py:56-58 | for the empty pattern every offset 0..n-1 is listed |
| `ExactMatch.PositionsBelowBound` | problem1.py:57-62 | at most one match per offset |
| `ExactMatch.PatternCount` | problem1.py:56-63 | for a non-empty pattern the count equals the number of `seq_position` offsets; for the empty pattern it is len(genome); it is at most len(genome)-len(pattern)+1, 0 for a too-long pattern and 1 for a pattern equal to the genome |
| `ApproximateMatch.ApproxBelowSpec` | Find_Replication_Origin.py:94-103 | `pattern_index` lists exactly the offsets whose window has at most `mismatches` mismatches, each once, ascending |
| `ApproximateMatch.PatternMismatch` | Find_Replication_Origin.py:92-107 | the loop over the shrinking genome returns the number of such offsets, never indexes out of range, and returns at most len(genome)-len(pattern)+1 |
| `ApproximateMatch.CountMismatches` | problem9.py:67-72 | the inner while loop counts the positions where the window and the pattern differ (their Hamming distance) |
| `ApproximateMatch.ApproxBelowBound` | problem9.py:64-79 | at most one entry per offset |
| `ApproximateMatch.HammingZero` | problem10.py:69-74 | a mismatch count of 0 means the window equals the pattern |
| `ApproximateMatch.ZeroMismatchIsExact` | problem10.py:66-79 | with `mismatches == 0`, `pattern_mismatch` finds exactly the exact overlapping occurrences |
| `ApproximateMatch.LargeBoundCountsAll` | problem10.py:66-79 | with `mismatches >= len(pattern)` every one of the len(genome)-len(pattern)+1 windows counts |
| `ApproximateMatch.LongPatternNotFound` | Find_Replication_Origin.py:94 | a pattern longer than the genome is counted 0 times |
| `ApproximateMatch.SelfMatch` | Find_Replication_Origin.py:102 | a window of the genome is within any non-negative bound of itself, so it is counted at least once |
| `OrderedTable.Increment` | problem2.py:62-65 | counting a key adds 1 to its value when present and appends it with value 1 otherwise, keeping every other entry and the key order |
| `OrderedTable.SumIncrement` | problem2.py:62-65 | counting a key raises the sum of the values by exactly one |
| `OrderedTable.MaxIndex` | problem2.py:81 | `max(d, key=d.get)` picks an entry whose value no entry exceeds, and every earlier entry is strictly smaller |
| `OrderedTable.KeysWithValue` | problem2.py:85-87 | the selection loop keeps exactly the keys whose value equals the one given |
| `OrderedTable.KeysWithValueDistinct` | problem2.py:85-87 | the selected keys are pairwise distinct |
| `OrderedTable.KeysWithValueOrdered` | problem2.py:85-87 | the selected keys are keys of the dict, listed in insertion order |
| `OrderedTable.MaxKeysOfSpec` | problem2.py:81-87 | `max_key_list` is non-empty and duplicate-free, holds exactly the keys of maximal value, in insertion order |
| `OrderedTable.MaxKeys` | problem2.py:81-87 | on an empty dict the selection fails as `max` does, and otherwise it returns `max_key_list` |
| `Frequency.FrequencyBelowSpec` | problem2.py:59-65 | after n windows every key is a length-k string counted once per occurrence below n, every such string is a key, and the values sum to n |
| `Frequency.PatternFrequency` | problem2.py:57-67 | the dict's keys are exactly the k-mers of the genome, each mapped to its number of overlapping occurrences (at least 1), and the values sum to the number of windows |
| `Frequency.FrequencyTableSpec` | problem2.py:59-65 | the same three facts about the finished dict |
| `Frequency.FrequencyTableEmpty` | problem2.py:59 | the dict is empty exactly when pattern_len > len(genome) |
| `Frequency.FrequencyBelowOrder` | problem2.py:59-65 | after n windows every key of the dict first occurs below offset n, and the keys are in order of first occurrence in the genome |
| `Frequency.MostFrequentSpec` | problem2.py:80-87 | for pattern_len <= len(genome), `max_key_list` holds exactly the k-mers occurring at least as often as any other k-mer, each once |
| `Frequency.MostFrequentOrder` | problem2.py:81-87 | for pattern_len <= len(genome), `max_key_list` lists its k-mers in order of first occurrence in the genome |
| `OccurrenceOrder.MaxKeysOrdered` | problem2.py:85-87 | selecting the keys of maximal value from a dict whose keys are in order of first occurrence keeps that order |
| `Frequency.MostFrequent` | problem2.py:80-88 | the main block fails exactly when pattern_len > len(genome), and otherwise returns the most frequent k-mers, each once, in order of first occurrence |
| `MotifSearch.CandidateTable` | problem9.py:105-106 | a candidate is stored only the first time it is met, so the keys stay distinct |
| `MotifSearch.CandidateTableSpec` | problem9.py:98-106 | after n candidate offsets every entry is a candidate met so far, stored with its score, every candidate met so far is a key, and keys are in order of first occurrence |
| `MotifSearch.CountCandidates` | problem10.py:118-132 | the candidate loop builds exactly CandidateTable, for either scoring |
| `MotifSearch.CandidateTableNonEmpty` | problem9.py:99-108 | when there is a candidate offset the dict is non-empty, so `max` does not fail |
| `MotifSearch.ApproxPatternShape` | problem10.py:119-142 | `approx_pattern` fails exactly when len(genome) <= pattern_len+1, and otherwise returns a non-empty list without duplicates |
| `MotifSearch.ApproxPatternOrder` | problem9.py:105-114 | the result lists its strings in order of their first occurrence in the genome |
| `MotifSearch.ApproxPatternMembers` | problem10.py:123-140 | the result holds exactly the candidates whose score no candidate exceeds |
| `MotifSearch.CandidateScorePositive` | problem9.py:100-103 | for `mismatches >= 0` every candidate scores at least 1 |
| `MotifSearch.LargeBoundScore` | problem10.py:123-129 | for `mismatches >= pattern_len` every candidate scores every window once per strand scored |
| `MotifSearch.LargeBoundAllBest` | problem10.py:123-140 | for `mismatches >= pattern_len` every candidate is returned |
| `MotifSearch.ApproxPattern` | problem9.py:98-116 | forward-only `approx_pattern`: fails iff len(genome) <= pattern_len+1; otherwise a non-empty list of exactly the best-scoring candidates, in order of first occurrence |
| `MotifSearch.ApproxPatternWithRc` | Find_Replication_Origin.py:146-170 | the same result with each candidate scored on both strands |
| `Decimal.DigitRoundTrip` | Find_Replication_Origin.py:203 | a digit character read back gives the digit |
| `Decimal.DecimalStringDigits` | Find_Replication_Origin.py:203 | `str(i)` is non-empty, all digits, with no leading zero |
| `Decimal.ParseDecimalString` | Find_Replication_Origin.py:203 | reading `str(i)` back as a decimal gives i |
| `Decimal.DecimalStringInjective` | Find_Replication_Origin.py:203 | distinct numbers have distinct decimal strings |
| `Origin.OriLabelInjective` | Find_Replication_Origin.py:203 | equal labels `"ori" + str(i)` come from equal i |
| `Origin.OriLabelDistinct` | Find_Replication_Origin.py:203 | different i give different labels |
| `Origin.Slice` | Find_Replication_Origin.py:197-199 | a window that is not skipped is the run of characters starting at min_list[i]-window, of length 2*window for window >= 0; for a negative window it is empty unless min_list[i]+window < 0, which makes the stop count from the end and leaves len(genome)+2*window characters (none if that is not positive) |
| `Origin.FailurePersists` | Find_Replication_Origin.py:201 | once `approx_pattern` has raised, the bounding-box computation has failed |
| `Origin.WindowFailure` | Find_Replication_Origin.py:201 | `approx_pattern` on a slice fails exactly when the slice holds at most pattern_len+1 characters |
| `Origin.EntriesFailure` | Find_Replication_Origin.py:191-203 | the loop fails exactly when some in-bounds window's search fails |
| `Origin.EntriesSpec` | Find_Replication_Origin.py:191-203 | when it does not fail, the loop files, in order, exactly the in-bounds windows' results under their indices |
| `Origin.LabelledSpec` | Find_Replication_Origin.py:203 | labelling with `"ori" + str(i)` keeps the results, maps each label back to its index, and gives distinct labels |
| `Origin.BoundingBoxSpec` | Find_Replication_Origin.py:191-203 | key `"ori"+i` is present iff min_list[i]-window >= 0 and min_list[i]+window <= len(genome); its value is `approx_pattern` of that slice; every key has that form; keys are distinct; and the computation fails iff an in-bounds slice holds at most pattern_len+1 characters |
| `Origin.LocateOrigins` | Find_Replication_Origin.py:185-203 | the main block (skew profile, minima, bounding boxes) computes BoundingBox of the skew minima |
| `Origin.FileBoxes` | Find_Replication_Origin.py:190-203 | the window loop computes the boxes of the windows' results |
| `Origin.SearchWindow` | Find_Replication_Origin.py:197-201 | searching the Python slice `genome[start:stop]` of one in-bounds window gives that window's result |
| `Origin.LocateOriginsSpec` | Find_Replication_Origin.py:185-203 | the boxes are searched around skew minima that all lie in [0, len(genome)], and the computation fails iff an in-bounds window's slice holds at most pattern_len+1 characters |
| `Clump.Step` | problem5.py:78-94 | one loop iteration keeps the dict's keys distinct |
| `Clump.StepRecordsFirstMax` | problem5.py:85-94 | at the window offset a key is appended iff some count reaches `occurances`; that key is the first in insertion order with the largest count; `window` moves on by one |
| `Clump.WindowSchedule` | problem5.py:85-94 | after n iterations `window` is n if the initial window lies in [0, n) and unchanged otherwise, and at most n - window strings have been recorded |
| `Clump.ClumpRunSpec` | problem5.py:77-94 | every key is a k-mer counted at least once and at most as often as it occurs so far; every recorded string is a k-mer occurring at least `occurances` times |
| `Clump.EvictsFirstKey` | problem5.py:92 | a firing deletes the earliest-inserted key's whole entry and keeps every other key |
| `Clump.RecordedStepGrows` | problem5.py:87-88 | the recorded list only grows |
| `Clump.CountsPositive` | problem5.py:80-83 | every stored count is at least 1 |
| `Clump.FirstFiringRecords` | problem5.py:85-88 | with `occurances <= 1`, once the window offset has been passed something has been recorded |
| `Clump.ClumpFinderSpec` | problem5.py:77-94 | recorded strings qualify; nothing is recorded for an initial window outside [0, len(genome)-pattern_len]; with `occurances <= 1` and a window inside that range something is recorded |
| `Clump.Advance` | problem5.py:80-94 | the loop body (count, test, record, delete, move the window) performs exactly one Step |
| `Clump.SlideWindows` | problem5.py:75-94 | the loop records exactly what ClumpRun records |
| `Clump.Distinct` | problem5.py:96 | `list(set(...))` keeps exactly the same elements, without duplicates, and is empty iff its input is |
| `Clump.ClumpFinder` | problem5.py:75-97 | the result holds exactly the recorded strings, once each; each is a k-mer occurring at least `occurances` times; empty for an out-of-range window; non-empty for `occurances <= 1` and an in-range window |
| `Variants.Generator` | problem12.py:56-66 | the nested loops over a mutable copy of the pattern return exactly AllVariants(pattern), for any `mismatches` |
| `Variants.HammingUpdate` | problem12.py:62-65 | overwriting one position with a different character is at Hamming distance one |
| `Variants.VariantHamming` | problem12.py:59-65 | a variant is exactly a string of the same length at Hamming distance one whose changed character is a base |
| `Variants.VariantsAtSpec` | problem12.py:61-65 | at position i the inner loop appends each base other than pattern[i], in the order A, C, T, G: three strings at a base position, four elsewhere |
| `Variants.VariantsBelowMembers` | problem12.py:59-65 | after n positions the list holds exactly the variants whose changed position is below n |
| `Variants.VariantsBelowOrdered` | problem12.py:56-61 | after n positions the list is ordered by changed position, then by base |
| `Variants.VariantsBelowCount` | problem12.py:56-65 | after n positions the list has 3n strings plus one per non-base character |
| `Variants.AllVariantsMembers` | problem12.py:59-65 | the output holds exactly the variants; each has the pattern's length and differs at exactly one position |
| `Variants.PatternNotProduced` | problem12.py:62 | the pattern itself never appears in the output |
| `Variants.AllVariantsCount` | problem12.py:56-65 | the output has 3 strings per base position and 4 per other character |
| `Variants.DnaVariantsCount` | problem12.py:56-65 | for a pattern over A, C, G, T the output has 3*len(pattern) strings |
| `Variants.AllVariantsOrdered` | problem12.py:56-65 | the output is ordered by changed position, then by base in the order A, C, T, G, and contains no duplicates |

## Left out

- `parse_cmd_line` in every script (argparse and default dictionaries) is not modelled.
- Opening and reading the genome file, `.replace("\n", " ")` and every `print` are I/O. The genome is a parameter that may hold any characters, spaces included, and every comparison is literal and case-sensitive.
- Python exceptions from `max` on an empty dict are modelled as a `Failure(EmptyMax)` result. When the search of one bounding-box window raises, the whole main block fails, and so does `Origin.BoundingBox`.
- The `'%temp%'` placeholder in `reverse_complement` is modelled as a per-character map, under the precondition that the input holds no '%'. What chained replacement does to an input containing '%' is not modelled.
- The placeholder branch `x=9` for a window outside the genome is modelled as skipping that window.
- `pattern_len` arguments are natural numbers. A negative length would select Python's negative-index slicing, which is not modelled. `window`, `mismatches` and `occurances` are integers and may be negative, as in the code; a negative `window` slices the genome by Python's rules for negative and out-of-range bounds (`Origin.PySlice`).
- Clump.ClumpFinder: states the element set and the distinctness of the result, but not its order, because the iteration order of a Python `set` is unspecified. `Clump.Distinct` keeps first occurrences, which is one of the orders Python may produce.
- The loops are sometimes split into helper methods: `ApproximateMatch.CountMismatches` is the inner loop of `pattern_mismatch`; `Clump.Advance` is the body of the `clump_finder` loop and `Clump.SlideWindows` the loop itself; `Origin.SearchWindow` and `Origin.FileBoxes` are the body and the loop of the bounding-box computation. The statements performed are the same.
- The unused `os` import and the performance of the brute-force searches are not modelled.
