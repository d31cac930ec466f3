# Student grade system: record store and grade statistics

A model in Dafny of the core of a small interactive Go program that keeps a
roster of students and their per-subject grades (`main.go`). Two things are
modelled:

- **The record store and the flows that change it.**
  - `Records.Store` is a map from a student's name to a `Student(name, grades)`.
  - The flows are the add, update and delete flows and the lookup used by
    search and by the statistics view.
  - Each mutating flow returns the new store and whether it asked for the
    store to be saved.
  - Console input is a sequence of `Entry(subject, grade)` rounds. `grade`
    is the parsed grade line, or `None` when it does not parse.
- **The per-student statistics of `viewAvgGrade`.**
  - The average, and the running highest and lowest grade with their
    subjects, both computed in one pass over the grades map.
  - The median of the grades (`calculateMedian`).
  - Go does not fix the order in which a map is iterated. The pass is
    therefore stated over an arbitrary *listing* of the map (`Stats.IsListing`).
  - Over real arithmetic, the model proves that the average and the median
    do not depend on that order. Neither do the extreme grades the corrected
    scan reports. For the program's `float64` sum the average can depend on
    the order (see `Stats.ReportOrderIndependent` under Left out).

Modules:

- `Wrappers`: `Option`.
- `Records`: the store and its flows.
- `Sorting`: an insertion sort. It stands in for `sort.Float64s`, and the
  model proves that a sorted permutation is unique.
- `Stats`: the pass, the corrected pass, the median, listings and the report.

Three behaviours of the Go code are kept as written:

- **End of input.** After the input runs out, `bufio.Scanner` yields the
  empty line.
  - In the add flow the empty line is neither `done` nor a number, so the
    loop never ends. `Records.AddStudent` returns `None` when no `Done` entry
    comes.
  - In the update flow the empty grade line fails to parse, which is the
    early-return path.
- **Add versus update on a bad grade.**
  - The add loop skips a grade that does not parse.
  - The update loop returns at the first such grade, without saving.
  - Edits made before that return stay in the in-memory store, because the
    Go code edits the student's grades map in place.
- **Empty grade sets.**
  - For a student without grades, Go computes the average as 0/0, which is
    NaN. The model returns `average == None`.
  - `calculateMedian` returns 0 for an empty set.
  - A `NoGrades` error would be the cleaner contract in both cases. The
    model follows `main.go`.

The model departs from `main.go` in three places:

- **The highest/lowest scan.** `main.go` treats a running extreme equal to
  0 as "not yet set", which is a bug (see Findings). The loop as written is
  modelled as `Stats.Scan`. `Stats.AvgReport` uses the corrected scan,
  `Stats.ScanFixed`, which starts from the first grade. The two scans
  provably agree whenever no grade is 0.
- **The average of no grades.** Go prints NaN; the model returns
  `average == None`.
- **Grade arithmetic.** Grades are `real`, not `float64`, so sums are exact
  (see Left out).

## Model

| member | source | states |
|---|---|---|
| Records.AddEntries | main.go:66-82 | The add entry loop ends only if a `done` subject comes. It then holds, for each subject, the grade of the last entry before `done` whose grade parsed. Entries with a bad grade are skipped. |
| Records.AddStudent | main.go:62-88 | Adding stores a fresh record under the name and always saves. The record's name equals its key. Its grades are the last valid grade per subject entered before `done`. The new keys are the old keys plus the name, and every other record is unchanged. The store invariant is preserved. Without `done` the flow never returns. |
| Records.LastGradeSpec | main.go:67-82 | Over the entries before the stop, a subject gets a grade exactly when some entry for it has a valid grade. The grade it gets is that of the last such entry. |
| Records.AddedGrades | main.go:66-84 | The added student's subjects are exactly those entered with at least one valid grade before `done`. The stored grade is that of the subject's last valid entry, and no later valid entry for the subject precedes `done`. |
| Records.AddThenLookup | main.go:76-84 | After an add, any subject entered with a valid grade before `done` is found under the student, with the grade of the last such entry. |
| Records.UpdateEntries | main.go:133-152 | The update loop finishes normally exactly when the first stopping entry is `done`. A grade that does not parse stops it early. Every entry before the stop overwrites or inserts its subject, later entries winning. Other subjects keep their old grades. |
| Records.UpdateStudentGrades | main.go:123-154 | An unknown name changes nothing and saves nothing. Otherwise only that student's grades change, following the loop. The store is saved exactly when the loop ended at `done`. Edits made before an early return remain. Keys, names, other records and the store invariant are preserved. |
| Records.UpdateLeavesOtherSubjects | main.go:148 | An update leaves unchanged every subject that no entry before the stop names. |
| Records.DeleteStudent | main.go:159-171 | A delete saves exactly when the name is present. The keys lose exactly that name, every other record is unchanged, and the store invariant is preserved. |
| Records.Lookup | main.go:180-184 | A lookup finds a record exactly when the name is a key, and the record found is the one stored under that name. In a well-keyed store it carries that name. |
| Stats.Scan | main.go:185-200 | The loop's sum is the sum of the grades visited, and its grade list holds them in visiting order. For a non-empty map, each reported extreme is a (subject, grade) pair of the map. |
| Stats.ZeroIsReplaced | main.go:192-199 | Whenever the running highest (or lowest) is 0, the next pair replaces it unconditionally, whatever its grade. |
| Stats.ZeroSentinelCounterexample | main.go:192-199 | For the grades {a: 0, b: -5} visited in that order, the loop reports -5 in b as the highest grade. The corrected scan reports 0 in a. Visited b then a, the loop reports 0, so its result depends on the iteration order. |
| Stats.ZeroThenSpreadExample | main.go:189-200 | For {a: 0, b: 5, c: -3} visited in that order, both the loop and the corrected scan report highest 5 in b and lowest -3 in c. |
| Stats.ScanFixed | main.go:189-200 | The corrected scan starts from the first pair and replaces only on a strictly greater or smaller grade. It reports the highest and the lowest grade, each with the first subject attaining it. It returns `None` only for an empty map. |
| Stats.ScanAgreesWhenNoZero | main.go:189-200 | When no grade is 0, the loop as written computes exactly the corrected extremes. |
| Stats.ScanWithoutZeroFindsExtremes | main.go:192-199 | When no grade is 0, the loop reports the highest and the lowest grade, each with the first subject (in visiting order) attaining it. |
| Stats.TotalPermutation | main.go:190 | Over real arithmetic, the sum does not depend on the order in which the grades are added. |
| Stats.ListingsPermute | main.go:189-191 | Any two iteration orders of one grades map collect the same multiset of grades. |
| Stats.Median | main.go:214-225 | The median of no grades is 0. Otherwise it lies between two of the grades. |
| Stats.MedianOfSortedCopy | main.go:219-224 | For a non-empty set, the median is read off any sorted permutation of the grades: the middle element for an odd count, the mean of the two central elements for an even count. |
| Stats.MedianPermutation | main.go:219 | The median does not depend on the order of the grades. |
| Stats.MedianOfOddExample | main.go:221-222 | The median of 1, 2, 3 is 2. |
| Stats.MedianOfEvenExample | main.go:224 | The median of 1, 2, 3, 4 is 2.5. |
| Stats.AvgReport | main.go:176-207 | An unknown name yields no report. Otherwise the average is present exactly when the student has grades, and it equals the sum over the count. The highest and lowest grades are those of the map, each with the first subject attaining it, and the median is exactly the median of the grades (`calculateMedian`). A student without grades gets the zero extremes and median 0. |
| Stats.ReportOrderIndependent | main.go:189-206 | Over real arithmetic, any two iteration orders of the map give the same average and median, and the same highest and lowest grade from the corrected scan. |
| Stats.ReportSubjectsAgree | main.go:189-206 | When only one subject carries the highest grade, every iteration order names that subject with it. The same holds for the lowest grade. |
| Stats.ExtremesAgree | main.go:189-200 | Two iteration orders of one map give the corrected scan the same highest and lowest grade. |
| Stats.WrittenExtremesAgree | main.go:189-200 | When no grade is 0, the loop as written reports the same highest and lowest grade for any two iteration orders of one map. |
| Sorting.Sort | main.go:219 | The sort's result is ascending and a permutation of its input. |
| Sorting.SortedUnique | main.go:219 | Two ascending sequences with the same elements are equal. So the sorted grades, and with them the median, are fixed by the grades alone. |

## Left out

- The menu loop and option dispatch (main.go:20-57): console I/O only. Each flow is modelled as a function of the store and its input.
- Prompts and messages (`fmt.Print*` throughout): output only.
- viewAllStudents (main.go:93-101) and the printing part of searchStudent (main.go:114-117): they only print. The lookup they rely on is `Records.Lookup`.
- `strings.TrimSpace` and `strconv.ParseFloat`: the input entries are taken as already trimmed and parsed. A failed parse is `None`. The exact set of strings ParseFloat accepts is not modelled.
- saveGradesToJson (main.go:229-240): JSON encoding and the file write are I/O. Only the decision to save is modelled, as the `saved` flag.
- Grades are `real`, not IEEE-754 `float64`: rounding, infinities and NaN grades are not modelled.
- Stats.ReportOrderIndependent: the equal average holds over real arithmetic only. main.go:190 adds `float64` grades in Go's unspecified map order, and rounding makes the sum depend on that order. In IEEE-754 doubles, 0.1 + 0.2 + 0.3 is 0.6000000000000001 but 0.3 + 0.2 + 0.1 is 0.6. So the average the program prints can differ between runs for the same grades. The extremes the program prints can also depend on the order when a grade is 0, because of the loop at main.go:192-199. For {math: 0, sci: 50}, the printed lowest grade is 50 in sci when math comes first, and 0 in math when sci comes first. `Stats.ZeroSentinelCounterexample` proves such a dependence for {a: 0, b: -5}.
- Stats.AvgReport: a student without grades gets `average == None` where Go prints NaN (0/0).
- Stats.AvgReport: the report does not model the printing format (`%.2f`).
- Stats.AvgReport: it reports the extremes of the corrected scan, not those of the loop at main.go:192-199. The loop as written is `Stats.Scan` (see Findings).
- `sort.Float64s` is modelled by its result, an ascending permutation, and not by its algorithm.
- The in-place aliasing of a student's grades map between the local copy and the store entry (main.go:127, 148-149) is modelled with value semantics. That is exact here, because no two records share a grades map.
- Loading a saved store at start-up does not exist in main.go, so the store starts empty and there is nothing to model.

## Findings

| source | as written | input that shows it | evidently intended | confidence | as-written member | corrected member |
|---|---|---|---|---|---|---|
| main.go:192-199 | A running highest or lowest equal to 0 counts as "not yet set", so the next grade replaces it whatever its value. | The grades {a: 0, b: -5}, visited a then b, report highest -5 in b. The true highest is 0 in a. | Seed both extremes from the first grade, then replace only on a strictly greater or smaller grade. | high; not executed | Stats.ZeroSentinelCounterexample | Stats.ScanFixed |

`Stats.Scan` is the loop as written. `Stats.ScanAgreesWhenNoZero` shows that
the loop and `Stats.ScanFixed` agree whenever no grade is 0. `Stats.AvgReport`
reports the extremes of `Stats.ScanFixed`. Because of the sentinel, the loop
as written can print different extremes for different iteration orders of
the same map; `Stats.ZeroSentinelCounterexample` exhibits this.
