# Klasseneinteilung: verified model of the assignment post-processing

Klasseneinteilung splits a school year into classes. A roster of students is read from a spreadsheet. A search (simulated annealing, in a separate module) proposes a partition into classes. The web backend around the search then:

- recognises the spreadsheet's columns;
- checks the cell values;
- writes wishes and separations into numbered columns;
- collapses the separation constraints for the search;
- repairs separations the search left violated;
- rewards classmates from the same catchment area ("Sprengel");
- reports search progress;
- rates each partition with traffic lights ("Ampel");
- checks partitions edited by hand.

This project models that backend core in Dafny and proves what it promises.

| file | module | models |
|---|---|---|
| `wrappers.dfy` | `Wrappers` | `Option` and `Result` |
| `text.dfy` | `Text` | Python's `str.strip()` and `str.lower()` |
| `students.dfy` | `Students` | the roster (`map<int, Student>`) and the partition (`seq<seq<int>>`), reading id cells, the placement map |
| `separation.dfy` | `Separation` | separation pairs, one partner per student for the search, the repair `_erzwinge_trennungen`, the check of a partition submitted by hand |
| `quality.dfy` | `Quality` | `_ampel`, class names A, B, …, Z, AA, …, and the per-class and overall assessment `pruefe_einteilung` |
| `catchment.dfy` | `Catchment` | the catchment bonus `_sprengel_bonus` and the evaluation counter of `bewertung_mit_fortschritt` (class `ProgressTracker`) |
| `column_mapping.dfy` | `ColumnMapping` | `_normalisiere`, header matching, extraction of old wishes, the value checker, `wuensche_einfuegen` |

## How the program is represented

- **Roster and cells.** A roster maps a student id to the student's row. Wish and separation cells are already-parsed optional integers, in column order; an empty cell reads as 0. The score cell is `Missing`, `NonNumeric(text)` or `Numeric(value)`.
- **Python set order.** Where the program iterates over a Python `set` (the separation pairs), the methods pick the next element with `:|`. Every contract therefore holds for every iteration order.
- **Loops become methods.** Each loop of the source is a method proved against a specification function, for example:
  - `AssignTargets` against `AssignUpTo`;
  - `InsertWishes` against `Inserted`;
  - `CollectSeparationPairs` against `SeparationPairs`.

  Lemmas then prove the promised properties of those functions.
- **Repair runs.** The repair method also returns the ghost sequence of intermediate partitions. `IsRepairRun` states what each logged move did.
- **The evaluation callback** is a class. It keeps the closure cells (counter, last score, best score) as fields, and the reports handed to the callback as a sequence.
- **Reals for decimals.** Scores and percentages are reals, not rounded.

Points a reader of the code may not expect:

- **Fallback moves.** The repair logs a fallback move like any other move and returns no list of pairs still violated. `RepairSeparations` states exactly what the code does: with fewer than 100 log entries nothing is violated, and with 100 entries nothing is promised.
- **Two readings of separations.**
  - The assessment counts every positive separation cell, per direction and including a student naming themself.
  - The repair uses the unordered pairs, which exclude self-references and unknown ids.
  - So a self-reference turns the separation light red even though the repair has nothing to move.
- **One partner per student.** The search sees only one separation partner per student (`PrepareForSearch`). The repair and the assessment see all pairs.

## Model

| member | source | states |
|---|---|---|
| Text.Trim | backend/spaltenmapping.py:110 | `strip()` leaves no whitespace (as `str.isspace` defines it) at either end and never lengthens the string |
| Text.TrimStrips | backend/spaltenmapping.py:110 | `strip()` cuts only whitespace, and only from the two ends: the result is a contiguous slice of the input with nothing but whitespace before and after it |
| Text.TrimChars | backend/spaltenmapping.py:110 | stripping only removes characters: every character of the result occurs in the input |
| Text.LowerChar | backend/spaltenmapping.py:110 | `lower()` of one character leaves no upper-case letter, fixes every other character, and keeps whitespace as whitespace |
| ColumnMapping.FoldAppend | backend/spaltenmapping.py:111 | the replacements act character by character: folding a concatenation is the concatenation of the folded parts, so any name's folded form follows from the four single-character rules |
| ColumnMapping.FoldNoUmlauts | backend/spaltenmapping.py:111 | after replacing ä, ö, ü, ß by ae, oe, ue, ss none of them is left |
| ColumnMapping.FoldIdentity | backend/spaltenmapping.py:111 | the replacement changes nothing in a string without ä, ö, ü, ß |
| ColumnMapping.Normalize | backend/spaltenmapping.py:108-112 | the normalised name has no upper-case letter, no umlaut or ß, and no whitespace at either end |
| ColumnMapping.NormalizeFixes | backend/spaltenmapping.py:108-112 | a name that is already lower-case, free of umlauts and ß, and stripped is its own normal form |
| ColumnMapping.NormalizeSpellsOut | backend/spaltenmapping.py:108-112 | `" Größe"` normalises to `"groesse"`: lower-cased, stripped and with `ö` and `ß` spelled out |
| ColumnMapping.NormalizeIdempotent | backend/spaltenmapping.py:108-112 | normalising twice gives the same name as normalising once |
| ColumnMapping.TargetNamesDistinct | backend/spaltenmapping.py:20-101 | the 14 expected column names (5 required, 9 optional) are pairwise distinct |
| ColumnMapping.PutKeys | backend/spaltenmapping.py:173 | after storing a key in the dict, the keys are the old keys plus that key |
| ColumnMapping.PutDistinct | backend/spaltenmapping.py:173 | storing a key keeps every key present once (a later column with the same normalised name replaces the earlier one) |
| ColumnMapping.PutEntries | backend/spaltenmapping.py:173 | every entry after storing is the new one or an old one |
| ColumnMapping.Index | backend/spaltenmapping.py:173 | the dict comprehension has distinct keys, every entry pairs a column with its own key, and every column's key is present |
| ColumnMapping.PutOrder | backend/spaltenmapping.py:173 | storing under a present key keeps the key order; a new key goes last |
| ColumnMapping.IndexOrder | backend/spaltenmapping.py:173 | the dict's keys are the columns' keys in the order of their first occurrence |
| ColumnMapping.PutKeeps | backend/spaltenmapping.py:173 | after storing, the dict holds the new entry and every old entry under another key |
| ColumnMapping.IndexKeepsLast | backend/spaltenmapping.py:173 | when columns share a key, the dict holds the last of them: a column whose key does not occur later is the value of its key |
| ColumnMapping.NormTableEntries | backend/spaltenmapping.py:173 | `norm_gefunden` maps each normalised header to an original header whose normalised form it is, and holds every header's normalised form |
| ColumnMapping.AliasMatchSpec | backend/spaltenmapping.py:133-137 | the alias step finds a header iff some alias's normalised form is a header's key that is not yet assigned; a found header carries such a key |
| ColumnMapping.AliasMatchFirst | backend/spaltenmapping.py:133-137 | a found header belongs to the first alias in list order whose key is a free header key |
| ColumnMapping.SubstringMatch | backend/spaltenmapping.py:139-148 | the substring step returns the first free header whose key contains, or is contained in, the target name or an alias of normalised length at least 3; none iff no free header qualifies |
| ColumnMapping.FindBestMatch | backend/spaltenmapping.py:115-150 | a free exact match wins with `sicher`; without one, a `sicher` result is the header of the first alias (in list order) whose key is free; a `vorschlag` is the first free header in dict order whose key contains, or is contained in, the normalised name or an alias of at least three characters; the result is `sicher` iff a free exact or alias match exists; nothing is found iff no exact, alias or substring match is free; a found header is never already assigned |
| ColumnMapping.HitIsFreeColumn | backend/spaltenmapping.py:180-186 | a header found for a target is one of the sheet's headers and its normalised name is not yet assigned |
| ColumnMapping.AssignStepKeeps | backend/spaltenmapping.py:179-190 | one turn of the target loop keeps the mapping invariant and keeps `zugeordnet` equal to the set of chosen normalised names |
| ColumnMapping.AssignInvariant | backend/spaltenmapping.py:173-190 | after any number of targets: only targets have entries, `nicht_gefunden` only for required ones, every required target has an entry, chosen headers exist and are pairwise distinct once normalised |
| ColumnMapping.AssignTargets | backend/spaltenmapping.py:173-190 | the loop computes the mapping and assigned set that searching the targets in order defines |
| ColumnMapping.AllRequiredSure | backend/spaltenmapping.py:192-196 | `alle_pflicht_sicher` holds iff every required target was found with confidence `sicher` |
| ColumnMapping.Unassigned | backend/spaltenmapping.py:198 | a header is listed iff it is a header of the sheet whose normalised name was not assigned |
| ColumnMapping.CollectUnassigned | backend/spaltenmapping.py:198 | the list comprehension computes exactly those headers, in input order |
| ColumnMapping.FindColumnMapping | backend/spaltenmapping.py:157-205 | the result holds the searched mapping with its invariant, all headers, the unassigned headers and the all-required-sure flag, each as specified above |
| Students.ValidRefs | backend/spaltenmapping.py:278-287 | the kept ids are positive roster ids other than the student, no more than there are cells |
| Students.ValidRefsMembers | backend/spaltenmapping.py:278-287 | an id is kept iff some cell holds it and it is positive, in the roster and not the student |
| Students.CollectRefs | backend/api/routes.py:262-273 | the cell loop of the student list keeps exactly the valid references, in column order |
| ColumnMapping.ExtractExisting | backend/spaltenmapping.py:264-295 | one entry per roster student, each holding exactly that student's valid wish and separation references in column order |
| ColumnMapping.GenderHint | backend/spaltenmapping.py:321-330 | a gender is flagged iff its stripped text is non-empty and not `m` or `w`; the hint carries that text |
| ColumnMapping.Truncate | backend/spaltenmapping.py:344 | `int()` of a real truncates toward zero |
| ColumnMapping.ScoreHint | backend/spaltenmapping.py:332-355 | a missing score is never flagged; a non-numeric score is always flagged with its text; a numeric one is flagged only with its truncated value, and only when that is neither 0 nor in {1, 2, 3, 5, 8, 13} |
| ColumnMapping.ScoreHintIffRejected | backend/spaltenmapping.py:332-355 | a score is flagged iff it is present and non-numeric, or numeric with a truncation outside {0, 1, 2, 3, 5, 8, 13} |
| ColumnMapping.MigrationHint | backend/spaltenmapping.py:357-369 | a migration value is flagged iff it is present and its stripped text is non-empty and not `Ja` or `Nein` |
| ColumnMapping.HintsFor | backend/spaltenmapping.py:316-369 | a row's hints are exactly its gender, score and migration hints, at most three, all naming the student |
| ColumnMapping.HintsForDistinct | backend/spaltenmapping.py:316-369 | a row's hints are pairwise different |
| ColumnMapping.NoHintsIffAccepted | backend/spaltenmapping.py:316-369 | a row gets no hint iff each of its three values is missing, blank or allowed |
| ColumnMapping.TemplateValuesPass | backend/vorlage.py:21-23 | a row filled only with the template's allowed values gets no hint |
| ColumnMapping.ValidateRoster | backend/spaltenmapping.py:298-371 | the hints are exactly the hints of the rows of the roster, and no hint occurs twice |
| ColumnMapping.ColumnCount | backend/spaltenmapping.py:387-395 | the number of new columns is the larger of 1 and the longest list: at least both, and equal to 1 or to some list's length |
| ColumnMapping.Overlay | backend/spaltenmapping.py:408-413 | the i-th listed id lands in the i-th cell; the cells after the list keep their value |
| ColumnMapping.OverlayCells | backend/spaltenmapping.py:408-413 | writing the cells one at a time gives that overlay |
| ColumnMapping.Written | backend/spaltenmapping.py:404-413 | writing the entries one after another keeps the roster's ids and every row's column widths |
| ColumnMapping.InsertWishes | backend/spaltenmapping.py:374-415 | the loop drops the old columns, creates the new ones filled with 0 and writes every entry, exactly as `Inserted` defines |
| ColumnMapping.WrittenRows | backend/spaltenmapping.py:404-413 | with one entry per student, a listed student's row holds its ids padded with 0, and an unlisted one keeps its row |
| ColumnMapping.InsertedRow | backend/spaltenmapping.py:382-413 | after insertion a listed student's cells are its ids padded with 0 to the common width, and an unlisted student's cells are all 0 |
| ColumnMapping.ReadBack | backend/spaltenmapping.py:374-415 | with at most nine ids per list, reading an inserted roster back yields each listed student's entry, and empty lists for every other student |
| ColumnMapping.RoundTripRow | backend/spaltenmapping.py:264-415 | extracting, inserting and extracting again gives each student the same entry as before |
| ColumnMapping.RoundTrip | backend/spaltenmapping.py:264-415 | insertion of an extraction keeps the roster's ids and every student's wishes and separations |
| Students.ValidRefsOfPadded | backend/spaltenmapping.py:398-413 | the valid references of ids padded with 0 are those ids |
| Students.AssignmentDomain | backend/api/routes.py:167-172 | an id has a class in the placement map iff it is placed somewhere |
| Students.AssignmentLast | backend/api/routes.py:167-172 | the placement map records the last class holding the id |
| Students.BuildAssignment | backend/api/routes.py:167-172 | `baue_zuordnung` computes the placement map |
| Separation.SeparationPairsExact | backend/api/routes.py:98-110 | {lo, hi} is a separation pair iff lo < hi and one of the two validly names the other in a separation cell |
| Separation.SeparationPairsWellFormed | backend/api/routes.py:98-110 | every pair consists of two distinct roster ids |
| Separation.CollectSeparationPairs | backend/api/routes.py:98-110 | the loop over rows and cells collects exactly the separation pairs |
| Separation.ConsolidatePartners | backend/api/routes.py:125-132 | exactly the students in some pair get a partner, and each partner is drawn from one of that student's pairs |
| Separation.SingleCellPairsBound | backend/api/routes.py:134-140 | a roster with at most one separation cell per student has at most as many pairs as students |
| Separation.WithPartnersPairs | backend/api/routes.py:134-140 | collapsing to one partner only drops pairs and leaves at most one per student |
| Separation.PrepareForSearch | backend/api/routes.py:113-142 | each row keeps everything but its separations, which become a single cell holding a partner from its pairs, or 0 when it has none; no new pair appears |
| Separation.RemoveFirst | backend/api/routes.py:235 | `list.remove` drops exactly one occurrence |
| Separation.ConsRemovedAt | backend/api/routes.py:235 | an element other than the removed one put in front shifts the place of removal by one |
| Separation.RemoveFirstAt | backend/api/routes.py:235 | `list.remove` takes out the first occurrence and keeps the other elements in order |
| Separation.MovePreserves | backend/api/routes.py:234-236 | moving one id from one class to another keeps the class count and the multiset of placed ids |
| Separation.CountConflicts | backend/api/routes.py:207-212 | counts the pairs of the student whose partner is in the target class |
| Separation.CollectViolated | backend/api/routes.py:180-185 | collects exactly the pairs whose members are both placed in one class |
| Separation.ScanTargets | backend/api/routes.py:201-222 | after scanning a student's targets, the best so far is a smallest conflict-free class, first in scan order |
| Separation.SmallestOther | backend/api/routes.py:227-230 | the fallback class is the first smallest class other than the source |
| Separation.ScanComplete | backend/api/routes.py:197-224 | the scan finds nothing iff no class is conflict-free for a or b, and otherwise a best candidate |
| Separation.ScanMove | backend/api/routes.py:190-236 | the chosen move is a repair move as specified: candidate first, `b` to the smallest other class as fallback |
| Separation.RepairMovePreserves | backend/api/routes.py:190-249 | a repair move logs two different 1-based classes in range and keeps the class count and the placed ids |
| Separation.RepairPass | backend/api/routes.py:177-249 | a pass settles iff no pair is violated, is stuck iff a pair is violated with fewer than two classes, and otherwise makes one repair move |
| Separation.RunFacts | backend/api/routes.py:174-249 | a run of repair moves keeps the class count and placed ids, and every logged class number is in range and differs from its partner |
| Separation.RepairSeparations | backend/api/routes.py:145-251 | without pairs the input comes back with an empty log; it fails iff the partition has exactly one class and some pair is violated; otherwise class count and placed ids are kept, the log has at most 100 moves, each a repair move, and fewer than 100 moves means no pair is violated |
| Separation.FindBadId | backend/api/routes.py:602-609 | reports the first id in class order that is unknown or repeated, and nothing iff all ids are known and distinct |
| Separation.RosterPartitionCovers | backend/api/routes.py:602-615 | an accepted partition places exactly the roster's ids |
| Separation.RosterPartitionAssigns | backend/api/routes.py:620-623 | in an accepted partition every roster id has the one class that holds it |
| Separation.CollectReport | backend/api/routes.py:625-635 | the reported violations are exactly the pairs placed in one class, with that class's 1-based number |
| Separation.CheckManualPartition | backend/api/routes.py:601-635 | accepted iff every id is known, none repeats and the count matches the roster; each refusal names its reason; on acceptance the violations are listed |
| Quality.AmpelBands | backend/pruefungen/qualitaet.py:33-46 | lower-is-better: green iff value ≤ green, orange iff green < value ≤ orange, red otherwise; higher-is-better mirrored with ≥ |
| Quality.SeparationViolationIsRed | backend/pruefungen/qualitaet.py:28 | with both bounds 0, the separation light is red iff some separation is violated |
| Quality.WorstOf | backend/pruefungen/qualitaet.py:271-277 | the overall light is at least as severe as every light, is green for no lights, and is one of them otherwise |
| Quality.WorstOfByMembership | backend/pruefungen/qualitaet.py:271-277 | the worst light is red if any is red, else orange if any is orange, else green |
| Quality.GreenOnlyIfAllGreen | backend/pruefungen/qualitaet.py:271-287 | the overall light is green iff every light is green |
| Quality.ViolationMakesRed | backend/pruefungen/qualitaet.py:265-287 | a class with a violated separation makes the overall light red |
| Quality.NumeralZero | backend/pruefungen/qualitaet.py:104-110 | a class name's bijective base-26 value is non-negative and 0 only for the empty name |
| Quality.NumeralInjective | backend/pruefungen/qualitaet.py:104-110 | two letter strings with the same base-26 value are equal |
| Quality.ClassNamesDistinct | backend/pruefungen/qualitaet.py:104-110 | two class names are equal iff their indices are |
| Quality.ClassName | backend/pruefungen/qualitaet.py:104-110 | the name of index i is non-empty, uses only A–Z, and has bijective base-26 value i + 1 |
| Quality.BuildClassMap | backend/pruefungen/qualitaet.py:113-120 | every placed student maps to the index of its (last) class and that class's name |
| Quality.CountsBounded | backend/pruefungen/qualitaet.py:163-187 | boys plus girls, and migration count, are at most the class size |
| Quality.CountClass | backend/pruefungen/qualitaet.py:163-187 | the class loop counts `m`, `w`, `Ja` and sums the scores (non-numeric as 0) |
| Quality.CollectWishCandidates | backend/pruefungen/qualitaet.py:212-217 | a student's wish set holds each cell value that is present, not 0 and not the student |
| Quality.TallyWishes | backend/pruefungen/qualitaet.py:219-243 | counts known wishes, fulfilled and missed, and lists one entry per missed wish |
| Quality.StudentWishes | backend/pruefungen/qualitaet.py:211-243 | per student: total, fulfilled and missed wishes (deduplicated, roster ids only), one missed entry per missed wish naming the wished student's class |
| Quality.WishesSplit | backend/pruefungen/qualitaet.py:224-228 | total wishes = fulfilled + missed |
| Quality.MissedCoverStep | backend/pruefungen/qualitaet.py:219-243 | the missed-wish list grows to cover each student's missed wishes |
| Quality.ClassWishes | backend/pruefungen/qualitaet.py:207-243 | class totals match the specification; the missed list has exactly as many entries as missed wishes and covers each one |
| Quality.SepHitsBounded | backend/pruefungen/qualitaet.py:256-263 | a student's violated separations are at most its separations |
| Quality.SepViolatedBounded | backend/pruefungen/qualitaet.py:253-263 | per class, violated separations ≤ total separations |
| Quality.SepHitsPositive | backend/pruefungen/qualitaet.py:260-263 | one separation cell naming a classmate makes the violated count positive |
| Quality.ClassSeparations | backend/pruefungen/qualitaet.py:252-263 | the loop counts every positive separation cell and those naming a classmate |
| Quality.RosterCounts | backend/pruefungen/qualitaet.py:142-146 | the whole-roster counts of boys and of `Ja` |
| Quality.RosterScore | backend/pruefungen/qualitaet.py:143 | the score sum over the whole roster, non-numeric as 0 |
| Quality.ComputeTotals | backend/pruefungen/qualitaet.py:134-147 | the year-wide ideal score, ideal boys, ideal size and migration share |
| Quality.WishQuote | backend/pruefungen/qualitaet.py:245-247 | the wish quote lies in [0, 100], is 100 when every wish is fulfilled and 100 when there are none |
| Quality.AssessClass | backend/pruefungen/qualitaet.py:155-269 | a class report holds the name, the counts, the deviations, the six lights and the missed-wish list as specified |
| Quality.ClassReports | backend/pruefungen/qualitaet.py:152-269 | one specified report per class, in class order |
| Quality.MaxDeviation | backend/pruefungen/qualitaet.py:281 | the largest distance of a class size from the ideal size, attained by some class |
| Quality.DeviationUnique | backend/pruefungen/qualitaet.py:281 | any bound that is attained and dominates all distances is that maximum |
| Quality.SizeFigures | backend/pruefungen/qualitaet.py:280-296 | the smallest size, the largest size and the maximum deviation |
| Quality.OverallRating | backend/pruefungen/qualitaet.py:271-287 | the overall light is the worst of all class lights and the size light |
| Quality.SummaryWishesBounded | backend/pruefungen/qualitaet.py:290-291 | the summary's fulfilled wishes never exceed its total wishes |
| Quality.AssessPartition | backend/pruefungen/qualitaet.py:123-309 | per-class reports as specified, overall light the worst of all lights, summary sums equal to the per-class sums, min/max size, size light from the maximum deviation |
| Catchment.Code | backend/optimierung_wrapper.py:44-51 | a missing cell or one that is blank after stripping has no code; any other cell's code is the stripped cell |
| Catchment.PartneredInAppend | backend/optimierung_wrapper.py:60-62 | the count of partnered positions adds up over concatenation |
| Catchment.PartneredInPermutation | backend/optimierung_wrapper.py:57-62 | the count depends only on the multiset of codes |
| Catchment.NoPartnersIffDistinct | backend/optimierung_wrapper.py:57-62 | a class earns nothing iff its codes are pairwise different |
| Catchment.AllSharePartnered | backend/optimierung_wrapper.py:57-62 | if all of at least two codes agree, every student earns the bonus |
| Catchment.ClassOrderIrrelevant | backend/optimierung_wrapper.py:41-62 | reordering the students of a class does not change its bonus |
| Catchment.ClassOrderOfPartition | backend/optimierung_wrapper.py:41-62 | listing the classes in another order does not change the bonus |
| Catchment.TotalPartneredBounded | backend/optimierung_wrapper.py:41-62 | no more students earn the bonus than are placed |
| Catchment.BonusBounds | backend/optimierung_wrapper.py:36-62 | no column gives 0; with non-negative points, 0 ≤ bonus ≤ points × placed students |
| Catchment.NoCodesNoBonus | backend/optimierung_wrapper.py:41-62 | with no catchment code in the roster the bonus is 0 |
| Catchment.ScaledIsProduct | backend/optimierung_wrapper.py:60-62 | adding the points once per partnered student is points × that number |
| Catchment.CollectCodes | backend/optimierung_wrapper.py:44-51 | the codes of a class, in class order, skipping students without one |
| Catchment.CodesBonus | backend/optimierung_wrapper.py:53-62 | the points once per student whose code occurs at least twice in the class |
| Catchment.ClassBonus | backend/optimierung_wrapper.py:41-62 | one class's contribution |
| Catchment.CatchmentBonus | backend/optimierung_wrapper.py:21-64 | `_sprengel_bonus` computes the specified bonus, 0 without the column |
| Catchment.ProgressCadence | backend/optimierung_wrapper.py:113-116 | reports fall exactly every 500 evaluations, never in between |
| Catchment.FirstProgress | backend/optimierung_wrapper.py:113-116 | the first report follows the 501st evaluation (the first one precedes the search loop) |
| Catchment.ProgressTracker.constructor | backend/optimierung_wrapper.py:93-99 | the tracker starts with no calls, no best score (minus infinity) and no reports, and knows whether any catchment value exists |
| Catchment.ProgressTracker.Evaluate | backend/optimierung_wrapper.py:101-118 | the score is base plus bonus when a catchment value exists, else base; the counter grows by one, the best score never decreases and stays the largest score so far, and a report (iteration `calls − 1`, score, best) is added iff a callback is set and `calls − 1` is a positive multiple of 500 |

## Left out

- Template generation (`backend/vorlage.py` apart from its three allowed-value lists), the launcher, path lookup, the FastAPI wiring, the HTTP endpoints, the global `_state`, uploads and the Excel export: these are I/O and web plumbing.
- `baue_dataframe` (`backend/spaltenmapping.py:208-253`): it reads a spreadsheet through pandas.
- `_safe_int` and `pd.to_numeric` coercion: cells arrive already parsed as optional integers, or as a score cell that is missing, non-numeric or numeric.
- The search itself is not part of this model: the annealing `optimiere_einteilung`, its base score `bewerte_einteilung` and the random initial partition. The base score is a parameter of `ProgressTracker.Evaluate`, and the points per student a parameter of the bonus.
- The monkey-patch and restore of `algorithmus.bewerte_einteilung`: it only installs the tracker around foreign code.
- The callback itself: the tracker records the reports it would receive instead of calling out.
- `round(…, 1)` and `round(…, 2)`. Percentages and deviations are exact reals, so a metric that sits on a threshold only after rounding may get a different light in the model.
- Human-readable texts are left out. These are:
  - the `name` and `grund` strings of repair log entries (the moved student's partner is kept);
  - the names in violation reports and missed-wish entries;
  - the `name` field and message text of validation hints.
- Unicode case mapping beyond Latin-1 and the capital sharp s: `Text.LowerChar` changes only A–Z, À–Þ (except ×) and ẞ. These are the upper-case letters a German header contains.
- Row order: the roster is a map keyed by id. Lists the program builds in DataFrame row order are stated per student rather than as ordered lists. These are the extraction, the validation hints and the student list.
- ColumnMapping.ExtractExisting: states the entry of each student, not the order of the entries (row order).
- ColumnMapping.ExtractExisting: reads the `Wunsch_i` and `Trennen_Von_i` columns in numeric order. The program sorts the column names as strings (`backend/spaltenmapping.py:272-273`), so from ten columns on `Wunsch_10` is read before `Wunsch_2` and the references come out in a different order.
- Students.CollectRefs: reads the columns in numeric order. The program sorts the column names as strings (`backend/api/routes.py:254-255`), so with ten or more columns the list order differs in the same way.
- ColumnMapping.ReadBack: requires at most nine wishes and nine separations per entry, for the same reason: beyond that the program reads the written columns back in string order of their names.
- ColumnMapping.RoundTripRow: requires at most nine wishes and nine separations per entry, the range where string order and numeric order of the column names agree.
- ColumnMapping.ValidateRoster: states which hints are produced, not their order (row order, then gender, score, migration).
- ColumnMapping.RoundTrip: requires at most nine wishes and nine separations per student. The program sorts the column names `Wunsch_i` and `Trennen_Von_i` as strings, so from ten columns on `Wunsch_10` is read before `Wunsch_2`. The model reads columns in numeric order.
- Separation.RepairSeparations: when a violated pair needs the fallback and there is only one class, `min` over an empty range raises. The model returns `Failure(NoOtherClass)` instead of raising.
- Quality.AssessPartition: requires at least one class, because the program divides by the number of classes and takes `max` over the class sizes. Every placed id must be in the roster, because `df.loc` raises for an unknown id.
- Floating-point arithmetic: scores, shares and points are mathematical reals.
