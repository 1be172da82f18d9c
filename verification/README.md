# Learner state and grading: a verified model

This project models the parts of the learning platform that compute grades and keep learner
state, and proves properties of them with Dafny 4.11. `dafny verify dfyconfig.toml` checks all of it.

| module file | models |
|---|---|
| DropLowest.dfy, Graders.dfy | the course grader: dropping the lowest scores of an assignment type, weighted sums, the breakdown |
| ProblemState.dfy, ProblemRuns.dfy, ProblemRules.dfy, SavedAnswers.dfy, Rescoring.dfy, ProblemBlock.dfy | the problem block: submit, save, reset, rescore, score delivery, input requests, show answer and reload, on the block's fields and the LoncapaProblem object that duplicates them |
| Responses.dfy | turning a submitted form into answers |
| Report.dfy | the problem report generator with its limit |
| ModuleStore.dfy, LibraryImport.dfy, LibraryMirror.dfy, LibraryCollisions.dfy, LibraryReimport.dfy, LibrarySafety.dfy, LibraryTools.dfy | importing library blocks, recursively, into a course's block store |
| Traversal.dfy | the two worklist loops that flatten a tree of blocks |
| Bisection.dfy | the search for the fewest tests that reproduce an order-dependent failure |
| Selection.dfy | the random selection of library children per learner, and its events |
| Poll.dfy | the poll's shared counts and the learners' votes |
| Durations.dfy | the Timedelta and RelativeTime fields |
| Progress.dfy | progress fractions and their folding over nested sequences |
| Options.dfy, Collections.dfy | optional values, and facts about sequences and sets that several parts use |

How the model is set up:

- Objects the source updates in place are classes (LoncapaProblem, ProblemBlock, PollBlock,
  LibraryContentBlock, ModuleStore, LibraryTools). Each method is proved to take the object's value
  as a step function or a relation says, and the laws are proved about those.
- The clock, random draws, shuffles, the grading of answers, the SHA-1 digest, asset rewriting and
  JSON decoding are parameters or arbitrary choices, so every result holds for all of them.
- What a step function or a relation means is in turn proved in terms of the fields and the
  settings alone (the laws in ProblemRules.dfy, `SectionIsAverage`, `FieldsTaken` and `IsCopy`,
  `FormRoundTrip`, `LearnersRows`, `ReadsUnits`), or ensured so by the method itself.
- Python floats of grades and progress are `real`; times are whole microseconds.
- A problem run is any sequence of handler calls with a clock that does not go backwards; a
  `NewRequest` event rebuilds block and LoncapaProblem from the persisted fields.

Where the code differs from what its documentation or names suggest, the model follows the code:

- `submit_problem` makes the LoncapaProblem forget `has_saved_answers` before any check, so after a
  rejected submission the stored flag no longer has to say whether answers were saved since the last
  submission. The next event loses a set flag iff it writes back and is not a save
  (`RejectedSubmitForgetsSaving`), and over every run the flag is right except exactly when such a
  write-back came before a reload and no input was accepted since (`SavedFlagOverRuns`; a run that
  loses it: `SavedFlagCanBeLost`).
- `rescore` promises to update answer and grade only if the score is higher when asked to, but does
  not look at that argument: it only publishes it. A full score can be replaced by none
  (`OnlyIfHigherBroken`); `OnlyIfHigherKept` says exactly when the promise holds all the same, and
  for a full score it holds only if the problem cannot be rescored (`OnlyIfHigherKeptForFullScore`).
  What the argument does protect is the grade recorded by the receiver of the event
  (`RecordedIsHighest`). The block's score is set by that receiver, not by `rescore`
  (`ScoreStaysInStep`, `ReceiverStoresScore`), so it is out of step with the stored grading exactly
  after a rescoring the receiver refused (`ScoreOverRuns`, `ScoreCanBeStale`).
- A forced save button is shown although saving needs a reset first (`SaveButtonHonest`,
  `ForcedSaveButton`).
- After a reload an unanswered problem may show initial answers that the block does not store
  (`LoadCouples`).
- An overridden submission time is checked against the throttle but not recorded
  (`ThrottleNeedsHonestClock`), and stored dates keep whole seconds only, so the throttle holds to
  the second (`GradedTimesApart`).
- Duplicate categories overwrite each other in `grade_breakdown` (`BreakdownAddsUp` gives the exact
  condition under which the breakdown still adds up).
- `RelativeTime` promises 23:59:59 as its maximum, but its parser takes 60 and 61 seconds: exactly
  two texts, 23:59:60 and 23:59:61, exceed the maximum (`BeyondMaximum`), and one day is printed in
  words (`OneDay`).
- `Timedelta.to_json` asks for hours and minutes, which a timedelta does not have
  (`TimedeltaReadsBack`).
- Resetting the selected children publishes no event that they are gone, so afterwards the published
  events need not rebuild the selection: whatever is drawn they do, exactly if nothing was shown, or
  everything shown is still valid and the library has no more valid blocks than the count
  (`ResetRebuilds`).

## Model

| member | source | states |
|---|---|---|
| DropLowest.SortSorts | xmodule/graders.py:357 | the sorted list of assignments is ordered by descending percentage, stable, and holds exactly the enumerated percentages |
| DropLowest.TotalWithDrops | xmodule/graders.py:352-371 | the loop over the assignments returns the average of the highest percentages and the indices of the lowest |
| DropLowest.DroppedAreLowest | xmodule/graders.py:360-362 | exactly min(drop_count, n) different assignments are dropped (none for a count that is not positive), each no better than every kept one, ties dropped from the end |
| DropLowest.DroppedKeepsTop | xmodule/graders.py:363-366 | the sum left after dropping is the sum of the highest percentages |
| DropLowest.DropIsOptimal | xmodule/graders.py:352-371 | no other set of as many assignments leaves a higher sum |
| DropLowest.OrderIndependent | xmodule/graders.py:352-371 | the section percentage depends only on the multiset of percentages |
| DropLowest.SectionMonotone | xmodule/graders.py:352-371 | raising percentages never lowers the section, even when other assignments get dropped |
| DropLowest.OneMoreDrop | xmodule/graders.py:356-371 | one more drop never lowers the section, exactly unless it is the one that leaves nothing to count while some percentage is positive |
| DropLowest.SectionBounds | xmodule/graders.py:352-371 | percentages between 0 and 1 give a section between 0 and 1 |
| DropLowest.SectionIsAverage | xmodule/graders.py:368-371 | the section times the number of counted assignments is the sum of the percentages kept |
| DropLowest.NothingCounted | xmodule/graders.py:366-371 | when every assignment is dropped the section is zero |
| DropLowest.EqualPercents | xmodule/graders.py:352-371 | assignments of equal percentage give a section of that percentage |
| Graders.AssignmentFormatGrader.Pad | xmodule/graders.py:373-401 | the marks are the scores of the type followed by zeros up to min_count |
| Graders.AssignmentFormatGrader.Grade | xmodule/graders.py:373-447 | percent and displayed entries: one total for a single assignment, else the assignments with exactly the dropped ones marked, and the average, as the two display switches say |
| Graders.CourseGrade | xmodule/graders.py:267-293 | the weighted sum, every section's entries, and the ordered dictionary of contributions |
| Graders.ComputeSumOfWeights | xmodule/graders.py:260-265 | the loop returns the sum of the weights |
| Graders.CourseMonotone | xmodule/graders.py:267-293 | with weights that are not negative, raising scores or replacing unreleased placeholders never lowers the course grade |
| Graders.CourseBounds | xmodule/graders.py:253-255 | scores between 0 and 1 give a grade between 0 and the sum of the weights |
| Graders.EqualSections | xmodule/graders.py:267-293 | sections of equal percentage give that percentage of the sum of the weights |
| Graders.OnlySection | xmodule/graders.py:267-293 | when one section alone has points the grade is its percentage times its own weight |
| Graders.PerfectCourse | xmodule/graders.py:267-293 | full scores in every assignment give the sum of the weights, whatever is dropped |
| Graders.PutKeepsOrder | xmodule/graders.py:283-287 | assigning keeps the order of the categories, and a new category comes last |
| Graders.PutChangesTotal | xmodule/graders.py:283-287 | assigning a category replaces its contribution and touches no other |
| Graders.LastAssigned | xmodule/graders.py:283-287 | the breakdown of a category is the contribution of its last subgrader |
| Graders.OverwritingLoses | xmodule/graders.py:283 | on any contributions the breakdown adds up iff every overwritten one is zero |
| Graders.BreakdownAddsUp | xmodule/graders.py:225-227 | "all percents add up to the final percentage" holds on every sheet iff each category that occurs again later has weight zero |
| ProblemBlocks.LoncapaProblem.constructor | xmodule/capa/capa_problem.py:162-177 | the problem object starts in the given state |
| ProblemBlocks.LoncapaProblem.GradeAnswers | xmodule/capa/capa_problem.py:422-438 | answers are stored before grading and kept when grading fails; the correct map is replaced only on success |
| ProblemBlocks.ProblemBlock.constructor | xmodule/capa_block.py:776-797 | a request gets a seed and a score if there are none, and an lcp built from the fields |
| ProblemBlocks.ProblemBlock.SetStateFromLcp | xmodule/capa_block.py:867-876 | five fields are copied from the lcp, the others stay |
| ProblemBlocks.ProblemBlock.SubmitProblem | xmodule/capa_block.py:1701-1807 | which of the seven outcomes a submission has, and the whole new state for each |
| ProblemBlocks.ProblemBlock.SaveProblem | xmodule/capa_block.py:2018-2070 | when saving is accepted, and the whole new state |
| ProblemBlocks.ProblemBlock.ResetProblem | xmodule/capa_block.py:2072-2128 | when a reset is accepted, and that it leaves an unanswered, ungraded problem that is not done, with the initial display of its seed, and keeps attempts and last submission |
| ProblemBlocks.ProblemBlock.RescoreProblem | xmodule/capa_block.py:2132-2205 | when rescoring is accepted, the score and the only-if-higher flag it publishes, and the new state, which keeps the old score |
| ProblemBlocks.ProblemBlock.DeliverScore | xmodule/capa_block.py:1490-1507 | the delivered correct map is stored with its score |
| ProblemBlocks.ProblemBlock.HandleInputAjax | xmodule/capa_block.py:1509-1545 | an input's new state is stored, the score stays |
| ProblemBlocks.ProblemBlock.ShowAnswers | xmodule/capa_block.py:1547-1572 | answers are shown exactly when available, and then the lcp is written back |
| ProblemRuns.LoadCouples | xmodule/capa_block.py:784-797 | a loaded block is coupled to its lcp, and agrees with it on all shared fields iff it has answers or the problem shows none initially |
| ProblemRules.LoadKeepsFields | xmodule/capa_block.py:776-797 | a request keeps all persisted fields in block and lcp, and fills in a seed and a score only where there is none |
| ProblemRules.SeedsChosen | xmodule/capa_block.py:799-814 | seeds are below 1000: 1 without randomization, one of 20 per student, and else any |
| ProblemRules.StoringCutsTime | xmodule/fields.py:67-83 | a stored time is the whole second at or before it |
| ProblemRuns.StepCouples | xmodule/capa_block.py:854-876 | every handler keeps block and lcp coupled; one that gets past its checks leaves them in full agreement |
| ProblemRuns.RunCouples | xmodule/capa_block.py:854-876 | block and lcp are coupled in every reachable state |
| ProblemRules.SubmissionAccepted | xmodule/capa_block.py:1711-1757 | in terms of settings and fields, when a submission is graded, fails in grading, or is rejected for which of the five reasons |
| ProblemRules.OthersAccepted | xmodule/capa_block.py:2032-2053 | in the same terms, when saving and resetting are accepted |
| ProblemRules.ResetReopens | xmodule/capa_block.py:2108-2117 | right after an accepted reset only the waiting time can reject a well-formed submission |
| SavedAnswers.RejectedSubmitForgetsSaving | xmodule/capa_block.py:1713 | after a rejected submission the flag stored after any next event: if that writes back, set iff it is a save, else as before |
| SavedAnswers.SavedFlagOverRuns | xmodule/capa_block.py:306-307 | over every run the stored flag tells whether the last accepted input was a save, except exactly when a rejected submission and then, without a reload, a write-back other than an accepted input lost it |
| SavedAnswers.SavedFlagCanBeLost | xmodule/capa_block.py:1713 | a run that loses the flag: a save, a malformed submission, an input request |
| SavedAnswers.ReloadRoundTrip | xmodule/capa_block.py:784-797 | storing and loading a block that agrees with its lcp gives the same lcp iff there are answers to store or the problem shows none initially |
| SavedAnswers.EnteredAnswersSurvive | xmodule/capa_block.py:2055-2059 | answers saved or submitted are there after a reload, with the saved flag, the seed and, if graded, the grading; only a form without answers comes back as the initial display |
| ProblemRuns.SubmitButtonHonest | xmodule/capa_block.py:978-991 | the submit button is enabled iff a well-formed submission at that time is not rejected as closed or unreset |
| ProblemRules.AcceptedSaveHasButton | xmodule/capa_block.py:1014-1050 | exactly when an accepted save has no button shown |
| ProblemRuns.SaveButtonHonest | xmodule/capa_block.py:1014-1050 | a shown save button works iff it was not forced while a randomized problem waits for a reset |
| ProblemRuns.ForcedSaveButton | xmodule/capa_block.py:1022-1023 | a reachable state whose forced save button is shown while no form is accepted |
| ProblemRuns.ResetButtonHonest | xmodule/capa_block.py:993-1012 | a shown reset button works iff the problem is done and not a closed survey, and exactly when an accepted reset has no button shown |
| ProblemRuns.AttemptsCountGraded | xmodule/capa_block.py:1764-1766 | in every run attempts count exactly the graded submissions and never pass max_attempts |
| ProblemRuns.StepWhenClosed | xmodule/capa_block.py:1393-1402 | once closed no handler changes attempts, done or seed, and no submit or reset changes the block at all |
| ProblemRuns.ClosedIsFinal | xmodule/capa_block.py:1382-1402 | in every run a closed problem stays closed with the same attempts, done flag and seed |
| ProblemRuns.GradedTimesApart | xmodule/capa_block.py:1747-1757 | in every run consecutive graded submissions are recorded at least the waiting time apart: in stored seconds always, in microseconds unless the block was reloaded between them |
| ProblemRuns.FirstGradedWaits | xmodule/capa_block.py:1747-1757 | the first graded submission of a run keeps the same distance from the last one before it |
| ProblemRuns.ThrottleNeedsHonestClock | xmodule/capa_block.py:1720-1722 | with an overridden time the throttle holds in every coupled state iff the override is not in a later second than the recording |
| ProblemRuns.ResetBetweenGraded | xmodule/capa_block.py:1741-1745 | with "always" randomization an accepted reset lies between any two graded submissions of a run, and leaves a fresh problem, a seed below 1000, attempts and throttle |
| ProblemRuns.VisibleStaysVisible | xmodule/capa_block.py:1431-1475 | in the modes that do not depend on correctness an available answer stays available in every run |
| ProblemRuns.ResetCanHideAnswer | xmodule/capa_block.py:1447-1473 | in each of the four modes that do, a reset can hide it again |
| ProblemRules.SimpleModes | xmodule/capa_block.py:1431-1475 | when a learner sees the answer in the seven modes that depend on one thing and in none |
| ProblemRules.CombinedModes | xmodule/capa_block.py:1443-1475 | the other five modes are unions of those |
| ProblemRules.AnswersForStaff | xmodule/graders.py:486-503 | staff see answers in every mode but never, learners none while correctness is withheld |
| Rescoring.ScoreStaysInStep | xmodule/capa_block.py:2186-2189 | the stored score is that of the stored correct map after every handler, except exactly after a rescoring that changes it |
| Rescoring.OnlyIfHigherKept | xmodule/capa_block.py:2132-2142 | the promise to change the grading only for a higher score is kept iff the rescoring is refused, grades every answer as before, or scores higher; the flag makes no difference |
| Rescoring.OnlyIfHigherKeptForFullScore | xmodule/capa_block.py:2132-2142 | for a full score the promise holds for every grading iff the problem does not support rescoring or is not done |
| Rescoring.OnlyIfHigherBroken | xmodule/capa_block.py:2139-2140 | a rescoring only if higher that replaces a full score by none |
| Rescoring.ReceiverStoresScore | lms/djangoapps/grades/signals/handlers.py:142-172 | once the published grade is received the stored score is that of the new correct map, unless the receiver refuses it and the score changed |
| Rescoring.PlainGradeIsRecorded | lms/djangoapps/grades/signals/handlers.py:166-172 | a grade published without the flag is recorded, equal to the stored score of the stored correct map |
| Rescoring.ScoreOverRuns | lms/djangoapps/grades/signals/handlers.py:142-172 | over every run of handlers and the receiver of their grades the stored score is that of the stored correct map, except exactly while the last event that scored is a rescoring the receiver refused |
| Rescoring.ScoreCanBeStale | lms/djangoapps/grades/signals/handlers.py:148-164 | a run that ends so |
| Rescoring.RecordedIsHighest | lms/djangoapps/grades/signals/handlers.py:148-164 | grades published only if higher leave the highest of them and the one recorded before; one out of zero points stays |
| Responses.MakeDictOfResponses | xmodule/capa_block.py:1634-1680 | over every iteration order of the keys the result is the same: an error iff some key has no name, some {} value does not decode or two keys share a name, else the answers of all keys |
| Responses.AnswersOf | xmodule/capa_block.py:1645-1678 | every key's value is found under its stripped name, and nothing else is |
| Responses.FormRoundTrip | xmodule/capa_block.py:1634-1680 | plain, list and JSON fields sent under different keys are read back as entered, under their names, iff the names differ |
| Responses.NamelessKey | xmodule/capa_block.py:1645-1656 | a key without a part after its first underscore makes the form malformed |
| Responses.UndecodableValue | xmodule/capa_block.py:1663-1672 | so does a {} key whose last value does not decode |
| Report.ReportAnswers | xmodule/capa_block.py:722-748 | one learner's answers give the rows due, stop at the limit, and skip the rest after an error |
| Report.GenerateReportData | xmodule/capa_block.py:674-762 | the rows of all learners in order, up to the limit |
| Report.LearnersRows | xmodule/capa_block.py:700-752 | one learner gets a row for every answer that is no MathML version, in order, up to the first that cannot be described, and for that an error row |
| Report.LearnersWithoutAnswers | xmodule/capa_block.py:672-676 | no row without answers, one error row for a broken problem, nothing for the limit 0 |
| Report.LearnersFollow | xmodule/capa_block.py:697-762 | the full report of two lists of learners is that of the first, then that of the second |
| Report.LimitedRows | xmodule/capa_block.py:730-735 | the limit law from any count reached so far |
| Report.LimitIsPrefix | xmodule/capa_block.py:674-762 | a limited report is a prefix of the full one with at most limit answer rows, and exactly limit when it stops early |
| ModuleStores.ModuleStore.CreateChild | xmodule/library_tools.py:266-271 | a new block is appended to its parent's children |
| ModuleStores.ModuleStore.DeleteItem | xmodule/library_tools.py:230-232 | a child is deleted with exactly everything below it |
| ModuleStores.PruneMore | xmodule/library_tools.py:297-300 | deleting children one after the other deletes the union of their subtrees |
| LibraryService.LibraryTools.CopyFields | xmodule/library_tools.py:282-294 | authored fields set on the source or on the copy are taken over, others stay |
| LibraryImport.MergedTakesFields | xmodule/library_tools.py:282-294 | fields that are not authored stay, authored ones set on the source are its rewritten values, others already on the copy become the rewritten default, and there are no more |
| LibraryImport.KeysGenerated | xmodule/library_tools.py:242-251 | a generated key has the source type, and the first ten characters of the parent id and of the digest around a dash |
| LibraryService.LibraryTools.DeleteChildren | xmodule/library_tools.py:297-301 | all old children of an existing copy go, with their subtrees |
| LibraryService.LibraryTools.PlaceBlock | xmodule/library_tools.py:254-301 | the block is got or created, its fields taken over and its old children deleted |
| LibraryService.LibraryTools.ImportBlock | xmodule/library_tools.py:238-304 | for any source, also when it stops midway, only the block, what is below it and its place among the parent's children change; with pairwise different keys it fails iff a generated key exists elsewhere, else leaves the copy with the images of all descendants |
| LibraryService.LibraryTools.ImportKids | xmodule/library_tools.py:302-303 | for any children, also when one collides, only new blocks are added below the childless copy; with pairwise different keys it fails iff one of their keys exists, else leaves all images |
| LibraryService.LibraryTools.ImportFromBlockstore | xmodule/library_tools.py:193-236 | for any sources, whether it succeeds or not, the store stays a forest and nothing outside dest changes; a failed import deletes no child of dest, a successful one leaves exactly the generated keys as children; with pairwise different keys it succeeds iff the sources are clear of collisions in the store before, and then leaves the mirror, with a true copy of every source, else stops at the first that is not clear, with those before it installed and the later ones' subtrees as they were |
| LibrarySafety.BlockContained | xmodule/library_tools.py:266-304 | placing, clearing and importing the kids together stay within what importing the block may change |
| LibrarySafety.OutsideStep | xmodule/library_tools.py:223-226 | one more import, complete or not, leaves every block outside dest as it was before the first |
| LibraryMirror.ImportMirrors | xmodule/library_tools.py:193-236 | after the import dest's children are exactly the generated keys, exactly the generated blocks lie below it, installed as their sources say, and all other blocks are unchanged |
| LibraryCollisions.ImportSucceeds | xmodule/library_tools.py:254-265 | every import of the list succeeds iff each generated key that exists beforehand already belongs to the block it is generated for or is deleted before its turn |
| LibraryCollisions.StillThere | xmodule/library_tools.py:297-301 | midway through the imports an old block is still there iff it does not lie below a child of dest that was imported again |
| LibraryCollisions.ClearIsNoCollision | xmodule/library_tools.py:254-265 | whether a later source collides when its turn comes, said about the store before the first import |
| LibraryMirror.OnlyImagesBelow | xmodule/library_tools.py:296-303 | below an imported block lie only copies of its source's descendants |
| LibraryReimport.InstalledIsCopy | xmodule/library_tools.py:238-304 | an installed block has its source's type, fields and children in their order, at every depth, said of the source's own fields and children |
| LibraryReimport.MirrorCopiesAll | xmodule/library_tools.py:193-304 | after an import every source has its copy at every depth, with the fields of an existing child of dest as they were taken over |
| LibraryReimport.ReimportOne | xmodule/library_tools.py:238-304 | importing an installed source again changes nothing |
| LibraryReimport.ImportTwice | xmodule/library_tools.py:193-236 | a second import of the same sources succeeds and leaves the store as it is |
| LibraryReimport.DigestsGiveUniqueKeys | xmodule/library_tools.py:242-251 | different source keys get different generated keys when digests of blocks of one type differ in their first ten characters |
| Traversal.LocationsInSubtree | xmodule/seq_block.py:837-852 | the stack loop ends and lists the tree in preorder, children last to first, every block exactly once |
| Traversal.VisitOrder | xmodule/seq_block.py:837-852 | a block comes before what is below it, and the whole subtree of a later child before that of an earlier one |
| Traversal.VisitsOnce | xmodule/seq_block.py:837-852 | that order lists the same locations, with multiplicity, as a plain recursion |
| Traversal.Descendants | xmodule/library_tools.py:92-102 | the key loop ends and lists the proper descendants in the same order, up to the first deleted block |
| Traversal.StopsAtMissing | xmodule/library_tools.py:94-100 | exactly the keys before the first deleted block are listed |
| Traversal.DescendantsOnce | xmodule/library_tools.py:94-100 | without deleted blocks every key of a tree is listed exactly once |
| Bisection.FoundIffFails | scripts/find_order_dependent_test_failures.py:146-162 | a list is found iff there are at least two tests and they fail |
| Bisection.FoundIsFailingBlock | scripts/find_order_dependent_test_failures.py:164-178 | the found list was run and fails, and it and every list run is a contiguous block of the earlier tests plus the last test |
| Bisection.FoundCannotBeHalved | scripts/find_order_dependent_test_failures.py:167-178 | the found list has two tests, or neither of its halves fails |
| Bisection.RunsAreLogarithmic | scripts/find_order_dependent_test_failures.py:146-178 | at most 1 + 2*ceil(log2(n - 1)) runs, one if all pass, none below two tests |
| Bisection.CeilLog2IsLeast | scripts/find_order_dependent_test_failures.py:164 | the bound's logarithm is the least exponent of two that reaches its argument |
| Bisection.RoundsToEven | scripts/find_order_dependent_test_failures.py:164 | the split rounds to the nearest number, and to the even one of two |
| Bisection.FindsFirstCulprit | scripts/find_order_dependent_test_failures.py:146-178 | when failing means containing a culprit, exactly the first culprit and the last test are found |
| Bisection.DiagnosisIsOrderDependent | scripts/find_order_dependent_test_failures.py:43-75 | a list is reported iff the tests fail together and the last one alone does not, and then both hold of the reported list |
| Selection.MakeSelection | xmodule/library_content_block.py:197-258 | for every draw the selection is valid, of the exact size, keeps as many old members as fit, and is accounted for by the three change sets |
| Selection.EventsReplay | xmodule/library_content_block.py:305-326 | the events of a selection turn the old set into the new one |
| Selection.EventsTell | xmodule/library_content_block.py:273-326 | which events a selection has, in which order, with which keys, reasons and previous counts |
| Selection.HistoryReplays | xmodule/library_content_block.py:305-326 | over any history of libraries, counts and draws the published events rebuild the selection |
| Selection.SettledStays | xmodule/library_content_block.py:246-258 | a selection that is already right is returned as the same list without events, whatever is drawn |
| Selection.LibraryContentBlock.PublishSelectedChildrenEvents | xmodule/library_content_block.py:260-326 | which events are published, with which previous counts |
| Selection.LibraryContentBlock.SelectedChildren | xmodule/library_content_block.py:329-360 | as many of the children as max_count asks for are shown, all of them if it is negative, with as many old ones as fit; the list is stored and returned, its events replay, and the next call repeats it |
| Selection.LibraryContentBlock.ResetSelectedChildren | xmodule/library_content_block.py:362-381 | if allowed, the settled selection is published as usual, its blocks that can be are reset in order, and then it is cleared; else nothing happens |
| Selection.ResetRebuilds | xmodule/library_content_block.py:362-381 | after a reset the published events rebuild the selection for every draw iff nothing was shown, or all shown blocks are valid and all valid blocks fit the count; with an unchanged library iff the count is zero or all blocks fit |
| Poll.StepTallies | xmodule/poll_block.py:122-151 | every request keeps each count equal to the number of learners recorded for it |
| Poll.RunTallies | xmodule/poll_block.py:112-151 | over every interleaving of requests counts equal recorded voters, so they are between 0 and the number of voters |
| Poll.WithdrawUndoesVote | xmodule/poll_block.py:122-151 | withdrawing right after voting restores all counts and everybody's votes |
| Poll.PollBlock.Total | xmodule/poll_block.py:131 | the sum of all counts is the number of voters |
| Poll.PollBlock.HandleAjax | xmodule/poll_block.py:112-153 | a first vote is recorded and counted once, a permitted withdrawal removes exactly that vote, everything else changes nothing, nobody else is touched, and the reply with its total |
| Poll.PollBlock.DumpPoll | xmodule/poll_block.py:171-205 | missing answers are added with count 0, the rest stays, and counts are shown only to voters |
| Durations.TimedeltaToJson | xmodule/fields.py:124-133 | the loop over the four attribute names prints the positive days and seconds |
| Durations.TimedeltaFromJson | xmodule/fields.py:98-122 | the loop over the matched groups adds them up |
| Durations.ReadsUnits | xmodule/fields.py:98-122 | days, hours, minutes and seconds, each there or not, singular or plural, are read as their sum |
| Durations.TextWasUnits | xmodule/fields.py:91-122 | every text that is read consists of such parts in this order, with at most one white-space character between them, and is read as their sum |
| Durations.PrintsUnits | xmodule/fields.py:124-133 | a timedelta is printed as its positive days and seconds, in the plural |
| Durations.TimedeltaReadsBack | xmodule/fields.py:98-133 | what a printed timedelta reads back as |
| Durations.TimedeltaRoundTrip | xmodule/fields.py:98-133 | a timedelta reads back as itself iff it is not negative and has whole seconds |
| Durations.ParsesExactly | xmodule/fields.py:168-186 | a text is read iff it is empty or three numbers of one or two digits up to 23, 59 and 61, and then as that many seconds |
| Durations.BeyondMaximum | xmodule/fields.py:168-174 | the promised maximum of 23:59:59 is exceeded by exactly the texts 23:59:60 and 23:59:61 |
| Durations.OneDay | xmodule/fields.py:229-248 | exactly one day is printed as "1 day, 0:00:00", which does not read back |
| Durations.PrintingRaises | xmodule/fields.py:225-246 | printing raises iff the value is above 86400 seconds |
| Durations.RelativeRoundTrip | xmodule/fields.py:188-248 | a RelativeTime reads back as itself iff it is a whole number of seconds from 0 to 86399 |
| Durations.TextRoundTrip | xmodule/fields.py:188-248 | a text is printed back as it was read iff it is a canonical HH:MM:SS up to 23:59:59 |
| ProgressFold.MakeIsValid | xmodule/progress.py:24-44 | the constructor raises iff b <= 0, yields a valid fraction, and clamps nothing iff the fraction was valid |
| ProgressFold.ChildrenAddUp | xmodule/seq_block.py:314-322 | reducing the children never raises or clamps and gives the sums of their counts; None iff no child has progress, done iff every child with progress is |
| ProgressFold.FoldBetween | xmodule/progress.py:122-135 | the folded fraction lies between any bounds on the children's fractions |
| ProgressFold.OrderIrrelevant | xmodule/progress.py:122-135 | the order of the children does not matter |
| ProgressFold.NestingIrrelevant | xmodule/seq_block.py:314-322 | the progress of nested sequences is the fold over their leaves |

## Left out

- Rendering, templates, Studio views, event tracking, logging and formatted texts: they do not feed back into the state modelled here.
- Grading inside LoncapaProblem, response types and sandboxed code: a grading is an arbitrary new correct map or an error; an error while computing the score itself is not modelled.
- `handle_problem_html_error`, which resets a problem whose HTML cannot be rendered.
- The empty per-input entries that LoncapaProblem adds to `input_state` while it is built, and the replacement of uploaded files by their names.
- Floating-point rounding: percentages and progress counts are reals.
- `generate_random_scores`, the debugging mode of the graders.
- Non-atomic requests to the shared poll summary: every poll request is one step.
- LibraryService.LibraryTools.ImportFromBlockstore: when generated keys coincide a later copy overwrites an earlier one; then it states the children of dest and what is kept, not which copy is left at which key. How far the import of the source at which it stops has come is not stated. Permission and type checks of the source are not part of it.
- Rescoring.ScoreOverRuns: the receiver's failure on a recorded or new score out of zero points, which ends the rescoring with an error, counts as refused; grades of anonymous users, which nobody receives, are not modelled.
- `update_children`, the import from version 1 libraries: it delegates the copying to the store.
- Unicode digits and white space in duration texts, float values of RelativeTime, and the overflow of timedeltas beyond 999999999 days.
- Oracle runs that answer differently for the same list of tests: a test run is a function of its list.
- XML import and export, LTI, tabs, split tests, conditional and randomize blocks, and the build scripts.
