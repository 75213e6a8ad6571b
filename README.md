# Theatre wave planning, modelled in Dafny

The program plans the school-theatre evenings of a primary school. Each class's students are spread
over four performances, called waves A, B, C and D, and siblings should never share a wave, so that
parents can come to all of their children's performances. This project models the computational core
of that program and proves what it promises:

- **Scheduler** (`scheduler.dfy`). It covers the sibling graph, the greedy wave assignment and the
  write-back of the chosen waves.
  - The imperative code is modelled as methods: the map-filling loops, the `best`/`bestCount` scan,
    and the main loop with its counters.
  - Each method is proved equal to a fold specification, `Run`/`Schedule`.
  - Lemmas about that fold give the properties: totality, sibling avoidance, the fallback to A, the
    least-filled choice with its tie rule, the counter update, and the round-robin result when there
    are no siblings.
- **Families** (`families.dfy`). It covers surname words, the family proposals and the family label.
  - The union-find is a class over an `array` with path compression.
  - Its ghost `root` view is shown to partition the students exactly into the connected components of
    the "shares a surname word" relation.
  - The proposals are proved to be disjoint, ordered, connected and complete.
- **Siblings view** (`siblings_view.dfy`). It covers:
  - pruning the saved groups when a student or a class is deleted;
  - matching a proposal against a saved group;
  - toggling a student in the selection.
- **Schedule view** (`schedule_view.dfy`). It covers the completeness test, the sibling-conflict scan
  (a method with an early return, proved equal to its specification) and the display form of a time.
- **Data model** (`data_model.dfy`). It covers the records, the constructors that normalise names
  and waves, and the id lookups.
- **Class text import** (`class_text.dfy`, `class_format.dfy`).
  - It covers the student-line parser, the two-pass class parser (a method over the lines, with the
    `inStudents` flag) and the batch parser.
  - `class_format.dfy` writes classes in the documented text layout. It proves that parsing a written
    class, or a batch of classes, gives them back.
- **Store** (`store.dfy`). It covers the normalisation of typed times to `HH:MM`, the merge of saved
  wave times with the defaults, and the other fields `load` produces from an already-parsed saved
  state.
- **Router** (`router.dfy`). It covers reading the route from a location hash and writing a link to a
  route. It proves that following a link reads its route back.
- **Shared modules**. `text.dfy` holds JavaScript's `trim`, `split`, `toLowerCase` and `indexOf` on
  strings, `sequences.dfy` holds the subsequence relation, and `wrappers.dfy` holds `Option`.

The ids that `Date.now()` and `Math.random()` generate are parameters (`freshId`). Absent, null and
non-string JavaScript values are `None`.

## Model

| member | source | states |
|---|---|---|
| DataModel.WaveIndex | src/data-model.js:11 | every wave has its position in the fixed order A, B, C, D |
| DataModel.NormalizeWave | src/data-model.js:24 | a kept wave is exactly the raw value it came from |
| DataModel.NormalizeWaveLabel | src/data-model.js:24 | each of A, B, C, D is kept as itself |
| DataModel.NormalizeWaveRejects | src/data-model.js:35 | any raw value other than A, B, C or D becomes no wave |
| DataModel.CreateStudent | src/data-model.js:30-37 | the new student has the given fresh id and the trimmed given names, and it has wave W exactly when the raw wave is the label of W |
| DataModel.FromDraft | src/data-model.js:20-25 | a draft's own non-empty id is kept and otherwise a fresh one is used; names are trimmed (a missing one counts as empty); the wave is normalised |
| DataModel.CreateClass | src/data-model.js:15-28 | trimmed level and teacher, one student per draft in order, each built from its draft |
| DataModel.RebuildClass | src/data-model.js:15-28 | creating a class again from a normalised class's own fields gives that class back |
| DataModel.CreateClassIdempotent | src/data-model.js:15-28 | re-creating a created class from its fields changes nothing |
| DataModel.CreatedNormalized | src/data-model.js:15-28 | a created class has non-empty ids and trimmed names |
| DataModel.FindIn | src/data-model.js:41 | `find`: none exactly when no student has the id, else the first student with it |
| DataModel.FindStudent | src/data-model.js:39-45 | none exactly when no class holds the id; otherwise the first class holding it, with its first student of that id |
| DataModel.GetStudentById | src/data-model.js:39-45 | the loop with early return computes FindStudent |
| DataModel.GetClassById | src/data-model.js:47-49 | none exactly when no class has the id, else the first class with it |
| Scheduler.GroupIds | src/scheduler.js:10-12 | the ids that get an entry are exactly those occurring in some group |
| Scheduler.SiblingGraph | src/scheduler.js:8-19 | the keys are the ids of the groups; `b` neighbours `a` exactly when they differ and share a group |
| Scheduler.GraphUnique | src/scheduler.js:8-19 | only one map has that property |
| Scheduler.GraphSymmetricIrreflexive | src/scheduler.js:8-19 | no id neighbours itself, and the relation is symmetric |
| Scheduler.CoMemberSnoc | src/scheduler.js:10 | adding a group adds exactly the pairs inside it |
| Scheduler.LinkMember | src/scheduler.js:11-15 | the inner loop gives `id` an entry and adds the other group members, leaving all other entries as they were |
| Scheduler.AddGroup | src/scheduler.js:10-16 | one more group keeps the map the graph of the groups seen so far |
| Scheduler.BuildSiblingGraph | src/scheduler.js:8-19 | the nested loops compute SiblingGraph |
| Scheduler.Entries | src/scheduler.js:33 | one entry per student of the class, in order, tagged with the class id |
| Scheduler.RosterMembers | src/scheduler.js:31-34 | the roster holds exactly the (student, class) pairs of the input |
| Scheduler.Flatten | src/scheduler.js:31-34 | the two loops building `allStudents` compute the roster, in class then student order |
| Scheduler.Free | src/scheduler.js:42 | a filtered wave list keeps exactly the waves that are not used |
| Scheduler.Allowed | src/scheduler.js:42 | the allowed waves are exactly those no placed sibling uses |
| Scheduler.AllowedOrdered | src/scheduler.js:42 | the allowed waves keep the order A, B, C, D |
| Scheduler.UsedBySiblingsMeaning | src/scheduler.js:37-41 | a wave is used exactly when some already-assigned neighbour holds it |
| Scheduler.SiblingWaves | src/scheduler.js:37-41 | the loop over neighbours computes the used waves |
| Scheduler.LeastFilledMinimal | src/scheduler.js:47-55 | the scan's result has a count no larger than any wave it has scanned |
| Scheduler.LeastFilledFirst | src/scheduler.js:47-55 | the scan's result is strictly below every wave before it, because the comparison is strict |
| Scheduler.LeastFilledIn | src/scheduler.js:47-55 | the scan picks an allowed wave |
| Scheduler.LeastFilledEarliest | src/scheduler.js:47-55 | for ordered waves the pick is minimal, and it is the earliest of the minimal waves |
| Scheduler.PickLeastFilled | src/scheduler.js:47-55 | the `best`/`bestCount` loop computes the least-filled wave |
| Scheduler.PlaceStudent | src/scheduler.js:36-58 | one loop body performs one step of the specification |
| Scheduler.AssignWavesToStudents | src/scheduler.js:26-64 | the returned map is Schedule: the fold of steps over the roster, the final fallback loop adding nothing |
| Scheduler.StepTouchesOne | src/scheduler.js:44-56 | a step assigns its own student and changes no other assignment |
| Scheduler.RunAssignsEveryone | src/scheduler.js:36-58 | after `k` students, exactly the ids of those students are assigned |
| Scheduler.ScheduleTotal | src/scheduler.js:60-62 | every student of every class gets a wave, and only students of the input do |
| Scheduler.ChoiceAvoidsSiblings | src/scheduler.js:37-56 | when some wave is free, the chosen wave differs from every placed sibling's wave |
| Scheduler.FallbackToA | src/scheduler.js:43-46 | when placed siblings use all four waves, the student gets A and no counter changes |
| Scheduler.ChoiceIsLeastFilled | src/scheduler.js:42-56 | the chosen wave is allowed and has the least class count among allowed waves; any allowed wave earlier in A–D order has a strictly higher count |
| Scheduler.LeastFilledAmongFree | src/scheduler.js:42-55 | the same property, for the pick over the allowed list |
| Scheduler.ChoiceCounted | src/scheduler.js:57 | a non-fallback step adds one to exactly the (class, chosen wave) counter |
| Scheduler.StepCounts | src/scheduler.js:57 | the counters after a chosen step, pointwise |
| Scheduler.KeptFrom | src/scheduler.js:56 | a student's wave is not overwritten while no later entry repeats its id |
| Scheduler.ChoiceKept | src/scheduler.js:56 | with distinct ids, a student keeps the wave chosen at its own step |
| Scheduler.RoundRobinClosed | src/scheduler.js:47-57 | after dealing `n` students in turn, wave `i` holds n/4, plus one when i < n mod 4 |
| Scheduler.LeastFilledRoundRobin | src/scheduler.js:47-55 | with round-robin counts, the least-filled wave is the next one in turn |
| Scheduler.RoundRobinCounts | src/scheduler.js:42-57 | without siblings, each class's counters follow the round robin |
| Scheduler.RoundRobinChoice | src/scheduler.js:42-57 | without siblings, the k-th student of a class is given wave k mod 4 at its step |
| Scheduler.RoundRobinFinal | src/scheduler.js:26-64 | that wave is the student's wave in the final assignment |
| Scheduler.OneClassRoundRobin | src/scheduler.js:26-64 | one class without groups: its k-th student gets wave k mod 4 |
| Scheduler.EightStudentsTwoPerWave | src/scheduler.js:47-57 | a class of 8 without siblings ends with each wave's class counter at 2: every wave is given to exactly two students |
| Scheduler.SlackLeavesAWave | src/scheduler.js:42-43 | a student with at most three neighbours always has an allowed wave |
| Scheduler.NeighboursApart | src/scheduler.js:36-58 | two neighbours, the later one having at most three neighbours, end in different waves |
| Scheduler.GroupApartUnderSlack | src/scheduler.js:26-64 | the members of a closed group of at most four distinct students all get different waves |
| Scheduler.ApplyWaveAssignment | src/scheduler.js:70-78 | the same classes and students in the same order with every field kept, except that the wave is the assigned one, or A when the id is absent |
| Scheduler.ApplyIdempotent | src/scheduler.js:70-78 | applying the same assignment twice changes nothing more |
| Scheduler.PlannedWaves | src/scheduler.js:70-78 | after assignment and write-back, each student holds the wave the schedule gives it |
| Families.LastNameWords | src/main.js:320-322 | the surname words; what they are is stated by LastNameWordsExactly, LastNameWordsShape, WordOfSurname and OneWordSurname/TwoWordSurname/ThreeWordSurname |
| Families.LastNameWordsExactly | src/main.js:320-322 | a word is a surname word exactly when it is the lower case of some word of the trimmed surname, so the list holds those words and nothing else |
| Families.Dedup | src/main.js:321 | the words of a `Set` in order of first occurrence: no repeats, same members |
| Families.LastNameWordsShape | src/main.js:320-322 | the words are distinct, non-empty, free of blanks and lower case; there are none exactly when the surname is blank |
| Families.WordOfSurname | src/main.js:321 | every word of the trimmed surname, lower-cased, is one of its surname words |
| Families.OneWordSurname | src/main.js:320-322 | a one-word surname has that word, lower-cased |
| Families.TwoWordSurname | src/main.js:320-322 | a two-word surname has both words, lower-cased |
| Families.ThreeWordSurname | src/main.js:320-322 | a three-word surname has all three words, lower-cased |
| Families.SharedWord | src/main.js:333-335 | two linked students have a word in common |
| Families.ConnectedTrans | src/main.js:324-328 | the grouping relation is transitive |
| Families.ConnectedSym | src/main.js:324-328 | the grouping relation is symmetric |
| Families.LoneUnconnected | src/main.js:324-328 | a student linked to nobody is connected only to itself |
| Families.Merged | src/main.js:344-347 | after a union, the class of `a` is relabelled `b` and every other class is unchanged |
| Families.Compress | src/main.js:341 | path compression keeps the forest valid |
| Families.Link | src/main.js:346 | linking one root under another keeps the forest valid, with the classes merged |
| Families.UnionFind.constructor | src/main.js:339 | every student starts as its own root |
| Families.UnionFind.Find | src/main.js:340-343 | `find` returns the root of `i`, keeps the forest valid and does not change the partition |
| Families.UnionFind.Union | src/main.js:344-347 | `union` merges the classes of `i` and `j` and no others |
| Families.FirstSeenSpec | src/main.js:353-358 | the roots appear in order of their first student, each once, and every root appears |
| Families.MembersSpec | src/main.js:353-358 | a root's list holds exactly the students of that root, in increasing order |
| Families.Large | src/main.js:359 | the groups kept are exactly those of two or more |
| Families.GroupsOrdered | src/main.js:353-358 | the groups are ordered by their first student |
| Families.LargeOrdered | src/main.js:359 | the filter keeps that order |
| Families.ProposedShaped | src/main.js:353-359 | each proposal has two or more students, in increasing order, all valid positions |
| Families.ProposedOrdered | src/main.js:353-359 | proposals are ordered by their first student |
| Families.ProposedDisjoint | src/main.js:353-359 | no student is in two proposals |
| Families.ProposedConnected | src/main.js:324-359 | students in one proposal are connected by shared surname words |
| Families.ProposedComplete | src/main.js:349-359 | any two distinct connected students are in one proposal |
| Families.ProposedIsProposal | src/main.js:324-359 | grouping a component labelling has all the properties above |
| Families.MergeJoined | src/main.js:349-351 | merging two linked students' classes keeps every class connected |
| Families.ChainSameLabel | src/main.js:349-351 | a labelling that joins linked students joins whole chains |
| Families.IndexStudent | src/main.js:332-336 | the inner loop pushes student `i` onto the list of each of its words, so the index records the first `i + 1` students, each list still increasing |
| Families.IndexWords | src/main.js:330-337 | `wordToIndices` maps each word to exactly the students having it, each once and in increasing order |
| Families.IndexedComponents | src/main.js:349-351 | once every word's students share a root, the roots are the connected components |
| Families.UnionRun | src/main.js:350 | the inner union loop puts all students of one word under one root, keeping classes connected and only coarsening |
| Families.UnionWords | src/main.js:349-351 | after the union pass, the union-find roots are exactly the connected components |
| Families.GroupByRoot | src/main.js:353-359 | the `byRoot` pass and the filter compute the proposal of the roots |
| Families.ComputeProposedFamilies | src/main.js:329-360 | the result is shaped, ordered, disjoint, connected and complete for the students' surname words |
| Families.LoneInNoFamily | src/main.js:353-359 | a student sharing no word with anyone is in no proposal |
| Families.SharedWordSameFamily | src/main.js:324-351 | two students sharing a word are in one proposal |
| Families.ChainSameFamily | src/main.js:324-351 | the ends of a chain of shared words are in one proposal |
| Families.FamilyClosed | src/main.js:324-359 | a proposal holds everyone connected to a member |
| Families.ChainOfThree | src/main.js:324-328 | three students chained by shared words form the single proposal [0, 1, 2] |
| Families.ChainedSurnames | src/main.js:324-328 | for any words a, b, c, the surnames `a`, `a b` and `b c` are proposed as one family of all three |
| Families.ThreeSurnames | src/main.js:324-328 | the surnames Martin, Martin Dubois and Dubois Lefebvre are proposed as the single family [0, 1, 2] |
| Families.AllBelow | src/main.js:353-359 | an increasing family of positions below n that holds each of them is 0, 1, ..., n - 1 |
| Families.OneSharedWord | src/main.js:324-359 | students who all share one surname word are proposed as one family holding all of them |
| Families.CommonWordSurnames | src/main.js:325-327 | for any words a, b, c, the surnames `a`, `a b`, `b a c` and `c a b` form one family of all four |
| Families.FourSurnames | src/main.js:325-327 | Martin / Martin Dubois / Dubois Martin Lefebvre / Lefebvre Martin Dubois are proposed as the single family [0, 1, 2, 3] |
| Families.Keep | src/main.js:366 | the intersection step keeps exactly the words in both |
| Families.Common | src/main.js:363-367 | the words common to all members, as computed by the `reduce`; what it holds is stated by CommonSpec and Keep |
| Families.CommonSpec | src/main.js:363-367 | the `reduce` result holds exactly the words common to all members |
| Families.LexTotal | src/main.js:369 | the sort order is total |
| Families.LexTrans | src/main.js:369 | the sort order is transitive |
| Families.LexAntisym | src/main.js:369 | the sort order is antisymmetric |
| Families.LeastSpec | src/main.js:369 | `sort()[0]` is a member that sorts before all the others |
| Families.FamilyLabel | src/main.js:362-373 | `getFamilyLabel` on the surnames of a family; what it returns is stated by ChooseLabelSpec, with CommonSpec and LeastSpec |
| Families.ChooseLabel | src/main.js:362-373 | the family label chosen from the members' surname words; what it is is stated by ChooseLabelSpec and LeastSpec |
| Families.ChooseLabelSpec | src/main.js:362-373 | with a common word, the label is the unique smallest common word; with none, it is the first word of the first surname as written, or "Famille" when that surname is blank |
| SiblingsView.FilterIdsSpec | src/main.js:311 | the filter keeps exactly the accepted ids, as a subsequence |
| SiblingsView.KeepGroupsSpec | src/main.js:198 | exactly the groups of two or more are kept, as a subsequence |
| SiblingsView.PruneSpec | src/main.js:195-198 | each remaining group has two or more accepted ids and is a filtered subsequence of a saved group; every saved group left with two or more ids survives |
| SiblingsView.PruneIdempotent | src/main.js:311 | pruning twice with the same filter is pruning once |
| SiblingsView.PruneStudent | src/main.js:311 | the groups after a student is removed; what they are is stated by PruneStudentSpec |
| SiblingsView.PruneStudentSpec | src/main.js:311 | after a student is removed, no group names them, each has two or more ids as a subsequence of a saved group, and groups that still have two ids survive |
| SiblingsView.RemainingClasses | src/main.js:194 | the classes left are exactly those without the deleted id |
| SiblingsView.PruneClass | src/main.js:195-198 | the groups after a class is deleted; what they are is stated by PruneClassSpec |
| SiblingsView.PruneClassSpec | src/main.js:195-198 | after a class is deleted, each group has two or more ids as a subsequence of a saved group; each id left was in no class or is still found in a remaining class |
| SiblingsView.DistinctCard | src/main.js:392 | a list without repeats has as many elements as its set |
| SiblingsView.ProposalIdsMatchGroup | src/main.js:390-394 | whether a proposal is already a saved group; MatchIsSameIds states that for lists without repeats this holds exactly when both hold the same ids |
| SiblingsView.MatchIsSameIds | src/main.js:390-394 | for lists without repeats, a proposal matches a group exactly when both hold the same ids |
| SiblingsView.ToggleSelection | src/main.js:476-479 | the selection after a click; what it is is stated by ToggleSelectionSpec, ToggleTwice and ToggleTwiceSelected |
| SiblingsView.ToggleSelectionSpec | src/main.js:476-479 | the click flips whether the id is selected, leaves every other id as it was and keeps the selection free of repeats |
| SiblingsView.DistinctFilter | src/main.js:478 | filtering keeps a list free of repeats |
| SiblingsView.ToggleTwice | src/main.js:476-479 | clicking a student who was not selected twice restores the selection |
| SiblingsView.ToggleTwiceSelected | src/main.js:476-479 | clicking a selected student twice keeps the same students selected, the others in their order, with that student moved to the end |
| ScheduleView.ClassHasAllWaves | src/main.js:641 | a class is complete exactly when each of the waves A, B, C and D is held by some of its students; CompleteHasFour follows from it |
| ScheduleView.AllClassesComplete | src/main.js:642 | every class is complete |
| ScheduleView.CompleteHasFour | src/main.js:641 | a complete class has at least four students |
| ScheduleView.HitsAppend | src/main.js:645-652 | the waves met for two parts of a group are the waves of each, in order |
| ScheduleView.GroupConflict | src/main.js:644-654 | the scan with the `waves` set and early return reports exactly when a wave is met twice |
| ScheduleView.SiblingConflict | src/main.js:643-655 | some group meets a wave twice; what that means is stated by GroupConflict, FindSiblingConflict and ConflictIsSharedWave |
| ScheduleView.ScanMember | src/main.js:646-652 | the scan of the classes for one member either meets a wave already seen, and then the group's waves repeat, or adds that member's waves to those seen, still without a repeat and with `waves` holding exactly them |
| ScheduleView.FindSiblingConflict | src/main.js:643-655 | `some` over the groups computes SiblingConflict |
| ScheduleView.HitsInApart | src/main.js:646-648 | when no id is in two classes, the waves met for a member are just its own wave, if it has one |
| ScheduleView.HitsMember | src/main.js:645-651 | a wave is met for a group exactly when some member holds it; unknown ids and students without a wave add nothing |
| ScheduleView.ConflictIsSharedWave | src/main.js:643-655 | when no id is in two classes, a conflict is reported exactly when two distinct members of a group hold the same wave |
| ScheduleView.ScheduleIncomplete | src/main.js:656 | the schedule is flagged when a class is incomplete or there is a sibling conflict; ScheduleIncompleteMeaning states what that means |
| ScheduleView.ScheduleIncompleteMeaning | src/main.js:641-656 | when no id is in two classes, the schedule is flagged exactly when some class lacks a wave or two distinct members of a group hold the same wave |
| ScheduleView.FormatTimeDisplay | src/main.js:746-751 | `formatTimeDisplay`; what it returns is stated by FormatTimeColon, FormatTimeNoColon, FormatTimeHasH, FormatTimeEmpty and FormatCanonical |
| ScheduleView.FormatTimeColon | src/main.js:749 | a trimmed time with ':' has its first ':' turned into 'h', and nothing else changes |
| ScheduleView.FormatTimeNoColon | src/main.js:750 | a time without ':' is kept when it has an 'h', and otherwise gains "h00" |
| ScheduleView.FormatTimeHasH | src/main.js:746-751 | every non-empty input displays with an 'h' |
| ScheduleView.FormatTimeEmpty | src/main.js:747 | the display is empty exactly for a missing or empty input |
| ScheduleView.FormatCanonical | src/main.js:746-751 | a stored `HH:MM` time displays as `HHhMM` |
| ClassText.LetterWave | src/data-model.js:56-57 | the upper-cased wave letter names the wave whose label it is |
| ClassText.WaveSuffixFound | src/data-model.js:56 | `: W` after a name not ending in a blank is found at the end of the name, with wave W |
| ClassText.NoColonNoSuffix | src/data-model.js:56-57 | a line without ':' has no wave |
| ClassText.ParseStudentLine | src/data-model.js:55-62 | `parseStudentLine`; what it returns is stated by WaveSuffixFound, NoColonNoSuffix, SplitName, ParsedNames and ParseFormatStudent |
| ClassText.SplitName | src/data-model.js:59-61 | the first space separates last name and first name; with no first name there is no space |
| ClassText.ParsedNames | src/data-model.js:59-61 | the parsed last name has no space and does not start with a blank, the first name is trimmed, and there is no first name without a last name |
| ClassText.FormatSuffix | src/data-model.js:55-58 | a written student line yields its wave and its name part |
| ClassText.ParseFormatStudent | src/data-model.js:55-62 | parsing a written student line gives the student back |
| ClassText.ParseClass | src/data-model.js:74-118 | the two passes of `parseClassFromText` as a fold over the lines; what it returns is stated by LastNiveauWins, LastTeacherWins, StudentsCounted, SecondPassAddsNothing and ClassFormat.ParseFormatClass |
| ClassText.ParseClassFromText | src/data-model.js:74-118 | the two loops over the lines compute ParseClass |
| ClassText.KeysExclusive | src/data-model.js:80-81 | no line is both a level line and a teacher line |
| ClassText.KindOfLine | src/data-model.js:80-93 | a line is a level line or a teacher line exactly when the expression matches, with the captured value |
| ClassText.BulletKind | src/data-model.js:98-101 | a bullet line is a student line carrying the parsed text after the dash |
| ClassText.BulletAdds | src/data-model.js:98-103 | a bullet line adds its student in any state and enters the student list |
| ClassText.ListLineAdds | src/data-model.js:98-103 | inside the student list, any other non-empty line adds a student |
| ClassText.StepFields | src/data-model.js:84-103 | a line sets only the field it names and never removes a student |
| ClassText.NiveauIsLast | src/data-model.js:84-88 | the level is the value of the last level line, or unchanged when there is none |
| ClassText.TeacherIsLast | src/data-model.js:89-93 | the teacher is the value of the last teacher line, or unchanged when there is none |
| ClassText.LastNiveauWins | src/data-model.js:76-88 | a parsed class's level is that of its last level line, or empty |
| ClassText.LastTeacherWins | src/data-model.js:76-93 | a parsed class's teacher is that of its last teacher line, or empty |
| ClassText.StudentsCounted | src/data-model.js:98-103 | each bullet line adds a student, so the first pass finds at least as many students as there are bullets |
| ClassText.LinesTrimmed | src/data-model.js:76 | the lines are trimmed and none is blank |
| ClassText.SecondPassAddsNothing | src/data-model.js:106-115 | the fallback second pass never adds a student that the first pass did not already add |
| ClassText.BlocksClean | src/data-model.js:125 | the blocks are trimmed, non-blank and free of `---` |
| ClassText.ParseBatch | src/data-model.js:124-127 | `parseClassesBatchFromText`; what it returns is stated by BlocksClean, SingleBlock and ClassFormat.ParseFormatBatch |
| ClassText.SingleBlock | src/data-model.js:124-127 | a text without `---` parses as one class, or none when it is blank |
| ClassFormat.StudentFound | src/data-model.js:98-101 | a written student line is a clean bullet whose text parses back to the student |
| ClassFormat.ReadClassLines | src/data-model.js:79-104 | the first loop over a written class ends in the student list with its fields and students |
| ClassFormat.ParseFormatClass | src/data-model.js:74-118 | parsing a class written in the documented layout gives it back |
| ClassFormat.ParseFormatBatch | src/data-model.js:124-127 | parsing classes written one after another, separated by `---` lines, gives them back in order |
| Store.DefaultSlot | src/store.js:3-8 | the default times: A 17:00-17:25, B 17:30-17:50, C 17:55-18:15, D 18:20-18:40; DefaultsCanonical states they are in `HH:MM` form |
| Store.DefaultsCanonical | src/store.js:3-8 | every default time is in `HH:MM` form |
| Store.NormalizeTime | src/store.js:10-18 | `normalizeTimeForInput`; what it returns is stated by NormalizeEmpty, NormalizeColon, NormalizeHour, NormalizeOther, NormalizeCanonical and NormalizeIdempotent |
| Store.HourFormSpec | src/store.js:15 | the case analysis matches exactly when the regular expression does, with the same groups |
| Store.Pad2Number | src/store.js:14 | padding an hour to two digits keeps its value |
| Store.NormalizeEmpty | src/store.js:11-12 | the result is empty exactly for a missing value or an all-blank one |
| Store.NormalizeColon | src/store.js:13-14 | `H:MM` or `HH:MM` becomes `HH:MM`, with the same hour value and the same minutes |
| Store.NormalizeHour | src/store.js:15-16 | `H`, `Hh`, `HhMM`, `HMM` and the like become `HH:MM`, the minutes defaulting to `00` |
| Store.NormalizeOther | src/store.js:17 | any other text comes back trimmed and otherwise unchanged |
| Store.NormalizeCanonical | src/store.js:10-18 | an `HH:MM` time is left as it is |
| Store.NormalizeIdempotent | src/store.js:10-18 | normalising twice is normalising once |
| Store.KeepTime | src/store.js:43-45 | one merged time; what it is is stated by KeepTimeSpec and KeepTimeStable |
| Store.KeepTimeSpec | src/store.js:43-45 | a merged time is never empty: it is the normalised saved value or the default, and the default when nothing is saved |
| Store.MergedSlot | src/store.js:43-45 | one wave's merged times; what they are is stated by MergedSlotSpec and MergeStable |
| Store.MergedSlotSpec | src/store.js:38-48 | each wave's start and end are the normalised saved value or the default, non-empty; an unsaved wave gets the defaults |
| Store.MergeWaveTimes | src/store.js:39-48 | the loop fills all four waves, each with its merged slot |
| Store.KeepTimeStable | src/store.js:45 | merging a merged time again changes nothing |
| Store.MergeStable | src/store.js:38-48 | loading merged wave times again changes nothing |
| Store.KeepEditing | src/store.js:35-37 | the editing ids that survive loading; what they are is stated by KeepEditingSpec |
| Store.KeepEditingSpec | src/store.js:35-37 | the kept editing ids are exactly the listed ids of existing classes, as a subsequence |
| Store.Load | src/store.js:29-60 | no saved state gives the defaults; otherwise: classes and groups as saved or empty, editing ids filtered to existing classes, toast and selection lists reset, all four waves merged |
| Store.LoadedDefaults | src/store.js:32 | merging nothing gives the default times |
| Router.RouteNamed | src/router.js:5-7 | a name is recognised exactly when it is a route's name, and it gives that route |
| Router.DropSlashes | src/router.js:17 | the leading slashes are removed and nothing else is |
| Router.GetRoute | src/router.js:16-20 | `app` reads as the class list, a route's name reads as that route, and anything else reads as the landing page |
| Router.FirstSegmentSpec | src/router.js:17 | the first segment holds no '/', and a text without '/' is its own first segment |
| Router.FirstSegmentCut | src/router.js:17 | whatever follows the first '/' is ignored |
| Router.SegmentAfterSlashes | src/router.js:17 | any number of slashes after '#', and anything after the next '/', leave the segment unchanged |
| Router.GetRouteIgnoresSlashes | src/router.js:16-20 | the same holds for the route read |
| Router.LandingHash | src/router.js:17-19 | an empty hash and `#/` both read as the landing page |
| Router.PrefixNoHash | src/router.js:11 | the path before the hash has no '#' when the base path has none |
| Router.GetHashHref | src/router.js:10-14 | `getHashHref`; what it returns is stated by PrefixNoHash, HrefHash and HrefRoundTrip |
| Router.HrefHash | src/router.js:10-14 | the hash of a route's link is `#/` for the landing page and `#/name` otherwise |
| Router.HrefRoundTrip | src/router.js:10-20 | following the link to any route reads that route back |

## Left out

- Rendering, event wiring, toasts and the DOM are not part of this model. The completeness, conflict,
  pruning, matching and toggling logic of `src/main.js` is taken out of its handlers and modelled on
  values.
- `localStorage`, `JSON.parse`/`JSON.stringify`, `save`, `setState` and `resetState` are left out. A
  saved state that is missing or does not parse arrives as `None`. Values of the wrong type are `None`
  fields.
- `Date.now()`, `Math.random()`, `nextId`, `window.location`, `navigateTo`, `initRouter` and
  `import.meta.env` are left out. Ids are parameters, and so are the hash and the base URL.
- The handlers' other state updates are not modelled:
  - the `editingClassId`/`editingClassIds` update when a class is deleted;
  - the removal of the student from its class in the delete-student handler.
- DataModel.Class has no `schedule` field. `createClass` adds `schedule: {}` (src/data-model.js:26), but
  no modelled operation reads it: the scheduler writes each student's own `wave`.
- `src/landing.js`, `src/header.js` and `vite.config.js` are not part of this model.
- Regular expressions are written out as string predicates for the patterns the program uses, not as
  a general engine. `split(/\s*---\s*/)` followed by `trim` is modelled as a split on `---` followed by
  `trim`, which gives the same blocks.
- Text.LowerChar: `toLowerCase` is modelled for Basic Latin and Latin-1 letters only. Other scripts
  stay unchanged, where JavaScript would lower-case them.
- Families.LexLe: the `sort()` order compares characters by code point. JavaScript compares UTF-16
  code units, which differs only for characters outside the Basic Multilingual Plane.
- Families.FamilyLabel requires a non-empty group, because the source reads `students[0]` and fails on
  an empty one.
- Families.ComputeProposedFamilies returns each family as the positions of its students in the input.
  The source returns the student records at those positions.
- Families.UnionFind: the ghost `height` that proves `find` terminates is not in the source.
- Store.NormalizeColon and Store.NormalizeHour do not range-check hours or minutes. The source does
  not either: `99:99` stays `99:99`.
- SiblingsView.MatchIsSameIds is proved for lists without repeats. For lists with repeats, the
  source's test (equal length, every proposal id in the group) also accepts `[a, a]` against `[a, b]`.
- ScheduleView.ConflictIsSharedWave assumes no id is in two classes. If one is, the scan meets that
  student's wave once per class and can report a conflict for a single student. `GroupConflict` and
  `FindSiblingConflict` model that behaviour as written.
