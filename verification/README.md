# Adaptive surveys, verified

This project models the survey compiler of an experience-management suite and proves what it is for: a
*canonical survey* (groups, questions, relevance expressions, calculated variables) is compiled to *blocks*
with jump rules and fallbacks, and running those blocks has to show a respondent exactly the questions that
the package's own simulator calls visible. Around that core, seven smaller components of the same repository
are modelled, each with the property it exists for.

## The compiler

- `Expressions`, `Parser`, `RelevanceText` - the expression language from text to value, and group and
  question relevance joined as text.
- `Survey`, `Payload`, `Ids`, `Compiler`, `Variables` - the canonical survey, the compiled payload, the ID
  builders, elements and equation rules, and the declared variables.
- `Segments`, `SegmentConservation`, `SurveySegments`, `BlockNames` - cutting groups into segments of equal
  effective relevance.
- `RelevanceCompiler`, `SurveyReferences`, `LeafAgreement`, `RelevancePreservation` - relevance compiled to
  condition trees, and exactly when such a tree decides what the text says.
- `Routing`, `Runtime`, `Runs`, `Responding` - jump rules, the survey runtime that follows them, whole runs,
  and a respondent whose answers the runtime records.
- `Dependencies`, `Calculations`, `Simulation` - calculated variables as a worklist over a dependency graph,
  and the simulator.
- `CompiledSurvey`, `CompileSucceeds`, `Crosswalk`, `DistinctIds`, `RoutingIds`, `Artifact`, `Validation` - the
  whole compilation and exactly when it succeeds, its ID crosswalk, and the checks before and after it.
- `ElementContents`, `EquationRelevance` - what compiled elements hold and admit, and relevance that reads
  equation questions.
- `Agreement` - the compiler against the simulator.
- `Example` - a concrete survey that meets the assumptions, and one whose names clash.

The main theorem is `Agreement.CompilerAgreesExactly`. Its assumptions: the survey compiles and its IDs are
encodable (a cleanly validated survey is, by `CleanSurveyIsReady`); the first segment is unconditional and
every effective relevance reads ordinary questions of strictly earlier segments; block names do not clash;
options can be told apart by value and by shown text; the respondent answers what a block shows with fitting
values; and each conditional relevance that the run decides about is *faithful* to the collected answers.
Relevance whose rule is dropped, because it reads a question the run has not reached, may be anything.
Faithful is a check on the expression and the answers alone (`RelevancePreservation.Faithful`): comparisons of
a question with a literal and presence tests, joined by and/or; no negation that the compiler drops; no answer
on which the runtime's coercions differ from the evaluator's; and no difference made by reading what does not
evaluate as the runtime does. The main result about it is `CompiledIsTolerant`, which says when the conditions
of any such expression are met. On a single leaf faithfulness is not only enough but needed
(`LeafIsPreservedExactly`); for dropped negations the exact condition is `PreservedIffNegationsHarmless`.

No relevance is assumed to parse by itself: the theorem's condition says what happens to the questions whose
own or group's relevance does not. `Example.ExampleMeetsAssumptions` meets all assumptions with a concrete
survey.

Apart from what "Left out" names, loops and updates in place of the source are methods proved against a
specification function or property, and the lemmas are about those; a loop that only maps or collects is a
function.

## The other components

`SegmentWalk` (segment-reference walk), `Utf8` and `Encoding` (repair of mis-decoded text, UTF-8 as in section
3 of RFC 3629), `JobsWorker` (start and retry of background jobs; the recurring registration follows the same
protocol), `ModelCache` (recency cache of language models), `NullableCache` (cache-aside for values that may be
null), `CubeRewrite` (analytics query rewrite), `Colors` (readable text colour, contrast as defined for Success
Criterion 1.4.3 of WCAG 2.1). `Wrappers`, `Words`, `Strings`, `Sequences` and `Sorting` are shared helpers.

Inputs that the model takes as parameters: the two number/text conversions of the host language, the gamma
curve of sRGB (with its range and end points), the text normalisation of the analytics database and its
operators other than exact matching, what a respondent answers, the values of calculated variables during a
run, and the outcomes and order of asynchronous operations. Numbers are exact reals.

## Where code and documentation disagree

- `compile-relevance.ts:137` silently drops `not` before anything but a reference or an emptiness test; the
  model keeps the code (`DroppedNegationInverts`, `PreservedIffNegationsHarmless`, and concretely
  `TwiceNegatedInverts`).
- A relevance of white space alone passes the schema (`contracts.ts:89`, `contracts.ts:169`). The compiler takes it
  for an absent one (`compile-adaptive-blocks.ts:21-24`); the simulator fails to parse it and hides the group or
  question (`adaptive.ts:165-166`), as it does for a group text that parses only within the combined text.
  `CombineIsConjunction` says exactly when the two readings agree (`BlankIsTakenForNone`, `SplicedTextHolds`).
- `compile-with-crosswalk.ts:225-235` resolves an undeclared choice value to an option instead of rejecting
  it, although the error after it suggests otherwise (`UndeclaredChoiceStandsForFirst`).
- `compile-relevance.ts:39` accepts the NAOK policy on references, which the evaluator can never look up
  (`NaokNeverEvaluates`).
- Block names can clash with a group literally named like a segment; the artifact check then fails
  (`NamesDistinctExactly`, `CleanArtifactAccepted`, and concretely `ClashIsRejected`).
- A registration that sees the jobs disabled cancels a pending retry for good, even if they are enabled again
  (`GivenUpExactly`, `DisabledForgetsRetry`).

## Model

| member | source | states |
|---|---|---|
| Agreement.CompilerAgreesExactly | packages/survey-compiler/src/compile-adaptive-blocks.ts:172-220 | for an orderly survey and answers to which every relevance decided along the run is faithful: a complete run of the compiled blocks shows each question the simulator calls visible once and no other, if and only if every segment whose relevance holds reads only questions up to the segment visited before it, or a later one where a question's or its group's relevance does not parse by itself |
| Agreement.CompilerAgreesWithSimulator | packages/survey-compiler/src/adaptive.ts:180-246 | the same agreement whenever each relevance is absent or parses, and holds only if every question it reads is answered |
| Agreement.VisitedExactly | packages/survey-compiler/src/compile-adaptive-blocks.ts:177-219 | a complete run visits a segment exactly when its relevance holds of the collected answers and its references lie no later than the segment visited before; relevance whose rule is dropped need not be faithful |
| Agreement.VisitedIffHolds | packages/survey-compiler/src/compile-adaptive-blocks.ts:181-193 | a complete run visits a segment, the first included, exactly when its relevance holds and is decided in time |
| Agreement.ShownIsVisibleExactly | packages/survey-compiler/src/adaptive.ts:214-246 | shown questions are the visible ones exactly when, question by question, the visited segments are those that hold and whose group and question relevance parse |
| Agreement.DecisionIsFinal | packages/survey-compiler/src/compile-adaptive-blocks.ts:186-201 | what the runtime decides about a later segment part-way through a run is what its relevance says of the final answers |
| Agreement.OpenOnFinalAnswers | packages/survey-compiler/src/compile-adaptive-blocks.ts:181-201 | past conditional blocks only, a later block is open exactly when it is decided there and holds of the final answers; faithfulness is asked of its own relevance, and only if decided |
| Agreement.AvailableAt | packages/survey-compiler/src/compile-with-crosswalk.ts:177-184 | the references available at a block are exactly the questions of the segments so far |
| Agreement.EveryRespondentFinishes | packages/surveys/src/components/general/survey.tsx:741-896 | whatever is answered, the compiled survey has a complete run |
| Agreement.CleanSurveyIsReady | packages/survey-compiler/src/validate-canonical-survey.ts:29-77 | a cleanly validated survey meets the agreement theorem's assumptions about IDs and variables |
| Agreement.VisibleIffSegmentHolds | packages/survey-compiler/src/adaptive.ts:165-246 | a question is visible exactly when the effective relevance of its segment holds and group and question relevance each parse or are absent |
| Example.ExampleMeetsAssumptions | packages/survey-compiler/src/compile-adaptive-blocks.ts:155-221 | a concrete clean survey with a conditional second segment: whoever answers it honestly, some complete run meets every assumption of both agreement theorems |
| Example.ClashIsRejected | packages/survey-compiler/src/compile-with-crosswalk.ts:41-41 | a concrete survey that validates cleanly and compiles, and whose artifact does not match: one group is named G_segment_1, another group G is cut in two |
| Example.TwiceNegatedInverts | packages/survey-compiler/src/compile-relevance.ts:137-137 | on that survey the text "not not A" compiles, and for every answer to A its conditions decide the opposite of what it says |
| Runs.RunIsSafe | packages/survey-compiler/src/compile-adaptive-blocks.ts:172-220 | every run moves strictly forward, never passes an unconditional block, and enters a conditional block only when its references are available and its conditions are met at that point |
| Runs.RunTakesLeastOpen | packages/survey-compiler/src/compile-adaptive-blocks.ts:177-219 | the next block of a run is the least open later block; a run ends exactly when none is left |
| Runs.RunGoesOn | packages/surveys/src/components/general/survey.tsx:884-890 | a run is never stuck: it has reached the ending or goes on to a later block |
| Runs.RunExists | packages/surveys/src/components/general/survey.tsx:741-896 | every partial run can be completed |
| Routing.PrunedPlanPicksLeastOpen | packages/survey-compiler/src/compile-adaptive-blocks.ts:177-219 | skipping relevance texts already seen and stopping at the first unconditional block changes no decision: the plan picks the least open target, else the ending |
| Routing.RuntimePicksLeastOpen | packages/surveys/src/components/general/survey.tsx:839-890 | first true rule, else fallback, else next block picks the least open target |
| Routing.PlanBlock | packages/survey-compiler/src/compile-adaptive-blocks.ts:172-211 | one block's loop over later blocks computes the specified plan; it fails exactly at the first conditional target before the next unconditional block that does not parse, or is decidable and does not compile, and with that error |
| Routing.ApplyAdaptiveSegmentRouting | packages/survey-compiler/src/compile-adaptive-blocks.ts:155-221 | mismatched lengths are refused; otherwise it fails exactly if some block has a malformed conditional target before the next unconditional one, and with the error of the first such fault; if not, every block gets its plan |
| Routing.RoutingFailsExactly | packages/survey-compiler/src/compile-adaptive-blocks.ts:172-202 | the same said of the specification, without naming the plans |
| Routing.ReachedRelevanceParses | packages/survey-compiler/src/compile-adaptive-blocks.ts:38-54 | in a routed survey every conditional relevance that some block's scan reaches parses, and compiles where it is decidable |
| Routing.NextWithoutRules | packages/survey-compiler/src/compile-adaptive-blocks.ts:213-213 | a block left without rules goes on to the block after it, or to the ending |
| Routing.NextWithRules | packages/survey-compiler/src/compile-adaptive-blocks.ts:215-219 | a block with rules takes the first rule met, else its fallback |
| Routing.PassesUnderAnyIds | packages/survey-compiler/src/compile-adaptive-blocks.ts:199-202 | the IDs minted for conditions do not affect the decision |
| Routing.RoutingKeepsIds | packages/survey-compiler/src/compile-adaptive-blocks.ts:215-219 | routing changes neither block IDs nor elements |
| Routing.LeastOpen | packages/survey-compiler/src/compile-adaptive-blocks.ts:177-219 | the least position whose block is open in the naive reading |
| RelevanceCompiler.CompiledMeaning | packages/survey-compiler/src/compile-relevance.ts:87-160 | a condition tree is met exactly if its expression, with the dropped negations taken out, is truthy, provided the leaves agree |
| CompileSucceeds.RelevanceCompilesExactly | packages/survey-compiler/src/compile-relevance.ts:162-178 | a relevance text compiles exactly when, braces aside, it parses to one of the forms that compile |
| SurveyReferences.CompilesExactly | packages/survey-compiler/src/compile-relevance.ts:36-160 | an expression compiles exactly when it is built by and, or and not from presence tests of survey questions and comparisons of one, not a choice question without options, with a text or number literal |
| RelevanceCompiler.DroppedNegationInverts | packages/survey-compiler/src/compile-relevance.ts:137-137 | a dropped negation inverts the decision |
| RelevancePreservation.RelevanceIsPreserved | packages/survey-compiler/src/compile-relevance.ts:162-178 | from the text to the runtime's decision, for safe leaves and kept negations: conditions are met as the text holds if and only if reading what does not evaluate as the runtime does changes nothing |
| RelevancePreservation.CompiledIsTolerant | packages/survey-compiler/src/compile-relevance.ts:87-160 | compiled conditions are met exactly when the expression is true in the tolerant reading |
| RelevancePreservation.LeafIsPreservedExactly | packages/survey-compiler/src/compile-relevance.ts:46-136 | for a text that is one leaf - a presence test, its negation, or a comparison in either order, with only = and != on choice questions - the conditions are met as it holds if and only if it is faithful to the answers |
| RelevancePreservation.UnsafeLeafIsWrong | packages/survey-compiler/src/compile-relevance.ts:46-136 | a leaf that is not safe on the answers is decided the wrong way round |
| RelevancePreservation.EvaluatedIsFaithful | packages/survey-compiler/src/compile-relevance.ts:87-160 | a text that evaluates is faithful when its leaves are safe and no negation is dropped; not every question it reads has to be answered |
| RelevancePreservation.PreservedIffNegationsHarmless | packages/survey-compiler/src/compile-relevance.ts:137-137 | with dropped negations, the decision is right exactly when dropping them does not change the truth value |
| RelevancePreservation.BracesDoNotMatter | packages/survey-compiler/src/compile-relevance.ts:166-169 | stripping outer braces changes nothing for a text that parses |
| RelevancePreservation.NaokNeverEvaluates | packages/survey-compiler/src/compile-relevance.ts:39-39 | the NAOK policy compiles to the question but always fails to evaluate |
| RelevancePreservation.UndeclaredChoiceStandsForFirst | packages/survey-compiler/src/compile-with-crosswalk.ts:225-235 | an undeclared choice value compiles to the first option, and that comparison is not safe |
| EquationRelevance.EquationComparisonExactly | packages/survey-compiler/src/compile-with-crosswalk.ts:199-205 | a comparison with an equation question, in either order, is met as it evaluates on the number its variable holds (zero where nothing was calculated), exactly unless the runtime coerces a text literal; always for number literals |
| EquationRelevance.EquationPresenceExactly | packages/survey-compiler/src/compile-relevance.ts:92-136 | presence tests of an equation question and their negations agree with truthiness of its variable exactly off zero |
| EquationRelevance.EquationIsDeclared | packages/survey-compiler/src/compile-formbricks.ts:71-77 | the payload of a clean survey declares every equation question's variable, as a number |
| EquationRelevance.DeclaredVariablesKeepTheirType | packages/survey-compiler/src/compile-formbricks.ts:66-77 | a declared variable keeps its type, whatever equations and references ask for the same variable |
| EquationRelevance.RelevanceReadsWhatRuleWrites | packages/survey-compiler/src/compile-with-crosswalk.ts:199-205 | in a compiled clean survey relevance on an equation question reads the very variable that the calculation rule with its expression, found in one of the blocks, writes |
| LeafAgreement.PresenceAgreesIff | packages/surveys/src/lib/logic.ts:378-401 | presence tests agree with truthiness and emptiness exactly on the answers safe for them |
| LeafAgreement.SingleChoiceComparison | packages/survey-compiler/src/compile-with-crosswalk.ts:207-236 | a compared single choice is decided as written exactly when the resolved option stands for the literal on this answer |
| LeafAgreement.MultipleChoiceComparison | packages/survey-compiler/src/compile-with-crosswalk.ts:207-236 | the same exactly for multiple choice: the runtime is met only if the resolved option alone is selected |
| LeafAgreement.NumberComparison | packages/surveys/src/lib/logic.ts:288-409 | a number answer compares as written exactly unless the runtime coerces a text literal to it |
| LeafAgreement.TextComparison | packages/surveys/src/lib/logic.ts:288-409 | a text answer compares as written exactly unless the runtime coerces it to a number literal |
| LeafAgreement.RankingComparison | packages/surveys/src/lib/logic.ts:288-409 | a ranking equals a text in the runtime exactly when that is its only item |
| LeafAgreement.FailedComparison | packages/surveys/src/lib/logic.ts:288-409 | an ordering that the evaluator cannot apply is met all the same exactly where both sides read as numbers in that order |
| LeafAgreement.AnsweredComparisonExactly | packages/survey-compiler/src/compile-relevance.ts:46-85 | an answered comparison in either operand order, whether it evaluates or fails, is decided as the evaluator has it if and only if it is safe |
| LeafAgreement.ComparisonEvaluates | packages/survey-compiler/src/compile-relevance.ts:27-34 | swapping the operands and reversing the operator keeps the value and the error of a comparison |
| LeafAgreement.ComparisonTruth | packages/survey-compiler/src/compile-relevance.ts:46-85 | a safe comparison, in either operand order, is met as it evaluates, and without an answer exactly if it is a disequality |
| LeafAgreement.ReferenceTruth | packages/survey-compiler/src/compile-relevance.ts:92-125 | a bare reference and its negation read as answered and unanswered |
| LeafAgreement.EmptyCallTruth | packages/survey-compiler/src/compile-relevance.ts:103-136 | an emptiness test and its negation agree with the evaluator on safe answers |
| SurveyReferences.ShownOptionReadsBack | packages/surveys/src/lib/logic.ts:96-176 | a recorded option text is read back as the ID of the option that was answered |
| SurveyReferences.SelectionReadsBack | packages/surveys/src/lib/logic.ts:96-176 | recorded selections are read back as their options' IDs, each once |
| SurveyReferences.RecordedReadsBack | packages/surveys/src/lib/logic.ts:88-186 | what a condition reads for a question, answered or not, of every kind |
| SurveyReferences.FirstMatchIsFirst | packages/survey-compiler/src/compile-with-crosswalk.ts:214-221 | the match is the first option that matches by value, ID, ID suffix or label, and there is none only if no option matches |
| SurveyReferences.MatchesExactly | packages/survey-compiler/src/compile-with-crosswalk.ts:214-221 | an option matches by value, by ID, by an ID that ends in an underscore and the text, or by a label |
| SurveyReferences.ResolutionOrder | packages/survey-compiler/src/compile-with-crosswalk.ts:213-236 | a compared value stands for its first match, else for the option at the one-based index it spells, else for the first option; for nothing only without options |
| RelevanceText.CombineIsConjunction | packages/survey-compiler/src/compile-adaptive-blocks.ts:26-36 | for all texts: group and question relevance both hold exactly when the effective relevance holds and both parts parse or are absent |
| RelevanceText.CombinedText | packages/survey-compiler/src/compile-adaptive-blocks.ts:26-36 | the effective text in every case: one side, the text both share, or the two joined |
| RelevanceText.EmptyIsAbsent | packages/survey-compiler/src/compile-adaptive-blocks.ts:21-24 | an empty relevance counts as an absent one, to compiler and simulator |
| RelevanceText.CombineCountsBlankAsTrue | packages/survey-compiler/src/compile-adaptive-blocks.ts:21-36 | for parts that are absent, blank or parse: the effective relevance parses, and is true exactly when each part that is not blank is |
| RelevanceText.BlankIsTakenForNone | packages/survey-compiler/src/compile-adaptive-blocks.ts:21-24 | a blank relevance compiles like an absent one, though the simulator cannot parse it and hides the question |
| RelevanceText.SplicedTextHolds | packages/survey-compiler/src/compile-adaptive-blocks.ts:35-35 | the group text "true) or (true" does not parse, yet beside the question text "true" the effective relevance parses and holds |
| RelevanceText.CombineReferences | packages/survey-compiler/src/compile-adaptive-blocks.ts:26-54 | for parts that are absent, blank or parse, effective relevance reads exactly the names both parts read |
| RelevanceText.CombineUnconditional | packages/survey-compiler/src/compile-adaptive-blocks.ts:152-153 | effective relevance is unconditional exactly when neither part asks for anything |
| RelevanceText.ConjoinedParses | packages/survey-compiler/src/compile-adaptive-blocks.ts:35-35 | the text "(g) and (q)" parses to the conjunction of the parses |
| RelevanceText.TrimmingKeepsParse | packages/survey-compiler/src/compile-adaptive-blocks.ts:21-24 | trimming a text changes neither its parse nor its error |
| RelevanceText.ScanAppend | packages/survey-compiler/src/expression/tokenizer.ts:21-88 | the front token of a text does not change when a parenthesis or white space follows |
| RelevanceText.UnconditionalHolds | packages/survey-compiler/src/compile-adaptive-blocks.ts:152-153 | an unconditional relevance that parses holds |
| Parser.TernaryExtends | packages/survey-compiler/src/expression/parser.ts:103-120 | a parse is not disturbed by a closing parenthesis after it |
| Expressions.EvaluationIsLocal | packages/survey-compiler/src/expression/evaluator.ts:24-164 | an expression's value depends on nothing but the names it reads |
| Expressions.MinimumAndMaximum | packages/survey-compiler/src/expression/evaluator.ts:124-134 | min and max give the least and the greatest of their arguments, and fail without any or on anything but numbers |
| Segments.SegmentCanonicalBlocks | packages/survey-compiler/src/compile-adaptive-blocks.ts:56-150 | the nested loops that push and extend segments compute the specified segmentation, with its errors |
| Segments.SegmentingConserves | packages/survey-compiler/src/compile-adaptive-blocks.ts:75-134 | segments hold a block's elements in order; each is of one effective relevance with an equation only in front; neighbours could not be joined |
| SegmentConservation.GroupIsSegmented | packages/survey-compiler/src/compile-adaptive-blocks.ts:67-147 | the finished segments of a group hold its elements and its equation rules once and in order, cut only where relevance changes or an equation starts |
| SegmentConservation.LogicConserved | packages/survey-compiler/src/compile-adaptive-blocks.ts:86-105 | the segments hold exactly their block's equation rules, in order |
| SegmentConservation.RulesForEquation | packages/survey-compiler/src/compile-adaptive-blocks.ts:82-90 | filtering a block's rules by an equation's variable finds exactly that equation's rule |
| SegmentConservation.GroupsConserve | packages/survey-compiler/src/compile-adaptive-blocks.ts:67-149 | all segments in order list the questions group by group, in question order |
| SegmentConservation.BlockElementIds | packages/survey-compiler/src/compile-formbricks.ts:86-90 | a compiled block's elements are its group's questions in order |
| SurveySegments.SurveyIsSegmented | packages/survey-compiler/src/compile-adaptive-blocks.ts:67-149 | every segment is one of the survey's, and the segments list its grouped questions once each |
| SurveySegments.OneSegmentEach | packages/survey-compiler/src/compile-adaptive-blocks.ts:67-149 | no question is in two segments |
| SurveySegments.EveryQuestionHasSegment | packages/survey-compiler/src/compile-adaptive-blocks.ts:67-149 | every question whose group exists is in some segment |
| BlockNames.NamesDistinctExactly | packages/survey-compiler/src/compile-with-crosswalk.ts:40-42 | block names are distinct exactly when no group is named like a piece of another group |
| Calculations.EvaluateCalculatedVariables | packages/survey-compiler/src/adaptive.ts:67-163 | the rounds end; values solve the definitions; the trace is exact and ordered: parse failures, then the variables round by round in ID order, each after what it reads, then the cycles in ID order, each a variable that reaches a cycle; the diagnostics are those of the trace, in order |
| Calculations.EveryVariableTracedOnce | packages/survey-compiler/src/adaptive.ts:78-160 | every calculated variable has exactly one trace entry, and nothing else has one |
| Calculations.DeclarationOrderDoesNotMatter | packages/survey-compiler/src/adaptive.ts:109-162 | permuting the declared variables leaves the calculated values unchanged |
| Calculations.TraceDoesNotDependOnOrder | packages/survey-compiler/src/adaptive.ts:109-162 | permuting the declared variables leaves the whole trace after the parse failures unchanged |
| Calculations.RoundOrderIsCanonical | packages/survey-compiler/src/adaptive.ts:110-132 | the order of evaluation and the variables left over depend on neither the order of definitions nor that of the pending set |
| Calculations.MutualReadersReachCycle | packages/survey-compiler/src/adaptive.ts:114-130 | two variables that read each other are both reported as cycles |
| Calculations.EvaluateRound | packages/survey-compiler/src/adaptive.ts:132-159 | one round evaluates and traces exactly the ready variables, in ID order, and takes them out of the pending ones |
| Calculations.VerdictsAreExact | packages/survey-compiler/src/adaptive.ts:110-131 | when nothing is ready, the pending variables are exactly those that reach a cycle |
| Dependencies.SolutionIsUnique | packages/survey-compiler/src/adaptive.ts:132-137 | the definitions determine the values of all variables that reach no cycle |
| Dependencies.StuckReachesCycle | packages/survey-compiler/src/adaptive.ts:111-114 | variables that all wait for one another reach a cycle |
| Variables.DeclareVariables | packages/survey-compiler/src/compile-formbricks.ts:38-81 | the payload's variables are the registered ones, each once, in order of registration |
| Variables.VariableRegistry.Register | packages/survey-compiler/src/compile-formbricks.ts:42-69 | registering returns the ID and declares it unless it is declared already |
| Variables.EquationVariablesAreDeclaredOnce | packages/survey-compiler/src/compile-formbricks.ts:313-345 | every variable an equation rule writes or reads is declared exactly once |
| Simulation.SimulateAdaptiveRoute | packages/survey-compiler/src/adaptive.ts:168-264 | visible groups and questions and the whole route trace are those of the reference semantics on answers overlaid with a solution of the calculations; the calculation trace is exact and ordered, and the diagnostics are those of calculations, groups and questions, in that order |
| Simulation.VisibleExactly | packages/survey-compiler/src/adaptive.ts:214-246 | a question is visible exactly when its group exists and group and question relevance hold |
| Simulation.VisibleOnce | packages/survey-compiler/src/adaptive.ts:214-222 | no question is listed as visible twice |
| Simulation.RelevanceEntryExactly | packages/survey-compiler/src/adaptive.ts:177-246 | a trace entry is true exactly for relevance that holds, and its reason tells a failing evaluation from a plain no |
| Simulation.QuestionEntryExactly | packages/survey-compiler/src/adaptive.ts:214-246 | a question is passed over exactly when its group is missing or not visible, else judged by its own relevance |
| CompiledSurvey.CompileCanonicalToFormbricks | packages/survey-compiler/src/compile-with-crosswalk.ts:23-268 | compiling, pushing entries as IDs are rewritten, gives the specified payload and crosswalk, or the first error |
| CompileSucceeds.CompilesIfAndOnlyIf | packages/survey-compiler/src/compile-with-crosswalk.ts:23-268 | a survey with distinct IDs compiles if and only if all questions its groups show can be shown and their calculations parse, it has an ending, and no conditional segment that a scan reaches is malformed |
| Responding.RunIsLegible | packages/surveys/src/lib/logic.ts:88-186 | at every point of a run the runtime has recorded exactly the answers so far |
| Responding.AnswersComeFromOwnBlock | packages/surveys/src/components/general/survey.tsx:762-762 | after a run a question is answered exactly when its block was visited and answered it there |
| Responding.QuestionElementFound | packages/survey-compiler/src/compile-with-crosswalk.ts:45-154 | the runtime finds, for every question, the element compiled from it |
| Responding.ResponsesFitElements | packages/survey-compiler/src/compile-formbricks.ts:86-300 | every response recorded along a run belongs to a payload element that admits responses of its shape: one text for a single choice, a list for several, a number on scales and in number inputs |
| ElementContents.ElementKindExactly | packages/survey-compiler/src/compile-formbricks.ts:112-300 | which kind of element shows a question of each type, and exactly which questions are refused with which error |
| ElementContents.StoredResponseIsAdmitted | packages/survey-compiler/src/compile-formbricks.ts:227-233 | every fitting answer is stored in a shape the element admits: one text exactly for single-choice elements, a list exactly for multiple-choice ones |
| ElementContents.ElementsListItems | packages/survey-compiler/src/compile-formbricks.ts:234-284 | choices list the options, rows and columns the axes, each once in ascending order with its own ID and texts; other elements list none |
| ElementContents.CompiledTextReads | packages/survey-compiler/src/compile-formbricks.ts:15-18 | a compiled text keeps every language's text; its default is the given one, else the default language's, else the first |
| ElementContents.GroupQuestionsInOrder | packages/survey-compiler/src/compile-formbricks.ts:86-90 | a block shows the questions that name its group, each as often as it is listed, in ascending order |
| ElementContents.SourcesAreReferences | packages/survey-compiler/src/compile-formbricks.ts:20-36 | the references of an equation rule are those of its expression, wherever they stand |
| ElementContents.CompiledReferenceReads | packages/survey-compiler/src/compile-formbricks.ts:315-345 | a reference reads the element of an ordinary question and otherwise a variable; missing values count as zero exactly under NAOK |
| ElementContents.VariableNamedIsFirst | packages/survey-compiler/src/compile-formbricks.ts:320-322 | a name that is no question stands for the first variable with that ID or name |
| ElementContents.PolicyInAnyCase | packages/survey-compiler/src/compile-formbricks.ts:330-330 | the NAOK policy is recognised in any mixture of capitals and small letters |
| Ids.CompiledIdsDecodeUniquely | packages/survey-compiler/src/id-crosswalk.ts:31-94 | no two requests, of one ID builder or of different ones, compile to the same ID |
| Ids.ExternalIdsAreEncodable | packages/survey-compiler/src/contracts.ts:5-9 | every accepted external ID has the fixed-width encoding that uniqueness needs |
| Ids.EncodedInHex | packages/survey-compiler/src/id-crosswalk.ts:31-32 | an external ID is encoded as two hexadecimal digits for every character, in order |
| RoutingIds.RoutingIdsAreDistinct | packages/survey-compiler/src/compile-with-crosswalk.ts:192-192 | all rule, jump, group and condition IDs of one survey's routing are pairwise distinct and none is the ID of a payload entity |
| RoutingIds.TreeIds | packages/survey-compiler/src/compile-relevance.ts:87-160 | the condition IDs of a compiled tree are minted from its paths, in order |
| RoutingIds.JumpRuleIds | packages/survey-compiler/src/compile-adaptive-blocks.ts:196-210 | a jump rule's IDs are minted from its routing path |
| Crosswalk.CrosswalkListsPayload | packages/survey-compiler/src/compile-with-crosswalk.ts:25-268 | whatever compiles, its crosswalk lists exactly the kinds and IDs its payload emits, in order |
| Crosswalk.EntriesTellTheTruth | packages/survey-compiler/src/compile-with-crosswalk.ts:23-180 | every crosswalk entry names a compiled group, question, item or ending, the question an item belongs to, and the ID compiled for just that |
| Crosswalk.NothingMissing | packages/survey-compiler/src/compile-with-crosswalk.ts:250-258 | the loop for missing group entries adds nothing |
| DistinctIds.EmittedOnceExactly | packages/survey-compiler/src/compile-formbricks-artifact.ts:13-47 | for a clean survey the emitted IDs and the crosswalk are duplicate-free exactly when no two blocks have the same name |
| Artifact.CheckArtifact | packages/survey-compiler/src/compile-formbricks-artifact.ts:57-107 | every issue is reported exactly for the keys it is about; no issue means payload and crosswalk name the same entities, each once |
| Artifact.CleanArtifactAccepted | packages/survey-compiler/src/compile-formbricks-artifact.ts:57-107 | the artifact of a clean survey is accepted exactly when no group is named like a piece of another group |
| Artifact.FormatInjective | packages/survey-compiler/src/compile-formbricks-artifact.ts:49-49 | a key determines kind and ID |
| Validation.GetDuplicateIds | packages/survey-compiler/src/validate-canonical-survey.ts:3-13 | the IDs that occur more than once, ascending, each once |
| Validation.ValidateReferences | packages/survey-compiler/src/validate-canonical-survey.ts:29-77 | reports exactly the faults there are: repeated IDs, missing groups, repeated options and an undeclared default language; so nothing exactly for clean surveys |
| Validation.CleanSurveyIsDistinct | packages/survey-compiler/src/validate-canonical-survey.ts:31-46 | no diagnostics means groups, questions and endings are distinct and apart from variables |
| SegmentWalk.BuildSurveyInteractionRefreshMap | packages/types/segment.ts:480-529 | a delivered survey carries an event's bit exactly when that interaction can affect some survey through nested groups and segment references, cyclic ones included; the flag says whether any bit is set |
| SegmentWalk.RefreshMap.Walk | packages/types/segment.ts:507-521 | a walk that shares its visited set ends, applies only leaves the filters reach and closes everything it visits |
| SegmentWalk.RefreshMap.ApplyLeaf | packages/types/segment.ts:494-505 | a leaf sets its bit on exactly the delivered surveys it covers |
| SegmentWalk.ClosedIsComplete | packages/types/segment.ts:507-521 | a closed collection that starts from the filters misses no leaf they reach |
| SegmentWalk.SourceFlips | packages/types/segment.ts:437-447 | the event noted for an operator is the one, and the only one, that can change whom it selects |
| SegmentWalk.LeavesStandSomewhere | packages/types/segment.ts:507-521 | the leaves and references of a filter tree are those found along some path of positions through nested groups |
| Encoding.RepairUndoesExactly | packages/survey-compiler/src/encoding-utils.ts:35-64 | repairing text that crossed the UTF-8/Windows-1252 boundary one to three times gives it back exactly when it is ASCII, or a crossing leaves a trigger character, it has no leading byte order mark and (short of three crossings) it has no trigger itself, or a character no byte reads as, or bytes that are not UTF-8 |
| Encoding.ThreeCrossingsAreUndone | packages/survey-compiler/src/encoding-utils.ts:40-62 | of more than three crossings exactly three are undone |
| Encoding.CleanStaysExactly | packages/survey-compiler/src/encoding-utils.ts:38-63 | text that never crossed stays as it is exactly when it has no trigger character, or a character no byte reads as, or its bytes are not UTF-8 |
| Encoding.StopsExactly | packages/survey-compiler/src/encoding-utils.ts:41-58 | a pass stops exactly at such text; that decoding gives back the very same text never happens |
| Encoding.MangledIsUndamaged | packages/survey-compiler/src/encoding-utils.ts:39-39 | the restored control character never concerns text that was really mangled |
| Encoding.RestoredIsMangled | packages/survey-compiler/src/encoding-utils.ts:39-39 | the text put back is what mangling a Vietnamese letter leaves, and the damaged text is that without its control character |
| Encoding.RestoredEverywhere | packages/survey-compiler/src/encoding-utils.ts:39-39 | every occurrence of the damaged text is restored, wherever it stands, and the text around it as if it stood alone |
| Encoding.TriggeredExactly | packages/survey-compiler/src/encoding-utils.ts:42-42 | a crossing leaves a trigger character exactly for text with a character from U+0080 to U+017F or from U+1000 to U+1FFF |
| Encoding.PassShortens | packages/survey-compiler/src/encoding-utils.ts:56-58 | every pass that changes a text shortens it |
| Encoding.RepairCorruptedEncoding | packages/survey-compiler/src/encoding-utils.ts:35-64 | the nested loops with their early exits compute the specified repair |
| Encoding.ByteReadsBack | packages/survey-compiler/src/encoding-utils.ts:1-29 | every byte read as Windows-1252 maps back to itself |
| Encoding.FiveControls | packages/survey-compiler/src/encoding-utils.ts:1-29 | exactly five bytes have no character of their own; bytes outside 0x80 to 0x9F stand for themselves |
| Utf8.DecodeEncode | packages/survey-compiler/src/encoding-utils.ts:56-56 | decoding undoes encoding |
| Utf8.EncodeDecode | packages/survey-compiler/src/encoding-utils.ts:56-56 | the strict decoder accepts no second spelling: what decodes is the encoding of its result |
| JobsWorker.StartsAtMostOnce | apps/web/instrumentation-jobs.ts:187-238 | in every interleaving at most one start is under way, at most one ever succeeds, never both, and no timer is live beside a live runtime |
| JobsWorker.FieldIsLiveTimer | apps/web/instrumentation-jobs.ts:128-150 | in every run the timer field holds the one timer that is set and neither fired nor cleared, and is empty exactly when there is none |
| JobsWorker.FiringLeavesNoTimer | apps/web/instrumentation-jobs.ts:144-147 | after a firing no timer is live, and the field is empty, until a failure is caught |
| JobsWorker.NothingStartsAfterSuccess | apps/web/instrumentation-jobs.ts:196-198 | once the runtime lives nothing is started any more |
| JobsWorker.FailureIsAttended | apps/web/instrumentation-jobs.ts:232-236 | after a failure, as long as registrations see the jobs enabled, there is always a live runtime, a start under way or a live timer |
| JobsWorker.GivenUpExactly | apps/web/instrumentation-jobs.ts:190-194 | the only way to be given up is a disabled registration that cancels the last pending retry |
| JobsWorker.DisabledForgetsRetry | apps/web/instrumentation-jobs.ts:190-194 | one disabled registration does leave nothing to restart the worker |
| JobsWorker.Registration.Register | apps/web/instrumentation-jobs.ts:187-202 | registering clears, returns, awaits or starts, as the state demands |
| JobsWorker.Registration.CatchFailure | apps/web/instrumentation-jobs.ts:232-236 | catching a failure clears the promise and schedules a retry unless one is pending |
| JobsWorker.Registration.RetryTimeoutFires | apps/web/instrumentation-jobs.ts:144-147 | a firing timer clears itself and registers again |
| JobsWorker.Registration.Succeed | apps/web/instrumentation-jobs.ts:218-228 | success clears the timer, marks the result and drops the promise |
| ModelCache.CacheHoldsMostRecent | packages/ai/src/provider.ts:92-117 | after any calls and resets the cache holds exactly the most recently used distinct keys since the last reset, up to 50, in order of last use |
| ModelCache.SameModelExactly | packages/ai/src/provider.ts:211-223 | two successive uses of a key return the same model exactly when no reset came in between and fewer than 50 distinct other keys were used |
| ModelCache.StaysCachedExactly | packages/ai/src/provider.ts:107-114 | a key stays cached exactly while there is no reset and fewer than 50 other keys are used |
| ModelCache.LanguageModelCache.GetAiModel | packages/ai/src/provider.ts:211-223 | a hit moves the entry to the end; a miss creates and stores, and a failing creation changes nothing |
| ModelCache.LanguageModelCache.GetCached | packages/ai/src/provider.ts:92-103 | a hit deletes and re-inserts the entry |
| ModelCache.LanguageModelCache.SetCached | packages/ai/src/provider.ts:105-117 | storing a new key in a full cache evicts the first one |
| NullableCache.ReturnedWasProduced | packages/cache/src/service.ts:285-314 | in every interleaving of calls, expiries, failures, late and lost writes, corrupt entries and unmarked foreign writes, whatever a call returns, null included, some call's function returned for that key |
| NullableCache.FreshAnswerIsServed | packages/cache/src/service.ts:306-313 | what a caching call's function returns, null included, is sent; once that write lands, every successful read returns that very value until something touches the key |
| NullableCache.WritesAreAccountedFor | packages/cache/src/service.ts:306-313 | pending writes change by exactly one box for each fresh value of a caching call, null included, and by what lands or is lost |
| NullableCache.CachesExactly | packages/cache/src/service.ts:290-297 | in every run a call may write what it computes exactly if it began with a usable cache |
| NullableCache.CallsKeepToThemselves | packages/cache/src/service.ts:285-314 | only its own events touch a call: a read answers with what a marked box holds, else it computes; it ends as its function does |
| NullableCache.NullIsNeverStored | packages/cache/src/service.ts:360-384 | in every interleaving a key that does not hold a raw null never comes to hold one, as long as no other writer writes one |
| NullableCache.LandedAnswerIsReturned | packages/cache/src/service.ts:294-304 | a landed answer, null included, is returned by reads until something touches the key |
| NullableCache.CacheService.BeginCall | packages/cache/src/service.ts:285-292 | a call starts by reading if the cache is usable, else by computing without caching |
| NullableCache.BoxReadsBack | packages/cache/src/service.ts:331-338 | a box is recognised and gives back the value it was made from |
| NullableCache.RecognisedExactly | packages/cache/src/service.ts:331-338 | an entry is recognised exactly by the two fields that boxing writes |
| NullableCache.CacheService.CompleteFunction | packages/cache/src/service.ts:306-313 | a fresh answer is returned and sent to the store in a box unless it is undefined |
| NullableCache.CacheService.CompleteRead | packages/cache/src/service.ts:294-304 | a marked box is the answer; anything else means computing |
| CubeRewrite.RewriteSelects | docker/cube/cube.js:224-258 | an accepted query on feedback records selects exactly the context tenant's rows that the caller's filters mean under normalised matching, at any and/or depth |
| CubeRewrite.AcceptedExactly | docker/cube/cube.js:91-121 | a query is accepted exactly in a valid context and when it mentions the tenant member nowhere, at any depth |
| CubeRewrite.ValidContextExactly | docker/cube/cube.js:91-114 | a context is valid exactly when it carries all eight claims, the query scope, and one tenant as tenant and feedback directory |
| CubeRewrite.NormalizingKeepsMeaning | docker/cube/cube.js:186-214 | a rewritten filter is satisfied exactly as the original is meant |
| CubeRewrite.NormalizingIsIdempotent | docker/cube/cube.js:186-214 | normalising twice equals once |
| CubeRewrite.CompanionsAreNamed | docker/cube/cube.js:174-182 | exactly the seven text dimensions are mapped, each to the companion that bears its name |
| CubeRewrite.CollectedIsMentioned | docker/cube/cube.js:36-89 | the collected members are exactly those mentioned anywhere in the query |
| Colors.TextIsReadable | packages/types/colors.ts:111-122 | on every surface the chosen text colour has at least the contrast asked for, as long as its square does not exceed 21 (4.5 included) |
| Colors.BoundIsSharp | packages/types/colors.ts:121-121 | beyond the square root of 21 some luminance defeats both black and white |
| Colors.PolesMultiplyTo21 | packages/types/colors.ts:96-102 | the contrasts of black and white with any surface multiply to 21 |
| Colors.LuminanceRange | packages/types/colors.ts:80-92 | luminance lies between 0 and 1 for every colour text |
| Colors.FullFormReadsBack | packages/types/colors.ts:18-42 | three channels written out in six digits, with or without # and an alpha channel, parse to those channels |
| Colors.ShortFormIsDoubled | packages/types/colors.ts:21-25 | the three- and four-digit forms stand for their first three digits doubled |

## Left out

- Evaluator limits: depth 200 and 10000 operations are not counted, so expressions beyond them evaluate here.
- Names of inherited object properties such as `constructor` in operator position, which the parser's lookup
  table would find, are ordinary identifiers here.
- Array answers are compared by content; the evaluator compares them by identity, so equality of two array
  references is not modelled as the host language decides it.
- Rounding, infinities and NaN of double-precision numbers.
- Matrix answers as records, and the runtime's date, file-upload, consent and picture-selection branches; matrix
  elements and their IDs are modelled.
- Unary and binary operators the relevance compiler rejects are modelled as errors without their messages.
- Diagnostic texts, names, labels beyond what options are recognised by, help, validation rules, styling and the
  value maps of equation references.
- Evaluating equation rules at run time: their results are arbitrary values in a run, because relevance that
  reads equations is outside the agreement theorem.
- Number inputs record the text that was typed; the model records the number, which conditions read alike.
- Going back, prefilled answers and hidden fields in the survey runtime.
- Lone surrogates in texts: strings are sequences of Unicode scalar values.
- compileConditionalGroupRouting, which nothing in the compiler calls.
- Importers, serialisation, hashing, lifecycle tables and compatibility reports of the survey compiler.
- The registration of handlers and schedules in the jobs worker, and its reset for tests; two starts of one
  process are told apart by number only.
- Validity of configuration and environment in the language-model provider; a failed configuration changes
  nothing.
- Expiry times, key validation and connection checks of the cache service are outcomes of events; values are
  JSON values, so what serialisation would change is not modelled.
- Audit logging of rewritten queries, the database's null semantics, and filter objects with both and/or parts,
  of which the model gives the "and" the meaning.
- mixColor and ensureReadable: their results hinge on rounding of repeatedly added weights.
- refineFilters: its result is overwritten by later groups.
- Agreement.CompilerAgreesExactly: shown and visible questions agree as lists without repetition up to order;
  blocks follow group order while the simulator lists all questions by question order.
- NullableCache.ReturnedWasProduced: reading an entry and acting on it is one atomic step.
