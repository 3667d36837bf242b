# Verified model of the registration platform's core algorithms

The platform sells event registrations: it prices them by rules over form answers, settles
payments and sponsorships, runs background jobs, shapes API responses and names exported files.
This Dafny project models the parts of it where a mistake would be silent, and proves what they
promise on every input, every run or every reachable state. It verifies on its own with
`dafny verify dfyconfig.toml`.

Each component has its own modules:

- **Conditions** (`JsValues`, `Conditions`, `EvaluatorLaws`, `FieldPairs`, `ConditionGuard`, `JsonText`,
  `ConditionSignature`, `MergedRules`): the strict rule evaluator over JavaScript values, the guard
  that reports conditions which can never all hold, and the fingerprint that decides whether a rule
  changed.
- **Regex safety** (`RegexSafety`, `RegexPrinter`): the star-height parser as it runs, with one
  shared position, and its exactness on everything a pattern tree prints as.
- **Money and settlement** (`MoneyArithmetic`, `Money`, `Settlement`, `AccessDrops`,
  `SponsorshipMath`): decimal amounts kept in doubles, the payment status machine, dropping access
  items, and what sponsorship codes pay. The settlement layer counts in units of 1/10000; `Money`
  shows how far the doubles keep such units exactly.
- **Row locks** (`RowLocks`): the lock-first protocol for any number of transactions.
- **Jobs** (`JobRunnerSpec`, `JobRunner`): the runner and its pollers as a state machine over
  every interleaving of ticks, timeouts, settlements and a two-phase stop. The methods of the runner
  are specified by the trace, that is by which runs started, were aborted and settled.
- **Response contracts** (`SchemaCheck`, `ResponseContract`, `ProjectionLaws`, `ConformingValues`):
  the walk that licenses a possibly cyclic schema graph, and the projection of any value onto it.
- **Image cache** (`ByteLruCache`, `ByteLruRuns`, `ImageLoader`): the byte-bounded cache of template
  images and the loader that shares downloads in progress.
- **Invalid-bearer lockout** (`BearerLockout`, `BearerLockoutRuns`, `VenueMemory`), **key rotation**
  (`NetworkingKeys`, `NetworkingKeyring`, `KeyRotation`), **session options** (`SessionOptions`,
  `SessionSettings`, `SessionLaws`, `SessionMeaning`, `PinnedSettings`) and **unique names**
  (`UniqueNames`, `SheetNameRules`).

`Prelude`, `Sequences`, `OrderedMap`, `JsText`, `Numerals` and `Doubles` hold what several of them
share.

Code that changes state step by step is a class or a method with a loop; its contract equates the
new state with a specification function, and the theorems are about that function. Primitives of
the host whose tables do not matter (number text, case folding, rounding, hashing) are function
parameters constrained by a predicate that states the law relied on: `JsValues.Lawful`,
`Money.RoundsToNearest`, `NetworkingKeyring.HexOutput` and `Injective`,
`SessionSettings.LowersNames`, `UniqueNames.LowersAround` and `SheetNameRules.NeverShortens`.
Laws about numbers range over doubles, NaN and the infinities only. `Hosts` exhibits, for each law,
a host that keeps it, so no theorem here is empty.

## Where the code promises more than it does

The proofs also pin down where a stated promise fails. The code is modelled as it is; a lemma gives
a failing input, and the lemmas named after it give the exact condition under which the promise
holds.

- The guard's rules for `is_empty` with `equals`, for `equals` with `in` and for `in` with `in` are
  wrong for some stored values outside the condition schema: `OutsideTheSchemaThePairIsSatisfiable`
  with `PairReportedExactly` for the first two, `UntypedListsMeet` with `DisjointInInExactly` for the
  third.
- The fingerprint merges values that act differently: lists that differ in null, in undefined or in
  their joined text, and an object with a numeral. `UntypedListsCollide`; `SignatureExactly` says
  what is merged, `MergedActAlikeExactly` and, operator by operator, `ActAlikeExactly` say when what
  is merged acts alike.
- A repetition bound too large for a double reads as Infinity and passes the size limit:
  `HugeBoundPasses`; `LimitExactly`.
- Money is exact up to 2^39 and 0.0002 units of currency and not one step further:
  `AdditionDrifts`; `ExactRangeIsSharp`.
- Drops of items with a negative subtotal need not commute: `NegativeLinesDoNotCommute`. For any
  lines the sponsorship left is the least of the first one and of every cap on the way
  (`DropsInTurn`), so two orders agree exactly when their least caps do (`OrdersAgreeExactly`), and
  capping step by step comes to capping once exactly when no cap on the way is below the result
  (`CappedOnceExactly`).
- An access id listed twice on a sponsorship is paid twice, out of the form options:
  `RepeatedIdPaysForOptions`. The coverage is that of the set of ids exactly when every repeated id
  is worth nothing (`CoverageIsOfTheSetExactly`); `ExceedsLimitExactly` says when a code pays more
  than the limit.
- The key `__proto__` is lost from projected records and from objects that declare it, and not
  reported: `ProtoKeyLostSilently`; `UnchangedExactly`. Where that assignment replaces a prototype a
  second projection differs from the first, and nowhere else: `ProjectingTwiceExactly`.
- Storage errors are said to leave nothing cached. If the storage cannot even be had when a download
  of a key starts, the failed promise is kept, and every later request of that key gets it: `Serve`;
  `Request` says exactly when a request downloads.
- The comment on the lockout says that tokens are counted by distinct token. A venue remembers only
  `recentTokens` of them, so with the shipped sizing 65 stale tokens retried in turn lock a venue:
  `DefaultsLockAtSixtyFive`; `CanLockExactly`.
- Under a kid that is not well formed a MAC is a lookup candidate but never verifies:
  `MalformedKidNeverVerifies`; candidates and verifying texts coincide exactly when every kid usable
  for the purpose is well formed, `CandidatesVerifyExactly`.
- URL options disarm the pinned statement timeout if the last token carried over from them ends in a
  dangling backslash (`DanglingLosesTimeout`) or if they end in a `-c` without its argument. For
  every URL the timeout is in force exactly when neither is so (`TimeoutHoldsExactly`), and exactly
  then every other setting keeps its meaning as well (`MeaningKeptExactly`). The time zone and the
  idle timeout hold on every URL (`OthersAlwaysHold`).
- Worksheet names may still begin or end with an apostrophe: `ApostropheReturns`. A name does only
  as its base does and if no number takes its place (`QuotesExactly`). The base does if the fallback
  does, if the last trim uncovers an apostrophe (`CleanedQuotesExactly`) or if the cut at 31
  characters falls behind one (`BaseQuotesExactly`). The fallback alone can make a name empty or
  reserved: `EmptyExactly`, `ReservedExactly`.

Two documents of the repository differ on the lock order. The comment in `packages/db/src/locks.ts`
puts the event first, before sponsorships; `packages/db/README.md` (lines 55-67) starts at
sponsorships, has other writers reach the event row last through its counter, and allows the event
lock only in transactions that lock no sponsorship, registration or abstract row. Freedom from
deadlock is proved for any one order of the tables, so for each of the two on its own;
`MixedOrdersCanDeadlock` shows that they cannot be mixed.

## Model

| member | source | states |
|---|---|---|
| JsValues.JoinHasComma | packages/contracts/src/condition-satisfiability.ts:148-155 | the text of an array of two or more elements always holds a comma (ECMA-262 section 23.1.3.18), the fact the guard's comma side condition rests on |
| JsValues.IncludesTransitive | packages/contracts/src/condition-satisfiability.ts:230-240 | a text that includes a second one includes whatever that one includes |
| EvaluatorLaws.AndExactly | packages/shared/src/conditions.ts:134-151 | under AND one condition more is one demand more, and an empty list holds |
| EvaluatorLaws.OrExactly | packages/shared/src/conditions.ts:134-151 | under OR one condition more is one chance more, and an empty list fails |
| EvaluatorLaws.OtherLogicFails | packages/shared/src/conditions.ts:139-142 | any other logic fails |
| EvaluatorLaws.TextsOfValues | packages/shared/src/conditions.ts:50-64 | the text a value is compared by, lists and their null elements included |
| EvaluatorLaws.TextAnswers | packages/shared/src/conditions.ts:87-127 | what `equals`, `not_equals`, `contains`, `not_contains`, `is_empty` and `is_not_empty` say of a text answer, in terms of the two texts |
| EvaluatorLaws.NothingToContain | packages/shared/src/conditions.ts:101-109 | `contains` without a value holds of every text |
| EvaluatorLaws.ChoiceAnswers | packages/shared/src/conditions.ts:65-105 | `in` holds of one answer that is listed, and of several ticked at once if one of them is |
| EvaluatorLaws.NumberAnswers | packages/shared/src/conditions.ts:110-119 | `greater_than` and `less_than` compare the numbers strictly, in that direction |
| EvaluatorLaws.MissingAnswers | packages/shared/src/conditions.ts:87-127 | a missing answer satisfies `is_empty`, `not_equals` and `not_contains` and nothing else but its own `equals` |
| EvaluatorLaws.MissingNumbers | packages/shared/src/conditions.ts:110-119 | no comparison holds of a missing answer |
| EvaluatorLaws.UnknownNeverHolds | packages/shared/src/conditions.ts:124-126 | an operator outside the nine stored names holds of nothing |
| ConditionGuard.PairReportedExactly | packages/contracts/src/condition-satisfiability.ts:182-259 | a reported pair of conditions is contradictory on every value whatsoever if and only if the stored values' texts agree with what the rule read into them |
| ConditionGuard.EqualAndInMeetInTheList | packages/contracts/src/condition-satisfiability.ts:144-166 | any value, array or not, that equals a comma-free text and matches a list shows that some listed element reads as that text |
| ConditionGuard.OutsideTheSchemaThePairIsSatisfiable | packages/contracts/src/condition-satisfiability.ts:194-200 | `is_empty` with `equals []` is reported, and the empty string satisfies both |
| ConditionGuard.SchemaShapedTextsAgree | packages/contracts/src/condition.schema.ts:27-75 | for conditions the schema accepts, the texts always agree |
| ConditionGuard.DecidedPairsExactly | packages/contracts/src/condition-satisfiability.ts:182-240 | on six kinds of pair of schema-shaped conditions, in either order, the guard reports exactly the contradictions: nothing satisfiable is reported and nothing contradictory is missed |
| ConditionGuard.RangeReportedExactly | packages/contracts/src/condition-satisfiability.ts:217-228 | a lower and an upper bound are reported, in either order, if and only if no real number lies strictly between them |
| ConditionGuard.InInIsContradictory | packages/contracts/src/condition-satisfiability.ts:168-176 | only a value with two or more elements matches two disjoint `in` lists |
| ConditionGuard.DisjointInInExactly | packages/contracts/src/condition-satisfiability.ts:168-176 | for any stored lists the rule finds disjoint, no scalar and no list of at most one element matches both if and only if no element of one and none of the other are the same null or undefined or have one text |
| ConditionGuard.UntypedListsMeet | packages/contracts/src/condition-satisfiability.ts:168-176 | `in ["x", true]` and `in ["y", true]` are found disjoint, and `true` matches both |
| FieldPairs.GroupByKey | packages/contracts/src/condition-satisfiability.ts:306-317 | groups indices by key in first-mention order, each group holding exactly the indices with its key, ascending |
| FieldPairs.ComparedExactly | packages/contracts/src/condition-satisfiability.ts:319-354 | what comparing within keys finds is exactly what some pair of indices with one non-empty key gives |
| ConditionGuard.FindConditionConflicts | packages/contracts/src/condition-satisfiability.ts:272-362 | the loops compute the specified report |
| ConditionGuard.ReportExactly | packages/contracts/src/condition-satisfiability.ts:272-362 | the report lists every empty `in` and every conflicting pair of one named field, and nothing else |
| ConditionGuard.ConflictTells | packages/contracts/src/condition-satisfiability.ts:272-362 | a conflict names its conditions in order, with their field and their values |
| ConditionGuard.PairReasonNames | packages/contracts/src/condition-satisfiability.ts:182-259 | the reason of a conflict fits the operators of the two conditions it names |
| ConditionGuard.NothingDecidedIsMissed | packages/contracts/src/condition-satisfiability.ts:319-354 | under AND every contradictory pair of one named field that is of a decided kind is in the report |
| ConditionGuard.EmptyInIsReported | packages/contracts/src/condition-satisfiability.ts:285-304 | under AND every `in` with an empty list is in the report |
| ConditionGuard.OnlyAndIsGuarded | packages/contracts/src/condition-satisfiability.ts:272-281 | under any other logic nothing is reported |
| ConditionGuard.InInNeedsOption | packages/contracts/src/condition-satisfiability.ts:338-344 | a report on two `in` conditions is about a field the caller named as single-valued |
| ConditionGuard.InInReportedExactly | packages/contracts/src/condition-satisfiability.ts:338-344 | on such a field two schema-shaped `in` conditions are reported if and only if no single-valued answer satisfies both |
| ConditionGuard.ReportedPairNeverHolds | packages/contracts/src/condition-satisfiability.ts:319-352 | of two schema-shaped conditions reported together, no value of the field satisfies both (for `in`/`in`: no scalar and no list of at most one element) |
| ConditionGuard.GuardIsSound | packages/contracts/src/condition-satisfiability.ts:1-11 | one report about schema-shaped conditions under AND that applies to the form (an `in`/`in` report applies where its field holds a scalar or at most one element, every other one always) makes the evaluator false on it |
| ConditionGuard.EveryReportRefutes | packages/contracts/src/condition-satisfiability.ts:1-11 | if the fields the caller names are single-valued in the form, any report at all makes the evaluator false on it; where none are named, on every form |
| JsonText.EscapesDenote | packages/contracts/src/condition-satisfiability.ts:372-379 | every escape the JSON text holds denotes its character to a JSON reader (RFC 8259 section 7) |
| JsonText.StringifyInjective | packages/contracts/src/condition-satisfiability.ts:372-379 | two nested lists of strings with the same JSON text are equal |
| ConditionSignature.KeyExactly | packages/contracts/src/condition-satisfiability.ts:364-379 | two values get the same key if and only if they are the same up to the text of a scalar |
| ConditionSignature.SignatureExactly | packages/contracts/src/condition-satisfiability.ts:381-410 | equal signatures if and only if same logic and, position by position, same field, operator and value image |
| ConditionSignature.SameImageActsAlike | packages/shared/src/conditions.ts:87-127 | 300 and "300", and every other pair with one image, act alike under every operator on every value |
| ConditionSignature.UnchangedSignatureUnchangedRule | packages/shared/src/conditions.ts:134-151 | condition sets with equal signatures evaluate alike on every form data |
| ConditionSignature.RoundTripKeepsSignature | packages/contracts/src/condition-satisfiability.ts:381-387 | turning every scalar into its text, as a save does, keeps the signature |
| ConditionSignature.UntypedListsCollide | packages/contracts/src/condition-satisfiability.ts:372-379 | `in [null]` and `in ["null"]` share a signature and differ on a missing answer |
| MergedRules.ActAlikeExactly | packages/shared/src/conditions.ts:87-127 | two conditions with one operator act alike on every value if and only if their values agree in what that operator reads: the text, the set of listed texts with null and undefined, or the bound that some double can pass |
| MergedRules.MergedActAlikeExactly | packages/contracts/src/condition-satisfiability.ts:372-379 | two conditions with one fingerprint act alike if and only if, operator by operator, their lists agree in text or in members, and no object stands where a numeral does unless no number can tell |
| MergedRules.AlikeRulesEvaluateAlike | packages/contracts/src/condition-satisfiability.ts:381-410 | whole rules with one fingerprint whose values are alike position by position evaluate alike on every form data |
| RegexSafety.Parser.Run | packages/shared/src/regex-safety.ts:43-148 | the parser with its shared position returns, or throws, exactly as the functional parse of the whole text |
| RegexSafety.Parser.Sequence | packages/shared/src/regex-safety.ts:130-143 | one group level: the height found and the position left are those of the functional parse |
| RegexSafety.Parser.Quantifier | packages/shared/src/regex-safety.ts:91-127 | whether a quantifier repeats, how far it reaches, and the throw for an oversized bound |
| RegexPrinter.SequenceReads | packages/shared/src/regex-safety.ts:48-143 | in front of any following text, a printed tree merges its star height into the running maximum, or fails the parse |
| RegexPrinter.ParserExact | packages/shared/src/regex-safety.ts:43-148 | the parser consumes every printed pattern and returns its star height, and fails exactly when a bound is oversized |
| RegexPrinter.SafeExactly | packages/shared/src/regex-safety.ts:26-41 | a printed pattern is let through if and only if it compiles, nests no repetition and has no oversized bound |
| RegexPrinter.UnbalancedFails | packages/shared/src/regex-safety.ts:26-41 | a printed pattern with a parenthesis too many, whatever follows, or an opening one too many in front is refused |
| RegexPrinter.LeadingBracketIsLiteral | packages/shared/src/regex-safety.ts:43-148 | a class that begins with `]` goes on to the next one |
| RegexPrinter.TwentyFiveIsRead | packages/shared/src/regex-safety.ts:19 | `a{n}` is refused if and only if n exceeds 25 |
| RegexPrinter.ReadableBoundsExactly | packages/shared/src/regex-safety.ts:105-118 | while bounds are below the range of doubles, oversized means that some finite bound exceeds 25 |
| RegexPrinter.LimitExactly | packages/shared/src/regex-safety.ts:105-118 | the parser fails exactly when some finite bound exceeds 25, if and only if no upper bound is too large for a double or some bound is caught elsewhere in the pattern |
| RegexPrinter.HugeBoundPasses | packages/shared/src/regex-safety.ts:105-118 | a bound of 10^342 or more is read as Infinity and accepted |
| MoneyArithmetic.SumOverflowsExactly | packages/shared/src/money.ts:28-33 | a sum of readable amounts throws if and only if it leaves the safe range |
| MoneyArithmetic.ProductOverflowsExactly | packages/shared/src/money.ts:39-44 | a product throws if and only if its quantity or its result leaves the safe range |
| MoneyArithmetic.UnreadableThrows | packages/shared/src/money.ts:28-33 | an amount that cannot be read makes the sum throw |
| MoneyArithmetic.NoDrift | packages/shared/src/money.ts:28-44 | any nesting of sum, subtract and multiply within the exact range gives the double of the exact result |
| MoneyArithmetic.RegroupingIsFree | packages/shared/src/money.ts:28-44 | two computations of one amount, however grouped, give the same double |
| Money.ReadsBack | packages/shared/src/money.ts:13-22 | every amount up to 2^39 in 1/10000 units is read back from its double exactly, under any nearest rounding |
| Money.OnlyAmountsAreRead | packages/shared/src/money.ts:13-22 | what is read as an amount is in the safe range and was the double of that amount |
| Money.MoneyNeverDrifts | packages/shared/src/money.ts:13-44 | nested money arithmetic in doubles reads back as the exact result, independent of grouping |
| Money.ExactRangeIsSharp | packages/shared/src/money.ts:13-22 | all amounts from 0 to a top survive if and only if the top is at most 549755813888.0002 |
| Money.AdditionDrifts | packages/shared/src/money.ts:28-33 | 549755813888 plus 0.0003 is read back as 549755813888.0002 |
| Settlement.DerivesExactlyValidAmounts | packages/shared/src/settlement.ts:100-144 | a derivation throws exactly when an amount is negative or beyond the largest safe integer of units; no intermediate sum can overflow |
| Settlement.DerivedMeaning | packages/shared/src/settlement.ts:107-144 | the sponsorship applied is the given one up to gross, gross is sponsorship plus net, and each derived status holds exactly for the amounts it stands for |
| Settlement.PaidAtMeaning | packages/shared/src/settlement.ts:117-142 | a sticky status keeps its payment date; a derived PAID or SPONSORED has the old date or, if there was none, the present time; any other has none |
| Settlement.CalculatedMeaning | packages/shared/src/settlement.ts:29-42 | what amount due, net, settled and partially paid mean for any amounts, negative ones included |
| Settlement.AgreesWithCalculation | packages/shared/src/settlement.ts:29-42 | net, due, settled and partially-paid agree with the plain calculation on uncapped inputs, which overflows exactly when paid plus sponsorship does |
| Settlement.DerivationIsStable | packages/shared/src/settlement.ts:117-119 | deriving again from the result at any time changes nothing |
| Settlement.StepIsAutomatic | packages/shared/src/settlement.ts:59-74 | each recomputation keeps the status or makes an automatic transition, and never touches a sticky one |
| Settlement.TransitionsExactly | packages/shared/src/settlement.ts:59-74 | the table of automatic transitions lists exactly the status changes that some amounts bring about |
| Settlement.StickyForever | packages/shared/src/settlement.ts:48-57 | over any run, once a status is sticky nothing changes any more |
| Settlement.PaidAtFollowsStatus | packages/shared/src/settlement.ts:114-119 | along any run of recomputations the payment date is missing exactly in PENDING and PARTIAL, from the first successful derivation on |
| AccessDrops.OneDrop | packages/shared/src/settlement.ts:201-229 | a drop leaves the remainder without that id and records the first line with it |
| AccessDrops.DropTells | packages/shared/src/settlement.ts:201-229 | a drop gives nothing exactly when no line has the id; else it records the line it returns, and the amounts it returns are those of the new breakdown |
| AccessDrops.RemainingTwice | packages/shared/src/settlement.ts:155-170 | one drop after others leaves what dropping them together does, with the sponsorship capped once more if the drop removes a line |
| AccessDrops.DropsInTurn | packages/shared/src/settlement.ts:193-229 | any drops of any lines in turn, repeated ids and negative lines included, leave the remainder without those ids, the least of the first sponsorship and of every cap on the way, and each time the first line then left with the id on record |
| AccessDrops.CappedOnceExactly | packages/shared/src/settlement.ts:213-221 | capping the sponsorship step by step comes to capping it once if and only if no cap on the way is below the result |
| AccessDrops.OrdersAgreeExactly | packages/shared/src/settlement.ts:193-229 | two orders of the same ids leave the same breakdown up to its records if and only if the least caps on their ways agree, for any lines |
| AccessDrops.DropsCommute | packages/shared/src/settlement.ts:193-229 | with no negative line two orders of the same drops leave the same items, gross, sponsorship and net, and the same records up to order |
| AccessDrops.DropsConserve | packages/shared/src/settlement.ts:178-229 | after any drops of any lines that removed something: the items are the rest, gross is base, items and options and splits into sponsorship and net, and the sponsorship is at most gross, at most base plus items and at most what it was |
| AccessDrops.SponsorshipLeft | packages/shared/src/settlement.ts:193-229 | with no negative base or line, the sponsorship left is the old one up to base plus remaining items and up to the remaining price, no less |
| AccessDrops.DropsStayInRange | packages/shared/src/settlement.ts:207-221 | from a breakdown in the safe range, with no negative base or line, no sum a drop forms can throw, and the remainder is such a breakdown again |
| AccessDrops.NegativeLinesDoNotCommute | packages/shared/src/settlement.ts:201-229 | an example of the failure that OrdersAgreeExactly describes: with a negative line two orders end with different sponsorships |
| AccessDrops.PaidAccessQuantities | packages/shared/src/settlement.ts:246-263 | the loop computes the seats held, by status and coverage; HeldExactly says what they are |
| AccessDrops.HeldExactly | packages/shared/src/settlement.ts:240-263 | each id holds the sum of the quantities of its lines that hold seats (all when PAID, SPONSORED or WAIVED, the covered ones when PARTIAL or VERIFYING, none when PENDING or REFUNDED), and is listed if and only if one does |
| AccessDrops.DropsFreeTheirSeats | packages/shared/src/settlement.ts:240-263 | after dropping ids the seats held are the old ones without those ids |
| SponsorshipMath.CalculateApplicableAmount | packages/shared/src/sponsorship-math.ts:45-83 | the loop computes the coverage capped by both totals |
| SponsorshipMath.AmountExactly | packages/shared/src/sponsorship-math.ts:45-83 | for distinct ids the amount is the base price if covered (the breakdown's, else the registration's) plus the first line of every covered and selected id, up to both totals |
| SponsorshipMath.FullCodePaysAll | packages/shared/src/sponsorship-math.ts:45-83 | a code that covers base and every line, with enough of its own, pays base plus all lines |
| SponsorshipMath.NeverPaysForOptions | packages/shared/src/sponsorship-math.ts:45-88 | on a priced registration a code applies at most the sponsorship limit, unless an id it lists twice is worth something; so for all distinct ids, by DistinctIsHarmless |
| SponsorshipMath.CoverageIsOfTheSetExactly | packages/shared/src/sponsorship-math.ts:49-75 | for lines that are not negative the coverage is at least base plus the worth of the set of covered ids, and equal to it if and only if every id listed more than once is worth nothing |
| SponsorshipMath.ExceedsLimitExactly | packages/shared/src/sponsorship-math.ts:76-88 | a code pays more than the limit if and only if its coverage, its own total and the subtotal all exceed base plus items, for which repeated ids must be worth something |
| SponsorshipMath.CoverageStaysInRange | packages/shared/src/sponsorship-math.ts:65-75 | for distinct ids and a registration priced in the safe range no partial sum of the loop leaves it |
| SponsorshipMath.CoverageInRangeExactly | packages/shared/src/sponsorship-math.ts:65-75 | for any list of ids and lines that are not negative, every partial sum of the loop is safe if and only if the coverage is at most the largest safe amount |
| SponsorshipMath.DisjointCodesWithinPrice | packages/shared/src/sponsorship-math.ts:85-88 | codes with disjoint coverage apply together at most base plus access items |
| SponsorshipMath.RepeatedIdPaysForOptions | packages/shared/src/sponsorship-math.ts:65-75 | an example of the failure that CoverageIsOfTheSetExactly describes: an id listed twice is paid twice, beyond the limit |
| RowLocks.SortedUnique | packages/db/src/locks.ts:46 | each id once, ascending |
| RowLocks.WantedExactly | packages/db/src/locks.ts:39-55 | a transaction sets out to lock exactly the rows that exist of the ids in its calls |
| RowLocks.DisciplineAscends | packages/db/src/locks.ts:12-23 | calls in one order of the tables, at most one per table, lock rows in one ascending order |
| RowLocks.DisciplinedStart | packages/db/src/locks.ts:39-55 | any number of such transactions, each with its own view of which rows exist, is a start of the protocol |
| RowLocks.AdvanceTells | packages/db/src/locks.ts:48-53 | a step forward takes the next row, held by nobody else, or ends a transaction that holds all its rows; nothing another holds is touched |
| RowLocks.MutualExclusion | packages/db/src/locks.ts:48-53 | in every reachable state a row has at most one holder |
| RowLocks.NoWaitCycle | packages/db/src/locks.ts:12-23 | for any order of the tables that all transactions share, no reachable state has a cycle of waiters |
| RowLocks.NeverStuck | packages/db/src/locks.ts:12-23 | while a transaction is unfinished some transaction can step |
| RowLocks.SchedulesEnd | packages/db/src/locks.ts:12-23 | every schedule has at most as many steps as there was work |
| RowLocks.StuckOnlyWhenDone | packages/db/src/locks.ts:12-23 | a reachable state where nothing can step has finished every transaction |
| RowLocks.SeparateCallsCanDeadlock | packages/db/src/locks.ts:21-23 | two rows locked by separate calls in opposite orders do deadlock |
| RowLocks.MixedOrdersCanDeadlock | packages/db/README.md:55-67 | an event lock followed by a registration lock can deadlock with a registration writer that reaches the event row last, through its counter |
| JobRunner.Runner.Start | apps/worker/src/job-runner.ts:55-68 | booting performs one boot step per job in order; every job then has an idle poller and, unless stop was seen, an unsettled run |
| JobRunner.Runner.RunTick | apps/worker/src/job-runner.ts:72-122 | a run starts if and only if stop has not been seen and the job has no unsettled run; it becomes the job's one new unsettled run, and otherwise the trace stays as it is |
| JobRunner.Runner.PollerTimer | packages/shared/src/poller.ts:30-39 | the interval timer starts a run if and only if the poller is idle, stop was not seen and the job has no unsettled run; it never does anything else to a run |
| JobRunner.Runner.PollerTickDone | packages/shared/src/poller.ts:32-38 | a tick is over if and only if the run it started, if any, has settled; no run is touched |
| JobRunner.Runner.TimeoutTimer | apps/worker/src/job-runner.ts:82-88 | a timeout becomes the first abort of the unsettled run of its job if that had none, changes the first abort of no other run, and settles nothing |
| JobRunner.Runner.RunSettled | apps/worker/src/job-runner.ts:99-118 | an outcome comes back if and only if the job had an unsettled run; it names the first abort of that run and without one whether its promise was kept; that run alone leaves the unsettled ones |
| JobRunner.Runner.StopBegins | apps/worker/src/job-runner.ts:149-155 | from then on stop is seen, every poller is halted and every unsettled run is awaited; no run is aborted or settled by it |
| JobRunner.Runner.StopDrained | apps/worker/src/job-runner.ts:156-166 | stop returns the empty list if and only if it is under way, no run at all is unsettled and no tick is pending |
| JobRunner.Runner.StopDeadline | apps/worker/src/job-runner.ts:160-163 | at the deadline shutdown becomes the first abort of every run that had none, whichever job it is of; no run is settled by it |
| JobRunner.Runner.StopGivesUp | apps/worker/src/job-runner.ts:164-170 | past the settle window stop returns a list, and a job is on it if and only if it has an unsettled run |
| JobRunner.Replay | apps/worker/src/job-runner.ts:37-47 | whatever callbacks reach a runner, in whatever order, its object is in the state of that run of events: one unsettled run per job, no start after stop, outcomes that fit the first abort |
| JobRunnerSpec.OneRunPerJob | apps/worker/src/job-runner.ts:37-42 | in every interleaving a job has at most one unsettled run |
| JobRunnerSpec.StopEndsStarting | apps/worker/src/job-runner.ts:46-47 | no run starts after stop began |
| JobRunnerSpec.OutcomeTellsAbort | apps/worker/src/job-runner.ts:99-113 | an outcome names the first abort that fired before the run settled, if any |
| JobRunnerSpec.OkMeansNoAbort | apps/worker/src/job-runner.ts:99-113 | "ok" and "failed" mean that neither the timeout nor shutdown had fired |
| JobRunnerSpec.UnfinishedExactly | apps/worker/src/job-runner.ts:144-170 | when stop returns, its list is exactly the jobs with an unsettled run |
| JobRunnerSpec.EmptyListIsFinal | apps/worker/src/job-runner.ts:144-170 | after an empty list no job is running, then or ever after |
| JobRunnerSpec.PollerNeverOverlaps | packages/shared/src/poller.ts:17-25 | while the run its tick started is unsettled a poller starts nothing |
| JobRunnerSpec.PollersExactly | apps/worker/src/job-runner.ts:55-68 | in every run of events exactly the booted jobs have a poller, and it is halted if and only if stop was called |
| JobRunnerSpec.TimerStartsExactly | packages/shared/src/poller.ts:30-48 | without stop the idle timer of a booted job starts a run, and waits for it, if and only if the job has no unsettled one |
| JobRunnerSpec.SettleRecords | apps/worker/src/job-runner.ts:114-118 | a settled run is recorded with the start it had, its end and its outcome, and no other job's record changes |
| SchemaCheck.Checker.Walk | apps/api/src/core/response-contract.ts:302-346 | the visited-set walk ends, and accepts only with every schema it met supported and closed under children; a refusal names a reachable unsupported schema |
| SchemaCheck.AssertProjectable | apps/api/src/core/response-contract.ts:292-346 | accepts if and only if no reachable schema is of an unknown type or an open object, cycles included |
| ResponseContract.Projector.OnValue | apps/api/src/core/response-contract.ts:174-235 | the projection with its shared set of dropped paths computes the specified value and paths |
| ResponseContract.Projector.OnEntries | apps/api/src/core/response-contract.ts:192-224 | objects and records key by key, in order, with `__proto__` assignment as the language has it |
| ProjectionLaws.NeverThrows | apps/api/src/core/response-contract.ts:106-117 | under a licensed schema projection throws on no value |
| ProjectionLaws.ResultIsClean | apps/api/src/core/response-contract.ts:7-13 | the projected value holds no undeclared key at any depth |
| ConformingValues.ObjectHoldsExactly | apps/api/src/core/response-contract.ts:192-224 | a projected object or record holds, in order, exactly the entries whose key is declared, is not `__proto__` and whose value has a place, each projected under the schema declared for it |
| ConformingValues.ConformingExactly | apps/api/src/core/response-contract.ts:94-117 | a value comes back as it was, key order included, if and only if it conforms: every key declared by some field, at every depth, and keyed values only where the schema has them |
| ConformingValues.ConformingIsUntouched | apps/api/src/core/response-contract.ts:94-117 | a conforming value is kept whole and nothing of it is reported |
| ConformingValues.ChosenExactly | apps/api/src/core/response-contract.ts:264-284 | a union takes the first option that parses the value, else the first that accepts values of its kind, else none |
| ConformingValues.KindTellsPlace | apps/api/src/core/response-contract.ts:247-262 | for arrays and plain objects an option fits by kind if and only if it has a place for the value, unless it ends in another union |
| ConformingValues.EntriesReportExactly | apps/api/src/core/response-contract.ts:192-224 | a path is reported for an object or record if and only if some entry has that path and no declared key, or its value reports it under its own path |
| ConformingValues.ItemsReportExactly | apps/api/src/core/response-contract.ts:206-213 | a path is reported for an array if and only if some item reports it under the array's path and `[]` |
| ConformingValues.DroppedWholeIsNamed | apps/api/src/core/response-contract.ts:234-243 | a keyed value where the schema has no place for one is dropped and reported by its own path, the outermost as `(root)` |
| ProjectionLaws.UnchangedExactly | apps/api/src/core/response-contract.ts:94-117 | a value comes back unchanged, key order included, if and only if nothing is reported and no `__proto__` key that the schema keeps was written, which schema and value alone decide |
| ProjectionLaws.PlacedExactly | apps/api/src/core/response-contract.ts:174-235 | whether a value is kept at all is decided by the kinds of schema and value, without projecting it |
| ProjectionLaws.ReportTellsAll | apps/api/src/core/response-contract.ts:94-104 | without `__proto__` keys the report is empty if and only if nothing changed |
| ProjectionLaws.ProtoKeyLostSilently | apps/api/src/core/response-contract.ts:215-224 | a record with the key `__proto__` loses it and reports nothing |
| ProjectionLaws.ProjectingTwiceExactly | apps/api/src/core/response-contract.ts:174-235 | without unions, on every value, a second projection changes nothing and reports nothing if and only if the first replaced no prototype through the key `__proto__` |
| ProjectionLaws.ProjectOntoContract | apps/api/src/core/response-contract.ts:106-117 | check and projection together: an accepted schema is projected without error and the result is clean |
| ByteLruCache.FitIsLongest | packages/integrations/src/certificate-image-cache.ts:46-62 | eviction keeps exactly the longest end of the list that fits |
| ByteLruCache.Pushed | packages/integrations/src/certificate-image-cache.ts:46-62 | a stored entry is found again, beside the longest end of the recency order that fits |
| ByteLruCache.Create | packages/integrations/src/certificate-image-cache.ts:17-21 | only a positive limit makes a cache |
| ByteLruCache.Cache.Get | packages/integrations/src/certificate-image-cache.ts:36-44 | a hit moves the entry to the most recent place; a miss changes nothing |
| ByteLruCache.Cache.Set | packages/integrations/src/certificate-image-cache.ts:46-62 | stores exactly when the buffer fits alone; the counter stays the sum of sizes within the limit |
| ByteLruCache.Cache.Delete | packages/integrations/src/certificate-image-cache.ts:64-70 | removes the key and its bytes |
| ByteLruRuns.HoldsTheMostRecent | packages/integrations/src/certificate-image-cache.ts:12-76 | after any run of gets, sets and clears the cache is the longest end of the unbounded recency order that fits |
| ByteLruRuns.HoldsAnEnd | packages/integrations/src/certificate-image-cache.ts:12-76 | after any run, deletions included, the cache is an end of the recency order, and it fits |
| ByteLruRuns.LongestExactly | packages/integrations/src/certificate-image-cache.ts:46-70 | after any run it is the longest such end if and only if one entry more would not fit |
| ByteLruRuns.DeletionLeavesRoom | packages/integrations/src/certificate-image-cache.ts:64-70 | an example of where it is not: the room a deletion frees stays empty |
| ByteLruRuns.SurvivesExactly | packages/integrations/src/certificate-image-cache.ts:36-70 | after any run, a key used and not deleted since is held if and only if its size plus the sizes of the distinct keys used since, less those deleted again, has fitted at every moment since |
| ByteLruRuns.LastMomentDecides | packages/integrations/src/certificate-image-cache.ts:46-62 | without deletions since, that it fits at the end is enough |
| ByteLruRuns.NeverUsedNeverHeld | packages/integrations/src/certificate-image-cache.ts:36-76 | a key not used since the beginning, its deletion or the last clear is not held |
| ImageLoader.Loader.Request | packages/integrations/src/certificate-image-cache.ts:94-112 | a cached image at once and as stored; else the download of the key in progress; a new one starts if and only if there is none and no start of it failed before |
| ImageLoader.Loader.Settle | packages/integrations/src/certificate-image-cache.ts:101-109 | a settled download leaves those in progress; the object is cached if it fits, an error caches nothing, and the key can be downloaded again |
| ImageLoader.OneDownloadPerKey | packages/integrations/src/certificate-image-cache.ts:84-93 | never two downloads of one key at a time |
| ImageLoader.Serve | packages/integrations/src/certificate-image-cache.ts:88-112 | over any sequence of requests and settled downloads, a key whose download once failed to start stays that way, is never cached, and every request of it is answered with that one failed download |
| BearerLockout.Lockout.RecordRejected | apps/api/src/core/networking-identity-cache.ts:143-175 | the mutated table is the specified one: own venue one step on, oldest venues evicted for room |
| BearerLockout.Lockout.LockedFor | apps/api/src/core/networking-identity-cache.ts:177-181 | the milliseconds left |
| BearerLockout.RecordMovesOne | apps/api/src/core/networking-identity-cache.ts:143-175 | a rejection moves its own venue one step; every other venue stays as it is or is forgotten |
| BearerLockout.RecordKeepsWhileRoom | apps/api/src/core/networking-identity-cache.ts:169-174 | while there is room for one venue more, every other venue stays as it is |
| BearerLockout.RecordForgetsOldest | apps/api/src/core/networking-identity-cache.ts:169-174 | when full, exactly the venues least recently rejected go |
| BearerLockout.StepKeepsLock | apps/api/src/core/networking-identity-cache.ts:147-168 | a rejection leaves its venue's lock as it is, however its window rolls, or sets a new one from now |
| VenueMemory.TableIsLatest | apps/api/src/core/networking-identity-cache.ts:143-175 | after any run the table holds exactly the venues latest rejected, in that order, as many as it has places |
| VenueMemory.RememberedExactly | apps/api/src/core/networking-identity-cache.ts:169-174 | a venue is remembered if and only if fewer distinct others were rejected since than the table has places |
| VenueMemory.OthersKeepLocks | apps/api/src/core/networking-identity-cache.ts:143-181 | while the table has places for all venues, rejections at others leave a venue's state, lock included, untouched |
| VenueMemory.LocksOnlyRenew | apps/api/src/core/networking-identity-cache.ts:143-181 | and its own rejections change its lock only into a new one of their own |
| BearerLockoutRuns.TableBounded | apps/api/src/core/networking-identity-cache.ts:169-174 | the table never exceeds its bound |
| BearerLockoutRuns.FewTokensNeverLock | apps/api/src/core/networking-identity-cache.ts:106-110 | a venue whose rejected bearers come from at most min(recentTokens, threshold - 1) tokens is never locked, whatever the order, times and other venues |
| BearerLockoutRuns.DistinctTokensLock | apps/api/src/core/networking-identity-cache.ts:155-168 | after any run, `threshold` distinct tokens rejected within one window of a venue then unknown or past its window lock it, with calls of other venues in between as long as the venue is not evicted |
| VenueMemory.DistinctTokensLockWithRoom | apps/api/src/core/networking-identity-cache.ts:155-174 | the same with nothing assumed of evictions, while the table has places for all venues rejected meanwhile |
| BearerLockoutRuns.ManyTokensLock | apps/api/src/core/networking-identity-cache.ts:154-168 | one token more than that, retried in turn, locks the venue |
| BearerLockoutRuns.CanLockExactly | apps/api/src/core/networking-identity-cache.ts:106-110 | tokens can lock a venue at all if and only if there are more than min(recentTokens, threshold - 1) of them |
| BearerLockoutRuns.DefaultsLockAtSixtyFive | apps/api/src/core/networking-identity-cache.ts:114-121 | with the shipped sizing the least number of tokens that can lock is 65 |
| BearerLockoutRuns.EveryLockIsWitnessed | apps/api/src/core/networking-identity-cache.ts:147-168 | under a clock that never runs backwards every lock was set by a counted rejection, the last of at least `threshold` counted ones (tokens the venue did not remember) within one window, in which more than min(recentTokens, threshold - 1) tokens were rejected |
| NetworkingKeys.ParsedIsItsText | packages/contracts/src/networking-keys.ts:23-37 | an accepted entry is exactly the text of the valid key it gives |
| NetworkingKeys.TextIsParsed | packages/contracts/src/networking-keys.ts:23-37 | the text of every valid key parses as that key |
| NetworkingKeys.ParseNetworkingKeys | packages/contracts/src/networking-keys.ts:19-38 | accepts exactly the texts of usable key lists (well-formed distinct kids, long secrets, first key not for recovery only) and returns that list; a refusal names a fault of one of the entries |
| NetworkingKeys.EntriesOfJoined | packages/contracts/src/networking-keys.ts:19-20 | of pieces joined by commas the entries are exactly the trimmed ones that are not empty |
| NetworkingKeys.CleanEntriesStay | packages/contracts/src/networking-keys.ts:19-20 | pieces that are trimmed and not empty come back as they were, in order |
| NetworkingKeys.ValidKeyMeans | packages/contracts/src/networking-keys.ts:15-17 | a usable key: a kid of 1 to 16 lower-case letters, digits, `_` or `-`, the first a letter or digit, and a secret of at least 32 characters without a colon |
| NetworkingKeyring.MatchV1Exactly | packages/shared/src/networking-keyring.ts:48 | a text matches with a kid and payload if and only if the kid is well formed and it is their versioned form |
| NetworkingKeyring.CacheKeyInjective | packages/shared/src/networking-keyring.ts:112-122 | the subkey cache never confuses two kids or purposes, whatever the kid |
| NetworkingKeyring.NewKeyring | packages/shared/src/networking-keyring.ts:69-84 | refused exactly for a kid listed twice or a current key kept for recovery only; otherwise the keys in order, legacy last |
| NetworkingKeyring.Keyring.Subkey | packages/shared/src/networking-keyring.ts:112-122 | the derived key, cached or not, exactly when the key serves the purpose |
| NetworkingKeyring.Keyring.Mac | packages/shared/src/networking-keyring.ts:129-134 | the MAC in the current write format, none when unconfigured |
| NetworkingKeyring.Keyring.MacCandidates | packages/shared/src/networking-keyring.ts:136-149 | exactly the MACs some usable key could have given, each once, the current one first |
| NetworkingKeyring.Keyring.VerifyMac | packages/shared/src/networking-keyring.ts:151-159 | checks a stored MAC with the key it names |
| KeyRotation.CandidatesExactly | packages/shared/src/networking-keyring.ts:136-159 | while every kid usable for the purpose is well formed a text is a candidate if and only if it verifies |
| KeyRotation.CandidatesVerifyExactly | packages/shared/src/networking-keyring.ts:136-159 | for any kids, candidates and verifying texts coincide if and only if every kid usable for the purpose is well formed |
| KeyRotation.MalformedKidNeverVerifies | packages/shared/src/networking-keyring.ts:136-159 | under any other kid the candidate never verifies |
| KeyRotation.WrittenVerifies | packages/shared/src/networking-keyring.ts:129-159 | what a keyring writes, it verifies |
| KeyRotation.SettingsWrite | packages/shared/src/networking-keyring.ts:69-134 | what a keyring built from settings writes: nothing without keys, the plain form under the legacy secret while versions are off and there is a full legacy key, else `v1:kid:` and the MAC under the first key |
| KeyRotation.SurvivesRotationExactly | packages/shared/src/networking-keyring.ts:11-23 | a MAC that verified verifies under a later keyring if and only if that one keeps the named kid with the same secret usable for the purpose |
| KeyRotation.WrittenSurvivesExactly | packages/shared/src/networking-keyring.ts:129-159 | in particular every MAC written, in either format |
| KeyRotation.PurposesAreApart | packages/shared/src/networking-keyring.ts:15 | a versioned MAC made for one purpose verifies for no other |
| KeyRotation.CurrentExactly | packages/shared/src/networking-keyring.ts:100-104 | of the MACs that verify, exactly the one that would be written now needs no rehash |
| KeyRotation.KeyringFromText | packages/contracts/src/networking-keys.ts:19-38 | a configured key list makes a keyring that all of this applies to |
| SessionOptions.Tokenize | packages/db/src/connection-config.ts:69-90 | the loop computes the specified tokens |
| SessionOptions.ScanGivesTokens | packages/db/src/connection-config.ts:68-90 | every token is complete, except that the last may end in a dangling backslash, and not even that unless the string does |
| SessionOptions.JoinedSplits | packages/db/src/connection-config.ts:68-90 | complete tokens joined by spaces split into themselves |
| SessionSettings.CarriedSessionOptions | packages/db/src/connection-config.ts:97-122 | the loop keeps every option except the settings the pool pins, in order |
| SessionSettings.BuildSessionOptions | packages/db/src/connection-config.ts:124-135 | the built string is the carried tokens, then the pinned ones, joined by spaces |
| SessionSettings.NothingCarried | packages/db/src/connection-config.ts:124-135 | without options in the URL the built ones are the three pinned settings under their names |
| SessionSettings.ManagedExactly | packages/db/src/connection-config.ts:24-30 | the four settings that are never carried over |
| SessionLaws.SplitsBackExactly | packages/db/src/connection-config.ts:124-135 | re-tokenizing gives the carried tokens and then the pinned ones if and only if the last carried token does not dangle |
| SessionLaws.SplitsBack | packages/db/src/connection-config.ts:124-135 | so for every URL whose last carried token is complete |
| SessionMeaning.SettingsKeepTheirMeaning | packages/db/src/connection-config.ts:4-13 | applied in order, the built options leave every pinned setting at its pinned value and every other at the value the URL alone would give, whenever the last carried token is complete and the options do not end in a bare `-c` |
| PinnedSettings.TimeoutHoldsExactly | packages/db/src/connection-config.ts:101-135 | for every URL the pinned statement timeout is in force if and only if the last carried token is complete and the options do not end in a bare `-c`; otherwise there is none |
| PinnedSettings.OthersAlwaysHold | packages/db/src/connection-config.ts:124-135 | for every URL the time zone is UTC and the idle timeout the pinned one, whatever it carries |
| PinnedSettings.DanglingLosesTimeout | packages/db/src/connection-config.ts:69-90 | every URL whose last carried token ends in a dangling backslash loses the pinned statement timeout |
| PinnedSettings.MeaningKeptExactly | packages/db/src/connection-config.ts:4-13 | exactly on the URLs where the timeout is in force all settings are as promised |
| UniqueNames.TriedCount | packages/shared/src/export-format.ts:164-167 | candidates numbered from 2 are pairwise different, so trying them uses up as many taken names |
| UniqueNames.TakeFree | packages/shared/src/export-format.ts:163-169 | the retry loop ends and takes the first free candidate: the plain one, else the least free number |
| UniqueNames.SheetsSpread | packages/shared/src/export-format.ts:164-167 | numbered worksheet names never clash with each other up to case, even truncated |
| UniqueNames.UniqueSheetName | packages/shared/src/export-format.ts:148-170 | a name new up to case, the least free candidate, at most 31 characters while the count of names has at most 28 digits |
| SheetNameRules.CandidatesAllowed | packages/shared/src/export-format.ts:143-170 | no worksheet name holds a forbidden character, if the fallback holds none or is not used |
| SheetNameRules.AllowedMeans | packages/shared/src/export-format.ts:143-154 | the forbidden characters, one by one |
| SheetNameRules.CleanedKeepsWords | packages/shared/src/export-format.ts:153-159 | cleaning a name loses nothing but white space, forbidden characters and apostrophes |
| SheetNameRules.TidyNameIsGiven | packages/shared/src/export-format.ts:143-170 | a name of at most 31 characters that needs no cleaning is given out as it is while it is free, and else with its number after it |
| SheetNameRules.ApostropheReturns | packages/shared/src/export-format.ts:153-159 | an example of what CleanedQuotesExactly describes: cleaning `' 'a` leaves a leading apostrophe |
| SheetNameRules.CleanedQuotesExactly | packages/shared/src/export-format.ts:153-159 | a cleaned name begins (ends) with an apostrophe if and only if, once its outer apostrophes are gone, it begins (ends) with white space beside an apostrophe |
| SheetNameRules.BaseQuotesExactly | packages/shared/src/export-format.ts:160-161 | the base begins with an apostrophe if and only if the cleaned name does, and ends with one if and only if that does or, for more than 31 characters, its cut falls behind one or behind one and a space; or it is the fallback, cut and trimmed |
| SheetNameRules.QuotesExactly | packages/shared/src/export-format.ts:143-170 | the name given out ends with an apostrophe if and only if its base does and is free, and begins with one if and only if its base does and the number leaves any of it |
| SheetNameRules.EmptyExactly | packages/shared/src/export-format.ts:143-170 | a name is empty if and only if the fallback is used, nothing is left of it and the empty name is free |
| SheetNameRules.ReservedExactly | packages/shared/src/export-format.ts:143-170 | a name is "History" up to case if and only if the fallback is used, reads so once cut and trimmed, and is free |
| UniqueNames.FilesSpread | packages/shared/src/export-format.ts:196-199 | numbered ZIP entry names never clash with each other up to case |
| UniqueNames.UniqueFileName | packages/shared/src/export-format.ts:189-202 | a name new up to case, the least free candidate |
| UniqueNames.NameAll | packages/shared/src/export-format.ts:133-135 | over any run of worksheet and ZIP names on one set all names differ up to case |

## Left out

- Strings are sequences of Unicode characters: lone surrogates, and lengths counted in UTF-16 units (key secrets, the 31 characters of a worksheet name), are not modelled.
- Values whose conversion to text throws: the guard and the signature catch that and return nothing; every modelled value has a text.
- Unicode case folding, normalization and white-space tables beyond the laws named above; number formatting and parsing are function parameters.
- RegexPrinter.ParserExact: the printed dialect escapes literal metacharacters, has no empty classes (the parser reads a leading `]` as a literal) and prints an escape as one character; the parser itself is modelled on every text.
- RegexSafety.Parser.Run: the compile step of a pattern is a parameter, since the regular-expression engine is not part of this model.
- AccessDrops.DropsInTurn: a drop is modelled without the range error of an unsafe sum, which `DropsStayInRange` shows cannot arise from a breakdown in range; the currency snapshots attached to a breakdown are left out.
- SponsorshipMath.CalculateApplicableAmount: likewise without the range error, whose absence `CoverageInRangeExactly` decides.
- Money.ReadsBack: currency-specific minor units and snapshots are left out, being the same conversion at another scale.
- RowLocks.NeverStuck: a lock waits for the holder of its row only, not for others queued ahead of it, and each call locks the rows that exist when it starts.
- JobRunnerSpec.UnfinishedExactly: a second call of stop while the first is under way, promise steps below the level of one callback, and the heartbeat snapshot are not modelled.
- JobRunner.Runner.Start: job names are taken to differ, as the pollers are kept by job name.
- SchemaCheck.Checker.Walk: a lazy schema is taken to give the same schema each time; the path in the error message is left out.
- ResponseContract.Projector.OnValue: which union option a value satisfies on its own is a parameter, so schema validation itself is not modelled; getters and proxies in response objects are not either.
- ProjectionLaws.NeverThrows: schemas whose cycles pass through wrappers, lazies and unions alone are excluded, because projection does not end on them.
- ImageLoader.Loader.Request: what a storage provider does is a parameter; a download settles in one step with the removal of its promise.
- ByteLruRuns.HoldsTheMostRecent: for runs without deletions, since `DeletionLeavesRoom` refutes it for others, of which `HoldsAnEnd`, `LongestExactly` and `SurvivesExactly` speak; one fixed buffer per key throughout, as the cache promises its callers.
- BearerLockout.Lockout.RecordRejected: times are whole milliseconds and the digest of a token is a function parameter; the identity cache beside it is left out as an easier relative of the byte-bounded cache.
- NetworkingKeyring.Keyring.VerifyMac: sealing and opening are left out, and so is the timing of the comparison.
- SessionMeaning.SettingsKeepTheirMeaning: the server is taken to read setting names as the pool does and to let the last setting of a name win; removing parameters from the URL is left out.
- UniqueNames.UniqueFileName: the slug of a name is a function parameter.
- The lease queue, outbox, migrator, retry wrapper around transactions, HTTP layer, storage, email and PDF layout are not part of this model.
