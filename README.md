# Coursework models: grammar expander, bus seat layouts, dice player

This project models three small, self-contained parts of a Java coursework
repository and proves what they compute.

- **BNF grammar processor** (`Quiz3/src/BNF.java`). `loadRules` reads lines
  `L -> p1|p2|...` into a rule table. The key is the trimmed text before
  `->`. The productions are the text after it, split at every `|` with
  Java's `String.split` rules. `generate` expands a symbol. A symbol without
  a rule is returned unchanged. Otherwise every character of every
  production is expanded as a one-character symbol, and the alternatives are
  written as `(e1|e2|...|en)`.
  - `bnf.dfy` holds the class `Bnf` with its `rules` field, `LoadRules` and
    `Generate` as loop methods, and the pure specification `LoadAll` and
    `Expand` they are proved against.
  - `strings.dfy` holds Java's `split` (leftmost non-overlapping pieces;
    trailing empty pieces dropped unless there was no match at all), `trim`
    (every character at or below `' '` removed at both ends), joining and
    character counting.
- **Buses** (`projectAssignment2/src/Bus.java`, `Minibus.java`,
  `PremiumBus.java`). A bus is set once by its constructor and only read
  afterwards, so it is a datatype value and each getter is a field
  selector. `bus.dfy` holds the constructors, the flat price and the seat
  symbols `*`/`X`. `minibus.dfy` holds the two-per-row layout.
  `premium_bus.dfy` holds the premium-seat price rule and the three-per-row
  layout with a ` |` marker after the first seat of each row. Each
  `getSeatsLayout` loop is a method over the `boolean[]` array. It is proved
  equal to a layout function defined seat by seat. The counts, order and
  ends of that layout are proved as lemmas.
- **Dice player** (`Quiz1/src/Player.java`). `player.dfy` holds the class
  `Player`: a constant name, an `int` score and an in-game flag that is
  never written. `ThrowDice` adds both dice unless either shows 1. The
  score is a Java `int`, so additions wrap modulo 2^32 (`Wrap`). The
  getters `GetName`, `InGame` and `GetScore` only read the object.

Expanding a symbol terminates only when the symbol cannot reach a
recursive rule. The model therefore takes a ghost rank map as a witness.
The expanded symbol must be ranked (`Ranked`). Every ranked rule's
productions may mention only ruled characters that rank strictly below it
(`WellRanked`). Rules that the rank map leaves out are unconstrained, so a
recursive rule elsewhere in the table is harmless. A line whose right side
holds only bars, such as `S->|`, yields no productions at all. For such a rule the source's `generate` drops
the opening `(` and returns `)`, and the model does the same.

## Model

| member | source | states |
|---|---|---|
| BnfGrammar.Bnf.constructor | Quiz3/src/BNF.java:26-30 | the rule table is exactly the result of loading the given lines, in order, into an empty table |
| BnfGrammar.Bnf.LoadRules | Quiz3/src/BNF.java:37-44 | the new table is the old table updated line by line: each line's trimmed left side is mapped to its productions split at the bar character |
| BnfGrammar.Bnf.Generate | Quiz3/src/BNF.java:52-66 | the loop-and-recursion method returns exactly the specified expansion `Expand` of the symbol |
| BnfGrammar.Bnf.GenerateProduction | Quiz3/src/BNF.java:58-60 | the inner loop returns exactly the specified expansion of one production: each character expanded as a one-character symbol, results concatenated in order |
| BnfGrammar.WellFormedLine | Quiz3/src/BNF.java:39-41 | a line `left->rhs` with one arrow and a non-empty right side is loadable; its key is `trim(left)` and its productions are `rhs` split at the bar character |
| BnfGrammar.NoArrowNotLoadable | Quiz3/src/BNF.java:39-41 | a line without `->` has no second part, so the loader cannot take it |
| BnfGrammar.NothingAfterArrowNotLoadable | Quiz3/src/BNF.java:39-41 | a line with nothing after its only `->` has no second part, so the loader cannot take it |
| BnfGrammar.LoadAllKeys | Quiz3/src/BNF.java:38-43 | after loading, the defined keys are exactly the old keys plus the keys of the loaded lines |
| BnfGrammar.LoadAllLatestWins | Quiz3/src/BNF.java:42 | a key takes the productions of the last line with that key; earlier lines with the same key are replaced |
| BnfGrammar.LoadAllUntouched | Quiz3/src/BNF.java:42 | a key that no line mentions keeps its old productions, or stays undefined |
| BnfGrammar.SelfReferenceHasNoRank | Quiz3/src/BNF.java:53-60 | a one-character symbol that occurs in one of its own productions cannot be ranked, so its expansion (which in the source recurses until the stack overflows) is outside the model |
| BnfGrammar.UnreachableRecursionIsHarmless | Quiz3/src/BNF.java:53-65 | with rules `S->a` and `T->T`, `S` is still expandable and expands to `(a)`: a recursive rule it cannot reach does not matter |
| BnfGrammar.ExpandAll | Quiz3/src/BNF.java:57-62 | one expansion per production, in stored order, each the expansion of that production |
| BnfGrammar.ExpandUnknown | Quiz3/src/BNF.java:53 | a symbol without a rule expands to itself |
| BnfGrammar.ExpandRule | Quiz3/src/BNF.java:55-65 | a symbol with productions p1..pn expands to an opening parenthesis, exp(p1) to exp(pn) in stored order with a bar between neighbours only, and a closing parenthesis |
| BnfGrammar.ExpandStringAppend | Quiz3/src/BNF.java:58-60 | a production's expansion is the concatenation of the expansions of its parts, in order |
| BnfGrammar.ExpandStringLiteral | Quiz3/src/BNF.java:58-60 | a production none of whose characters has a rule is copied unchanged |
| BnfGrammar.TerminalOnlyRule | Quiz3/src/BNF.java:53-65 | if no character of any production has a rule, the expansion is the productions joined with bars, in parentheses |
| BnfGrammar.ExpandRankIrrelevant | Quiz3/src/BNF.java:52-66 | the expansion does not depend on which rank witnesses termination |
| Strings.JoinPieces | Quiz3/src/BNF.java:39-41 | joining the split pieces back with the separator restores the text |
| Strings.PiecesWithoutSeparator | Quiz3/src/BNF.java:39 | a text without the separator splits into itself alone |
| Strings.SeparatorGivesTwoPieces | Quiz3/src/BNF.java:39-41 | a text containing the separator splits into at least two pieces |
| Strings.PiecesAtFirstSeparator | Quiz3/src/BNF.java:39-41 | the first piece is the text before the leftmost occurrence of the separator |
| Strings.SplitAtChar | Quiz3/src/BNF.java:41 | splitting at the bar character gives pieces without a bar whose join is a prefix of the text, and only bars follow that prefix |
| Strings.DropTrailingEmpty | Quiz3/src/BNF.java:41 | only empty pieces at the end are removed, and the result does not end with an empty piece |
| Strings.TrimSpec | Quiz3/src/BNF.java:40 | the trimmed key is a slice of the text with only blanks around it and no blank at either of its ends |
| Buses.NewBus | projectAssignment2/src/Bus.java:15-20 | the four-argument constructor stores type, capacity, price and refund rate unchanged |
| Buses.NewNonRefundableBus | projectAssignment2/src/Bus.java:28-32 | the three-argument constructor is the four-argument one with refund rate 0 |
| Buses.CalculateTicketPrice | projectAssignment2/src/Bus.java:45-47 | the price is the ticket price, whatever the seat number |
| Buses.FlatPrice | projectAssignment2/src/Bus.java:45-47 | any two seats of a flat-priced bus cost the same, namely the ticket price |
| Buses.SeatSymbols | projectAssignment2/src/Minibus.java:16 | one symbol per seat, in seat order, `*` for a true status and `X` otherwise |
| Minibus.NewMinibus | projectAssignment2/src/Minibus.java:2-4 | a minibus has type "Minibus", refund rate 0 and the given capacity and price |
| Minibus.MinibusPriceIsFlat | projectAssignment2/src/Minibus.java:1-4 | a minibus inherits flat pricing: every seat costs the ticket price |
| Minibus.SeatsLayout | projectAssignment2/src/Minibus.java:13-25 | the loop builds exactly the seat-by-seat layout of the first `capacity` seats of the array |
| Minibus.LayoutSymbols | projectAssignment2/src/Minibus.java:15-16 | the layout's seat symbols are exactly one per seat, in seat order |
| Minibus.PrefixSeparators | projectAssignment2/src/Minibus.java:17-22 | among the first `n` seats, each odd-numbered seat before the last is followed by a space and each even-numbered one by a line break |
| Minibus.LayoutShape | projectAssignment2/src/Minibus.java:15-23 | for capacity at least 1: `(capacity-1)/2` line breaks, `capacity/2` spaces, `2*capacity-1` characters |
| Minibus.LayoutEnds | projectAssignment2/src/Minibus.java:15-24 | no seats give the empty text; otherwise the layout ends with the last seat's symbol, never a space or line break |
| PremiumBus.NewPremiumBus | projectAssignment2/src/PremiumBus.java:10-13 | type "Premium", the given capacity, price and refund rate, and the given premium fee |
| PremiumBus.JavaRem | projectAssignment2/src/PremiumBus.java:17 | Java's remainder: congruent to the dividend modulo `m`; the usual remainder for non-negative numbers, non-positive and above `-m` for negative ones |
| PremiumBus.PremiumSeats | projectAssignment2/src/PremiumBus.java:17 | a seat is premium exactly when its number is non-negative and leaves remainder 1 by 3 |
| PremiumBus.CalculateTicketPrice | projectAssignment2/src/PremiumBus.java:16-22 | a premium seat costs the ticket price plus `premiumFee` percent of it; every other seat costs the flat price |
| PremiumBus.ZeroFeeIsFlat | projectAssignment2/src/PremiumBus.java:17-21 | with no premium fee every seat costs the ticket price |
| PremiumBus.PremiumNeverCheaper | projectAssignment2/src/PremiumBus.java:17-21 | with non-negative price and fee no seat costs less than the ticket price, and seats three apart cost the same |
| PremiumBus.SeatsLayout | projectAssignment2/src/PremiumBus.java:35-50 | the loop builds exactly the seat-by-seat layout of the first `capacity` seats of the array |
| PremiumBus.LayoutSymbols | projectAssignment2/src/PremiumBus.java:37-38 | the layout's seat symbols are exactly one per seat, in seat order |
| PremiumBus.PrefixBars | projectAssignment2/src/PremiumBus.java:39-41 | the first `n` seats carry one bar marker per started row of three, `(n+2)/3` |
| PremiumBus.PrefixBreaks | projectAssignment2/src/PremiumBus.java:45-47 | among the first `n` seats, every third seat before the last is followed by a line break |
| PremiumBus.PrefixSpaces | projectAssignment2/src/PremiumBus.java:39-44 | each bar marker brings one space, and every seat that neither ends a row nor is last is followed by one space |
| PremiumBus.LayoutShape | projectAssignment2/src/PremiumBus.java:37-47 | for capacity at least 1: one bar per row `(capacity+2)/3`, `(capacity-1)/3` line breaks, and the total length |
| PremiumBus.LayoutEnds | projectAssignment2/src/PremiumBus.java:37-49 | no seats give the empty text; otherwise the layout ends with a bar when the last seat starts a row, else with its symbol, never a space or line break |
| PremiumBus.BarMarksPremiumSeat | projectAssignment2/src/PremiumBus.java:39-41 | seat `i` gets the bar marker exactly when seat number `i+1` is premium-priced |
| DiceGame.Wrap | Quiz1/src/Player.java:13 | Java `int` addition: the result is an `int` congruent to the exact sum modulo 2^32 (the low-order 32 bits), and equals the exact sum when that fits |
| DiceGame.ThrowEffect | Quiz1/src/Player.java:12-14 | a throw with a 1 leaves the score alone; otherwise, without overflow, it adds exactly `d1+d2` |
| DiceGame.ThrowCanWrap | Quiz1/src/Player.java:13 | near the top of the `int` range a scoring throw wraps the score to a negative number |
| DiceGame.ScoreIsStartPlusScoredPips | Quiz1/src/Player.java:11-15 | over a sequence of positive throws without overflow, the score is the start plus the dice of the throws without a 1 |
| DiceGame.ScoreNeverDecreases | Quiz1/src/Player.java:11-15 | with positive dice and no overflow, the score after more throws is never lower |
| DiceGame.Player.constructor | Quiz1/src/Player.java:3-9 | a new player has the given name, score 0 (field initializer) and is in the game (field initializer) |
| DiceGame.Player.ThrowDice | Quiz1/src/Player.java:11-15 | the new score is the old score after the throw, still an `int`; the in-game flag and the name do not change, so the player stays in the game |
| DiceGame.Player.GetName | Quiz1/src/Player.java:17-19 | the name read back is the one given at construction |
| DiceGame.Player.InGame | Quiz1/src/Player.java:21-23 | the flag read back is the player's in-game flag, and it is always true: nothing ever takes a player out of the game |
| DiceGame.Player.GetScore | Quiz1/src/Player.java:25-27 | the score read back is always a Java `int` |

## Left out

- The route-planning part of the repository (`projectAssignment4`, with its shortest-path and spanning-forest computation in `RouteManager`): RouteManager is not part of this model.
- `src/Game.java` (rendering, animation timer, random drills) and the Quiz2 decoration-cost code are not part of this model.
- BNF file reading and writing (`main` and the constructor's `FileInput`/`FileOutput` calls): input and output become the `lines` parameter and the returned text.
- BnfGrammar.Bnf.Generate: expanding a symbol that reaches a recursive rule, such as `S->aS`, makes the source recurse until the stack overflows (`StackOverflowError`); the model requires a termination rank for the symbols reached and does not model divergence.
- BnfGrammar.Bnf.Generate: Dafny strings are sequences of Unicode scalar values, while Java's `charAt` walks UTF-16 code units. The source splits a character outside the Basic Multilingual Plane into two surrogates, and neither half matches a rule key; the model expands such a character as one symbol. Grammars using only Basic Multilingual Plane characters behave the same in both.
- BnfGrammar.Bnf.LoadRules: a line without a part after `->` makes the source throw an index exception; the model requires every line to be loadable instead of modelling the exception.
- `String.split` is modelled only for the two separators the loader uses, which contain no regular-expression meta-characters once escaped.
- PremiumBus.CalculateTicketPrice: prices and rates are exact `real` numbers; the rounding of Java `double` arithmetic is not modelled.
- The `getCapacity`, `getRefundRate`, `getTicketPrice` and `getPremiumFee` getters are the datatype's field selectors, with no contract of their own.
- The standard bus type and the booking and refund logic that use the buses are not part of this model.
- DiceGame.ScoreNeverDecreases: holds only while the total of all dice stays within the `int` range; with overflow the source's score can drop, as `ThrowCanWrap` shows.
