# euchre-bot trick logic and minimax search, in Dafny

This project models two parts of the Go program `euchre-bot`, a bot that plays
the card game Euchre.

- **Trick logic** (`src/euchre/logic.go`). Which of two cards beats the other
  under a trump suit. Which cards of a hand may legally be played. Which card
  and which seat win a trick. Which seat led a trick. The suits each seat has
  shown it lacks in earlier tricks. Two small copying helpers.
- **Minimax search** (`src/ai/minimax.go`). A depth-first minimax search with
  fail-soft alpha-beta pruning over the game tree that a game engine exposes.

Seats are numbered 0 to 3 in playing order. When a player goes alone, their
partner (two seats on) sits the hand out, so each trick then has three cards.
A seat value outside [0,3] for the player going alone means nobody went alone.

Files:

- `deck.dfy` (module `Deck`): suits, values, cards, the left bower's adjusted
  suit, and the `Trick` record.
- `goarith.dfy` (module `GoArith`): Go's truncating `%`.
- `seating.dfy` (module `Seating`): seat arithmetic, and the reference playing
  order of a trick with the absent seat left out.
- `logic.dfy` (module `Logic`): `logic.go`.
- `minimax.dfy` (module `Minimax`): `minimax.go`.

Loops in the Go code become Dafny methods with loop invariants. The methods
for the trick winner, the seating, the suits a seat lacks and the search are
proved against reference functions:

- `Champion` is the winning card of a trick.
- `PlayOrder` is who plays each card.
- `Voids` is the suits a seat has shown it lacks.
- `Value` is the minimax value of a game tree.

Lemmas then connect these reference functions to the rules of the game. The
other methods (`Possible`, `CopyAllHands`, `ExtractAvailableCards`,
`AbsentAdjust`) state their answers directly in their postconditions.

The search's main result is `MinimaxHelper`'s postcondition
`FailSoft(value, Value(state), alpha, beta)`. Searched with the window
(alpha, beta), the answer equals the state's minimax value whenever it
falls strictly inside the window. An answer at or below alpha is an upper
bound on the value. An answer at or above beta is a lower bound. With the full
window (`Minimax`), the answer is therefore the exact minimax value.

## Model

| member | source | states |
|---|---|---|
| GoArith.Rem4 | src/euchre/logic.go:181 | Go's `%` by 4: Dafny's remainder for a non-negative dividend. For a negative dividend it is 0 when 4 divides it, else Dafny's remainder minus 4 (so Rem4(-1) == -1), a remainder with the dividend's sign |
| Logic.Beat | src/euchre/logic.go:20-57 | If exactly one card is trump, that card wins. Between two trumps, the right bower always wins, the left bower wins against any non-jack, a non-jack loses to a jack, and otherwise the higher rank wins. Between non-trumps of one suit the higher rank wins; between different non-trump suits the led card wins |
| Logic.Strength | src/euchre/logic.go:7-10 | Reference ranking of a card in a trick: it is 41 exactly for the right bower, and 34 or more exactly for trump |
| Logic.BeatIsStrength | src/euchre/logic.go:20-57 | For two different cards, `a` beats `b` exactly when `a` ranks higher in the trick `a` leads: right bower, left bower, the other trumps by rank, the led suit by rank, then everything else |
| Logic.BeatAntisymmetric | src/euchre/logic.go:7-10 | For two different cards where one is trump or both share a suit, exactly one of them beats the other, whichever is led |
| Logic.BowerExamples | src/euchre/logic.go:29-40 | With hearts trump, the jack of hearts beats the jack of diamonds, and the jack of diamonds beats the ace of hearts whichever of them is played first |
| Logic.Possible | src/euchre/logic.go:74-91 | The answer lists hand positions in increasing order. A position is listed exactly when its card follows the led suit, or when no card in the hand can follow (this includes there being no led card). A non-empty hand always has a legal play |
| Logic.Champion | src/euchre/logic.go:153-161 | Reference winner among the first `n` cards: a position below `n` |
| Logic.ChampionBeatsLater | src/euchre/logic.go:156-160 | The winning card beats every card played after it |
| Logic.ChampionTookOver | src/euchre/logic.go:156-160 | A winning card other than the led card was not beaten by the card winning just before it, and it is still the winner of the prefix that ends with it |
| Logic.ChampionStrongest | src/euchre/logic.go:150-165 | Among different cards, the winning card is trump or follows the led suit, and it ranks strictly above every other card of the trick in the reference ranking (right bower, left bower, other trumps, then the led suit by rank) |
| Logic.WinnerIdx | src/euchre/logic.go:150-165 | The answer is -1 exactly for an empty trick, and 0 for one card. Otherwise it is the winning position, a valid index whose card beats every later card. When the cards are different, that card is also the strongest of the trick: trump or of the led suit, and ranked above every other card |
| Logic.HighestSeat | src/euchre/logic.go:109-119 | The seat of the winning card counted clockwise from the leader as if all four seats played: `(led + winning position) % 4`, or `led` for an empty trick |
| Logic.SkipSittingOut | src/euchre/logic.go:121-133 | The walk from the leader moves the seat one further on exactly when the absent seat lies on the arc from the leader up to and including that seat. With nobody alone the seat is unchanged |
| Logic.Winner | src/euchre/logic.go:108-136 | A seat in [0,3]: the winning card's naive seat, moved one on past the absent seat. With nobody alone it is exactly `(led + winning position) % 4` |
| Seating.SkipAbsent | src/euchre/logic.go:121-133 | The corrected seat is a seat, equal to the naive seat or the one after it, and equal to the naive seat when nobody is alone |
| Seating.SkipAbsentArc | src/euchre/logic.go:121-133 | For a naive seat at most two seats from the leader, the seat moves on exactly when the absent seat is at most as far from the leader as it is |
| Seating.PlayOrderSkip | src/euchre/logic.go:113-133 | In every trick, the seat Winner assigns to the `k`-th card is the seat that played it in the playing order |
| Seating.PlayOrderShape | src/euchre/logic.go:276-279 | The playing order has one seat per card of a complete trick, starts at the leader, holds distinct seats, and never holds the absent seat |
| Seating.PlayOrderExplicit | src/euchre/logic.go:276-279 | The playing order spelled out for each position of the absent seat relative to the leader |
| Seating.CardOffset | src/euchre/logic.go:284-294 | The position of a seat's card in a trick is in [0,3], is 0 for the leader, and is inside the trick for every seat that plays |
| Seating.PlayOrderOffset | src/euchre/logic.go:284-294 | The card position NoSuits reads for a playing seat is that seat's place in the playing order |
| Logic.Leader | src/euchre/logic.go:180-193 | The seat before `player` by the number of cards played, in Go's remainder, stepped back by one (without wrap) in some cases when somebody is alone |
| Logic.LeaderInclusive | src/euchre/logic.go:208-210 | Leader of all cards but the last, seen from the seat that played the last card |
| Logic.LeaderFindsLead | src/euchre/logic.go:180-193 | With nobody alone, the seat about to play the `k`-th card recovers the leader from the `k` cards before it |
| Logic.LeaderInclusiveFindsLead | src/euchre/logic.go:208-210 | With nobody alone, the seat that played the last card recovers the leader |
| Logic.LeaderAloneUpToWrap | src/euchre/logic.go:183-190 | With somebody alone, Leader's answer is the leader modulo 4, though not always in [0,3] |
| Logic.LeaderStep | src/euchre/logic.go:180-193 | For each leader, the `k`-th seat of a three-card trick recovers the leader: mod 4 for Leader, exactly for LeaderCorrected |
| Logic.LeaderMissesWrap | src/euchre/logic.go:183-190 | In a trick led from seat 3 with seat 0 sitting out, seat 1 plays second, yet Leader answers -1 |
| Logic.LeaderSentinelFour | src/euchre/logic.go:183-184 | The value 4 for the alone player is read as seat 0 alone, so Leader differs from its answer when nobody is alone |
| Logic.LeaderCorrected | src/euchre/logic.go:180-193 | Leader with the step back taken modulo 4: the answer lies in (-4, 4) |
| Logic.LeaderCorrectedFindsLead | src/euchre/logic.go:180-193 | For every leader and every alone value, the seat about to play the `k`-th card of a trick recovers its leader exactly |
| Logic.Voids | src/euchre/logic.go:266-302 | Reference list of suits a seat has shown it lacks: at most one per prior trick |
| Logic.VoidsSound | src/euchre/logic.go:295-297 | Every suit recorded against a seat is the led suit of a trick in which that seat showed out |
| Logic.VoidsComplete | src/euchre/logic.go:295-297 | Every trick in which a seat showed out records its led suit against that seat |
| Logic.NeverShowsOut | src/euchre/logic.go:276-279 | Neither the leader nor the seat sitting out ever shows out |
| Logic.ShowedOutAtSeat | src/euchre/logic.go:284-296 | A seat showed out exactly when the card it played, at its place in the playing order, is off the led suit |
| Logic.AbsentAdjust | src/euchre/logic.go:284-290 | The inner walk gives -1 exactly when somebody is alone and the absent seat lies clockwise from the leader before `player`, else 0 |
| Logic.CardIndex | src/euchre/logic.go:292-294 | The index `(player + 4 - led + adjust) % 4` is that seat's card position |
| Logic.NotedAtIndex | src/euchre/logic.go:294-297 | That index is inside the trick, and the seat's list grows exactly when the card there is off the led suit |
| Logic.RecordSeat | src/euchre/logic.go:276-297 | One seat of one trick: only that seat's entry changes, and it gains the led suit exactly when the seat showed out. No empty entry is created |
| Logic.RecordTrick | src/euchre/logic.go:272-298 | One trick: every seat's entry is extended by exactly what that trick notes for it, and nothing else changes |
| Logic.NoSuits | src/euchre/logic.go:266-302 | A seat has an entry exactly when it has shown out of some prior trick. Its entry lists the led suits of those tricks, in order. No other key appears |
| Logic.CopyAllHands | src/euchre/logic.go:221-231 | A fresh outer array of the same length. Each hand is a fresh array with the same cards, and no two copies share an array |
| Logic.ExtractAvailableCards | src/euchre/logic.go:244-253 | The list holds exactly the cards mapped to true, each once |
| Minimax.Score.Max | src/ai/minimax.go:62 | `math.Max` on the extended reals: an upper bound of both arguments that is one of them |
| Minimax.Score.Min | src/ai/minimax.go:69 | `math.Min` on the extended reals: a lower bound of both arguments that is one of them |
| Minimax.Init | src/ai/minimax.go:44-50 | The starting extreme is the least score at a favourable state and the greatest score otherwise |
| Minimax.Extreme | src/ai/minimax.go:52-67 | The extreme the scan keeps is Init for no answers. Otherwise it is one of the answers and at least as good as every answer for the side to move |
| Minimax.ExtremeSnoc | src/ai/minimax.go:56-67 | One more answer replaces the extreme exactly when it strictly improves on it |
| Minimax.Window | src/ai/minimax.go:62-69 | The favourable side only raises alpha; the other side only lowers beta |
| Minimax.BestMonotone | src/ai/minimax.go:52-70 | The best over a longer prefix of successors is at least as good for the side to move |
| Minimax.BestBoundsChildren | src/ai/minimax.go:52-70 | No successor among the first `i` is better for the side to move than the best of them |
| Minimax.BestAttained | src/ai/minimax.go:52-70 | The best of a non-empty prefix of successors is the value of one of them |
| Minimax.ValueIsBestChild | src/ai/minimax.go:38-70 | A non-terminal state's minimax value is the value of one of its successors, and no successor is better for the side to move. With no successors the value is Init |
| Minimax.RegularFinite | src/ai/minimax.go:38-39 | If every terminal evaluation is finite and every other state has successors, every value is finite |
| Minimax.BestFinite | src/ai/minimax.go:52-70 | On such a tree the best of a non-empty prefix of successors is finite |
| Minimax.MaxStep | src/ai/minimax.go:56-62 | Folding one successor's fail-soft answer into the extreme keeps the maximiser's extreme fail-soft for the best so far |
| Minimax.MinStep | src/ai/minimax.go:63-69 | The same for the minimiser |
| Minimax.SearchStep | src/ai/minimax.go:52-70 | One scan step keeps the extreme fail-soft, and an improving answer becomes the chosen move |
| Minimax.ChosenStep | src/ai/minimax.go:56-67 | A successor whose answer strictly improves on the extreme is chosen with that answer |
| Minimax.ChildrenBelow | src/ai/minimax.go:52-70 | Inside the window every successor searched so far is bounded by the extreme |
| Minimax.Cutoff | src/ai/minimax.go:72-74 | Stopping once beta < alpha leaves an answer outside the window, on the side where it is still fail-soft for the whole state |
| Minimax.AnsweredSnoc | src/ai/minimax.go:52-67 | Searching the next successor in the current window extends the record by its answer. The extreme changes to that answer exactly when it strictly improves on it |
| Minimax.SearchSuccessors | src/ai/minimax.go:42-77 | The scan's answer is fail-soft for the state's value. There is no move exactly when the answer is still Init. A move is a successor chosen with the answer. `answers` is the list of the first successors' search answers, in order, each found in the window left by the ones before it. That window was open before each of them, so the scan never stopped earlier. The answer is the extreme of that list. If the list is shorter than the successors, the last answer closed the window, leaving the answer past it |
| Minimax.MinimaxHelper | src/ai/minimax.go:36-78 | A terminal state answers its evaluation with the move that stays on it. Otherwise it answers as the scan does: fail-soft in the window. It is the extreme of the successors' search answers, each searched in the window left by those before it, and it stops right after the first answer that closes the window |
| Minimax.Minimax | src/ai/minimax.go:17-19 | The value is the exact minimax value. A terminal state stays put. Otherwise there is no move exactly when the value is Init, and a move is the first successor whose value equals the answer. On a tree with finite evaluations and no dead ends, the value is finite and a move exists |

## Left out

- The rest of the repository is not part of this model: Monte Carlo tree search, determinisation, the game `State` and engine, the players, the command-line tools and the tests.
- The repository's `deck` package is not part of this model. `Deck` states the usual Euchre assumptions in its place: four suits in two colours, the values nine to ace, and `AdjSuit` reading the left bower as trump.
- Minimax.Score: Go's `float64` becomes a real number plus the two infinities. NaN, signed zero and rounding are not modelled.
- Minimax.Node: the game engine's four queries are read off a finite tree. Infinite or cyclic games are not modelled, and the engine is assumed to give the same answers each time it is asked.
- Minimax.MinimaxHelper: requires alpha <= beta. Every call in the source meets this: the entry point passes (-inf, +inf), and the loop recurses only while beta >= alpha.
- Minimax.MinimaxHelper: the successors searched and Go's early stop (`break`) are stated through the ghost sequence `answers`. Each entry is stated as fail-soft in its window (`AnsweredAt`), not as the exact value that search returns.
- Minimax.Minimax: if every successor's answer equals the starting extreme (all -inf at a favourable state), Go returns the zero `Move` even though successors exist. The model keeps this edge case as `None`, and proves `None` happens exactly then.
- Logic.Winner: requires the leader to be a seat in [0,3], as its doc comment describes. For other values Go can answer a number outside [0,3]; the model does not follow that arithmetic.
- Logic.Winner: with nobody alone it is exact; with somebody alone it states the seat through `SkipAbsent`. Go's half-open walk is empty when the naive seat is three seats past the leader, which never happens for a three-card trick. `SkipAbsentArc` states the inclusive-arc reading only for the reachable case.
- Logic.NoSuits: requires every prior trick to be complete, with a leader in [0,3] and one card per seat that plays. On other input, Go indexes out of range or reads the card of the wrong seat.
- Logic.LeaderInclusive: requires at least one card played. For an empty trick, Go's `played[:len(played)-1]` panics on a negative slice bound; the model does not model that panic.
- Logic.CopyAllHands: takes the array of hands rather than the whole `State`, since it reads nothing else.
- Logic.ExtractAvailableCards: Go's map iteration order is unspecified, so the model picks the cards in an arbitrary order and states nothing about the order.
- Logic.Leader and Logic.LeaderInclusive: their contracts state what the code computes. The wrap-around bug is stated as a lemma pair (see the findings) rather than as a postcondition.

## Findings

| source | as written | input that shows it | evidently intended | confidence | as-written member | corrected member |
|---|---|---|---|---|---|---|
| src/euchre/logic.go:183-189 | when somebody is alone, `leader--` steps back one seat without wrapping from seat 0 to seat 3 | alone = 2 (seat 0 sits out), one card played, player = 1: the trick was led from seat 3, but Leader answers -1 | `(leader + 3) % 4`, which gives 3 | not executed; high, the answer is not a seat | Logic.LeaderMissesWrap | Logic.LeaderCorrectedFindsLead |
| src/euchre/logic.go:183 | Leader tests only `alone >= 0`, while Winner and noSuits also test `alone < 4` | alone = 4, one card played, player = 3 with nobody alone: Leader answers 1 instead of 2 (the answer for alone = -1) | any value outside [0,3] means nobody is alone | not executed; low, callers may only pass -1 | Logic.LeaderSentinelFour | Logic.LeaderCorrectedFindsLead |
