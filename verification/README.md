# Walleter voting bookkeeping, modelled in Dafny

Walleter is a demonstration Cardano web front-end. Its two voting pages keep
their own client-side bookkeeping, and that bookkeeping is what this project
models and proves properties of:

- `src/pages/voting.tsx` — an accept/reject vote. `castVote` counts a vote on
  the proposal with a given id. `createProposal` appends a fresh proposal with
  no votes. Each proposal shows percentage bars and a time-left label. A
  completed proposal shows a passed/rejected verdict.
- `src/pages/real-voting.tsx` — a two-option vote. Voting needs a connected
  wallet and a minimum ADA balance (the anti-spam rule). A history map from
  proposal id to choice keeps each proposal to one vote. A vote datum is built
  for the script output. A new-proposal form is validated and then reset.

Everything is written as immutable datatypes and pure functions. Each event
handler is one state transition. Its hidden inputs are explicit parameters:
`Date.now()` (`now`, in epoch milliseconds), whether a wallet object exists,
the wallet's UTXO count, address and asset list, and the `prompt` answers.

Modules:

- `Wrappers` (`wrappers.dfy`): `Option`, for `undefined`/`null`/`NaN`.
- `JsNumber` (`js_number.dfy`): the decimal text of an integral number, and
  the global `parseInt` with no radix. `parseInt` skips leading ECMAScript
  white space, reads an optional sign and an optional `0x` prefix, then the
  longest run of digits.
- `Countdown` (`countdown.dfy`): the time-left label. `formatTimeRemaining` and
  `formatDeadline` use the same arithmetic, so it is modelled once, by the
  label's three shapes.
- `Tally` (`tally.dfy`): `getVotePercentage`, i.e. `Math.round` of the share,
  computed in integers as `(200·votes + total) div (2·total)`.
- `Voting` (`voting.dfy`): `src/pages/voting.tsx`.
- `RealVoting` (`real_voting.dfy`): `src/pages/real-voting.tsx`.

Behaviour of the code that the model keeps on purpose:

- `castVote` does not look at `hasVoted`, `isActive` or the deadline. Only the
  page's rendering hides the buttons, so a second vote on the same record
  would be counted again.
- `castVote` updates every proposal that carries the id. The page numbers its
  proposals `"1"`, `"2"`, …, so in practice that is exactly one proposal.
- `handleVote` does not look at `isActive` or the deadline either.
- `handleVote` checks the ADA minimum before the history. The page's
  rendering checks them in the other order.
- A wallet whose asset list exists but has no lovelace entry counts as
  holding 0 ADA. An asset list that is absent means "not enough ADA".
- The two `getVotePercentage` versions differ: one tests `total === 0`, the
  other `total > 0`. They agree on every vote count, because counts are
  never negative.

## Model

| member | source | states |
|---|---|---|
| JsNumber.NumberToString | src/pages/voting.tsx:183 | the text of an integer is non-empty; it starts with "-" exactly when the integer is negative; every other character is a decimal digit |
| JsNumber.ParseInt | src/pages/voting.tsx:170 | empty or all-white-space text gives NaN; a negative result only comes from text whose first non-space character is "-" |
| JsNumber.DecimalStringInjective | src/pages/voting.tsx:183 | two proposal numbers give the same id text only when they are equal |
| JsNumber.ParseIntOfNumberToString | src/pages/real-voting.tsx:120 | reading back the decimal text of an integer (the output quantity) with `parseInt` gives that integer again, negatives included |
| JsNumber.ParseIntDecimalPrefix | src/pages/voting.tsx:170 | `parseInt` of a number's decimal text followed by a non-digit (e.g. "3 days") reads the number; after "0" it must not be followed by x/X, which would switch to hexadecimal |
| JsNumber.ParseIntSkipsWhiteSpace | src/pages/voting.tsx:167-170 | leading white space in the typed day count does not change what `parseInt` reads |
| JsNumber.ParseIntNaN | src/pages/voting.tsx:170-171 | text that, after trimming, starts with no sign and no digit parses to NaN, which the day-count check rejects |
| Countdown.Remaining | src/pages/voting.tsx:201-212 | the label is "ended" exactly when the deadline is not after now; the days form is used exactly when at least a whole day remains; the hours shown are below 24 |
| Countdown.RemainingIsWholeHoursLeft | src/pages/real-voting.tsx:255-266 | a label that is not "ended" shows the remaining time rounded down to a whole hour: days·24 + hours hours ≤ remaining < one hour more |
| Tally.Percentage | src/pages/voting.tsx:214-217 | 0 for an empty tally; otherwise the nearest integer to 100·votes/total, with halves rounded up |
| Tally.PercentageBounds | src/pages/voting.tsx:216 | for 0 ≤ votes ≤ total and total > 0 the percentage is at most 100, and it is exactly 100 when votes = total |
| Tally.PercentageMonotone | src/pages/real-voting.tsx:250-252 | more votes out of the same total never show a smaller percentage |
| Tally.ComplementaryPercentages | src/pages/voting.tsx:259-261 | the accept and reject bars of a non-empty tally add up to 100 or 101 percent |
| Voting.Voted | src/pages/voting.tsx:141-148 | a counted vote raises the chosen counter by one and leaves the other alone, so the total rises by one; it sets `hasVoted` and records the choice; id, title, description, deadline, creator and `isActive` stay |
| Voting.ApplyVote | src/pages/voting.tsx:139-151 | the list keeps its length and order; each proposal with the target id becomes its voted record; every other proposal is unchanged |
| Voting.CastVote | src/pages/voting.tsx:84-151 | without a wallet, or with no UTXO, nothing is recorded; otherwise the list is updated as above |
| Voting.ApplyVoteAddsOnePerMatch | src/pages/voting.tsx:139-151 | the list's vote total rises by exactly the number of proposals carrying the target id |
| Voting.RepeatVoteCountsAgain | src/pages/voting.tsx:139-148 | a vote on a record already voted on is counted again: there is no double-vote guard in the update |
| Voting.WellNumberedCount | src/pages/voting.tsx:183 | in a list numbered "1".."n", the id of number k is held by one proposal when 1 ≤ k ≤ n and by none otherwise |
| Voting.VoteOnNumberedList | src/pages/voting.tsx:139-151 | on a numbered list, a vote on proposal k changes only position k-1 and raises the list's total by exactly one |
| Voting.ApplyVoteKeepsNumbering | src/pages/voting.tsx:139-151 | a vote keeps the list numbered "1".."n" |
| Voting.CreateProposal | src/pages/voting.tsx:162-199 | no wallet: nothing; a cancelled or empty prompt: nothing; a day count that is NaN or below 1: rejected; otherwise exactly one proposal is appended, earlier entries untouched, with id length+1, zero votes, open, not voted, and deadline now + days·86 400 000 ms |
| Voting.CreateKeepsNumbering | src/pages/voting.tsx:182-194 | creating a proposal keeps the list numbered "1".."n+1" and leaves its vote total unchanged |
| Voting.NewProposalCountdown | src/pages/voting.tsx:188 | at the creation instant only, a proposal created for d days shows "d days, 0 hours left" |
| Voting.NewProposalCountdownLater | src/pages/voting.tsx:188-211 | rendered later within the first hour after creation, a proposal created for d days shows d-1 days and 23 hours, or 23 hours when d = 1 |
| Voting.Passed | src/pages/voting.tsx:353 | passed exactly when accept votes are more than half of all votes; a passed proposal has at least one accept vote; a tie, and an empty tally, are not passed |
| Voting.PassedAgreesWithPercentages | src/pages/voting.tsx:349-353 | a passed proposal never shows a smaller accept bar than reject bar; a larger accept bar means passed; a tie is rejected |
| Voting.VotePushesVerdict | src/pages/voting.tsx:143-144 | an accept vote never turns a passed proposal into a rejected one; a reject vote never does the reverse |
| RealVoting.FindAsset | src/pages/real-voting.tsx:160 | finds nothing exactly when no asset has the unit; otherwise returns the first asset with that unit |
| RealVoting.HasMinimumAda | src/pages/real-voting.tsx:158-163 | false without an asset list; a missing lovelace entry counts as 0 ADA; NaN fails; otherwise true exactly when lovelace / 1 000 000 ≥ the minimum |
| RealVoting.AdaComparison | src/pages/real-voting.tsx:161-162 | lovelace / 1 000 000 ≥ minAda (exact division) holds exactly when lovelace ≥ minAda·1 000 000 |
| RealVoting.HasMinimumAdaMonotone | src/pages/real-voting.tsx:158-163 | for any two asset lists whose lovelace balances are readable, if the first qualifies and the second holds at least as much, the second qualifies too; the balance is the first "lovelace" entry read with `parseInt`, or 0 when there is none, so other assets and non-canonical digit texts are covered |
| RealVoting.AlreadyVotedAfterHandleVote | src/pages/real-voting.tsx:166-201 | after any vote attempt, the already-voted guard holds for an id exactly when it held before, or when this attempt went through for that id |
| RealVoting.HandleVote | src/pages/real-voting.tsx:166-212 | rejections in order: wallet or address missing, too little ADA, proposal already in the history; a rejection leaves the history unchanged; success adds exactly id → choice and keeps every other entry |
| RealVoting.SecondVoteRefused | src/pages/real-voting.tsx:182-201 | after a vote on a proposal goes through, every later vote on that id is refused and leaves the history unchanged, whatever the wallet |
| RealVoting.AtMostOneVotePerProposal | src/pages/real-voting.tsx:166-201 | over any sequence of vote clicks, each proposal gets at most one vote; a recorded choice never changes |
| RealVoting.BuildVoteTransaction | src/pages/real-voting.tsx:96-128 | the datum adds one to the chosen option's count and keeps the other; the deadline becomes floor(ms/1000) seconds; the minimum becomes minAda·1 000 000 lovelace; the output quantity text reads back as that amount (in the source only below 10^21 lovelace); voters is the voter's key hash alone |
| RealVoting.HandleCreateProposal | src/pages/real-voting.tsx:215-247 | refused without a connected wallet, or when title, description, optionA or optionB is empty, and then the form is unchanged; on success the id is exactly "proposal_" followed by the decimal text of now, which parseInt reads back as now, the form is reset to empty texts, duration 7 and minAda 2, and the panel closes |
| RealVoting.CreateThenResubmitRefused | src/pages/real-voting.tsx:221-240 | submitting again right after a creation is refused for missing fields, because the reset form is empty |
| RealVoting.CreatedIdsDistinct | src/pages/real-voting.tsx:228 | proposals created at different instants get different ids |

## Left out

- Wallet and chain calls are not modelled: `BlockfrostProvider`, the `MeshTxBuilder` chain up to `complete()`, `getUtxos`, `getChangeAddress`, `getAssets`, signing and submission. They are foreign SDK behaviour. Their results are inputs (wallet presence, UTXO count, address, asset list, UTXO selection), or they are dropped.
- Voting.CastVote: an exception thrown by the SDK calls inside the `try` is not modelled. Such an exception leaves the list unchanged, the same as the `NoUtxos` outcome.
- `BuildVoteTransaction` is never called by `handleVote` in the source. It is modelled on its own, as the datum and the script output it describes.
- `src/pages/hello.tsx`, `mint.tsx`, `marketplace.tsx` and `index.tsx` are not modelled. They are SDK calls, canned alerts and floating-point price text, and none is part of the voting bookkeeping.
- The two time-left labels are modelled by their shape (`Ended`, `DaysHours`, `Hours`), not their wording. The wording differs between the pages: "Voting ended" / "d days, h hours left" and "Voting Ended" / "dd hh remaining".
- Tally.Percentage: computed on exact rationals. The source computes `votes / total * 100` in binary floating point before `Math.round`, so an exact half can land just below or just above .5.
- RealVoting.HasMinimumAda: exact division. The source divides in floating point, which matters only above 2^53 lovelace. The minimum is modelled as a whole number of ADA.
- JsNumber.NumberToString: covers integers of magnitude below 10^21 only. From 10^21 on, JavaScript writes the number in exponent form ("1e+21"), and `parseInt` reads that text back as 1. The model keeps the plain decimal form for every integer.
- RealVoting.BuildVoteTransaction: the output quantity reads back as `min_ada_to_vote` only in the model. In the source this fails once `minAdaRequired` reaches 10^15 ADA, because the lovelace amount then reaches 10^21 and is written in exponent form.
- JsNumber.ParseInt: exact integers. JavaScript numbers lose precision above 2^53. `-0` is identified with 0.
- Voting.CreateProposal: the deadline is exact integer arithmetic. A JavaScript `Date` becomes invalid beyond ±8.64·10^15 ms, and the model does not show that.
- The `alert`, `prompt`, `console` output, `setTimeout` delays, `Math.random` transaction hashes and the JSX rendering are not modelled. The only exception is the verdict rule at `voting.tsx:353`.
- The `loading`/`isVoting` busy flags and React's asynchronous state updates are not modelled. Each handler is one atomic step. In the source, `handleVote` awaits two seconds between its guards and the history update, so a click on the other option in that window would pass the history guard. The atomic model does not show that.
- The form's `onChange` field setters are plain field assignments and are not modelled. `duration` and `minAda` hold `parseInt` results, with `None` for NaN.
- The mock proposal fixtures are test data and are not modelled.
