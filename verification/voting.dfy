/**
 * The accept/reject voting page (`src/pages/voting.tsx`): a list of
 * proposals, a handler that records one vote on the proposal with a given id,
 * a handler that appends a new proposal, and the pass/reject verdict of a
 * completed proposal. `Date.now()`, the wallet object and the wallet's UTXO
 * count are parameters; each handler is one atomic state transition.
 */
module Voting {
  import opened Wrappers
  import JsNumber
  import Tally
  import Countdown

  datatype Choice = Accept | Reject

  datatype Proposal = Proposal(
    id: string,
    title: string,
    description: string,
    acceptVotes: nat,
    rejectVotes: nat,
    deadline: int,          // epoch milliseconds
    creator: string,
    isActive: bool,
    hasVoted: bool,
    userVote: Option<Choice>,
    txHash: Option<string>)

  function TotalVotes(p: Proposal): nat {
    p.acceptVotes + p.rejectVotes
  }

  /** Votes over the whole list. */
  function SumVotes(ps: seq<Proposal>): nat {
    if |ps| == 0 then 0 else SumVotes(ps[..|ps| - 1]) + TotalVotes(ps[|ps| - 1])
  }

  /** How many proposals of the list carry the id. */
  function CountId(ps: seq<Proposal>, id: string): nat {
    if |ps| == 0 then 0
    else CountId(ps[..|ps| - 1], id) + (if ps[|ps| - 1].id == id then 1 else 0)
  }

  /** The demo transaction hash recorded with a vote: `'demo_vote_tx_' + Date.now()`. */
  function DemoTxHash(now: int): string {
    "demo_vote_tx_" + JsNumber.NumberToString(now)
  }

  /** The record a proposal becomes once the user's vote is counted on it. */
  function Voted(p: Proposal, choice: Choice, now: int): (q: Proposal)
    ensures TotalVotes(q) == TotalVotes(p) + 1
    ensures choice == Accept ==> q.acceptVotes == p.acceptVotes + 1 && q.rejectVotes == p.rejectVotes
    ensures choice == Reject ==> q.rejectVotes == p.rejectVotes + 1 && q.acceptVotes == p.acceptVotes
    ensures q.hasVoted && q.userVote == Some(choice) && q.txHash == Some(DemoTxHash(now))
    ensures q.id == p.id && q.title == p.title && q.description == p.description
    ensures q.deadline == p.deadline && q.creator == p.creator && q.isActive == p.isActive
  {
    p.(acceptVotes := if choice.Accept? then p.acceptVotes + 1 else p.acceptVotes,
       rejectVotes := if choice.Reject? then p.rejectVotes + 1 else p.rejectVotes,
       hasVoted := true,
       userVote := Some(choice),
       txHash := Some(DemoTxHash(now)))
  }

  /**
   * The state update of `castVote`: every proposal whose id is the target is
   * replaced by its voted record; the others, and the order, stay. There is
   * no check of `hasVoted`, `isActive` or the deadline here.
   */
  function ApplyVote(ps: seq<Proposal>, id: string, choice: Choice, now: int): (r: seq<Proposal>)
    ensures |r| == |ps|
    ensures forall i :: 0 <= i < |ps| && ps[i].id != id ==> r[i] == ps[i]
    ensures forall i :: 0 <= i < |ps| && ps[i].id == id ==> r[i] == Voted(ps[i], choice, now)
  {
    if |ps| == 0 then []
    else
      var last := ps[|ps| - 1];
      ApplyVote(ps[..|ps| - 1], id, choice, now) + [if last.id == id then Voted(last, choice, now) else last]
  }

  datatype CastOutcome =
    | NoWallet                          // `if (!wallet) return`
    | NoUtxos                           // the wallet holds no UTXO: alert, nothing recorded
    | Cast(proposals: seq<Proposal>)

  /** `castVote(proposalId, voteChoice)` with the wallet's presence and UTXO count as inputs. */
  function CastVote(walletPresent: bool, utxoCount: nat, ps: seq<Proposal>, id: string, choice: Choice, now: int): (o: CastOutcome)
    ensures !walletPresent <==> o == NoWallet
    ensures walletPresent && utxoCount == 0 <==> o == NoUtxos
    ensures o.Cast? ==> |o.proposals| == |ps|
    ensures o.Cast? ==> forall i :: 0 <= i < |ps| ==>
      o.proposals[i] == if ps[i].id == id then Voted(ps[i], choice, now) else ps[i]
  {
    if !walletPresent then NoWallet
    else if utxoCount == 0 then NoUtxos
    else Cast(ApplyVote(ps, id, choice, now))
  }

  /** Each matching proposal gains exactly one vote; the others keep theirs. */
  lemma {:induction false} ApplyVoteAddsOnePerMatch(ps: seq<Proposal>, id: string, choice: Choice, now: int)
    ensures SumVotes(ApplyVote(ps, id, choice, now)) == SumVotes(ps) + CountId(ps, id)
  {
    if |ps| > 0 {
      var r := ApplyVote(ps, id, choice, now);
      var init := ps[..|ps| - 1];
      ApplyVoteAddsOnePerMatch(init, id, choice, now);
      assert r[..|r| - 1] == ApplyVote(init, id, choice, now);
    }
  }

  /** `castVote` does not refuse a proposal already voted on: a second vote is counted again. */
  lemma RepeatVoteCountsAgain(p: Proposal, choice: Choice, now: int, later: int)
    ensures var twice := Voted(Voted(p, choice, now), choice, later);
      TotalVotes(twice) == TotalVotes(p) + 2 && twice.hasVoted
  {
  }

  /** The list as the page builds it: the proposal at position i has id `String(i + 1)`. */
  ghost predicate WellNumbered(ps: seq<Proposal>) {
    forall i :: 0 <= i < |ps| ==> ps[i].id == JsNumber.DecimalString(i + 1)
  }

  /** In a well-numbered list an id is held by at most one proposal, the one at its number. */
  lemma {:induction false} WellNumberedCount(ps: seq<Proposal>, k: nat)
    requires WellNumbered(ps)
    ensures CountId(ps, JsNumber.DecimalString(k)) == if 1 <= k <= |ps| then 1 else 0
  {
    if |ps| > 0 {
      var init := ps[..|ps| - 1];
      assert WellNumbered(init);
      WellNumberedCount(init, k);
      JsNumber.DecimalStringInjective(|ps|, k);
    }
  }

  /**
   * On a well-numbered list a vote on proposal number k (1 <= k <= length)
   * changes that proposal alone and raises the list's total by exactly one.
   */
  lemma VoteOnNumberedList(ps: seq<Proposal>, k: nat, choice: Choice, now: int)
    requires WellNumbered(ps) && 1 <= k <= |ps|
    ensures var r := ApplyVote(ps, JsNumber.DecimalString(k), choice, now);
      && SumVotes(r) == SumVotes(ps) + 1
      && r[k - 1] == Voted(ps[k - 1], choice, now)
      && (forall i :: 0 <= i < |ps| && i != k - 1 ==> r[i] == ps[i])
  {
    var id := JsNumber.DecimalString(k);
    WellNumberedCount(ps, k);
    ApplyVoteAddsOnePerMatch(ps, id, choice, now);
    OnlyNumberHoldsId(ps, k);
    var r := ApplyVote(ps, id, choice, now);
    assert r[k - 1] == Voted(ps[k - 1], choice, now);
  }

  /** In a well-numbered list no position other than k - 1 carries the id of number k. */
  lemma OnlyNumberHoldsId(ps: seq<Proposal>, k: nat)
    requires WellNumbered(ps)
    ensures forall i :: 0 <= i < |ps| && i != k - 1 ==> ps[i].id != JsNumber.DecimalString(k)
  {
    forall i | 0 <= i < |ps| && i != k - 1
      ensures ps[i].id != JsNumber.DecimalString(k)
    {
      JsNumber.DecimalStringInjective(i + 1, k);
    }
  }

  /** A vote keeps the list well numbered. */
  lemma ApplyVoteKeepsNumbering(ps: seq<Proposal>, id: string, choice: Choice, now: int)
    requires WellNumbered(ps)
    ensures WellNumbered(ApplyVote(ps, id, choice, now))
  {
  }

  /** A `prompt` answer that JavaScript treats as true: neither cancelled (`null`) nor empty. */
  predicate Answered(s: Option<string>) {
    s.Some? && s.value != ""
  }

  datatype CreateOutcome =
    | CreateNoWallet                    // `if (!wallet) return`
    | Dismissed                         // a prompt was cancelled or left empty: nothing happens
    | InvalidPeriod                     // the day count is `NaN` or below 1: alert, nothing recorded
    | Created(proposals: seq<Proposal>)

  /** The proposal `createProposal` appends: numbered after the list, no votes, open. */
  function NewProposal(ps: seq<Proposal>, title: string, description: string, days: int, creator: string, now: int): Proposal {
    Proposal(JsNumber.DecimalString(|ps| + 1), title, description, 0, 0,
             now + days * Countdown.DayMs, creator, true, false, None, None)
  }

  /**
   * `createProposal()` with the three prompt answers, the connected address
   * and `Date.now()` as inputs. The day count is read with `parseInt`.
   */
  function CreateProposal(walletPresent: bool, title: Option<string>, description: Option<string>,
                          daysText: Option<string>, creator: string, now: int, ps: seq<Proposal>): (o: CreateOutcome)
    ensures !walletPresent <==> o == CreateNoWallet
    ensures o == Dismissed <==> walletPresent && !(Answered(title) && Answered(description) && Answered(daysText))
    ensures o == InvalidPeriod <==>
      && walletPresent && Answered(title) && Answered(description) && Answered(daysText)
      && (JsNumber.ParseInt(daysText.value).None? || JsNumber.ParseInt(daysText.value).value < 1)
    ensures o.Created? ==>
      && JsNumber.ParseInt(daysText.value).Some?
      && var days := JsNumber.ParseInt(daysText.value).value;
      && days >= 1
      && |o.proposals| == |ps| + 1
      && o.proposals[..|ps|] == ps
      && var q := o.proposals[|ps|];
      && q.id == JsNumber.DecimalString(|ps| + 1)
      && q.title == title.value && q.description == description.value && q.creator == creator
      && q.acceptVotes == 0 && q.rejectVotes == 0
      && q.isActive && !q.hasVoted && q.userVote == None && q.txHash == None
      && q.deadline == now + days * Countdown.DayMs
  {
    if !walletPresent then CreateNoWallet
    else if !(Answered(title) && Answered(description) && Answered(daysText)) then Dismissed
    else match JsNumber.ParseInt(daysText.value)
      case None => InvalidPeriod
      case Some(days) =>
        if days < 1 then InvalidPeriod
        else Created(ps + [NewProposal(ps, title.value, description.value, days, creator, now)])
  }

  /** Creating a proposal keeps the list well numbered and its vote total unchanged. */
  lemma CreateKeepsNumbering(walletPresent: bool, title: Option<string>, description: Option<string>,
                             daysText: Option<string>, creator: string, now: int, ps: seq<Proposal>)
    requires WellNumbered(ps)
    ensures var o := CreateProposal(walletPresent, title, description, daysText, creator, now, ps);
      o.Created? ==> WellNumbered(o.proposals) && SumVotes(o.proposals) == SumVotes(ps)
  {
  }

  /** A proposal created with a period of `days` days shows exactly that many days and no hours at once. */
  lemma NewProposalCountdown(ps: seq<Proposal>, title: string, description: string, days: int, creator: string, now: int)
    requires days >= 1
    ensures Countdown.Remaining(NewProposal(ps, title, description, days, creator, now).deadline, now)
         == Countdown.DaysHours(days, 0)
  {
  }

  /**
   * Rendered within the first hour after creation, a proposal created for
   * `days` days shows one day less and 23 hours, or 23 hours for a one-day period.
   */
  lemma NewProposalCountdownLater(ps: seq<Proposal>, title: string, description: string, days: int, creator: string,
                                  now: int, at: int)
    requires days >= 1 && now < at <= now + Countdown.HourMs
    ensures Countdown.Remaining(NewProposal(ps, title, description, days, creator, now).deadline, at)
         == if days >= 2 then Countdown.DaysHours(days - 1, 23) else Countdown.Hours(23)
  {
  }

  /** The verdict shown for a completed proposal: passed only on a strict accept majority. */
  predicate Passed(p: Proposal): (passed: bool)
    ensures passed <==> 2 * p.acceptVotes > TotalVotes(p)
    ensures passed ==> p.acceptVotes >= 1
    ensures p.acceptVotes == p.rejectVotes ==> !passed
    ensures TotalVotes(p) == 0 ==> !passed
  {
    p.acceptVotes > p.rejectVotes
  }

  function AcceptPercent(p: Proposal): nat {
    Tally.Percentage(p.acceptVotes, TotalVotes(p))
  }

  function RejectPercent(p: Proposal): nat {
    Tally.Percentage(p.rejectVotes, TotalVotes(p))
  }

  /**
   * The verdict agrees with the bars: a passed proposal never shows a smaller
   * accept share, a larger accept share means passed, and a tie is rejected.
   */
  lemma PassedAgreesWithPercentages(p: Proposal)
    ensures Passed(p) ==> AcceptPercent(p) >= RejectPercent(p)
    ensures AcceptPercent(p) > RejectPercent(p) ==> Passed(p)
    ensures p.acceptVotes == p.rejectVotes ==> !Passed(p)
  {
    if Passed(p) {
      Tally.PercentageMonotone(p.rejectVotes, p.acceptVotes, TotalVotes(p));
    } else {
      Tally.PercentageMonotone(p.acceptVotes, p.rejectVotes, TotalVotes(p));
    }
  }

  /** An accept vote never turns a passing proposal into a rejected one, and a reject vote never the reverse. */
  lemma VotePushesVerdict(p: Proposal, choice: Choice, now: int)
    ensures choice == Accept && Passed(p) ==> Passed(Voted(p, choice, now))
    ensures choice == Reject && !Passed(p) ==> !Passed(Voted(p, choice, now))
  {
  }
}
