/**
 * The two-option voting page (`src/pages/real-voting.tsx`): the anti-spam
 * ADA check, the per-proposal voting history that admits one vote per
 * proposal, the datum of a vote transaction, and the new-proposal form.
 * The wallet (its presence, address and asset list) and `Date.now()` are
 * inputs; each handler is one atomic state transition.
 */
module RealVoting {
  import opened Wrappers
  import JsNumber

  const LovelacePerAda: nat := 1000000

  /** The two options of a proposal, `'A' | 'B'`. */
  datatype Ballot = A | B

  datatype VotingProposal = VotingProposal(
    id: string,
    title: string,
    description: string,
    optionA: string,
    optionB: string,
    deadline: int,          // epoch milliseconds
    totalVotes: nat,
    optionAVotes: nat,
    optionBVotes: nat,
    minAdaRequired: int,    // whole ADA
    scriptAddress: string,
    isActive: bool,
    createdAt: int,
    creator: string)

  /** One entry of the wallet's asset list; the quantity is decimal text. */
  datatype Asset = Asset(unit: string, quantity: string)

  /** What the wallet hooks report: the wallet object, the address and the asset list, each possibly absent. */
  datatype Wallet = Wallet(present: bool, address: Option<string>, assets: Option<seq<Asset>>)

  /** `wallet && address`: a wallet object and a non-empty address. */
  predicate Connected(w: Wallet) {
    w.present && w.address.Some? && w.address.value != ""
  }

  /** Position i holds the first asset of the unit. */
  predicate IsFirstOfUnit(assets: seq<Asset>, unit: string, i: int) {
    0 <= i < |assets| && assets[i].unit == unit && forall j :: 0 <= j < i ==> assets[j].unit != unit
  }

  /** `assets.find(asset => asset.unit === unit)`: the first asset of that unit. */
  function FindAsset(assets: seq<Asset>, unit: string): (r: Option<Asset>)
    ensures r.None? <==> forall i :: 0 <= i < |assets| ==> assets[i].unit != unit
    ensures r.Some? ==> exists i :: IsFirstOfUnit(assets, unit, i) && assets[i] == r.value
  {
    if |assets| == 0 then None
    else if assets[0].unit == unit then
      assert IsFirstOfUnit(assets, unit, 0);
      Some(assets[0])
    else
      var r := FindAsset(assets[1..], unit);
      assert r.Some? ==> exists i :: IsFirstOfUnit(assets, unit, i) && assets[i] == r.value by {
        if r.Some? {
          var k :| IsFirstOfUnit(assets[1..], unit, k) && assets[1..][k] == r.value;
          assert IsFirstOfUnit(assets, unit, k + 1) by {
            forall j | 0 <= j < k + 1
              ensures assets[j].unit != unit
            {
              if j > 0 {
                assert assets[j] == assets[1..][j - 1];
              }
            }
          }
        }
      }
      r
  }

  /**
   * `hasMinimumAda(proposal)`: no asset list means no; a missing lovelace
   * entry counts as a balance of 0; an unreadable quantity (`NaN`) fails
   * the comparison.
   */
  function HasMinimumAda(assets: Option<seq<Asset>>, minAdaRequired: int): (ok: bool)
    ensures assets.None? ==> !ok
    ensures assets.Some? && FindAsset(assets.value, "lovelace").None? ==> (ok <==> 0 >= minAdaRequired)
    ensures assets.Some? && FindAsset(assets.value, "lovelace").Some? ==>
      match JsNumber.ParseInt(FindAsset(assets.value, "lovelace").value.quantity)
      case None => !ok
      case Some(lovelace) => ok <==> (lovelace as real) / (LovelacePerAda as real) >= minAdaRequired as real
  {
    if assets.None? then false
    else match FindAsset(assets.value, "lovelace")
      case None => 0 >= minAdaRequired
      case Some(ada) =>
        match JsNumber.ParseInt(ada.quantity)
        case None => false
        case Some(lovelace) =>
          AdaComparison(lovelace, minAdaRequired);
          lovelace >= minAdaRequired * LovelacePerAda
  }

  /**
   * The lovelace balance `hasMinimumAda` reads from an asset list: the first
   * lovelace entry through `parseInt` (`None` for `NaN`), or 0 when there is none.
   */
  function Lovelace(assets: seq<Asset>): Option<int> {
    match FindAsset(assets, "lovelace")
    case None => Some(0)
    case Some(ada) => JsNumber.ParseInt(ada.quantity)
  }

  /** Comparing ADA (lovelace divided by a million) with a whole-ADA minimum is comparing lovelace with the minimum times a million. */
  lemma AdaComparison(lovelace: int, minAda: int)
    ensures (lovelace as real) / (LovelacePerAda as real) >= minAda as real <==> lovelace >= minAda * LovelacePerAda
  {
  }

  /** More lovelace never makes a wallet ineligible. */
  lemma HasMinimumAdaMonotone(a1: seq<Asset>, a2: seq<Asset>, minAda: int)
    requires Lovelace(a1).Some? && Lovelace(a2).Some? && Lovelace(a1).value <= Lovelace(a2).value
    requires HasMinimumAda(Some(a1), minAda)
    ensures HasMinimumAda(Some(a2), minAda)
  {
  }

  /** `hasAlreadyVoted(proposalId)`: the history has an entry for the proposal. */
  predicate HasAlreadyVoted(history: map<string, Ballot>, proposalId: string): (voted: bool)
    ensures voted <==> proposalId in history.Keys
  {
    proposalId in history
  }

  datatype VoteStatus = NotConnected | InsufficientAda | AlreadyVoted | Submitted

  datatype VoteResult = VoteResult(status: VoteStatus, history: map<string, Ballot>)

  /**
   * `handleVote(proposal, choice)`: three guards in order (connected wallet,
   * minimum ADA, no earlier vote), then the choice is recorded under the
   * proposal's id. Neither `isActive` nor the deadline is consulted.
   */
  function HandleVote(w: Wallet, history: map<string, Ballot>, proposal: VotingProposal, choice: Ballot): (r: VoteResult)
    ensures r.status == NotConnected <==> !Connected(w)
    ensures r.status == InsufficientAda <==> Connected(w) && !HasMinimumAda(w.assets, proposal.minAdaRequired)
    ensures r.status == AlreadyVoted <==>
      Connected(w) && HasMinimumAda(w.assets, proposal.minAdaRequired) && proposal.id in history
    ensures r.status != Submitted ==> r.history == history
    ensures r.status == Submitted ==>
      && proposal.id !in history
      && r.history.Keys == history.Keys + {proposal.id}
      && r.history[proposal.id] == choice
      && forall k :: k in history ==> r.history[k] == history[k]
  {
    if !Connected(w) then VoteResult(NotConnected, history)
    else if !HasMinimumAda(w.assets, proposal.minAdaRequired) then VoteResult(InsufficientAda, history)
    else if HasAlreadyVoted(history, proposal.id) then VoteResult(AlreadyVoted, history)
    else VoteResult(Submitted, history[proposal.id := choice])
  }

  /**
   * The already-voted guard after any vote attempt: a proposal counts as voted
   * on exactly when it did before, or when this attempt went through for it.
   */
  lemma AlreadyVotedAfterHandleVote(w: Wallet, history: map<string, Ballot>, p: VotingProposal, c: Ballot, id: string)
    ensures var r := HandleVote(w, history, p, c);
      HasAlreadyVoted(r.history, id) <==> HasAlreadyVoted(history, id) || (r.status == Submitted && id == p.id)
  {
  }

  /** Once a vote on a proposal went through, any further vote on it is refused, whatever the wallet. */
  lemma SecondVoteRefused(w1: Wallet, w2: Wallet, history: map<string, Ballot>, p: VotingProposal, q: VotingProposal,
                          c1: Ballot, c2: Ballot)
    requires q.id == p.id
    requires HandleVote(w1, history, p, c1).status == Submitted
    ensures var after := HandleVote(w1, history, p, c1).history;
      HandleVote(w2, after, q, c2).status != Submitted && HandleVote(w2, after, q, c2).history == after
  {
  }

  /** One click on a vote button. */
  datatype Attempt = Attempt(wallet: Wallet, proposal: VotingProposal, choice: Ballot)

  /** The history after a sequence of vote attempts. */
  function Replay(history: map<string, Ballot>, attempts: seq<Attempt>): map<string, Ballot>
    decreases |attempts|
  {
    if |attempts| == 0 then history
    else
      var a := attempts[0];
      Replay(HandleVote(a.wallet, history, a.proposal, a.choice).history, attempts[1..])
  }

  /** How many attempts of the sequence went through for proposals with the given id. */
  function SubmittedFor(history: map<string, Ballot>, attempts: seq<Attempt>, id: string): nat
    decreases |attempts|
  {
    if |attempts| == 0 then 0
    else
      var a := attempts[0];
      var r := HandleVote(a.wallet, history, a.proposal, a.choice);
      (if r.status == Submitted && a.proposal.id == id then 1 else 0) + SubmittedFor(r.history, attempts[1..], id)
  }

  /**
   * One vote per proposal: over any sequence of attempts, a proposal already
   * in the history gets no further vote and keeps its recorded choice, and
   * any other proposal gets exactly one vote if it ends up in the history and
   * none otherwise.
   */
  lemma {:induction false} AtMostOneVotePerProposal(history: map<string, Ballot>, attempts: seq<Attempt>, id: string)
    ensures id in history ==> id in Replay(history, attempts) && Replay(history, attempts)[id] == history[id]
    ensures SubmittedFor(history, attempts, id) == if id in history || id !in Replay(history, attempts) then 0 else 1
    decreases |attempts|
  {
    if |attempts| > 0 {
      var a := attempts[0];
      var r := HandleVote(a.wallet, history, a.proposal, a.choice);
      AtMostOneVotePerProposal(r.history, attempts[1..], id);
      if r.status == Submitted && a.proposal.id == id {
        assert id in r.history;
      }
    }
  }

  /** The inline datum of a vote transaction. */
  datatype VotingDatum = VotingDatum(
    proposalId: string,
    optionAVotes: nat,
    optionBVotes: nat,
    votingDeadline: int,    // epoch seconds
    minAdaToVote: int,      // lovelace
    voters: seq<string>)

  /** The one script output of a vote transaction, its datum and the change address. */
  datatype VoteTx = VoteTx(scriptAddress: string, lovelace: string, datum: VotingDatum, changeAddress: string)

  /**
   * `VotingTransactionBuilder.buildVoteTransaction(proposal, choice, voterPubKeyHash)`,
   * up to the transaction builder's `complete()`: the datum counts the
   * chosen option once more, converts the deadline to whole seconds and the
   * minimum to lovelace, and the script output carries that minimum.
   */
  function BuildVoteTransaction(walletAddress: string, proposal: VotingProposal, choice: Ballot, voterPubKeyHash: string): (tx: VoteTx)
    ensures tx.datum.proposalId == proposal.id
    ensures choice == A ==> tx.datum.optionAVotes == proposal.optionAVotes + 1 && tx.datum.optionBVotes == proposal.optionBVotes
    ensures choice == B ==> tx.datum.optionBVotes == proposal.optionBVotes + 1 && tx.datum.optionAVotes == proposal.optionAVotes
    ensures tx.datum.votingDeadline * 1000 <= proposal.deadline < tx.datum.votingDeadline * 1000 + 1000
    ensures tx.datum.minAdaToVote == proposal.minAdaRequired * LovelacePerAda
    ensures JsNumber.ParseInt(tx.lovelace) == Some(tx.datum.minAdaToVote)
    ensures tx.datum.voters == [voterPubKeyHash]
    ensures tx.scriptAddress == proposal.scriptAddress && tx.changeAddress == walletAddress
  {
    var datum := VotingDatum(
      proposal.id,
      if choice == A then proposal.optionAVotes + 1 else proposal.optionAVotes,
      if choice == B then proposal.optionBVotes + 1 else proposal.optionBVotes,
      proposal.deadline / 1000,
      proposal.minAdaRequired * LovelacePerAda,
      [voterPubKeyHash]);
    JsNumber.ParseIntOfNumberToString(proposal.minAdaRequired * LovelacePerAda);
    VoteTx(proposal.scriptAddress, JsNumber.NumberToString(proposal.minAdaRequired * LovelacePerAda), datum, walletAddress)
  }

  /** The new-proposal form; `duration` and `minAda` hold `parseInt` of their inputs (`None` for `NaN`). */
  datatype ProposalForm = ProposalForm(
    title: string,
    description: string,
    optionA: string,
    optionB: string,
    duration: Option<int>,  // days
    minAda: Option<int>)

  /** The form as first shown and as reset after a proposal is created. */
  const BlankForm: ProposalForm := ProposalForm("", "", "", "", Some(7), Some(2))

  /** The form together with whether its panel is shown. */
  datatype CreatePanel = CreatePanel(form: ProposalForm, open: bool)

  datatype CreateStatus = CreateNotConnected | MissingFields | ProposalCreated(proposalId: string)

  datatype CreateResult = CreateResult(status: CreateStatus, panel: CreatePanel)

  predicate FormFilled(f: ProposalForm) {
    f.title != "" && f.description != "" && f.optionA != "" && f.optionB != ""
  }

  /**
   * `handleCreateProposal()`: refuses without a connected wallet or with an
   * empty text field, otherwise names the proposal after `Date.now()`,
   * resets the form and closes the panel.
   */
  function HandleCreateProposal(w: Wallet, panel: CreatePanel, now: int): (r: CreateResult)
    ensures r.status == CreateNotConnected <==> !Connected(w)
    ensures r.status == MissingFields <==>
      Connected(w) && (panel.form.title == "" || panel.form.description == "" || panel.form.optionA == "" || panel.form.optionB == "")
    ensures !r.status.ProposalCreated? ==> r.panel == panel
    ensures r.status.ProposalCreated? ==>
      && r.panel.form == ProposalForm("", "", "", "", Some(7), Some(2))
      && !r.panel.open
      && r.status.proposalId == "proposal_" + JsNumber.NumberToString(now)
      && |r.status.proposalId| > 9
      && r.status.proposalId[..9] == "proposal_"
      && JsNumber.ParseInt(r.status.proposalId[9..]) == Some(now)
  {
    if !Connected(w) then CreateResult(CreateNotConnected, panel)
    else if !FormFilled(panel.form) then CreateResult(MissingFields, panel)
    else
      var id := "proposal_" + JsNumber.NumberToString(now);
      assert id[9..] == JsNumber.NumberToString(now);
      JsNumber.ParseIntOfNumberToString(now);
      CreateResult(ProposalCreated(id), CreatePanel(BlankForm, false))
  }

  /** Submitting again right after a proposal was created is refused: the reset form has empty fields. */
  lemma CreateThenResubmitRefused(w: Wallet, panel: CreatePanel, now: int, later: int)
    requires HandleCreateProposal(w, panel, now).status.ProposalCreated?
    ensures var again := HandleCreateProposal(w, HandleCreateProposal(w, panel, now).panel, later);
      again.status == MissingFields
  {
  }

  /** Proposals created at different instants get different ids. */
  lemma CreatedIdsDistinct(w: Wallet, p1: CreatePanel, p2: CreatePanel, t1: int, t2: int)
    requires Connected(w) && FormFilled(p1.form) && FormFilled(p2.form) && t1 != t2
    ensures HandleCreateProposal(w, p1, t1).status.proposalId != HandleCreateProposal(w, p2, t2).status.proposalId
  {
    var id1 := HandleCreateProposal(w, p1, t1).status.proposalId;
    var id2 := HandleCreateProposal(w, p2, t2).status.proposalId;
    assert JsNumber.ParseInt(id1[9..]) == Some(t1);
    assert JsNumber.ParseInt(id2[9..]) == Some(t2);
  }
}
