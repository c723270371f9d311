/** The records the voting front end builds from what the `Voting` contract
    returns. The contract calls themselves are external; their results are the
    parameters here. `ethers.decodeBytes32String` is the parameter `decode`,
    about which nothing is assumed. */
module EthersUtils {
  import opened Wrappers

  /** The contract's fixed-width `bytes32` name field. */
  type Bytes32 = seq<bv8>

  /** A proposal as the contract returns it (uint256 fields read as numbers). */
  datatype ContractProposal = ContractProposal(
    projectName: Bytes32, teamName: string, gitAddress: string, voteCount: nat, state: nat)

  /** A record built by `getAllProposals`. */
  datatype ProposalRecord = ProposalRecord(
    id: int, projectName: string, teamName: string, gitAddress: string, voteCount: int, state: int)

  /** A record built by `getActiveProposals`: the project shape the voting page keeps. */
  datatype ActiveProject = ActiveProject(
    id: int, name: string, team: string, github: string, image: string, voteCount: int, state: int)

  const PlaceholderImage := "https://via.placeholder.com/300x200/4F46E5/ffffff?text=DeFi+Platform"

  /** `getAllProposals`: one record per proposal, in contract order, whose id is its position. */
  function AllProposals(proposals: seq<ContractProposal>, decode: Bytes32 -> string): (r: seq<ProposalRecord>)
    ensures |r| == |proposals|
    ensures forall i :: 0 <= i < |r| ==>
      r[i] == ProposalRecord(i, decode(proposals[i].projectName), proposals[i].teamName,
                             proposals[i].gitAddress, proposals[i].voteCount, proposals[i].state)
  {
    seq(|proposals|, i requires 0 <= i < |proposals| =>
      ProposalRecord(i, decode(proposals[i].projectName), proposals[i].teamName,
                     proposals[i].gitAddress, proposals[i].voteCount, proposals[i].state))
  }

  /** `getActiveProposals`: the contract returns the active proposals and, in a
      parallel array, their original indices; record `i` takes its id from
      `indices[i]`, not from its position. */
  function ActiveProposals(active: seq<ContractProposal>, indices: seq<nat>, decode: Bytes32 -> string)
    : (r: seq<ActiveProject>)
    requires |indices| == |active|
    ensures |r| == |active|
    ensures forall i :: 0 <= i < |r| ==>
      && r[i].id == indices[i]
      && r[i].name == decode(active[i].projectName)
      && r[i].team == active[i].teamName && r[i].github == active[i].gitAddress
      && r[i].image == PlaceholderImage
      && r[i].voteCount == active[i].voteCount && r[i].state == active[i].state
  {
    seq(|active|, i requires 0 <= i < |active| =>
      ActiveProject(indices[i], decode(active[i].projectName), active[i].teamName,
                    active[i].gitAddress, PlaceholderImage, active[i].voteCount, active[i].state))
  }

  predicate DistinctIds(projects: seq<ActiveProject>) {
    forall i, j :: 0 <= i < j < |projects| ==> projects[i].id != projects[j].id
  }

  /** The index of the first record with id `id`, if any. */
  function FindId(projects: seq<ActiveProject>, id: int): (k: Option<nat>)
    ensures k.Some? ==> k.value < |projects| && projects[k.value].id == id
    ensures k.Some? ==> forall j :: 0 <= j < k.value ==> projects[j].id != id
    ensures k.None? ==> forall j :: 0 <= j < |projects| ==> projects[j].id != id
  {
    if |projects| == 0 then None
    else if projects[0].id == id then Some(0)
    else match FindId(projects[1..], id)
      case None => None
      case Some(k) => Some(k + 1)
  }

  /** When the contract's indices are distinct, looking a proposal up by its
      original index finds exactly the active proposal that came with it. */
  lemma {:induction false} ActiveLookupByIndex(
    active: seq<ContractProposal>, indices: seq<nat>, decode: Bytes32 -> string, i: nat)
    requires |indices| == |active| && i < |active|
    requires forall a, b :: 0 <= a < b < |indices| ==> indices[a] != indices[b]
    ensures var r := ActiveProposals(active, indices, decode);
      DistinctIds(r) && FindId(r, indices[i]) == Some(i) && r[i].voteCount == active[i].voteCount
  {
    var r := ActiveProposals(active, indices, decode);
    var k := FindId(r, indices[i]);
    assert r[i].id == indices[i];
  }

  /** In `getAllProposals` a proposal's id is its index in the contract, so every
      proposal is found under its own index. */
  lemma AllLookupByIndex(proposals: seq<ContractProposal>, decode: Bytes32 -> string, i: nat)
    requires i < |proposals|
    ensures var r := AllProposals(proposals, decode);
      r[i].id == i && r[i].voteCount == proposals[i].voteCount
      && forall j :: 0 <= j < |r| && r[j].id == i ==> j == i
  {
  }

  /** `handleAccountsChanged`: `null` when the wallet has no account left, else the first account. */
  function AccountsChanged(accounts: seq<string>): (r: Option<string>)
    ensures r.None? <==> accounts == []
    ensures r.Some? ==> r.value == accounts[0]
  {
    if |accounts| == 0 then None else Some(accounts[0])
  }

  /** `getContractParams`, as written: it destructures only `maxVotes` and
      `endVoting` from the contract's answer, so the object has no `endRegister`
      and reading that property gives `undefined` (`None`). */
  datatype ContractParams = ContractParams(
    maxVotes: int, endVoting: int, endRegister: Option<int>, contractAddress: string)

  function GetContractParams(maxVotes: nat, endVoting: nat, votingAddress: string): (p: ContractParams)
    ensures p.maxVotes == maxVotes && p.endVoting == endVoting && p.contractAddress == votingAddress
    ensures p.endRegister.None?
  {
    ContractParams(maxVotes, endVoting, None, votingAddress)
  }

  /** The parameters the callers read (`Welcome.jsx` and `ProjectForm.jsx` use
      `endRegister`): the same object with the registration deadline filled in. */
  function GetContractParamsWithRegister(maxVotes: nat, endRegister: nat, endVoting: nat, votingAddress: string)
    : (p: ContractParams)
    ensures p.maxVotes == maxVotes && p.endVoting == endVoting && p.contractAddress == votingAddress
    ensures p.endRegister == Some(endRegister)
  {
    ContractParams(maxVotes, endVoting, Some(endRegister), votingAddress)
  }

  /** The log data an ethers event payload carries. */
  datatype Log = Log(blockNumber: nat, transactionHash: string)

  /** One argument passed to a contract event listener: the decoded event
      parameters come first, the event payload last. */
  datatype EventArg = AddressArg(address: string) | UintArg(value: nat) | PayloadArg(log: Log)

  /** What the front end hands to its VoteCast callback. */
  datatype VoteData = VoteData(voter: string, proposalIndex: int, blockNumber: nat, transactionHash: string)

  /** The argument list ethers builds for `VoteCast(address indexed voter, uint indexed proposalIndex)`. */
  predicate VoteCastArgs(args: seq<EventArg>) {
    |args| >= 3 && args[0].AddressArg? && args[1].UintArg? && args[|args| - 1].PayloadArg?
  }

  /** `handleEvent` in `subscribeToVoteCastEvents`: voter from the first
      argument, index from the second, block and transaction from the last. */
  function HandleVoteCastEvent(args: seq<EventArg>): (d: VoteData)
    requires VoteCastArgs(args)
    ensures d.voter == args[0].address && d.proposalIndex == args[1].value
    ensures d.blockNumber == args[|args| - 1].log.blockNumber
    ensures d.transactionHash == args[|args| - 1].log.transactionHash
  {
    var event := args[|args| - 1];
    VoteData(args[0].address, args[1].value, event.log.blockNumber, event.log.transactionHash)
  }

  /** An event as `queryFilter` returns it. */
  datatype ContractEvent = ContractEvent(voter: string, proposalIndex: nat, blockNumber: nat, transactionHash: string)

  /** `getVoteCastHistory`: one record per event, in the order the query returned them. */
  function VoteCastHistory(events: seq<ContractEvent>): (r: seq<VoteData>)
    ensures |r| == |events|
    ensures forall i :: 0 <= i < |r| ==>
      r[i] == VoteData(events[i].voter, events[i].proposalIndex, events[i].blockNumber, events[i].transactionHash)
  {
    if events == [] then []
    else
      var e := events[0];
      [VoteData(e.voter, e.proposalIndex, e.blockNumber, e.transactionHash)] + VoteCastHistory(events[1..])
  }

  /** The listener arguments ethers passes for an emitted event. */
  function ListenerArgs(e: ContractEvent): (args: seq<EventArg>)
    ensures VoteCastArgs(args)
  {
    [AddressArg(e.voter), UintArg(e.proposalIndex), PayloadArg(Log(e.blockNumber, e.transactionHash))]
  }

  /** The live subscription and the history query describe the same event the same way. */
  lemma LiveEventMatchesHistory(events: seq<ContractEvent>, i: nat)
    requires i < |events|
    ensures HandleVoteCastEvent(ListenerArgs(events[i])) == VoteCastHistory(events)[i]
  {
  }
}
