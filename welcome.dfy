/** The welcome page's choice of where to go once a wallet is connected. */
module Welcome {
  import opened Wrappers
  import opened EthersUtils
  import opened Display

  datatype Destination = ToProjectForm | ToVoting

  /** `Math.floor(Date.now() / 1000)`: the clock in whole seconds. */
  function NowSeconds(nowMs: int): int {
    (nowMs as real / 1000.0).Floor
  }

  /** The seconds are the milliseconds divided by 1000, rounded down. */
  lemma NowSecondsIsDiv(nowMs: int)
    ensures NowSeconds(nowMs) == nowMs / 1000
    ensures NowSeconds(nowMs) * 1000 <= nowMs < NowSeconds(nowMs) * 1000 + 1000
  {
    FloorDiv(nowMs, 1000);
  }

  /** The routing chain: `now < endRegister` is false when `endRegister` is
      `undefined`, and both later branches go to the voting page. */
  function Route(now: int, params: ContractParams): (d: Destination)
    ensures d == ToProjectForm <==> params.endRegister.Some? && now < params.endRegister.value
  {
    if params.endRegister.Some? && now < params.endRegister.value then ToProjectForm
    else if now < params.endVoting then ToVoting
    else ToVoting
  }

  /** The voting deadline never changes the destination: the page is the voting
      page both inside the voting window and after it. */
  lemma RouteIgnoresEndVoting(now: int, params: ContractParams, endVoting: int)
    ensures Route(now, params.(endVoting := endVoting)) == Route(now, params)
  {
  }

  /** What `accountChangedHandler` does, in order. */
  datatype Effect = InitializeWallet(signer: string) | Navigate(to: Destination)

  /** `accountChangedHandler(signer)` at clock `nowMs`; `params` is `None` when
      `getContractParams` throws, which ends the handler before any navigation. */
  function AccountChanged(signer: string, nowMs: int, params: Option<ContractParams>): (effects: seq<Effect>)
    ensures |effects| >= 1 && effects[0] == InitializeWallet(signer)
    ensures params.None? ==> effects == [InitializeWallet(signer)]
    ensures params.Some? ==> |effects| == 2 && effects[1].Navigate?
    ensures params.Some? ==>
      (effects[1] == Navigate(ToProjectForm) <==>
        params.value.endRegister.Some? && nowMs / 1000 < params.value.endRegister.value)
  {
    NowSecondsIsDiv(nowMs);
    match params
    case None => [InitializeWallet(signer)]
    case Some(p) => [InitializeWallet(signer), Navigate(Route(NowSeconds(nowMs), p))]
  }

  /** With the parameters `getContractParams` returns, the project form is never reached. */
  lemma AsWrittenNeverProjectForm(signer: string, nowMs: int, maxVotes: nat, endVoting: nat, address: string)
    ensures AccountChanged(signer, nowMs, Some(GetContractParams(maxVotes, endVoting, address)))
      == [InitializeWallet(signer), Navigate(ToVoting)]
  {
  }

  /** With `endRegister` among the parameters, a connection made during registration
      goes to the project form. */
  lemma WithRegisterDuringRegistration(signer: string, nowMs: int, maxVotes: nat, endRegister: nat,
                                       endVoting: nat, address: string)
    requires nowMs / 1000 < endRegister
    ensures AccountChanged(signer, nowMs, Some(GetContractParamsWithRegister(maxVotes, endRegister, endVoting, address)))
      == [InitializeWallet(signer), Navigate(ToProjectForm)]
  {
  }

  /** And once registration is over, it goes to the voting page. */
  lemma WithRegisterAfterRegistration(signer: string, nowMs: int, maxVotes: nat, endRegister: nat,
                                      endVoting: nat, address: string)
    requires endRegister <= nowMs / 1000
    ensures AccountChanged(signer, nowMs, Some(GetContractParamsWithRegister(maxVotes, endRegister, endVoting, address)))
      == [InitializeWallet(signer), Navigate(ToVoting)]
  {
  }
}
