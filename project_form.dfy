/** The project-registration page: the image checks, the required-field guard,
    the voter-token registration and the form reset after a registration. The
    IPFS upload and the contract calls are external; their outcomes are
    parameters. */
module ProjectForm {
  import opened Wrappers
  import opened JsString
  import opened EthersUtils
  import opened Display

  /** The part of a browser `File` that the checks read. */
  datatype ImageFile = ImageFile(name: string, mimeType: string, size: nat)

  const ValidImageTypes: seq<string> := ["image/jpeg", "image/jpg", "image/png", "image/gif", "image/webp"]

  /** 5 MiB, in bytes. */
  const MaxImageSize: nat := 5 * 1024 * 1024

  datatype ImageCheck = NoFile | BadType | TooLarge | Accepted

  /** The checks of `handleImageChange`, in their order: no file selected, a MIME
      type outside the list, a file over 5 MiB. */
  function CheckImage(file: Option<ImageFile>): (r: ImageCheck)
    ensures r == NoFile <==> file.None?
    ensures r == BadType <==> file.Some? && file.value.mimeType !in ValidImageTypes
    ensures r == TooLarge <==> file.Some? && file.value.mimeType in ValidImageTypes && file.value.size > MaxImageSize
    ensures r == Accepted <==> file.Some? && file.value.mimeType in ValidImageTypes && file.value.size <= MaxImageSize
  {
    match file
    case None => NoFile
    case Some(f) =>
      if f.mimeType !in ValidImageTypes then BadType
      else if f.size > MaxImageSize then TooLarge
      else Accepted
  }

  /** The accepted images are the JPEG, PNG, GIF and WebP files of at most 5242880 bytes. */
  lemma AcceptedImages(f: ImageFile)
    ensures CheckImage(Some(f)) == Accepted <==>
      && f.mimeType in {"image/jpeg", "image/jpg", "image/png", "image/gif", "image/webp"}
      && f.size <= 5242880
  {
  }

  /** `!field.trim()` for none of the five text fields. */
  predicate FieldsFilled(projectName: string, teamName: string, gitAddress: string,
                         participant1: string, participant2: string)
  {
    Trim(projectName) != [] && Trim(teamName) != [] && Trim(gitAddress) != []
    && Trim(participant1) != [] && Trim(participant2) != []
  }

  /** A field passes the guard exactly when it holds a character that is not white space. */
  lemma FieldsFilledIff(projectName: string, teamName: string, gitAddress: string,
                        participant1: string, participant2: string)
    ensures FieldsFilled(projectName, teamName, gitAddress, participant1, participant2) <==>
      !AllWhitespace(projectName) && !AllWhitespace(teamName) && !AllWhitespace(gitAddress)
      && !AllWhitespace(participant1) && !AllWhitespace(participant2)
  {
    TrimEmptyIffBlank(projectName);
    TrimEmptyIffBlank(teamName);
    TrimEmptyIffBlank(gitAddress);
    TrimEmptyIffBlank(participant1);
    TrimEmptyIffBlank(participant2);
  }

  /** The arguments `registerProposal` receives, in its order; the fields are
      sent as typed, not trimmed. */
  datatype ProposalInput = ProposalInput(
    projectName: string, teamName: string, gitAddress: string, imageUrl: string,
    participant1: string, participant2: string)

  predicate Filled(input: ProposalInput) {
    FieldsFilled(input.projectName, input.teamName, input.gitAddress, input.participant1, input.participant2)
  }

  datatype RegisterOutcome =
    | NoWallet          // "Please connect your wallet first"
    | MissingField      // "Please fill in all fields"
    | MissingImage      // "Please upload a project image first"
    | RegisterFailed    // `registerProposal` threw
    | Registered(proposal: ProposalInput)

  /** The decision `handleRegisterProject` takes; `registerSucceeds` is the
      contract's answer to `registerProposal`. */
  function RegisterDecision(wallet: Option<string>, input: ProposalInput, registerSucceeds: bool)
    : (r: RegisterOutcome)
    ensures r == NoWallet <==> wallet.None?
    ensures r == MissingField <==> (wallet.Some? && !Filled(input))
    ensures r == MissingImage <==> (wallet.Some? && Filled(input) && input.imageUrl == [])
    ensures r == RegisterFailed <==> (wallet.Some? && Filled(input) && input.imageUrl != [] && !registerSucceeds)
    ensures r.Registered? <==> (wallet.Some? && Filled(input) && input.imageUrl != [] && registerSucceeds)
    ensures r.Registered? ==> r.proposal == input
  {
    if wallet.None? then NoWallet
    else if !Filled(input) then MissingField
    else if input.imageUrl == [] then MissingImage
    else if registerSucceeds then Registered(input)
    else RegisterFailed
  }

  /** A form just cleared by a registration is refused if submitted again. */
  lemma ClearedFormRefused(wallet: Option<string>, registerSucceeds: bool)
    requires wallet.Some?
    ensures RegisterDecision(wallet, ProposalInput([], [], [], [], [], []), registerSucceeds) == MissingField
  {
  }

  /** As written, `registerProposal` is imported from the Ethereum helpers,
      which neither define nor export it, so the call in `handleRegisterProject`
      never returns normally: every submission that passes the three guards
      ends in the "Failed to register project" alert, and, by the contract of
      `ProjectFormPage.RegisterProject`, leaves the form as it was. */
  lemma AsWrittenRegistrationFails(wallet: Option<string>, input: ProposalInput)
    ensures !RegisterDecision(wallet, input, false).Registered?
    ensures RegisterDecision(wallet, input, false) == RegisterFailed <==>
      (wallet.Some? && Filled(input) && input.imageUrl != [])
    ensures RegisterDecision(Some("0x1"), ProposalInput("p", "t", "g", "i", "a", "b"), false) == RegisterFailed
  {
    FieldsFilledIff("p", "t", "g", "a", "b");
    assert !IsWhitespace('p') && !IsWhitespace('t') && !IsWhitespace('g') && !IsWhitespace('a') && !IsWhitespace('b');
  }

  datatype TokenOutcome =
    | TokenNoWallet     // "Please connect your wallet first"
    | MissingToken      // "Please enter a registration token"
    | TokenFailed       // `registerVoter` threw
    | TokenRegistered

  /** The decision `handleGetVotingToken` takes; `registerSucceeds` is the
      contract's answer to `registerVoter`. */
  function TokenDecision(wallet: Option<string>, registerToken: string, registerSucceeds: bool)
    : (r: TokenOutcome)
    ensures r == TokenNoWallet <==> wallet.None?
    ensures r == MissingToken <==> wallet.Some? && AllWhitespace(registerToken)
    ensures r == TokenRegistered <==> wallet.Some? && !AllWhitespace(registerToken) && registerSucceeds
  {
    TrimEmptyIffBlank(registerToken);
    if wallet.None? then TokenNoWallet
    else if Trim(registerToken) == [] then MissingToken
    else if registerSucceeds then TokenRegistered
    else TokenFailed
  }

  const TokenRegisteredMessage := "Token registered successfully!"

  /** A `Date` built from seconds: `undefined * 1000` is `NaN`, an invalid date. */
  function DeadlineFromSeconds(seconds: Option<int>): (ms: Option<int>)
    ensures ms.None? <==> seconds.None?
    ensures ms.Some? ==> ms.value == seconds.value * 1000
  {
    match seconds
    case None => None
    case Some(s) => Some(s * 1000)
  }

  /** With the parameters `getContractParams` returns, the registration deadline is
      an invalid date, so the countdown on the form shows zeros throughout. */
  lemma AsWrittenDeadlineInvalid(maxVotes: nat, endVoting: nat, address: string)
    ensures DeadlineFromSeconds(GetContractParams(maxVotes, endVoting, address).endRegister) == None
  {
  }

  /** With `endRegister` among the parameters, the deadline is that many seconds, in milliseconds. */
  lemma WithRegisterDeadline(maxVotes: nat, endRegister: nat, endVoting: nat, address: string)
    ensures DeadlineFromSeconds(GetContractParamsWithRegister(maxVotes, endRegister, endVoting, address).endRegister)
      == Some(endRegister * 1000)
  {
  }

  /** The page's state (the `useState` hooks that the modelled handlers touch).
      `registrationDeadline` is `None` for an invalid `Date`. */
  class ProjectFormPage {
    var wallet: Option<string>
    var registrationDeadline: Option<int>
    var submitting: bool
    var projectName: string
    var teamName: string
    var gitAddress: string
    var participant1: string
    var participant2: string
    var imageFile: Option<ImageFile>
    var imagePreview: Option<string>
    var imageUrl: string
    var votingToken: string
    var registerToken: string
    var showTokenModal: bool

    /** The state at mount: every field empty, the deadline the mount time `now`. */
    constructor (wallet: Option<string>, now: int)
      ensures this.wallet == wallet && registrationDeadline == Some(now) && !submitting
      ensures projectName == teamName == gitAddress == participant1 == participant2 == []
      ensures imageFile.None? && imagePreview.None? && imageUrl == []
      ensures votingToken == registerToken == [] && !showTokenModal
    {
      this.wallet := wallet;
      registrationDeadline := Some(now);
      submitting := false;
      projectName, teamName, gitAddress, participant1, participant2 := [], [], [], [], [];
      imageFile, imagePreview, imageUrl := None, None, [];
      votingToken, registerToken, showTokenModal := [], [], false;
    }

    /** `fetchParams`: the deadline becomes `new Date(params.endRegister * 1000)`. */
    method ParamsLoaded(params: ContractParams)
      modifies this`registrationDeadline
      ensures registrationDeadline == DeadlineFromSeconds(params.endRegister)
    {
      registrationDeadline := DeadlineFromSeconds(params.endRegister);
    }

    /** `calculateTimeLeft` at time `now` (milliseconds): an invalid deadline makes
        the difference `NaN`, which is not positive, so the countdown shows zeros. */
    function TimeLeftAt(now: int): (t: TimeLeft)
      reads this
      ensures registrationDeadline.None? ==> t == NoTimeLeft
      ensures registrationDeadline.Some? && now >= registrationDeadline.value ==> t == NoTimeLeft
      ensures registrationDeadline.Some? && now < registrationDeadline.value ==>
        0 <= t.hours < 24 && 0 <= t.minutes < 60 && 0 <= t.seconds < 60
    {
      match registrationDeadline
      case None => NoTimeLeft
      case Some(deadline) => TimeLeftOf(deadline - now)
    }

    /** `handleImageChange`: a file that passes both checks becomes the selected
        image; a refused file leaves the selection as it was. */
    method ImageChange(file: Option<ImageFile>) returns (check: ImageCheck)
      modifies this`imageFile
      ensures check == CheckImage(file)
      ensures imageFile == if check == Accepted then file else old(imageFile)
    {
      check := CheckImage(file);
      if check == Accepted {
        imageFile := file;
      }
    }

    /** `handleRemoveImage`. */
    method RemoveImage()
      modifies this`imageFile, this`imagePreview, this`imageUrl
      ensures imageFile.None? && imagePreview.None? && imageUrl == []
    {
      imageFile := None;
      imagePreview := None;
      imageUrl := [];
    }

    function Input(): ProposalInput
      reads this
    {
      ProposalInput(projectName, teamName, gitAddress, imageUrl, participant1, participant2)
    }

    /** `handleRegisterProject`: the guards leave everything as it was; a
        successful registration clears the five fields and the image; a failed one
        keeps them; past the guards `submitting` ends false. */
    method RegisterProject(registerSucceeds: bool) returns (outcome: RegisterOutcome)
      modifies this`submitting, this`projectName, this`teamName, this`gitAddress,
               this`participant1, this`participant2, this`imageFile, this`imagePreview, this`imageUrl
      ensures outcome == RegisterDecision(wallet, old(Input()), registerSucceeds)
      ensures outcome.Registered? ==>
        && projectName == teamName == gitAddress == participant1 == participant2 == []
        && imageFile.None? && imagePreview.None? && imageUrl == []
      ensures !outcome.Registered? ==>
        && Input() == old(Input())
        && imageFile == old(imageFile) && imagePreview == old(imagePreview)
      ensures submitting == if outcome.Registered? || outcome == RegisterFailed then false else old(submitting)
    {
      if wallet.None? {
        return NoWallet;
      }
      var sent := Input();
      if !Filled(sent) {
        return MissingField;
      }
      if imageUrl == [] {
        return MissingImage;
      }
      submitting := true;
      if registerSucceeds {
        outcome := Registered(sent);
        projectName := [];
        teamName := [];
        gitAddress := [];
        participant1 := [];
        participant2 := [];
        RemoveImage();
      } else {
        outcome := RegisterFailed;
      }
      submitting := false;
    }

    /** The register button is enabled unless a request is running or no image
        has been uploaded. */
    function RegisterEnabled(): (enabled: bool)
      reads this
      ensures enabled ==> RegisterDecision(wallet, Input(), true) != MissingImage
    {
      !(submitting || imageUrl == [])
    }

    /** `handleGetVotingToken`: the guards leave everything as it was; a
        successful registration clears the token and closes the modal; past the
        guards `submitting` ends false. */
    method GetVotingToken(registerSucceeds: bool) returns (outcome: TokenOutcome)
      modifies this`submitting, this`votingToken, this`registerToken, this`showTokenModal
      ensures outcome == TokenDecision(wallet, old(registerToken), registerSucceeds)
      ensures outcome == TokenRegistered ==>
        votingToken == TokenRegisteredMessage && registerToken == [] && !showTokenModal
      ensures outcome != TokenRegistered ==>
        votingToken == old(votingToken) && registerToken == old(registerToken)
        && showTokenModal == old(showTokenModal)
      ensures submitting == if outcome == TokenRegistered || outcome == TokenFailed then false else old(submitting)
    {
      if wallet.None? {
        return TokenNoWallet;
      }
      if Trim(registerToken) == [] {
        return MissingToken;
      }
      submitting := true;
      if registerSucceeds {
        votingToken := TokenRegisteredMessage;
        registerToken := [];
        showTokenModal := false;
        outcome := TokenRegistered;
      } else {
        outcome := TokenFailed;
      }
      submitting := false;
    }
  }
}
