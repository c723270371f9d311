# Student project voting and fidelity catalog: client-side rules

This project models, in Dafny, the rules that the two React front ends of the
repository apply on their own side, without the Solidity contracts behind them.

- The voting page (`Voting.jsx`):
  - up to `maxVotes` projects are selected and deselected one id at a time;
  - a vote is submitted behind three guards;
  - the tally is updated live from `VoteCast` events;
  - a countdown runs to the end of voting.
- The project-registration page (`ProjectForm.jsx`):
  - an image is accepted only with the right MIME type and size;
  - the required fields are checked before a project is registered;
  - the form is cleared after a successful registration;
  - a voter token is registered;
  - a countdown runs to the end of registration.
- The helpers in `EthersUtils.jsx` that turn contract answers into page records:
  - active proposals keep their original contract index as `id`;
  - the VoteCast listener and history records;
  - the accounts-changed notification;
  - the contract parameters.
- The welcome page's routing after a wallet connects (`Welcome.jsx`).
- The catalog's product card (`ProductCard.js`):
  - decoding of a `bytes32` product code into text;
  - the affordability test and the buy button;
  - the quantity field.

## Modules

- `Wrappers` holds `Option`.
- `JsString` models the ECMAScript operations the pages rely on:
  - `trim`;
  - `substring`, which clamps its bounds and swaps them when needed;
  - `startsWith`;
  - `parseInt`: white space, sign, the `0x` prefix, the longest digit prefix, `NaN` as `None`;
  - `String.fromCharCode`, which reduces the code modulo 2^16.
- `Display` holds `formatAddress` and the countdown. The two pages share them:
  `ProjectForm.jsx` repeats the code of `Voting.jsx`, with the deadline renamed from `votingDeadline` to `registrationDeadline`.
  - The countdown is stated twice: once literally, on real numbers with the JavaScript
    truncating `%`, and once with integer `/` and `%`.
  - The two forms are proved equal.
- `EthersUtils`, `Voting`, `ProjectForm`, `ProductCard` and `Welcome` each follow the source file of the same name.
- Component state that a handler mutates is a class, and each handler is a method on it:
  - `Voting.VotingPage`;
  - `ProjectForm.ProjectFormPage`;
  - `ProductCard.Card`.
  Each method is proved against a pure decision function. The properties of that function are proved as lemmas.
- `formatProductCode` is a loop in the source and a `while` loop here. It is proved equal to the recursive `ProductCard.FormattedCode`.

The inputs that an external system supplies are parameters:
- the clock;
- the wallet;
- the answers of the contract calls (success or failure);
- `ethers.decodeBytes32String`, passed as an arbitrary function `decode`.

## Model

| member | source | states |
|---|---|---|
| Display.FormatAddress | voting_app/src/components/Voting.jsx:209-212 | The empty address gives `''`. Any other address gives its first six characters (all of it if shorter), then `...`, then its last four. |
| Display.FormatEthereumAddress | voting_app/src/components/ProjectForm.jsx:246-249 | A 42-character address is shown as 13 characters: six, `...`, four. |
| Display.TimeLeftOf | voting_app/src/components/Voting.jsx:118-131 | A difference of zero or less gives all zeros. A positive difference gives hours < 24, minutes < 60 and seconds < 60, all non-negative. |
| Display.TimeLeftReconstructs | voting_app/src/components/ProjectForm.jsx:91-104 | For a positive difference, days*86400 + hours*3600 + minutes*60 + seconds equals the difference in whole seconds. |
| Display.JsTimeLeftMatches | voting_app/src/components/Voting.jsx:121-127 | The source's real-number expression (floor of real divisions and truncating `%`) equals the integer countdown for every integer difference. |
| Voting.Remove | voting_app/src/components/Voting.jsx:153 | Deleting an id keeps every other member, drops that id and keeps the set free of duplicates. When the id was present the size falls by exactly one. When it was absent nothing changes. |
| Voting.RemoveKeepsOrder | voting_app/src/components/Voting.jsx:153 | In a duplicate-free set, deleting the id at position `k` leaves the ids before and after it in their insertion order. |
| Voting.Toggle | voting_app/src/components/Voting.jsx:149-161 | A selected id is removed even at the limit. A new id is refused exactly when `maxVotes` ids are already selected, and otherwise goes to the end of the selection. No id other than the toggled one enters or leaves. |
| Voting.ToggleRemovesInPlace | voting_app/src/components/Voting.jsx:151-153 | Deselecting the id at position `k` leaves the other selected ids in their order. |
| Voting.ToggleKeepsBound | voting_app/src/components/Voting.jsx:156-160 | The selection stays free of duplicates. An accepted toggle changes the size by exactly one. A selection within `maxVotes` stays within it. |
| Voting.ToggleTwice | voting_app/src/components/Voting.jsx:151-160 | Selecting a new id and then selecting it again gives back the original selection. |
| Voting.VotingPage.constructor | voting_app/src/components/Voting.jsx:41-52 | The page starts with the loaded `maxVotes`, the voting deadline `endVoting * 1000`, the active projects, the `hasVoted` answer and the token flag as a parameter (a constant `true` in the source), nothing selected and no vote in progress. |
| Voting.VotingPage.SelectProject | voting_app/src/components/Voting.jsx:143-165 | Without a token (a case the constant `useState(true)` never produces), nothing changes. Otherwise the stored selection becomes the toggled copy, or stays as it was when the limit refuses. It keeps its invariant and never grows past `maxVotes`. |
| Voting.ApplyVoteCast | voting_app/src/components/Voting.jsx:96-104 | The projects whose id equals the event's index gain one vote. Length, order and every other field and entry are unchanged. |
| Voting.VoteCastTotal | voting_app/src/components/Voting.jsx:98-103 | The total tally grows by the number of projects that carry the event's id. |
| Voting.VoteCastAddsOne | voting_app/src/components/Voting.jsx:96-104 | When the ids are distinct, one event adds exactly one vote if the project is listed and none otherwise. |
| Voting.VotingPage.OnVoteCast | voting_app/src/components/Voting.jsx:96-104 | The stored project list becomes the updated list. |
| Voting.SubmitDecision | voting_app/src/components/Voting.jsx:167-207 | Each outcome holds exactly under its guard: empty selection, then no wallet, then already voted. A cast happens exactly when all three pass and `castVote` succeeds, and it sends the selection in its order. |
| Voting.AtMostOneCast | voting_app/src/components/Voting.jsx:178-195 | Over any number of submissions from one page, each with its own selection, wallet and `castVote` answer, at most one `castVote` succeeds, and none if the user had already voted. |
| Voting.VotingPage.SubmitVote | voting_app/src/components/Voting.jsx:167-207 | The outcome is the decision above. `userHasVoted` becomes true only through a successful cast. A failed guard changes nothing. Past the guards, `votingInProgress` ends false. |
| Voting.VotingPage.SubmitEnabled | voting_app/src/components/Voting.jsx:283 | An enabled button is never refused for an empty selection or an earlier vote. |
| Voting.VotingPage.TimeLeftAt | voting_app/src/components/Voting.jsx:118-131 | The voting countdown is zeros at or after the deadline, and within its bounds before it. |
| ProjectForm.CheckImage | voting_app/src/components/ProjectForm.jsx:116-132 | The checks run in order: no file, a MIME type outside the five listed, then a size over 5 MiB. Each outcome holds exactly under its condition. |
| ProjectForm.AcceptedImages | voting_app/src/components/ProjectForm.jsx:121-131 | An image is accepted iff it is JPEG, JPG, PNG, GIF or WebP and at most 5242880 bytes. |
| ProjectForm.ProjectFormPage.constructor | voting_app/src/components/ProjectForm.jsx:19-41 | The form starts with the five text fields, the image URL and both tokens empty, no file or preview, the modal closed, not submitting, and the deadline at the moment of mounting. |
| ProjectForm.ProjectFormPage.ImageChange | voting_app/src/components/ProjectForm.jsx:116-143 | An accepted file becomes the selected image. A refused file leaves the selection unchanged. |
| ProjectForm.ProjectFormPage.RemoveImage | voting_app/src/components/ProjectForm.jsx:172-176 | The file, the preview and the uploaded URL are cleared. |
| ProjectForm.FieldsFilledIff | voting_app/src/components/ProjectForm.jsx:213 | A field passes the `trim` check exactly when it holds a character that is not white space. |
| ProjectForm.RegisterDecision | voting_app/src/components/ProjectForm.jsx:205-244 | Each of the five outcomes holds exactly under its guard: no wallet, then a blank field, then no image URL, then a failing call. A registration happens exactly when all three guards pass and the call succeeds, and it sends the fields as typed. |
| ProjectForm.AsWrittenRegistrationFails | voting_app/src/components/ProjectForm.jsx:205-240 | With `registerProposal` unavailable, no submission registers. Every submission that passes the three guards ends as a failed registration, e.g. a filled form with a wallet. |
| ProjectForm.ClearedFormRefused | voting_app/src/components/ProjectForm.jsx:230-236 | Resubmitting a form that a registration just cleared is refused. |
| ProjectForm.ProjectFormPage.RegisterProject | voting_app/src/components/ProjectForm.jsx:205-244 | The outcome is the decision above. A success clears the five fields and the image. Any other outcome leaves the form unchanged. Past the guards, `submitting` ends false. |
| ProjectForm.ProjectFormPage.RegisterEnabled | voting_app/src/components/ProjectForm.jsx:325 | An enabled button is never refused for a missing image. |
| ProjectForm.TokenDecision | voting_app/src/components/ProjectForm.jsx:178-203 | No wallet, then a blank token, refuse. Registration happens exactly with a wallet, a non-blank token and a call that succeeds. |
| ProjectForm.ProjectFormPage.GetVotingToken | voting_app/src/components/ProjectForm.jsx:178-203 | On success the status message is set, the token is cleared and the modal is closed. Otherwise these are unchanged. Past the guards, `submitting` ends false. |
| ProjectForm.DeadlineFromSeconds | voting_app/src/components/ProjectForm.jsx:51 | A deadline in seconds becomes milliseconds. A missing one becomes an invalid date. |
| ProjectForm.ProjectFormPage.ParamsLoaded | voting_app/src/components/ProjectForm.jsx:50-51 | The deadline becomes the loaded `endRegister`, in milliseconds. |
| ProjectForm.ProjectFormPage.TimeLeftAt | voting_app/src/components/ProjectForm.jsx:91-104 | An invalid deadline, or a deadline already reached, shows zeros. Before the deadline the fields are within their bounds. |
| ProjectForm.AsWrittenDeadlineInvalid | voting_app/src/components/ProjectForm.jsx:50-51 | With the parameters `getContractParams` returns, the registration deadline is an invalid date. |
| ProjectForm.WithRegisterDeadline | voting_app/src/components/ProjectForm.jsx:51 | With `endRegister` present, the deadline is `endRegister * 1000` milliseconds. |
| EthersUtils.AllProposals | voting_app/src/utils/EthersUtils.jsx:34-41 | The length is kept. Record `i` has id `i`, the decoded name, and the team, repository, votes and state of proposal `i`. |
| EthersUtils.AllLookupByIndex | voting_app/src/utils/EthersUtils.jsx:34-41 | Every proposal is found under its own index, and only there. |
| EthersUtils.ActiveProposals | voting_app/src/utils/EthersUtils.jsx:58-66 | The length is kept. Record `i` takes its id from `indices[i]`, not its position. Votes and state are copied entry by entry, in order. |
| EthersUtils.ActiveLookupByIndex | voting_app/src/utils/EthersUtils.jsx:58-59 | With distinct contract indices, the records have distinct ids, and looking up `indices[i]` finds record `i`. |
| EthersUtils.AccountsChanged | voting_app/src/utils/EthersUtils.jsx:211-221 | An empty account list reports no account. Any other list reports its first account. |
| EthersUtils.GetContractParams | voting_app/src/utils/EthersUtils.jsx:124-130 | `maxVotes`, `endVoting` and the address are passed through. There is no `endRegister`. |
| EthersUtils.GetContractParamsWithRegister | voting_app/src/utils/EthersUtils.jsx:124-130 | The same object with `endRegister` filled in. |
| EthersUtils.HandleVoteCastEvent | voting_app/src/utils/EthersUtils.jsx:143-165 | The voter comes from the first argument, the index from the second, and the block and transaction from the last. |
| EthersUtils.VoteCastHistory | voting_app/src/utils/EthersUtils.jsx:191-196 | One record per event, with the same count and order, and each field copied from its event. |
| EthersUtils.LiveEventMatchesHistory | voting_app/src/utils/EthersUtils.jsx:143-196 | The live listener and the history query produce the same record for the same event. |
| Welcome.NowSecondsIsDiv | voting_app/src/components/Welcome.jsx:15 | `Math.floor(Date.now() / 1000)` is the milliseconds divided by 1000, rounded down. |
| Welcome.Route | voting_app/src/components/Welcome.jsx:18-24 | The destination is the project form exactly when `endRegister` is present and `now` is before it. Otherwise it is the voting page. |
| Welcome.RouteIgnoresEndVoting | voting_app/src/components/Welcome.jsx:20-24 | `endVoting` never changes the destination: the voting window and after it both lead to `/voting`. |
| Welcome.AccountChanged | voting_app/src/components/Welcome.jsx:10-25 | The wallet is initialised first. When the parameters load, exactly one navigation follows, to the project form exactly while registration is open. When they fail to load, nothing follows. |
| Welcome.AsWrittenNeverProjectForm | voting_app/src/components/Welcome.jsx:14-19 | With the parameters `getContractParams` returns, the handler always navigates to `/voting`. |
| Welcome.WithRegisterDuringRegistration | voting_app/src/components/Welcome.jsx:18-19 | With `endRegister` present, a connection before it navigates to `/project-form`. |
| Welcome.WithRegisterAfterRegistration | voting_app/src/components/Welcome.jsx:20-24 | With `endRegister` present, a connection at or after it navigates to `/voting`. |
| ProductCard.FormatProductCode | frontend/src/components/ProductCard.js:7-22 | The loop computes exactly `FormattedCode`. |
| ProductCard.PlainCodeUnchanged | frontend/src/components/ProductCard.js:8-21 | A code that does not start with `0x` is returned unchanged. |
| ProductCard.DecodeLength | frontend/src/components/ProductCard.js:12-14 | The decoded text has at most one character per two hex digits, rounded up. |
| ProductCard.EmptyDecodeFallsBack | frontend/src/components/ProductCard.js:16 | When no nonzero byte remains, the result is the first ten characters of the code followed by `...`. |
| ProductCard.PieceTextPair | frontend/src/components/ProductCard.js:12-14 | Two hex digits, in either case, give the character of the byte `16*high + low`, or nothing when that byte is 0. |
| ProductCard.DecodeHex | frontend/src/components/ProductCard.js:10-15 | For any even-length string of hex digits in either case, the text is the characters of the nonzero bytes `16*s[2k] + s[2k+1]`, in order. Zero bytes are skipped. |
| ProductCard.HexRoundTrip | frontend/src/components/ProductCard.js:10-14 | The lowercase hex of any byte sequence is well formed, and reading it two digits at a time gives back those bytes. |
| ProductCard.FormatHexCode | frontend/src/components/ProductCard.js:8-16 | A `0x` code followed by any even-length string of hex digits shows the text of its nonzero bytes, or the fallback when every byte is zero. |
| ProductCard.Bytes32NameShown | frontend/src/components/ProductCard.js:7-16 | A nonempty ASCII name stored as a zero-padded `bytes32` is shown as that name. |
| ProductCard.CanAfford | frontend/src/components/ProductCard.js:24-27 | Points that do not parse never afford anything, because `NaN` compares false. An affordable total is at most the parsed points. A quantity of 0 or less is affordable with any non-negative balance. |
| ProductCard.CanAffordDecimal | frontend/src/components/ProductCard.js:24-27 | Points given as a decimal string afford a purchase iff points >= price * quantity. |
| ProductCard.CanAffordMonotone | frontend/src/components/ProductCard.js:24-27 | More points afford at least as much. A larger quantity never becomes affordable when a smaller one is not. |
| ProductCard.BuyEnabled | frontend/src/components/ProductCard.js:86 | The button is disabled for a product out of stock and for points that do not parse. When it is enabled, the total is at most the parsed points. |
| ProductCard.BuyEnabledDecimal | frontend/src/components/ProductCard.js:86 | With the points given as a decimal string, the button is enabled exactly for an in-stock product with price * quantity <= points. |
| ProductCard.Label | frontend/src/components/ProductCard.js:84-94 | The button reads "Buy Now" exactly when it is enabled: in stock and affordable. It reads "Out of Stock" exactly when the product is not in stock. |
| ProductCard.Card.QuantityChange | frontend/src/components/ProductCard.js:33-38 | The quantity becomes the parsed value exactly when 0 < value <= stock, and otherwise stays as it was. It stays at least 1. |
| ProductCard.Card.constructor | frontend/src/components/ProductCard.js:5 | The quantity starts at 1. |
| JsString.TrimEmptyIffBlank | voting_app/src/components/ProjectForm.jsx:184 | `s.trim()` is empty exactly when every character of `s` is white space. |
| JsString.ParseIntHexPair | frontend/src/components/ProductCard.js:13 | Two hex digits parse in radix 16 to the byte they spell. |
| JsString.ParseIntShortHexRange | frontend/src/components/ProductCard.js:13-14 | At most two characters parse in radix 16 to `NaN` or a value in -255..255, so the character code is defined. |
| JsString.ParseIntDecimal | frontend/src/components/ProductCard.js:26 | `parseInt` reads back the decimal form of any natural number. |

## Left out

- Network and wallet I/O are outside the model; their results are parameters. This covers:
  - the contract calls;
  - MetaMask;
  - `tx.wait`;
  - event subscription and unsubscription;
  - the Pinata/IPFS upload (`handleUploadImage`);
  - the `FileReader` preview.
- Timers and rendering are outside the model: `setInterval`, alerts, the loading and error flags, and the JSX.
  The `fetchProjects` and `fetchParams` effects appear only as the state they leave:
  - the `Voting.VotingPage` constructor;
  - `ProjectForm.ProjectFormPage.ParamsLoaded`.
- Each handler is modelled as running to completion. No method stops in the state reached during an
  `await` of `castVote`, `registerProposal` or `registerVoter`, where `votingInProgress` or `submitting`
  is true. The in-flight clauses of Voting.VotingPage.SubmitEnabled and
  ProjectForm.ProjectFormPage.RegisterEnabled are stated, but no method's final state reaches them.
- Voting.VotingPage.constructor, Voting.VotingPage.SelectProject: `hasVotingToken` is a parameter. In
  `Voting.jsx:23` it is `useState(true)` and never set, so as written the no-token branch at line 144
  is never taken. The parameter generalises that constant.
- The image preview is modelled only as cleared. Reading the file is I/O.
- Floating point is outside the model:
  - Countdown values and clock readings are integers of milliseconds.
  - `Number(...)` of contract integers is read as the exact value. Precision above 2^53 is not modelled.
- Strings are sequences of Unicode code points, while JavaScript's `.length`, `substring` and
  `String.fromCharCode` work on UTF-16 code units. The two agree only on strings with no character
  above U+FFFF. Product codes and wallet addresses are ASCII. `fromCharCode` receives values in -255..255
  here, and the code it produces after the modulo-2^16 step is in 0..255 or 0xFF01..0xFFFF.
- ProductCard.FormatProductCode, Display.FormatAddress: for a string with a character above U+FFFF
  (for example the code `0x1`, then U+1F600, then `2`), the source counts that character as two code units and the
  model as one, so the pieces and the cut points differ.
- The router is not modelled. `voting_app/src/routes/router.jsx:5-8` registers only the welcome and
  voting pages, so `/project-form`, the target in Welcome.WithRegisterDuringRegistration, has no route.
- JavaScript loose equality and truthiness are modelled only where the code relies on them:
  - a missing wallet is `None`;
  - an empty string is falsy;
  - `NaN` compares false.
- `parseInt` returns an integer here. A `-0` result is read as 0; the code only compares it and uses it as a character code.
- ProductCard.FormatProductCode: the `try`/`catch` fallback is left out because no statement in the `try` block throws for a string code.
- ProductCard.Product: `price` and `stock` arrive as decimal strings. They are modelled as the numbers that `*` and `<=` convert them to.
- EthersUtils.ActiveProposals requires both contract arrays to have the same length. The contract returns them that way; a shorter `indices` array would give `NaN` ids, which are not modelled.
- EthersUtils.HandleVoteCastEvent requires the ethers argument shape for `VoteCast(address, uint)`: two decoded arguments, then the event payload.
- The alert text of `handleGetVotingToken` includes `registration.votingToken`. Only the state changes are modelled.
- The Solidity contracts (`Voting`, `Catalog`, `FidelityPoints`) are not part of this model. This leaves out:
  - the on-chain rules (one vote per voter, token checks, deadlines);
  - the catalog purchase (`handleBuyClick` only hands its arguments to the parent);
  - the Catalog page;
  - the single `canVote` guard of the project card.

## Findings

| source | as written | input that shows it | evidently intended | confidence | as-written member | corrected member |
|---|---|---|---|---|---|---|
| voting_app/src/utils/EthersUtils.jsx:124-130 | `getContractParams` returns `maxVotes`, `endVoting` and the address, but no `endRegister`. `Welcome.jsx:18` and `ProjectForm.jsx:51` read `params.endRegister`, which is `undefined`, so `now < undefined` is false. | Any call during registration, e.g. `now` = 100 with a contract `endRegister` of 200: the welcome page goes to `/voting`, and the registration countdown shows zeros from an invalid date. | The parameters carry `endRegister`. A connection before it goes to `/project-form`, and the countdown runs to it. Even then, `voting_app/src/routes/router.jsx:5-8` registers no `/project-form` route. | not executed | Welcome.AsWrittenNeverProjectForm | Welcome.WithRegisterDuringRegistration |
| voting_app/src/components/ProjectForm.jsx:5 | `registerProposal` is imported from `EthersUtils.jsx`, whose export list (lines 256-271) does not name it and which does not define it. The call at line 226 therefore never returns normally. With an ES module loader the import fails to link; otherwise the call throws a `TypeError`, caught at lines 238-240. | A filled form with a wallet and an uploaded image: the page alerts "Failed to register project" and the form keeps its contents. | The helper module exports a `registerProposal` that sends the proposal, and a successful call clears the form. | not executed | ProjectForm.AsWrittenRegistrationFails | ProjectForm.ProjectFormPage.RegisterProject |
| voting_app/src/components/ProjectForm.jsx:51 | `new Date(params.endRegister * 1000)` with `endRegister` undefined builds an invalid date. | The same call: the deadline is `NaN`. | The deadline is `endRegister * 1000` milliseconds. | not executed | ProjectForm.AsWrittenDeadlineInvalid | ProjectForm.WithRegisterDeadline |
