# Verified model of kindlast's regenerator and trust boundary

This project models six parts of kindlast and proves what each of them promises. `dafny verify dfyconfig.toml` checks
all of it.

**The collection regenerator** (`scripts/gen-postman.py`). A reader keeps, for every container, whether the source had
it on one line, and for every string its source text. A printer writes such a tree back, laying out by width only what
the script itself built. A merge rewrites one folder of the tree from the proto contract.

- `JsonText` is how tokens are spelled, `JsonSpelling` every way to spell a string; `JsonTree` the tree, the printer and
  the reader as a function; `JsonReader` the same reader as it runs, a cursor moved by loops; `JsonLayout` and
  `JsonFidelity` how reading and printing undo each other.
- `Text` and `Contract` are the description of a request: prose above a marker, generated facts below it;
  `ContractReading` reads the facts back. `Requests` is one request, `Merging` the merge, in place on a folder and on
  the collection.
- `MergeFrame` says what the merge keeps, covers and where it inserts; `Settled` when it has nothing to do;
  `RequestFacts` what the requests then say, `Report` what is reported; `Regenerate` is a whole run of the script, with
  and without `--check`. `JsonHole` and `Surroundings` are about the text around the folder, `RunHistory` about many
  runs while the contract changes.

**The signing-key cache and key parser** (`jwks.go`, `jwk.go`): `Base64`, `JwkKeys`, `KeyCache`. **The token cache**
(`clientcredentials.go`): `TokenSource`. **The billing webhook** (`billing.go`, `handler.go`): `Signature`, `Webhook`.
**The keyring** (`secrets.go`): `Keyring`. **Scope collection** (`verifier.go`): `Scopes`.

The caches, the webhook store, the reader and the folder are classes whose methods are proved equal to step functions;
the theorems then range over every run of those steps. Time is an integer that does not go back. What the network, the
database, the clock and a nonce source bring are parameters of each step; HMAC and the curve check are function
parameters, so the theorems hold for any of them. The authenticated cipher is ideal: a ciphertext names the key, the
nonce, the plaintext and the associated text it was made from.

## Main results

- Reading and printing give a text back byte for byte exactly when it is tidy; print, read and print is a fixed point
  for every tree (`JsonFidelity.FaithfulExactlyOnTidyText`, `JsonLayout.PrintThenRead`).
- The merge covers the contract exactly, keeps survivors in order, keeps services together and touches nothing else
  (`MergeFrame`), and the text around the folder's list does not change by a character
  (`Surroundings.NothingOutsideTheFolderMovesInTheText`).
- Regenerate then check is clean exactly when every description is anchored; regenerate twice then check is clean
  always (`Regenerate.RegenerateThenCheck`, `Regenerate.TwoRunsSettle`).
- Through every history of runs under changing contracts, the descriptions of an RPC that stays declared are the
  first readable prose above the last block (`Contract.HistoryKeepsTheFirstProse`,
  `RunHistory.ProseSurvivesEveryRun`).
- Every string decodes to a text exactly when it spells it (`JsonSpelling.UnescapeExactly`).
- After a run every request for a declared RPC is a `POST` to it, and its description reads back as that RPC's file,
  scope and binding (`RequestFacts.MergedState`, `RunHistory.RunStatesTheFacts`).
- What a request for a key gets, and when it fetches, in any run (`KeyCache.AnswerExactly`); a key rotation locks
  nobody out for longer than a cooldown, and missing keys cannot drive fetches faster than one a cooldown
  (`KeyCache.RotationOutageIsBounded`, `KeyCache.FetchRateIsBounded`).
- The point that is validated is the key that is returned, an RSA key is the integers it was written with, and leading
  zeros kept or stripped give one key (`JwkKeys.ValidatedPointIsTheKey`, `JwkKeys.RsaRoundTrip`,
  `JwkKeys.PaddingDoesNotMatter`, `JwkKeys.RsaPaddingDoesNotMatter`).
- A token is served from the cache only with more than 30 seconds of its assumed life left (`TokenSource.MarginIsKept`).
- The exact condition under which a signature header is accepted (`Signature.AcceptedExactly`), and the subscriptions
  after any run of deliveries, in the provider's own words (`Webhook.TraceIsItsFirstChanges`, `Webhook.HeldWasSigned`,
  `Webhook.UnknownCustomerNeedsAnotherDelivery`).
- The exact condition under which a keyring keeps every key it lists, and that rotation then strands nothing
  (`Keyring.EveryListedKeyIsHeld`, `Keyring.RotationStrandsNothing`).
- The scopes of a token are exactly the union of its claims, and `openid` (`Scopes.AuthorityIsTheUnionAndOpenID`).

## Where the code and what is said about it differ

- *"Run against an unmodified checkout, the output is byte for byte the input"* (lines 57-59 of the script) holds
  exactly for tidy texts, and `JsonFidelity.FaithfulExactlyOnTidyText` says which those are, by looking at the text
  alone. `JsonFidelity.NoLastLineBreak` and `JsonFidelity.BreakBelowOneLine` are two texts that come back changed.
- A regeneration followed by `--check` is clean exactly when every description the run wrote has prose, or took a
  proto comment that does not contain the separator. Otherwise the second run changes the file once more, and after
  that the check is clean (`Regenerate.TwoRunsSettle`). What that second run freezes is worse than a doubled block:
  with neither prose nor comment, the first version's block becomes prose and stays, scope and binding included, under
  every later contract (`Contract.StaleBlockIsFrozen`); a comment that contains the separator loses all from there on
  (`Contract.CommentIsCutAtTheSeparator`). `Contract.ProseSurvivesExactly` is the exact condition, and
  `Contract.UndocumentedMethodIsDoubled` an instance;
  `Regenerate.UndocumentedFailsTheCheck` is a file and a contract for which the check after one run fails.
- `--check` can fail with no change to list: it passes exactly when the text is tidy and the merge reports nothing
  (`Regenerate.CheckPassesExactlyWhenCurrent`). `Regenerate.LayoutAloneFailsTheCheck` makes such a file of every one
  that passes.
- Two retired keys with one id are accepted, and the last wins; retired keys beside an empty primary are not read. A
  configuration holds every key it lists exactly when neither happens with effect
  (`Keyring.EveryListedKeyIsHeld`); otherwise what the lost key sealed no longer opens
  (`Keyring.RepeatedIdStrandsTheEarlierKey`, and for any three keys `Keyring.TwoKeysUnderOneId`).
- The webhook store leaves the id of an event for an unknown customer unclaimed, so that the provider's retry could
  succeed (lines 96-101 of its `billing.go`), but the handler answers 200 to it, after which no retry is promised.
  `Webhook.AcknowledgedButUnapplied` says exactly when an event is answered 200 and not applied, and
  `Webhook.UnknownCustomerNeedsAnotherDelivery` that it is then applied exactly if it is delivered again later.
- *"Anything that will never succeed on retry answers 2xx"* (lines 28-35 of `handler.go`) fails for a genuine, handled
  event without an id or a customer, and only there among genuine ones (`Webhook.CodesExactly`): it is answered 400
  however often it comes (`Webhook.MissingFieldIsRefusedForEver`).

## Model

| member | source | states |
|---|---|---|
| JsonText.UnescapeInvertsEscape | scripts/gen-postman.py:225-226 | `json.loads` undoes `json.dumps` on the inside of every string |
| JsonText.LoadInvertsQuote | scripts/gen-postman.py:225-226 | a printed key or built string reads back as itself |
| JsonSpelling.Hex4Exactly | scripts/gen-postman.py:216 | four hexadecimal digits of either case are read as the number they spell, most significant first, and nothing else is |
| JsonSpelling.UnescapeOneExactly | scripts/gen-postman.py:216 | what follows a backslash is read as exactly the character it spells: the eight short escapes, a unit, or a surrogate pair |
| JsonSpelling.UnescapeExactly | scripts/gen-postman.py:216 | a string body decodes to a text if and only if it spells it, character after character, in any mix of the spellings of section 7 of RFC 8259 |
| JsonSpelling.AsciiSpellingReadsBack | scripts/gen-postman.py:98-106 | the all-ASCII spelling a library re-dump uses, digits of either case, decodes to the text |
| JsonText.CloseQuoteIsExact | scripts/gen-postman.py:206-216 | the string loop stops at the quote that closes a legal string, whatever escapes it holds and whatever follows |
| JsonText.CanonicalIsPrinterSpelling | scripts/gen-postman.py:225-226 | an explicit rule on characters says exactly which string bodies the printer spells the same way |
| JsonText.ReadInvertsShow | scripts/gen-postman.py:250 | a printed integer reads back as itself |
| JsonText.ShowInvertsRead | scripts/gen-postman.py:218-222 | every legal integer but `-0`, and only that one, prints as it was written |
| JsonTree.ReadIsWellFormed | scripts/gen-postman.py:137-222 | a tree that was read has distinct keys in every object, and source text that decodes to the value beside it |
| JsonTree.GetPut | scripts/gen-postman.py:168-179 | assigning to a key changes what is found there and nowhere else |
| JsonTree.PutKeepsKeysDistinct | scripts/gen-postman.py:168-179 | a repeated key does not repeat in the tree |
| JsonReader.Parser.SkipSpaces | scripts/gen-postman.py:142-144 | the loop moves the cursor over white space and no further |
| JsonReader.Parser.BrokeHere | scripts/gen-postman.py:146-150 | the look-ahead says whether a line break stands before the next character, without moving the cursor |
| JsonReader.Parser.Parse | scripts/gen-postman.py:152-163 | one call reads the value the grammar finds at the cursor and leaves the cursor behind it; it fails exactly where there is none |
| JsonReader.Parser.ParseObject | scripts/gen-postman.py:165-186 | the member loop reads the object at the cursor, later values of a repeated key replacing earlier ones in place |
| JsonReader.Parser.ParseArray | scripts/gen-postman.py:188-204 | the item loop reads the array at the cursor |
| JsonReader.Parser.ParseString | scripts/gen-postman.py:206-216 | the scan, with its two-character step over escapes, finds the token and keeps its exact text |
| JsonReader.Parser.ParseLiteral | scripts/gen-postman.py:218-222 | the scan to a delimiter finds the literal |
| JsonLayout.FlatSpells | scripts/gen-postman.py:229-250 | the flat form of any tree, file nodes and built nodes mixed, is the one-line spelling of its flattened tree |
| JsonLayout.WidthAloneDecides | scripts/gen-postman.py:259-262 | the test for a line break never decides: a built container goes on one line if and only if its one-line form fits in 80 columns |
| JsonLayout.PrintSpells | scripts/gen-postman.py:253-278 | printing at any indent and column is spelling the tree with every layout decided: width for built containers, the remembered one otherwise, one line below one line |
| JsonLayout.ReadInvertsSpell | scripts/gen-postman.py:152-222 | reading the spelling of a laid-out tree gives the tree, with the rest of the text left over |
| JsonLayout.RereadFixed | scripts/gen-postman.py:253-278 | a tree whose layout is decided is not laid out differently again |
| JsonLayout.FlattenReread | scripts/gen-postman.py:253-278 | printing and reading changes layout only: same values, same keys, same order, same string spelling |
| JsonLayout.PrintThenRead | scripts/gen-postman.py:281-286 | for every tree, `write(read(write(t))) == write(t)`, and `read(write(t))` is `t` up to layout |
| JsonFidelity.TidySpell | scripts/gen-postman.py:253-278 | the spelling of every laid-out tree, which is all the printer writes, is tidy |
| JsonFidelity.TreeOfText | scripts/gen-postman.py:152-222 | every tidy text is the spelling of some laid-out tree |
| JsonFidelity.FaithfulExactlyOnTidyText | scripts/gen-postman.py:49-59 | `write(read(text)) == text` if and only if the text is tidy |
| JsonFidelity.LastLineBreakIsNotRead | scripts/gen-postman.py:285-286 | a tidy text less its last line break reads as the same tree and is not tidy |
| JsonFidelity.NoLastLineBreak | scripts/gen-postman.py:285-286 | `[]` without a line break is read and comes back changed |
| JsonFidelity.BreakBelowOneLine | scripts/gen-postman.py:257-258 | a text with a break inside a one-line array is read and comes back flattened |
| JsonFidelity.TidyTreeIsSettled | scripts/gen-postman.py:281-286 | the tree of a tidy text has nothing left to lay out |
| Text.SpacesExactly | scripts/gen-postman.py:440 | the code points Python strips and the ones Go trims |
| Text.TrimSpaceExactly | apps/core-api/internal/billing/billing.go:65-73 | trimming takes white space only at the ends, and all of it |
| Contract.ProseSurvives | scripts/gen-postman.py:440-444 | prose above a block is found again as it was, for any prose without the separator |
| Contract.MergeDescriptionIsIdempotent | scripts/gen-postman.py:431-444 | merging a description twice is merging it once, if and only if it has prose or the comment is non-empty and free of the separator |
| Contract.BareBlockDoublesOnce | scripts/gen-postman.py:440-444 | with neither prose nor comment: a bare block, then two blocks, then no change |
| Contract.ProseSurvivesHistory | scripts/gen-postman.py:431-444 | after any list of contract versions that starts anchored: the original prose, or the first comment, above the last version's block alone |
| Contract.KeptProseIsRead | scripts/gen-postman.py:440-444 | a merged description always has prose for the next merge to read, and which: what was there, or what the comment or the bare block reads as |
| Contract.HistoryKeepsTheFirstProse | scripts/gen-postman.py:431-444 | for every starting text and every two or more versions, anchored or not: the prose the first merge left, above the last version's block alone |
| Contract.ProseSurvivesExactly | scripts/gen-postman.py:431-444 | the promised prose survives every such history if and only if the first description was anchored |
| Contract.StaleBlockIsFrozen | scripts/gen-postman.py:440-444 | with neither prose nor comment, the first version's block stays as prose under every later contract |
| Contract.CommentIsCutAtTheSeparator | scripts/gen-postman.py:440-444 | a first comment with the separator in it is cut there by every later merge |
| Contract.TwoMergesSettle | scripts/gen-postman.py:431-444 | a third merge with one method changes nothing, for every text and comment |
| Contract.UndocumentedMethodIsDoubled | scripts/gen-postman.py:440-444 | a concrete method whose block is doubled |
| ContractReading.BlockReadsBack | scripts/gen-postman.py:411-428 | a reader that cuts a block at its labels and backticks gets back the procedure, the file, and the scope and binding or their absence, for every method without backticks |
| ContractReading.MergedStatesTheFacts | scripts/gen-postman.py:431-444 | whatever was there before, a merged description ends in a block with exactly the method's facts |
| Requests.LookUp | scripts/gen-postman.py:546 | the method found for a procedure has that procedure; none is found exactly when none is listed |
| Requests.RefreshItem | scripts/gen-postman.py:563-585 | the three comparisons of one request rewrite what differs and report it |
| Requests.RpcMarkSplit | scripts/gen-postman.py:477-532 | a request's URL is its host, a slash and its RPC, cut at the first mark |
| Requests.BuiltUrlNamesItsProcedure | scripts/gen-postman.py:513-532 | a URL built from a host without a slash and an RPC of this system is cut where it was joined |
| Requests.NewRequestCallsItsMethod | scripts/gen-postman.py:484-510 | a new request's URL parses back to the RPC it was made for and the default host |
| Requests.RefreshFrame | scripts/gen-postman.py:561-585 | a refreshed request keeps its name, headers, body and every member but method, url and description |
| Requests.RefreshedFacts | scripts/gen-postman.py:561-585 | after a refresh the request is a POST to the contract's path on its own host, with the merged description |
| Requests.RefreshKeepsTheCall | scripts/gen-postman.py:452-481 | a refreshed request keeps its URL's `raw` value, hence its host and RPC |
| Requests.RefreshKeepsTheProse | scripts/gen-postman.py:431-444 | a refreshed request keeps its prose under any contract, with the new block below it |
| Merging.LastCallerIsLast | scripts/gen-postman.py:594-598 | the insertion loop finds the last request of a service, or that there is none |
| Merging.Folder.RemoveStale | scripts/gen-postman.py:549-559 | the first loop drops exactly the requests for RPCs not in the contract, reporting each, and raises exactly on shapes it cannot step into |
| Merging.Folder.Refresh | scripts/gen-postman.py:561-585 | the second loop brings every request up to date in place and collects the RPCs called |
| Merging.Folder.AddMissing | scripts/gen-postman.py:587-600 | the third loop inserts a request for every RPC without one, in contract order |
| Merging.Collection.Merge | scripts/gen-postman.py:535-602 | the whole merge on the collection in place; it fails exactly without one folder of that name, or on a shape the source raises on; entries that are lists, or texts without the word `name`, are passed over |
| Merging.WorkableInTwoPasses | scripts/gen-postman.py:549-585 | the shapes under which the merge goes through, told item by item, are those the first two loops ask for between them |
| Report.ReportsExactly | scripts/gen-postman.py:547-602 | a line is in the report if and only if there is a reason for it: a request for an undeclared RPC, a request whose method, URL or description differs from the contract, a declared RPC nobody calls |
| RequestFacts.ProcedureExactly | scripts/gen-postman.py:477-532 | a request calls an RPC on a host if and only if its URL is the host, a slash and the RPC, with no earlier `/kindlast.` |
| RequestFacts.OwnFolderExactly | scripts/gen-postman.py:537-541 | the folder owned is the one named `Core API v1` |
| RequestFacts.MergeableExactly | scripts/gen-postman.py:535-585 | the merge goes through if and only if the collection lists its entries, each can be asked for a name, one alone is the folder and lists its items, and every step taken into an item is into an object |
| RequestFacts.SameFlatSameValue | scripts/gen-postman.py:576-577 | comparing two values by their one-line text is comparing the values |
| RequestFacts.UrlNodeParts | scripts/gen-postman.py:452-474 | the URL of an RPC says it three times: whole, as host, and as a path whose parts joined by a slash are the procedure |
| RequestFacts.MergedState | scripts/gen-postman.py:561-600 | after a merge every request for a declared RPC is a `POST`, to that RPC on its own host, whole and in parts |
| RequestFacts.HeadersRead | scripts/gen-postman.py:492-497 | a new request has the content type and the bearer token, and the organisation exactly for a core package |
| RequestFacts.NewRequestReads | scripts/gen-postman.py:499-510 | a new request is named after its RPC and service, goes to the default host, and has an empty raw body |
| MergeFrame.SurvivorsKeepTheirPlaces | scripts/gen-postman.py:549-602 | leaving out new requests, the folder is the surviving items, each updated, in their old order and number |
| MergeFrame.RequestsForOneProcedure | scripts/gen-postman.py:549-602 | an RPC has the requests that survived for it, however many, or exactly one new one |
| MergeFrame.CoverageIsExact | scripts/gen-postman.py:549-602 | the RPCs called after the merge are exactly the contract's procedures |
| MergeFrame.NewRequestsFollowTheirService | scripts/gen-postman.py:587-600 | a service's requests are its survivors in order, then its new ones in contract order |
| MergeFrame.InsertedStaysGrouped | scripts/gen-postman.py:594-599 | one insertion splits no service's run of requests, its own or another's |
| MergeFrame.ServicesStayTogether | scripts/gen-postman.py:535-602 | if a service's requests are one run before the merge, they are one run after it |
| MergeFrame.UpdatedKeepsTheCall | scripts/gen-postman.py:561-585 | updating changes neither which RPC an item calls nor whether it can be merged again |
| MergeFrame.NothingOutsideTheFolderMoves | scripts/gen-postman.py:535-602 | in the tree, every other entry of the collection, and every other member of the folder, is the same |
| JsonHole.ReadIsFromFile | scripts/gen-postman.py:152-204 | every container of a tree that was read knows its layout |
| JsonHole.ObjectHole | scripts/gen-postman.py:264-274 | the text around a member of an object with a decided layout does not depend on the member's value |
| JsonHole.ArrayHole | scripts/gen-postman.py:275-278 | likewise for an item of an array |
| Surroundings.NothingOutsideTheFolderMovesInTheText | scripts/gen-postman.py:49-57 | for every usable file, its own print and what the run writes are one text, white space included, around the print of the folder's list; for a tidy file the first is the file |
| Settled.NoChangesIffSettled | scripts/gen-postman.py:535-602 | the merge reports nothing if and only if every item is current and no RPC is missing, and then changes nothing |
| Settled.RefreshedIsCurrent | scripts/gen-postman.py:572-585 | a refreshed request needs no second refresh, if and only if its description is anchored |
| Settled.NewRequestIsCurrent | scripts/gen-postman.py:484-510 | a new request needs no refresh, if and only if its comment is an anchor |
| Settled.MergeSettles | scripts/gen-postman.py:535-602 | one merge leaves nothing for a second, if and only if every description it writes is anchored |
| Settled.MergedHaveProse | scripts/gen-postman.py:535-602 | every request a merge leaves has prose for the next one to find |
| Settled.ProseAnchors | scripts/gen-postman.py:535-602 | a covered folder whose requests all have prose is settled by one merge |
| Settled.MergeIgnoresLayout | scripts/gen-postman.py:535-602 | whether the merge goes through and whether it reports anything does not depend on layout |
| Regenerate.RunScript | scripts/gen-postman.py:619-645 | a run reads, merges, prints and compares; it writes only without `--check` and only when the text differs |
| Regenerate.RefusedExactly | scripts/gen-postman.py:619-626 | a run stops before writing if and only if there is no method, the text is not read, or the tree cannot be merged |
| Regenerate.MergedIsWellFormed | scripts/gen-postman.py:535-602 | the merged tree is one the printer's theorems apply to |
| Regenerate.RewrittenReadsBack | scripts/gen-postman.py:625-627 | what a run writes is tidy, can be merged again, and reads back as the merged tree up to layout |
| Regenerate.SecondMergeIsEmpty | scripts/gen-postman.py:605-645 | merging what a run wrote with the same contract reports nothing, if and only if its descriptions are anchored |
| Regenerate.CheckPassesExactlyWhenCurrent | scripts/gen-postman.py:625-638 | `--check` passes if and only if the text is tidy and the merge reports nothing |
| Regenerate.RegenerateThenCheck | scripts/gen-postman.py:605-645 | a run succeeds and writes a tidy text; checking it with the same contract passes if and only if its descriptions are anchored |
| Regenerate.WrittenFileIsAnchored | scripts/gen-postman.py:605-645 | whatever a file held, one run on what a run wrote meets the condition for a clean check |
| Regenerate.TwoRunsSettle | scripts/gen-postman.py:605-645 | for every usable file and declared contract: regenerate, regenerate, and `--check` passes with an empty report |
| Regenerate.UndocumentedFailsTheCheck | scripts/gen-postman.py:440-444 | a concrete file and contract for which the check after one run fails |
| Regenerate.LayoutAloneFailsTheCheck | scripts/gen-postman.py:629-638 | every file that passes fails without its last line break, with an empty report |
| Regenerate.WrittenTextIsFaithful | scripts/gen-postman.py:57-59 | reading and printing what a run wrote gives it back byte for byte |
| RunHistory.OneMerge | scripts/gen-postman.py:535-602 | one merge merges each description of a declared RPC once, in order, or starts the one of a new request |
| RunHistory.WrittenIsUsable | scripts/gen-postman.py:605-645 | what a run wrote can be regenerated with any other contract |
| RunHistory.RunStatesTheFacts | scripts/gen-postman.py:605-645 | after a run every request for a declared RPC states that RPC's file, scope and binding, or that it has none |
| RunHistory.RunsFollowTheVersions | scripts/gen-postman.py:605-645 | over any sequence of runs with contracts that all declare an RPC, every run goes through, and each of its descriptions ends as its text merged with the RPC's versions in turn |
| RunHistory.ProseSurvivesEveryRun | scripts/gen-postman.py:431-444 | over two such runs or more, each description ends as the prose the first run left above the last version's block alone |
| Base64.DecodeInvertsEncode | apps/core-api/internal/secrets/secrets.go:219-228 | decoding inverts encoding for every byte string, in both alphabets, padded and not |
| Base64.ReadingsAgree | apps/core-api/internal/secrets/secrets.go:219-228 | a text both the padded and the raw decoder accept means the same bytes to both |
| Base64.TwoBytesWritten | apps/core-api/internal/secrets/secrets.go:219-228 | two bytes show the alphabets and the padding of the encodings (sections 4 and 5 of RFC 4648) |
| Base64.LeftPadded | libs/chassis/oidc/jwk.go:157-160 | zero bytes in front give the fixed-width bytes of the same integer |
| Base64.BigEndianInvertsFixedBytes | libs/chassis/oidc/jwk.go:169-173 | fixed-width bytes read back as the integer they were made from |
| Base64.BigEndianFits | libs/chassis/oidc/jwk.go:142-145 | bytes no longer than a width are a number that fits it |
| Base64.LeadingZerosDoNotCount | libs/chassis/oidc/jwk.go:147-156 | leading zeros do not change the number |
| JwkKeys.FillPoint | libs/chassis/oidc/jwk.go:157-160 | the two copies fill 0x04, X and Y at full width, without overlap, for coordinates of any length up to the curve's, and the halves read back as the integers of the coordinates |
| JwkKeys.EcPublicKey | libs/chassis/oidc/jwk.go:117-174 | the imperative conversion gives the integers of the entry, exactly when their SEC 1 point passes the curve check |
| JwkKeys.ParseJwks | libs/chassis/oidc/jwk.go:51-74 | the loop builds the map of usable entries |
| JwkKeys.OnePoint | libs/chassis/oidc/jwk.go:147-160 | coordinates that fit have exactly one uncompressed point whose halves read as them |
| JwkKeys.PointReadsBack | libs/chassis/oidc/jwk.go:147-160 | for every curve and coordinates up to its length, the filled point's halves read as the integers of the coordinates, stripped leading zeros included |
| JwkKeys.ValidatedPointIsTheKey | libs/chassis/oidc/jwk.go:162-173 | whatever EC key an entry gives, the one uncompressed point of its integers passed the curve check |
| JwkKeys.PaddingDoesNotMatter | libs/chassis/oidc/jwk.go:143-156 | two entries whose coordinates differ in leading zeros give the same key or are both refused, up to the curve's length; beyond it an entry is refused |
| JwkKeys.PointRoundTrip | libs/chassis/oidc/jwk.go:117-174 | a point written at full length reads back as itself if it is on the curve, and is refused if not; the encoded point is 65, 97 or 133 bytes |
| JwkKeys.CurveNamedExactly | libs/chassis/oidc/jwk.go:120-129 | a curve is known by exactly its registered name |
| JwkKeys.RsaNumbers | libs/chassis/oidc/jwk.go:87-104 | an RSA entry gives the integers it spells: modulus, and an exponent of at most eight bytes |
| JwkKeys.RsaRoundTrip | libs/chassis/oidc/jwk.go:87-104 | a modulus and an exponent below 2^63, written at any width that holds them, read back as themselves |
| JwkKeys.RsaPaddingDoesNotMatter | libs/chassis/oidc/jwk.go:87-104 | leading zeros change neither integer, up to eight bytes of exponent |
| JwkKeys.RsaRefusedExactly | libs/chassis/oidc/jwk.go:92-98 | with a modulus that decodes, an RSA entry is refused if and only if its exponent is missing, unreadable, or not one to eight bytes |
| JwkKeys.OnlyTwoTypes | libs/chassis/oidc/jwk.go:76-85 | only entries of type `RSA` and `EC` give keys, each of its own type |
| JwkKeys.ServedIffOffered | libs/chassis/oidc/jwk.go:57-72 | a key id is served if and only if an entry that is a key and not marked for encryption has it |
| JwkKeys.LastOfferWins | libs/chassis/oidc/jwk.go:57-72 | of several usable entries with one id the last is the key |
| JwkKeys.UnusableEntryHidesNothing | libs/chassis/oidc/jwk.go:64-70 | an unusable entry anywhere leaves the map as it would be without it |
| KeyCache.KeySet.SetRefetchCooldown | libs/chassis/oidc/jwks.go:85-89 | changes the cooldown and nothing else |
| KeyCache.KeySet.FetchLocked | libs/chassis/oidc/jwks.go:168-190 | a good answer replaces the keys, any other leaves them |
| KeyCache.KeySet.WarmUp | libs/chassis/oidc/jwks.go:101-105 | fetches without counting as a refetch |
| KeyCache.KeySet.KeyFor | libs/chassis/oidc/jwks.go:114-140 | looks up, refetches at most once and only when allowed, and marks the refetch whether or not it goes well |
| KeyCache.OnlyKey | libs/chassis/oidc/jwks.go:142-154 | an empty key id is answered by the one key there is, which does not depend on iteration order |
| KeyCache.LookUpExactly | libs/chassis/oidc/jwks.go:142-154 | an id is answered by the key under that id and no other; an empty one by the key of a map that has just one |
| KeyCache.AnswerExactly | libs/chassis/oidc/jwks.go:114-166 | in any run, a request fetches if and only if the keys held do not serve its id and no fetch driven by a missing key is less than a cooldown old; and it gets a key if and only if the keys held, or else the 200 document of that fetch, have it under its id |
| KeyCache.MarksAreTheTimes | libs/chassis/oidc/jwks.go:126-131 | the marks of the cache are the time of the last fetch driven by a missing key and the cooldown last set |
| KeyCache.RefetchBringsTheKey | libs/chassis/oidc/jwks.go:101-190 | in any run, a refetch made since a key is served left that key in the cache |
| KeyCache.RotationOutageIsBounded | libs/chassis/oidc/jwks.go:101-190 | in any run, once a key is served and fetches go well, every request for it a cooldown later gets the key the latest document has under that id |
| KeyCache.RotationBoundIsExact | libs/chassis/oidc/jwks.go:161-166 | a two-call run, for every cooldown, on which the request one tick earlier is refused |
| KeyCache.FetchesAreSpaced | libs/chassis/oidc/jwks.go:114-140 | in any run, fetches driven by missing keys are a cooldown apart, failed or not, boot fetches between them or not |
| KeyCache.FetchRateIsBounded | libs/chassis/oidc/jwks.go:18-28 | any span of length W holds at most W / cooldown + 1 such fetches |
| KeyCache.FirstMissAlwaysFetches | libs/chassis/oidc/jwks.go:41-48 | until a missing key has driven a fetch the next one does, once, whatever boot fetches came before |
| KeyCache.CacheIsTheLatestDocument | libs/chassis/oidc/jwks.go:168-190 | in any run, the cache is exactly the latest good document |
| KeyCache.KeyIsServed | libs/chassis/oidc/jwks.go:114-154 | a key handed out is the one the latest good document, this call's included, has under that very id; to an empty id, its only key |
| TokenSource.ClientCredentials.MintLocked | libs/chassis/oidc/clientcredentials.go:139-212 | a mint sets token and deadline together; a failed one sets neither |
| TokenSource.ClientCredentials.Token | libs/chassis/oidc/clientcredentials.go:126-137 | answers from the cache before the deadline, mints otherwise |
| TokenSource.CacheIsTheLatestMint | libs/chassis/oidc/clientcredentials.go:126-212 | in any run, the cached pair is that of the latest successful mint |
| TokenSource.LifetimeExactly | libs/chassis/oidc/clientcredentials.go:191-194 | the assumed life is `expires_in` in whole seconds, or 300 seconds without one |
| TokenSource.MarginIsKept | libs/chassis/oidc/clientcredentials.go:191-211 | in any run, a token is handed out if and only if it is the latest 200 mint and more than 30 seconds of its assumed life are left, or, failing that, minted in that call |
| TokenSource.MintsAreSpaced | libs/chassis/oidc/clientcredentials.go:126-137 | the next mint comes no sooner than the last one's lifetime less 30 seconds |
| TokenSource.FailedMintIsInvisible | libs/chassis/oidc/clientcredentials.go:126-137 | a call whose mint would fail can be dropped from any run without changing the cache |
| Signature.VerifySignature | apps/core-api/internal/billing/billing.go:64-124 | the two loops give the verdict on the parts of the header |
| Signature.ParseInt64Exactly | apps/core-api/internal/billing/billing.go:92-95 | a timestamp is a number if and only if it is digits with at most a sign that fit 64 bits |
| Signature.HexDecodeExactly | apps/core-api/internal/billing/billing.go:112 | a code is read if and only if it is two hexadecimal digits of either case a byte |
| Signature.AcceptedExactly | apps/core-api/internal/billing/billing.go:64-124 | a header is accepted if and only if neither it nor the secret is white space alone, its last `t` is a number of seconds no more than 300 before or after now, and some `v1` spells the code of that timestamp text, a dot and the body |
| Signature.RefusedExactly | apps/core-api/internal/billing/billing.go:64-124 | which refusal a header gets: no signature if and only if something is blank or missing or the timestamp is no number, expired only out of the 300 seconds, bad only within |
| Signature.OrderAndUnknownPartsDoNotMatter | apps/core-api/internal/billing/billing.go:72-86 | only the last timestamp and the set of codes decide |
| Signature.HeaderReadsBack | apps/core-api/internal/billing/billing.go:72-86 | a header written from parts is split into those parts |
| Signature.HexDecodeInverts | apps/core-api/internal/billing/billing.go:112 | a code written in hexadecimal reads back |
| Signature.SignedHeaderIsAccepted | apps/core-api/internal/billing/billing.go:80-120 | a right code is accepted among any stale ones, as during a rotation of the secret |
| Signature.MessageDeterminesItsParts | apps/core-api/internal/billing/billing.go:105-109 | two signed messages agree only if timestamp and body do |
| Webhook.MapPlan | apps/core-api/internal/billing/handler.go:205-212 | the plan is `pro` exactly when a lookup key is |
| Webhook.Store.Apply | apps/core-api/internal/store/postgres/billing.go:73-137 | claims the id and writes in one transaction; a repeat, an unknown customer or a fault leaves both as they were |
| Webhook.Store.Handle | apps/core-api/internal/billing/handler.go:36-109 | one delivery changes the store and is answered as its step says, verified before it is read |
| Webhook.TraceIsItsFirstChanges | apps/core-api/internal/billing/billing.go:169-178 | after any run of deliveries the subscriptions are the first applicable delivery of each event id, written in order, and the ledger is their ids |
| Webhook.InapplicableChangesNothing | apps/core-api/internal/billing/handler.go:36-109 | a forged, unreadable, unhandled, unusable or unknown-customer delivery inserted anywhere changes nothing |
| Webhook.RepeatChangesNothing | apps/core-api/internal/billing/handler.go:87-91 | another delivery of an applied event, inserted anywhere later, changes nothing |
| Webhook.LastWriteIsHeld | apps/core-api/internal/store/postgres/billing.go:107-121 | what an organisation holds is what the last change written for it said, or, without one, what it had |
| Webhook.ProComesFromASignedUpgrade | apps/core-api/internal/billing/handler.go:136-212 | a plan of `pro` that was not there comes from a signed created or updated event of that organisation with lookup key `pro` |
| Webhook.ApplicableExactly | apps/core-api/internal/billing/handler.go:36-91 | a delivery counts if and only if it is signed, readable, of one of the three handled types, names an id and a known customer, and meets no fault; and it then says plan, status and period end in the provider's words |
| Webhook.HeldWasSigned | apps/core-api/internal/billing/handler.go:136-212 | after any run, what an organisation holds it held before, or a signed delivery for its own customer says: `active` exactly for `active` and `trialing`, `past_due` exactly for three words, `canceled` for any other and every deletion, `pro` exactly with that lookup key and no deletion, and the period end |
| Webhook.ActiveComesFromASignedStatus | apps/core-api/internal/billing/handler.go:186-195 | a status of `active` that was not there comes from a signed created or updated event of that organisation whose provider status is `active` or `trialing` |
| Webhook.CodesExactly | apps/core-api/internal/billing/handler.go:36-109 | 400 if and only if the delivery is not genuine, or of a handled type without id or customer; 500 if and only if a usable event meets a fault; 200 otherwise |
| Webhook.MissingFieldIsRefusedForEver | apps/core-api/internal/billing/handler.go:75-79 | a genuine event answered 400 is answered 400 whenever it is sent again |
| Webhook.CodesTellWhetherToRetry | apps/core-api/internal/billing/handler.go:28-35 | not 200 means nothing changed; 200 again after 200; a retried fault is applied |
| Webhook.AcknowledgedButUnapplied | apps/core-api/internal/billing/handler.go:93-100 | an event is answered 200 and left unapplied if and only if its customer is unknown, without a fault or an earlier application |
| Webhook.UnknownCustomerNeedsAnotherDelivery | apps/core-api/internal/store/postgres/billing.go:96-102 | over any run, such an event is applied if and only if it is delivered again, without a fault, once its customer is known |
| Keyring.KeyReadsInBothSpellings | apps/core-api/internal/secrets/secrets.go:219-228 | the padded and the unpadded spelling of any key both read as the key |
| Keyring.ParseKey | apps/core-api/internal/secrets/secrets.go:184-213 | an entry that is accepted has a non-empty id and a key of 32 bytes |
| Keyring.EntryReadsBack | apps/core-api/internal/secrets/secrets.go:184-213 | `id:key` in either spelling gives that id and that key if the key has 32 bytes, and is refused otherwise |
| Keyring.NewKeyring | apps/core-api/internal/secrets/secrets.go:97-128 | the loop over retired entries builds the ring, or refuses |
| Keyring.RefusedExactly | apps/core-api/internal/secrets/secrets.go:111-124 | the retired entries are refused if and only if one does not read or has the primary's id |
| Keyring.NoPrimaryNoRing | apps/core-api/internal/secrets/secrets.go:93-102 | with a blank primary nothing is sealed or opened, whatever is retired |
| Keyring.LastRetiredEntryWins | apps/core-api/internal/secrets/secrets.go:125 | of several retired entries with one id the last is the key |
| Keyring.UnnamedIdIsLeftAlone | apps/core-api/internal/secrets/secrets.go:111-126 | no retired entry touches another id, or the primary |
| Keyring.EveryListedKeyIsHeld | apps/core-api/internal/secrets/secrets.go:97-128 | a ring that builds holds every key its configuration lists if and only if retired entries for one id agree on the key, and none is listed beside an empty primary |
| Keyring.ListedKeyIsHeld | apps/core-api/internal/secrets/secrets.go:97-128 | under that condition each listed key is held under its id |
| Keyring.RepeatedIdStrandsTheEarlierKey | apps/core-api/internal/secrets/secrets.go:125 | with a repeated retired id, nothing the earlier key sealed opens |
| Keyring.TwoKeysUnderOneId | apps/core-api/internal/secrets/secrets.go:125 | for any three keys, a configuration on which a sealed value is stranded |
| Keyring.RetiringThePrimaryIsARotation | apps/core-api/internal/secrets/secrets.go:27-32 | for any two keys, a new primary beside the old one retired is a rotation |
| Keyring.KeysAreNeverDropped | apps/core-api/internal/secrets/secrets.go:27-32 | along a rotation a key held once is held under its id ever after |
| Keyring.RotationStrandsNothing | apps/core-api/internal/secrets/secrets.go:139-181 | along a rotation of any length, a value sealed at any step opens at every later one to its plaintext, for its own row and no other |
| Keyring.RotationChangesNoReading | apps/core-api/internal/secrets/secrets.go:157-181 | any stored value, sound or altered, under a key id held at one step reads the same at every later one |
| Keyring.OpensExactly | apps/core-api/internal/secrets/secrets.go:157-181 | the layout of a sealed value over the ideal cipher: it opens to a plaintext if and only if it is a nonce and that plaintext sealed by the key of that id for that row |
| Scopes.FieldsAreTheWords | libs/chassis/oidc/verifier.go:326-348 | the words of a claim are exactly its maximal runs without white space |
| Scopes.LessExactly | libs/chassis/oidc/verifier.go:364 | the order of keys is by code point at the first difference, a prefix first |
| Scopes.OneListing | libs/chassis/oidc/verifier.go:356-366 | the sorted keys of an object are one list, whatever order they were collected in |
| Scopes.ValuesOf | libs/chassis/oidc/verifier.go:341-368 | a claim's values, its keys collected in any order and then sorted, are a function of the claim |
| Scopes.SortStrings | libs/chassis/oidc/verifier.go:364 | the result is in order and holds exactly the keys |
| Scopes.ValuesAreTheGrants | libs/chassis/oidc/verifier.go:335-368 | text grants its words, an array of text its items, an object its keys, any other shape nothing |
| Scopes.AddAll | libs/chassis/oidc/verifier.go:316-324 | the closure appends each value not yet found, once |
| Scopes.CollectScopes | libs/chassis/oidc/verifier.go:312-333 | the collected list is the first occurrences, in claim order, of every non-empty value read |
| Scopes.DistinctMeetsThePromise | libs/chassis/oidc/verifier.go:316-324 | the loop's list has every non-empty value, no empty one, in first-seen order |
| Scopes.PromiseIsExact | libs/chassis/oidc/verifier.go:316-324 | a list has every non-empty value in first-seen order if and only if it is the loop's list |
| Scopes.NoRepeats | libs/chassis/oidc/verifier.go:318-321 | a list in first-seen order repeats nothing |
| Scopes.ScopesAreTheUnion | libs/chassis/oidc/verifier.go:306-333 | the scopes are exactly the non-empty grants of the claims read |
| Scopes.UnnamedClaimsGrantNothing | libs/chassis/oidc/verifier.go:328-330 | a claim no setting names has no influence |
| Scopes.MoreClaimsOnlyAppend | libs/chassis/oidc/verifier.go:306-333 | naming another claim removes and reorders no scope |
| Scopes.VerifiedInOrder | libs/chassis/oidc/verifier.go:201-247 | a verified token's scopes are the first occurrences in claim order, and `openid` last if it is not among them |
| Scopes.WithOpenID | libs/chassis/oidc/verifier.go:240-247 | adds `openid` at the end unless it is there |
| Scopes.HasScope | libs/chassis/oidc/verifier.go:96-103 | holds exactly for a listed scope |
| Scopes.Verify | libs/chassis/oidc/verifier.go:201-211 | decoding, collecting and adding `openid` together give the scopes of a verified token as a function of its payload, or refuse it |
| Scopes.AuthorityIsTheUnionAndOpenID | libs/chassis/oidc/verifier.go:306-368 | a verified token holds a scope if and only if a claim grants it or it is `openid`, each once; only a `scope` of another shape refuses the token |

## Left out

The regenerator:

- Building and reading the proto image, argument parsing, exit messages and file access: the methods and the file's text are inputs, and a run's outcome holds the text left in the file. That comments arrive stripped of white space at both ends is what line 347 guarantees.
- JsonReader.Parser.Parse: does not read floating-point literals, `NaN` and `Infinity`, whose respelling by Python is rounding, nor lone surrogate escapes (`\ud800` by itself), because a Dafny character is a Unicode scalar value; such a text is refused.
- JsonReader.Parser.ParseLiteral: refuses floating-point literals, `NaN`, `Infinity`, and does not refuse integers of more than 4300 digits as Python does.
- JsonReader.Parser.ParseString: refuses a lone surrogate escape, which Python keeps as a character of its own.
- JsonFidelity.FaithfulExactlyOnTidyText: is about texts without those literals and escapes; one that has them is neither read nor tidy here.
- Malformed text and unexpected shapes are modelled as one refusal, not as the exception Python raises.
- Node identity: trees are values, and the folder's list and the collection's root are the fields updated in place. A tree that shares a node between two places is not represented.
- The wording of change lines: a change is a value with the same parts.
- What distinct procedures, packages that start with `kindlast.` and identifiers without a slash mean for the proto compiler: they are assumed where a theorem needs them, as facts of any contract `buf` accepts.

The Go parts:

- HTTP, SQL and JSON decoding: a response, a payload or a body as read is a parameter, and a failure to read one is a case of it.
- Locking: each method holds its lock throughout, so a run is a sequence of whole calls.
- RSA, ECDSA, HMAC and AES-GCM themselves; `Jwk` exponents of 2^63 and more wrap to a negative number as the implementation does, though its documentation leaves that undefined.
- Saturation and overflow of durations: differences of times are integers.
- `expires_in` is a real number, rounded down to seconds as the conversion does for positive values.
- The customers known at a delivery are a parameter of it, one organisation for each; how a checkout adds them is not modelled. A transaction whose commit succeeded but was reported as failed is not represented.
- Claims other than the scope-bearing ones, and Go's case-insensitive matching of `scope` and `scp`.
- Header values and form fields of outgoing requests; `reach.go`, the web application, the workers and the migrations.
