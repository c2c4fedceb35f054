# Verified models of the CMS composition, payment, signing and admin-session logic

These modules model the parts of the CMS where several pieces of code have to agree with one another: the
cutting of client contracts out of the OpenAPI document, the OIDC signing-key files and JWK numbers, payment
amounts and signatures, the PayPal client cache, the boot-time checks of an application manifest, and, in the
administration application, the session, the navigation guard, the menu filter and the path templates.
`dafny verify dfyconfig.toml` checks everything.

How the modules hang together:

- `OpenApiJson`, `OpenApiProjection`, `OpenApiProjector`, `OpenApiLaws`, `OpenApiDocuments`, `OpenApiContracts`: a
  schema is a tree of JSON values. `OpenApiProjection` says what a projection is (selected operations, components on a
  chain of `$ref`s from them, named security schemes, carried tags), `OpenApiProjector` is the source's loops proved
  to compute it, `OpenApiLaws` are the laws between projections, `OpenApiDocuments` says entry by entry what a
  projected document lists, and `OpenApiContracts` which operations the two client contracts have and share.
- `Base64Url`, `SigningKeyStore`: the octets and text of a JWK number, and the key files of one directory, where each
  system call of `generate` can succeed, fail or be the last thing the process does.
- `Text`, `Rounding`, `Decimals`, `Money`, `LongDecimals`, `Numerals`: Python's 28-digit decimal arithmetic, the two
  pairs of amount conversions built on it, and the numerals they read.
- `SortedKeys`, `Dicts`, `EpaySignature`, `EpayWebhook`, `EpayRequests`: the canonical signed text, the notification
  check, and what tells a notification from the adapter's own signed requests.
- `PaypalClient`: the provider's two fields, and every interleaving of calls that share them.
- `Manifest`, `AdapterBindings`, `ProviderCatalogs`: the boot-time loops, for arbitrary registries, and the tables that
  ship checked against what the loops rely on.
- `AdminSession`, `RouterGuard`, `MenuVisibility`, `ApiPath`, `PercentCoding`: the administration application. An
  asynchronous function is modelled as the stretches between its awaits; a run is any interleaving of such stretches,
  and the class `Session` holds the functions as they are written, each proved to be the run of its own stretches
  alone.

Where the code does something its promise does not say, the model follows the code:

- The two amount conversions round in different orders. They agree on every decimal of at most 28 digits;
  `LongDecimals.AgreeUnlessRoundedTwice` gives the exact condition for all others, and
  `LongDecimals.LongDecimalsRoundTwice` a decimal for which only PayPal finds an amount.
- From 10^28 fen on `quantize` raises `InvalidOperation`. Epay's conversion turns that into its own error; PayPal's
  `quantize` is outside its `try`, so the exception passes through (`ContextOverflow` in `Money`).
- A process that stops between opening and renaming a temporary key file leaves it there; nothing ever removes it,
  and no key of that id can be generated from then on (`SigningKeyStore.LeftoverBlocksForever`).
- `generate` can raise and still leave its key in place: exactly when everything up to the rename succeeded and the
  permissions could not be set (`SigningKeyStore.KeptThoughRaisedIff`).
- "Authenticated means an administrator is set" fails when operations overlap
  (`AdminSession.OverlapBreaks`). `AdminSession.UndisturbedRunsAreSettled` and `AdminSession.UndercuttingBreaks` say
  which steps break it: exactly those that take the administrator away while another operation waits for the OIDC
  user to be removed.
- `apiPath` replaces one occurrence per parameter, so a template that repeats a placeholder is refused
  (`ApiPath.ReplacingIsSubstituting`).
- PayPal's second webhook request takes its address from the provider after an await. It stays in the
  environment of the call's own client exactly when the settings delivered last in between name that environment
  (`PaypalClient.WebhookAddressFollowsDelivery`); `PaypalClient.WebhookAddressMayMove` is a run in which it does not.
- The composed default provider is looked up by adapter name or suffix. The lookup finds the bound adapter's own
  provider exactly when that adapter is unambiguous (`ProviderCatalogs.FoundIsOwnIff`), which the shipped keys
  make every adapter; `ProviderCatalogs.EpayCouldNamePaypal` are keys under which a binding to one adapter selects
  another. A provider without a `key` attribute is never the default unless its key is the least
  (`ProviderCatalogs.UnsetSelectsFirstBoundIff`).
- An entry whose value is "0" is not signed, yet such a text is accepted as a reference. The signature covers the
  order reference, the trade number and the merchant exactly when they are not "0"
  (`EpayWebhook.AcceptedEventIsSigned`, `EpayWebhook.ZeroEntryIsNotSigned`).
- The signed text determines the signed entries when no separator occurs in them (`EpaySignature.CanonicalSameIff`),
  and not in general (`EpaySignature.SeparatorsCollide`).
- The text of every accepted notification has the part `trade_status=TRADE_SUCCESS` between its ampersands, so the text
  of one of the adapter's own requests is never that of an accepted notification unless it has that part too
  (`EpayRequests.OwnRequestIsNoNotification`). It has it exactly when some field spells it behind an ampersand
  (`EpayRequests.OwnTextHasStatusIff`); the adapter does not rule that out, for instance in a return address
  (`EpayRequests.ReturnAddressSpellsStatus`).

## Model

| member | source | states |
|---|---|---|
| OpenApiJson.ParseRefMeaning | inc/api/openapi.py:116-120 | a `$ref` text names (category, name) exactly when it is the components prefix, a category without a slash, a slash and the name |
| OpenApiJson.RefsAreThoseWithin | inc/api/openapi.py:113-126 | the collected references are exactly those made by some value nested anywhere in the given one |
| OpenApiJson.SchemesAreThoseWithin | inc/api/openapi.py:129-142 | the collected security scheme names are exactly those of requirements nested anywhere in the given value |
| OpenApiJson.ComponentRefs | inc/api/openapi.py:113-126 | the recursive loops that grow a local set return that set, in whatever order children are visited |
| OpenApiJson.SecuritySchemeNames | inc/api/openapi.py:129-142 | the same for security requirement names, non-list and non-object values skipped |
| OpenApiProjection.ClosedSetHoldsReachable | inc/api/openapi.py:165-181 | the reachable components are the least set: any set that holds the roots and is closed under `$ref` holds them all |
| OpenApiProjection.AssembleHolds | inc/api/openapi.py:180-181 | the assembled components object has exactly the kept entries, each unchanged |
| OpenApiProjector.SelectItem | inc/api/openapi.py:155-161 | the loop over a path item keeps non-operations and the selected operations, and nothing else |
| OpenApiProjector.SelectPaths | inc/api/openapi.py:153-163 | the loop over the paths keeps exactly the items that still have an operation |
| OpenApiProjector.VisitOneMore | inc/api/openapi.py:169-181 | one round keeps the worklist invariant: what is visited is defined and reachable, and all it mentions has been met |
| OpenApiProjector.CollectComponents | inc/api/openapi.py:165-181 | for any, also cyclic, graph and any pop order the worklist ends; it succeeds exactly when every reachable reference is defined, with exactly the reachable components, and otherwise reports a reachable undefined one; the `continue` never runs |
| OpenApiProjector.AddSecuritySchemes | inc/api/openapi.py:183-189 | in sorted order all named schemes are added, or the least one that is named and undefined is reported |
| OpenApiProjector.CollectTagNames | inc/api/openapi.py:204-210 | the nested comprehension collects the tag names of the projected operations |
| OpenApiProjector.ProjectSchema | inc/api/openapi.py:145-214 | the whole function returns the specified projection, or raises exactly when a reachable reference or a named scheme is undefined, naming such a reference or the least such scheme |
| OpenApiLaws.ProjectionKeepsExactlyWhatItNeeds | inc/api/openapi.py:165-189 | a component is in the projection exactly when the projection's own paths reach it or name it as a scheme, and it is the source's entry |
| OpenApiLaws.ProjectionIsClosed | inc/api/openapi.py:165-189 | every reference reachable inside the projection is defined in the projection |
| OpenApiLaws.SelectedOperationsExactly | inc/api/openapi.py:153-163 | an operation is in the projection exactly when the source has it and it is selected, and it is unchanged |
| OpenApiLaws.SameReachable | inc/api/openapi.py:165-181 | from fewer roots the same components are reachable in a projection as in its source |
| OpenApiLaws.ProjectionsCompose | inc/api/openapi.py:145-214 | if projecting by one selector succeeds, projecting the result by another succeeds and equals projecting the source by both |
| OpenApiLaws.NarrowerProjectionNeedsNoDetour | inc/api/openapi.py:145-214 | when the second selector implies the first, the result equals projecting the source by the second alone |
| OpenApiLaws.ProjectionIsIdempotent | inc/api/openapi.py:145-214 | projecting a projection again changes nothing |
| OpenApiLaws.CutsCommute | inc/api/openapi.py:145-245 | when a source can be cut by each of two selectors, cutting the user out of the administrator contract or the other way round gives the same document |
| OpenApiDocuments.PathsExactly | inc/api/openapi.py:152-163 | a path stays exactly when some operation of it, under one of the seven HTTP methods, is selected; then exactly its selected operations and its other keys stay, each unchanged |
| OpenApiDocuments.ProjectableIff | inc/api/openapi.py:165-189 | a document can be projected exactly when every component on a trail of mentions from the selected paths, and every security scheme they require, is defined |
| OpenApiDocuments.ComponentsExactly | inc/api/openapi.py:165-201 | a component is listed exactly when such a trail leads to it or it is a required security scheme, and as in the source; no category is empty and an empty components object is left out |
| OpenApiDocuments.TagsExactly | inc/api/openapi.py:204-213 | a tag is listed exactly when the source lists it and some value of a projected path item is an object whose `tags` list holds its name as a text |
| OpenApiDocuments.TagsInOrder | inc/api/openapi.py:211-213 | the listed tags are entries of the source at strictly increasing positions, and the positions left out are exactly those whose name no projected path item carries |
| OpenApiDocuments.RestExactly | inc/api/openapi.py:191-198 | the title is replaced, everything else in `info` and all other keys stay, and the top-level `security` is gone |
| OpenApiContracts.SharedOperations | inc/api/openapi.py:217-245 | both client contracts select an operation exactly when its path is OIDC discovery or lies under `/oidc/` and mentions no webhook |
| OpenApiContracts.ContractsShareOidc | inc/api/openapi.py:217-245 | the user contract cut out of the administrator contract has exactly the source's operations on that OIDC surface |
| OpenApiContracts.AdminContractExactly | inc/api/openapi.py:217-231 | the administrator contract has exactly the source's operations on `/api/v1/admin`, the health checks, `/oidc/` and `/.well-known/` |
| OpenApiContracts.UserContractExactly | inc/api/openapi.py:234-245 | the user contract has exactly the source's operations on the user paths and prefixes that are not under `/api/v1/admin/` and mention no webhook |
| Base64Url.OctetByOctet | inc/adapters/oidc/signing_keys.py:20 | the octet count taken from the bit length is the number of times 256 divides into the number |
| Base64Url.NoLeadingZero | inc/adapters/oidc/signing_keys.py:20 | the big-endian octets of a positive number do not start with zero |
| Base64Url.OctetsAreFewest | inc/adapters/oidc/signing_keys.py:20 | no shorter octet string means the same number |
| Base64Url.UnpaddedBase64UrlIsABijection | inc/adapters/oidc/signing_keys.py:21 | a text decodes to some octets exactly when it is their padded base64url encoding with the padding taken off |
| Base64Url.B64uRoundTrip | inc/adapters/oidc/signing_keys.py:19-21 | decoding the text and reading it big-endian gives the number back |
| Base64Url.B64uIsMinimal | inc/adapters/oidc/signing_keys.py:19-21 | any text that decodes to the same number has at least as many octets, and with as many it is the same text |
| Base64Url.B64uIsInjective | inc/adapters/oidc/signing_keys.py:19-21 | different numbers have different texts |
| Base64Url.AlphabetAt | inc/adapters/oidc/signing_keys.py:21 | the 64 characters are those of the URL-safe alphabet, in its order |
| Base64Url.SextetsMeanOctets | inc/adapters/oidc/signing_keys.py:21 | the sextets are as few as hold the octets and are the digits, to base 64, of the same number shifted left by the filling bits |
| Base64Url.B64uSpells | inc/adapters/oidc/signing_keys.py:19-22 | so the text of a number spells, character by character, that number shifted left by the filling bits |
| SigningKeyStore.TemporaryName | inc/adapters/oidc/signing_keys.py:55 | `with_suffix` turns the key file's name into the id with `.tmp` |
| SigningKeyStore.NamesAreDisjoint | inc/adapters/oidc/signing_keys.py:30-34 | key and temporary files of different ids never share a name, nor do a key and a temporary file |
| SigningKeyStore.SafeIdMeaning | inc/adapters/oidc/signing_keys.py:30-33 | an id is admitted exactly when it is not empty and all its characters are ASCII letters, digits, `-` or `_` |
| SigningKeyStore.SafeIdsStayInside | inc/adapters/oidc/signing_keys.py:30-34 | an id with a slash, a backslash, a dot or a null character is not admitted |
| SigningKeyStore.OtherIdsAreRefused | inc/adapters/oidc/signing_keys.py:30-33 | under an id that is empty or holds any other character `generate` and `drop_private` raise and change no file |
| SigningKeyStore.MintedIdsSucceed | inc/capabilities/oidc_provider/keys.py:226-229 | ids of the form `sig-<digits>-<hex digits>` are admitted: with no fault and an empty directory `generate` leaves exactly that key |
| SigningKeyStore.FileSigningKeyStore.Generate | inc/adapters/oidc/signing_keys.py:44-66 | the write, sync and rename steps leave exactly the specified directory, for every choice of what each system call does |
| SigningKeyStore.FileSigningKeyStore.LoadPrivate | inc/adapters/oidc/signing_keys.py:78-82 | exactly when it finds nothing, returns a key, or stops, for every choice of what each call does; a key it returns comes from the PEM of one `generate` of that id |
| SigningKeyStore.FileSigningKeyStore.DropPrivate | inc/adapters/oidc/signing_keys.py:84-85 | when it returns the key is gone, present or not before; nothing else changes, nothing at all on failure, and the remaining keys stay complete |
| SigningKeyStore.OtherFilesAreUntouched | inc/adapters/oidc/signing_keys.py:44-85 | a call on one id leaves every file of other ids as it was |
| SigningKeyStore.ExistingKeyIsKept | inc/adapters/oidc/signing_keys.py:46-48 | an existing key is never replaced; only its own drop removes it |
| SigningKeyStore.VisibleKeysAreComplete | inc/adapters/oidc/signing_keys.py:44-66 | after any sequence of calls with any failures and stops, a visible key is the whole PEM of one `generate` of its id |
| SigningKeyStore.KeyOutlivesRun | inc/adapters/oidc/signing_keys.py:44-85 | through any run without a drop of its id a key keeps its contents |
| SigningKeyStore.GenerateSucceedsIff | inc/adapters/oidc/signing_keys.py:44-76 | `generate` returns exactly when the id is not empty and spelled in the alphabet, neither `<id>.pem` nor `<id>.tmp` exists and no step fails; then `<id>.pem` holds the PEM and nothing else has changed |
| SigningKeyStore.GeneratedKeyStays | inc/adapters/oidc/signing_keys.py:44-85 | a key `generate` returned is still that PEM after any later run that does not drop it |
| SigningKeyStore.LeftoverIff | inc/adapters/oidc/signing_keys.py:55-66 | exactly which failures leave a temporary file behind |
| SigningKeyStore.KeptThoughRaisedIff | inc/adapters/oidc/signing_keys.py:62-66 | exactly when a call that does not return leaves the new key in place, and that the key is then whole |
| SigningKeyStore.LeftoverBlocksForever | inc/adapters/oidc/signing_keys.py:55-56 | such a file outlives every later call and no `generate` of its id can return |
| Money.EpayFenIsFloor | inc/adapters/payments/epay.py:304-311 | a decimal is accepted exactly when it is positive and floor(100v + 1/2) is positive and below 10^28, and that is the amount |
| Money.FenAreMonotoneAndClose | inc/adapters/payments/epay.py:304-311 | accepted amounts grow with the decimal and lie within half a fen of it |
| Money.EpayAndPaypalAgree | inc/adapters/payments/paypal.py:400-410 | scale-then-round and round-then-scale refuse the same decimals of at most 28 digits and otherwise agree |
| Money.EpayRoundTrip | inc/adapters/payments/epay.py:294-311 | printing an amount and reading it back is the identity exactly below 10^28 fen, and an error from there on |
| Money.PaypalRoundTrip | inc/adapters/payments/paypal.py:388-410 | the same for the PayPal pair |
| Numerals.ReadMeans | inc/adapters/payments/epay.py:306 | a text is read as a decimal exactly when, less space and underscores, it spells a numeral (sign, digits with at most one point, exponent), and then as all its digits shifted by the digits after the point and by the exponent; every other text is refused |
| Numerals.UnderscoresAreSkipped | inc/adapters/payments/epay.py:306 | an underscore is read over wherever it stands |
| Numerals.NatOfConcat | inc/adapters/payments/epay.py:306 | the number of two rows of digits, one after the other |
| Numerals.EpayReads | inc/adapters/payments/epay.py:304-311 | an amount is read from exactly the texts that spell a numeral above zero with floor(100v + 1/2) positive and below 10^28, and is that number; a text that spells no numeral is invalid for both providers |
| Numerals.PaypalReads | inc/adapters/payments/paypal.py:400-410 | PayPal's conversion reads the same texts, and as the same amounts up to 28 digits |
| Numerals.NegativeIsNoAmount | inc/adapters/payments/epay.py:309-310 | a numeral with a minus is never an amount |
| Numerals.ShortAmounts | inc/adapters/payments/epay.py:304-311 | numerals without exponent: without a fraction they are so many hundreds of fen, with one digit so many tens, with two so many fen, in both conversions |
| Numerals.WholeAmounts | inc/adapters/payments/paypal.py:400-410 | a row of digits as it stands is so many yuan in both conversions |
| Numerals.PointAmounts | inc/adapters/payments/paypal.py:400-410 | a row of digits, a point and one or two digits is so many tenths or hundredths in both |
| Numerals.PrintedAs | inc/adapters/payments/epay.py:294-301 | an amount below 10^28 is printed as its yuan without leading zeros, a point and two digits |
| Numerals.PrintedIntegerReadsBack | inc/adapters/payments/epay.py:71 | a printed integer is a numeral and reads back as itself |
| Decimals.Times100IsExact | inc/adapters/payments/paypal.py:407 | for at most 28 digits the context does not change the product by 100 |
| Decimals.HundredthsAreFloor | inc/adapters/payments/epay.py:306 | half-up rounding to hundredths is floor(100v + 1/2) over the reals |
| LongDecimals.AgreeUnlessRoundedTwice | inc/adapters/payments/paypal.py:400-410 | on all finite decimals the two conversions agree exactly when the context does not move the product by 100 across a half |
| LongDecimals.LongDecimalsRoundTwice | inc/adapters/payments/paypal.py:407 | a 29-digit decimal on which they differ |
| SortedKeys.SortIsIncreasing | inc/adapters/payments/epay.py:72 | sorting distinct keys gives the strictly increasing list of the same keys |
| SortedKeys.IncreasingIsUnique | inc/adapters/payments/epay.py:72 | a set of keys has only one strictly increasing list |
| SortedKeys.LessMeans | inc/adapters/payments/epay.py:72 | the order of keys: the first difference decides, and a text comes before its continuations |
| EpaySignature.CanonicalDependsOnSurvivors | inc/adapters/payments/epay.py:67-75 | the signed text is the same for any insertion order and any added or removed `sign`, `sign_type`, empty or zero entries |
| EpaySignature.CanonicalSameIff | inc/adapters/payments/epay.py:67-75 | without separators in keys and values two dicts have one signed text exactly when the same entries survive and print alike |
| EpaySignature.CanonicalMeans | inc/adapters/payments/epay.py:70-75 | the signed text joins, by ampersands and in increasing order of keys, exactly the entries that are neither `sign` nor `sign_type` nor empty, false, zero or "0", each printed as key, equals sign and value |
| EpaySignature.SeparatorsCollide | inc/adapters/payments/epay.py:70-75 | two different dicts with one signed text, an ampersand being part of a value |
| EpaySignature.Signed | inc/adapters/payments/epay.py:140-145 | the comprehension and two assignments build the specified dict |
| EpaySignature.SignedVerifies | inc/adapters/payments/epay.py:140-145 | signing the signed dict again gives the signature it carries, and the other entries are the given values as text |
| EpayWebhook.SignedNotificationIsAuthentic | inc/adapters/payments/epay.py:226-239 | a GET with parameters signed by the same key, the configured merchant and non-blank references passes every check before the amount |
| EpayWebhook.SignedNotificationIsAccepted | inc/adapters/payments/epay.py:226-247 | it is accepted exactly below 10^28 fen, with the very amount and stripped references it was made from |
| EpayWebhook.AcceptedEventIsSigned | inc/adapters/payments/epay.py:226-247 | any accepted event carries a matching signature; its status and amount are among the signed entries, and so are order reference, trade number and merchant exactly when they are not "0" (the merchant also when it is not empty) |
| EpayWebhook.ZeroEntryIsNotSigned | inc/adapters/payments/epay.py:70-75 | adding an entry "0" under a new key leaves the signed text as it is |
| EpayWebhook.AcceptedAmounts | inc/adapters/payments/epay.py:304-311 | an accepted amount is in range and its text is one the signature covers |
| EpayWebhook.AcceptedIff | inc/adapters/payments/epay.py:226-247 | a request is accepted exactly when it is a GET with a matching signature, the configured merchant, the success status, two references that are not blank and an amount; and the event holds exactly these, as a capture in CNY acknowledged with "success" |
| EpayRequests.PartOfSignedText | inc/adapters/payments/epay.py:70-75 | the parts of a signed text between its ampersands are exactly the parts of its printed entries |
| EpayRequests.AcceptedTextHasStatus | inc/adapters/payments/epay.py:230-235 | the signed text of an accepted notification has the success status as a part, whatever else its keys and values hold |
| EpayRequests.NoStatusNoNotification | inc/adapters/payments/epay.py:226-235 | parameters of which no signed entry spells that part never have the signed text of an accepted notification, whatever its sender puts into it |
| EpayRequests.PlainSpellsNoStatus | inc/adapters/payments/epay.py:70-75 | parameters without separators and without a signed status are such parameters |
| EpayRequests.OwnRequestsHaveNoStatus | inc/adapters/payments/epay.py:170-263 | the payment, status and refund requests have distinct parameters, and none of them is the status |
| EpayRequests.OwnRequestIsNoNotification | inc/adapters/payments/epay.py:170-263 | so an own request that spells the status nowhere never has the signed text of an accepted notification |
| EpayRequests.OwnTextHasStatusIff | inc/adapters/payments/epay.py:170-263 | the signed text of an own request has the status as a part exactly when the value of some field has it behind an ampersand |
| EpayRequests.ValueSpellsEntries | inc/adapters/payments/epay.py:70-75 | an entry whose value spells two further entries has the same signed text as the three entries, though the last is signed only in the latter |
| EpayRequests.ReturnAddressSpellsStatus | inc/adapters/payments/epay.py:170-182 | a payment whose return address ends in an ampersand and the status is a request whose signed text has that part |
| PaypalClient.PaypalPaymentProvider.Configure | inc/adapters/payments/paypal.py:82-110 | the configuration becomes what was read: id, secret and webhook id without the space around them, production exactly when the environment is the text "production"; a change drops the client; it fails exactly when one of the three is absent or blank; a consistent cache stays consistent |
| PaypalClient.PaypalPaymentProvider.RequireClient | inc/adapters/payments/paypal.py:314-344 | the client returned matches the stored configuration and is built at most once |
| PaypalClient.RunIsSound | inc/adapters/payments/paypal.py:73-110 | every event of any interleaving keeps cache and requests consistent |
| PaypalClient.EveryRequestUsesWhatItsCallRead | inc/adapters/payments/paypal.py:121-137 | in any interleaving of calls and settings changes a request in flight uses a client built from the complete settings that were stored when that very call's pending query read them: its id and secret are those texts, stripped, and it is a production client exactly when they said "production" |
| PaypalClient.ConfigIsRead | inc/adapters/payments/paypal.py:82-97 | a configuration is the one of some settings exactly when its texts are theirs without the space around them and it is production exactly when they say "production" |
| PaypalClient.RequestStartsIff | inc/adapters/payments/paypal.py:95-137 | a call makes a request exactly when id, secret and webhook id that it read are neither absent nor blank, it is no availability check and no check of its own refuses it; with the configuration already held its client is the held one |
| PaypalClient.UnconfiguredRequestStartsIff | inc/adapters/payments/paypal.py:76-81 | without a settings source a request starts exactly when the given configuration has what the call needs |
| PaypalClient.RunKeepsRequestsInOrder | inc/adapters/payments/paypal.py:212-263 | in every run a webhook makes at most two requests, only the second to an address of its own |
| PaypalClient.HeldClientIsKept | inc/adapters/payments/paypal.py:282-312 | the client and settings of a call stay the same over all its later awaits, and so does a webhook's second address |
| PaypalClient.SameSettingsReuseTheClient | inc/adapters/payments/paypal.py:322-344 | a call that reads the stored settings builds no client |
| PaypalClient.CacheFollowsDelivery | inc/adapters/payments/paypal.py:73-94 | after any run the stored configuration is the one delivered last, or the one from the start |
| PaypalClient.AddressFollowsDelivery | inc/adapters/payments/paypal.py:238-260 | from any consistent state configured as the webhook's client was, the second request's address belongs to the client's environment exactly when the settings delivered last name it |
| PaypalClient.RequestStartsInStep | inc/adapters/payments/paypal.py:212-238 | when a call takes its client the provider is configured as that client was |
| PaypalClient.WebhookAddressFollowsDelivery | inc/adapters/payments/paypal.py:238-260 | so for every run from the start: the second request's address belongs to the environment of the call's client exactly when the settings delivered last since its first request name that environment |
| PaypalClient.WebhookAddressMayMove | inc/adapters/payments/paypal.py:238-260 | a run in which a sandbox client's webhook goes to the production address |
| Manifest.CountingFindsRepeats | inc/api/container.py:624 | comparing the sizes of a list and its set finds exactly the repetitions |
| Manifest.ApplicationContainer.CollectSpecs | inc/api/container.py:582-609 | the two nested loops pass exactly when every name is known and every requirement enabled, and fill the table with the listed names |
| Manifest.ApplicationContainer.CheckGroup | inc/api/container.py:618-634 | a list passes exactly when nothing is repeated and nothing unknown |
| Manifest.ApplicationContainer.CheckRouters | inc/api/container.py:635-650 | routers pass exactly when their capabilities and features are listed; the table lookup never misses |
| Manifest.ApplicationContainer.ValidateManifest | inc/api/container.py:578-655 | a manifest is accepted exactly when it is acceptable; an error names a fault it really has, and all earlier checks hold |
| Manifest.AcceptableMeans | inc/api/container.py:578-655 | acceptable means: no list repeats a name, every name is registered, every requirement of a capability, feature or router is listed, and cleanup and cron have what they need |
| AdapterBindings.ValidateAdapterBindings | inc/api/container.py:657-703 | bindings pass exactly when they are valid, an error names a fault they really have, and the second duplicate test is never true |
| AdapterBindings.ResolveAdapters | inc/adapters/registry.py:398-506 | succeeds exactly when each binding can be resolved after those before it; then the resolved ports are the bound ones, each with its adapters in manifest order or the last single one; an error names a port or adapter with that fault |
| AdapterBindings.BoundToMembers | inc/adapters/registry.py:411-412 | the adapters of a port are those of its bindings |
| AdapterBindings.ValidBindingsAreResolvable | inc/adapters/registry.py:413-418 | validated bindings reach neither the duplicate-port nor the unknown-adapter error |
| AdapterBindings.ResolvedAgainIsTuple | inc/adapters/registry.py:476-485 | a port met a second time holds the tuple of the adapters bound to it so far |
| AdapterBindings.ValidateRequiredPorts | inc/api/container.py:1697-1704 | passes exactly when every port owned by an enabled capability is resolved |
| AdapterBindings.BootPorts | inc/api/container.py:657-703 | the three checks together: when boot succeeds, and that the resolved ports are then exactly those whose owner is enabled |
| AdapterBindings.ShippedTablesFit | inc/adapters/registry.py:37-75 | the tables that ship meet what these theorems ask of tables |
| ProviderCatalogs.ProviderCatalog.Register | inc/adapters/registry.py:115-128 | a frozen catalog and a repeated key are refused and change nothing; otherwise the provider is added |
| ProviderCatalogs.RegistrationsAreSorted | inc/adapters/registry.py:133-139 | registrations list every entry once in key order, whatever order they were made in |
| ProviderCatalogs.BuildCatalog | inc/adapters/registry.py:534-560 | one port's catalog is frozen and holds its enabled adapters, or the first repeated key is reported |
| ProviderCatalogs.ResolveProviderCatalogs | inc/adapters/registry.py:509-561 | there is a frozen catalog with the right entries for exactly the enabled ports, unless some port's keys collide; then the first repeated key of the first such port is reported |
| ProviderCatalogs.CatalogKeysAreEnabledAdapters | inc/adapters/registry.py:535-558 | a built catalog has exactly the keys of the adapters whose requirements are enabled |
| ProviderCatalogs.OfferedMeans | inc/adapters/registry.py:535-538 | an adapter is offered exactly when the port lists it and everything it requires is enabled |
| ProviderCatalogs.SuffixMeans | inc/api/container.py:994-996 | the suffix of an adapter key is what follows its first dot, or all of it without a dot |
| ProviderCatalogs.FoundIsOwnIff | inc/api/container.py:994-996 | the lookup by name or suffix finds the adapter's own provider, or nothing for one not offered, exactly when the adapter is unambiguous |
| ProviderCatalogs.SearchFindsFirstBound | inc/api/container.py:989-1000 | with unambiguous bindings the search finds the provider of the first binding whose adapter is offered |
| ProviderCatalogs.SearchFindsNothing | inc/api/container.py:989-1000 | and nothing when no adapter bound to the port is offered |
| ProviderCatalogs.FittingKeysAreUnambiguous | inc/api/container.py:994-996 | keys that are the adapter's name or suffix, and nobody else's, make every known adapter unambiguous whatever is enabled |
| ProviderCatalogs.ShippedKeysFit | inc/adapters/registry.py:54-87 | the shipped keys are such keys |
| ProviderCatalogs.SuffixMayNameAnother | inc/api/container.py:994-996 | when an adapter's suffix is another's key and its own key is neither name nor suffix, a binding to it finds the other provider |
| ProviderCatalogs.EpayCouldNamePaypal | inc/api/container.py:994-996 | such keys exist |
| ProviderCatalogs.DefaultIsInCatalog | inc/api/container.py:989-1001 | the composed default is a key of its own catalog; with unambiguous bindings it is that of the first binding whose adapter is offered |
| ProviderCatalogs.LeastKey | inc/adapters/registry.py:196 | the first of the sorted keys is a key and the least one |
| ProviderCatalogs.SelectionNeverSubstitutes | inc/adapters/registry.py:177-198 | a blank or absent setting selects the keyed provider of the first offered binding, else the least key; any other setting that key or an error, never another provider |
| ProviderCatalogs.UnsetSelectsFirstBoundIff | inc/adapters/registry.py:194-198 | an unset setting selects the first offered binding's provider exactly when it has a key attribute that is not empty or is registered under the least key |
| ProviderCatalogs.ShippedProvidersFit | inc/adapters/registry.py:82-87 | the shipped provider table has distinct ports and meets what the catalog loop relies on |
| AdminSession.TokenOnlyInOpenWindow | admin/src/auth/session.ts:36-113 | under every interleaving a token in memory is that of an open upgrade window, one 401 redirect runs at a time, and when nothing is suspended there is no token |
| AdminSession.UndisturbedRunsAreSettled | admin/src/auth/session.ts:36-113 | operations may overlap; while no step takes the administrator away from another's last wait, authenticated means somebody |
| AdminSession.UndercuttingBreaks | admin/src/auth/session.ts:62-64 | after any step that does, some continuation is authenticated with nobody |
| AdminSession.OverlapBreaks | admin/src/auth/session.ts:93-96 | such a run exists from the start: a sign-out ending during a login |
| AdminSession.OneAtATimeIsUndisturbed | admin/src/auth/session.ts:36-127 | operations that do not overlap never undercut each other |
| AdminSession.NonOverlappingOperationsEndWell | admin/src/auth/session.ts:36-127 | without overlap every operation leaves no token, and authenticated only with an administrator |
| AdminSession.ReauthenticationIsSingle | admin/src/auth/unauthorized.ts:4-27 | at most one 401 redirect is under way, exactly while the module remembers it |
| AdminSession.InitializeAlone | admin/src/auth/session.ts:36-78 | without interference the stretches of an initialization end with the cookie's or the exchanged administrator, anonymous, or failed and to be tried again, as its replies decide |
| AdminSession.CompleteAlone | admin/src/auth/session.ts:84-101 | without interference a completion ends with the exchanged administrator if all three awaits deliver, else cleared |
| AdminSession.SignOutAlone | admin/src/auth/session.ts:115-127 | without interference a sign-out ends cleared |
| AdminSession.UnauthorizedAlone | admin/src/auth/unauthorized.ts:6-27 | without interference a 401 that is not ignored ends expired, without token or administrator, and with its redirect forgotten |
| AdminSession.Session.InitializeSession | admin/src/auth/session.ts:36-78 | the function as written equals the run of its stretches; authenticated exactly with a cookie session or a completed upgrade of a token that is not empty, and with that one's administrator; anonymous exactly without a live user; no token, and a held promise exactly unless it failed |
| AdminSession.Session.CompleteAuthentication | admin/src/auth/session.ts:84-101 | the function as written equals the run of its stretches; it raises exactly when an await does not deliver, and then nothing is left |
| AdminSession.Session.SignOut | admin/src/auth/session.ts:115-127 | the function as written equals the run of its stretches and leaves nothing |
| AdminSession.Session.HandleUnauthorized | admin/src/auth/unauthorized.ts:6-27 | the function as written equals the run of its stretches, or changes nothing before login without a token and while a redirect runs |
| RouterGuard.AuthenticatedHome | admin/src/router/index.ts:18-24 | the loop returns the first home the capabilities open |
| RouterGuard.FirstOpenIsFirst | admin/src/router/index.ts:18-24 | no earlier home may be entered, and access denied is the answer only when none may |
| RouterGuard.ShippedHomes | admin/src/router/index.ts:18-24 | among the registered routes the home is the k-th of the twelve pages exactly when the capability it demands is held and none that an earlier page demands is |
| RouterGuard.BeforeEach | admin/src/router/index.ts:26-52 | lets a visit through exactly when the route's demands are met and it is not a login page shown to somebody authenticated |
| RouterGuard.SentSomewhere | admin/src/router/index.ts:40-50 | every redirect names a registered route, so a navigation can always go on |
| RouterGuard.SettledNavigationRedirectsOnce | admin/src/router/index.ts:26-55 | with a settled session a navigation from any route is redirected at most once and ends where the demands are met |
| RouterGuard.NavigationRedirectsTwice | admin/src/router/index.ts:34-55 | from any session, whatever each initialization delivers, it is redirected at most twice |
| RouterGuard.ShippedRoutesFit | admin/src/router/app-routes.ts:4-231 | the registered routes meet what these theorems ask of a table |
| MenuVisibility.FilterMenu | admin/src/navigation/visibility.ts:8-26 | the loop with its early exits returns the specified menu |
| MenuVisibility.SurvivingLinks | admin/src/navigation/visibility.ts:8-26 | the links left, in order, are exactly those that pass together with every group above them |
| MenuVisibility.NoGroupIsLeftEmpty | admin/src/navigation/visibility.ts:16-19 | no group of any depth is left without items |
| MenuVisibility.PruningTwice | admin/src/navigation/visibility.ts:8-26 | filtering by one context and then another is filtering once by what both allow |
| MenuVisibility.LesserContextCutsFromGreater | admin/src/navigation/visibility.ts:8-26 | a lesser context's menu can be cut out of a greater one's; filtering is idempotent |
| MenuVisibility.SurvivingLinksGrow | admin/src/navigation/visibility.ts:8-26 | more capabilities or routes never hide a link |
| MenuVisibility.LinkIsVisibleIff | admin/src/navigation/visibility.ts:8-26 | going down the filtered menu leads to a link exactly when it does in the whole menu and every entry on the way has no capability or a held one, and no route or a registered one |
| ApiPath.MakePath | admin/src/api/client.ts:26-33 | the loop of replacements, and the error exactly when a placeholder is left |
| ApiPath.EncodeIsInert | admin/src/api/client.ts:29 | an encoded value has no brace, no slash and no replacement pattern |
| PercentCoding.EncodedReadsBack | admin/src/api/client.ts:29 | a percent-decoder that reads `%XY` as an octet and octets as UTF-8 gives back every text that was encoded |
| PercentCoding.EncodeIsInjective | admin/src/api/client.ts:29 | different texts are encoded differently |
| PercentCoding.EncodeKeepsExactly | admin/src/api/client.ts:29 | exactly the letters, digits and `-_.!~*'()` are left as they are |
| PercentCoding.PlainTextIsKept | admin/src/api/client.ts:29 | a text of such characters is encoded as itself |
| ApiPath.ReplaceFillsFirst | admin/src/api/client.ts:29 | one replacement fills the first placeholder of that name and touches nothing else |
| ApiPath.PlaceholderIffHole | admin/src/api/client.ts:31 | the regular expression finds something exactly when a placeholder is left |
| ApiPath.ReplacingIsSubstituting | admin/src/api/client.ts:26-33 | the path is made exactly when every placeholder has a parameter and none is repeated, and then it is the simultaneous substitution |
| ApiPath.OrderOfParametersIsIrrelevant | admin/src/api/client.ts:28-30 | the order of the parameters changes neither the path nor the error |
| ApiPath.SlashesAreKept | admin/src/api/client.ts:26-33 | a simultaneous substitution has the template's slashes, less those inside placeholder names |
| ApiPath.PathKeepsSlashes | admin/src/api/client.ts:26-33 | so has every path that is made |
| PercentCoding.OtherTextOtherPath | admin/src/api/client.ts:26-33 | another text for one parameter that the template names makes another path |
| PercentCoding.PathTellsTexts | admin/src/api/client.ts:26-33 | when a slash or the end follows every placeholder, the path tells every text that was put into it |

## Left out

- OpenApiProjector.ProjectSchema: `paths`, `components` and `tags` have the shapes of OpenAPI documents; malformed ones, on which the code raises `AttributeError` or `TypeError`, and tag names that are not texts are not modelled, and neither are deep copies, the order of dictionary keys and the sorting of components.
- OpenApiLaws.ProjectionIsClosed: references inside security schemes, in other copied top-level keys and in discriminator mappings are not followed by the code and not claimed.
- Base64Url.B64uRoundTrip: numbers are not negative; for those `to_bytes` raises `OverflowError`.
- SigningKeyStore.FileSigningKeyStore.Generate: calls of one process run one after the other; concurrent calls, several processes, permission bits and loss of power after a rename are not modelled, PEM texts are read by a function that is a parameter, and the returned JWK is modelled in its numbers only.
- Money.EpayRoundTrip: amounts are read from ASCII numerals of finite decimals; `NaN`, infinities, other digits and the context's exponent limits are not modelled.
- Money.PaypalRoundTrip: the currency is `CNY`; the check for another one is not modelled.
- LongDecimals.AgreeUnlessRoundedTwice: agreement means accepting the same decimals with the same amounts; which error is raised differs by design.
- EpayWebhook.SignedNotificationIsAccepted: MD5 is any function with lower-case output; letters beyond ASCII are not changed by `lower` and `upper`.
- EpayRequests.ReturnAddressSpellsStatus: it is a statement about the signed text of a request; whether and how a notification with a given text could be put together is not modelled.
- EpayWebhook.AcceptedEventIsSigned: nothing is said about forging a digest.
- PaypalClient.EveryRequestUsesWhatItsCallRead: no client is given to the constructor, settings are texts, and the requests' contents and answers are opaque; the address of `verify_webhook`'s second request is the subject of `WebhookAddressFollowsDelivery`.
- Manifest.ApplicationContainer.ValidateManifest: importing the definition modules and the specs beyond `requires` are not modelled.
- AdapterBindings.ResolveAdapters: adapter objects are represented by the names of their adapters.
- ProviderCatalogs.SelectionNeverSubstitutes: reading the setting is one of four outcomes; the settings service itself is not part of the model.
- AdminSession.TokenOnlyInOpenWindow: `refreshMe`, the query of the login redirect and the browser's storage are not modelled; each stretch between awaits runs without interruption.
- RouterGuard.SettledNavigationRedirectsOnce: the session does not change between the redirects of one navigation except by the guard's own initialization; the development bypass and the page title are not modelled.
- MenuVisibility.FilterMenu: fields the filter only copies are one caption.
- ApiPath.MakePath: parameters come in the order of the object's entries as texts; lone surrogates, on which `encodeURIComponent` throws, are not modelled.
- The capability and feature packages, the workflow runner, the points ledger and the outbox: separate code whose properties would need its own model.
- HTTP clients of the e-mail, storage, archive and payment services: their behaviour is that of remote systems.
- Starting and stopping the container, application assembly, error responses, pages, translations and styles: little beyond flags and layout.
- JSON text, hashing and the files of the OpenAPI snapshots: the schema is modelled as a tree only.
