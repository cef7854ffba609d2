# Certio in Dafny

Certio is a certificate authority server. This project models the parts of it whose
correctness spans several functions, tables or requests, and proves what those parts promise.

Each database table is a map from row identifier to row, held in fields of a class whose
methods write to it as the service and the repositories do. Next to each class stands a
specification: what every operation does to the tables as a function, a history of the
operations so far, and lemmas about every history. The methods are proved to make exactly the
steps of the specification, so what holds of every history holds of every run of the methods.

| module | what it holds |
|---|---|
| `Runs` | histories of steps, and when one goes on from another |
| `Text` | trimming, lower-casing, prefixes, splitting, as the Go library does them on ASCII text |
| `NameConstraints` | which DNS names a CA may certify (section 4.2.1.10 of RFC 5280) |
| `San` | parsing, printing and regrouping Subject Alternative Names |
| `Signing` | which DNS names a signed CSR carries, and the check that ties a CSR to an ACME order |
| `AcmeNames` | which names an ACME client may order, check by check and as a whole |
| `AcmeProtocol` | the ACME tables, every write to them as a step, and the invariant across orders, authorizations and challenges (section 7.1.6 of RFC 8555) |
| `AcmeValidation` | what a request to validate a challenge does to the tables, whatever the network answers and whichever store calls fail |
| `AcmeServer` | the ACME request handlers over those tables, with every store call allowed to fail |
| `AcmeProgress` | whether an order can still become ready, whatever the network answers and whichever store calls fail |
| `Nonces` | anti-replay nonces under any interleaving (section 6.5 of RFC 8555) |
| `Serial` | serial numbers as hexadecimal text |
| `Labels` | the label filter that searches encoded JSON text with LIKE |
| `PkiTables` | authorities, certificates and revocations, and every write to them as a step |
| `Forest` | the forest of certificate authorities |
| `Revocations` | the revocation lifecycle, and the CRL and OCSP as two views of one table (RFC 5280, RFC 6960) |
| `Statuses` | the expiry scan against full recomputation |
| `Renewals` | automatic renewal and its pace |
| `RenewalBudget` | a bound on renewals for lineages that are edited, renewed for other lives or left uncleared |
| `PkiEffects` | what a request leaves in the certificate tables, told row by row |
| `PkiService` | the service methods over the certificate tables |
| `Sessions` | token rotation, the denylist and its pruning |
| `TwoFactor` | TOTP steps (RFC 6238) and recovery codes |
| `OAuthStates` | single-use sign-on states with garbage collection |
| `Deliveries` | the notification retry queue |

## Conventions

Time is whole seconds and days have 24 hours. Identifiers are a counter that stands for random
UUIDs. A request is atomic, except that any store call in it may fail: a parameter `up` says
which calls succeed, and a request that dies half way is one whose later calls all fail.
A step of a history is one write or one transaction (a renewal is one step that says whether its
second write, which clears the old row, succeeded), so what holds of every history also holds
when a request stops between two writes. Signature checks, HMAC, dialling out and parsing of
addresses are uninterpreted functions or arbitrary answers.

Where the code and its comments differ, the code is modelled:

- A CSR is checked to ask for a non-empty subset of the identifiers, not for exactly them
  (`internal/service/acme.go:591-624`). A common name without a dot is skipped there and still
  becomes a DNS name at `internal/pki/sign.go:112`; `SignedNamesAuthorisedExactly` gives the
  condition on the common name for which no unproved name reaches the certificate.
- A store failure inside a new-order request leaves an order with fewer authorizations than
  identifiers, and such an order can become valid (`internal/service/acme.go:263-279`):
  `InterruptedOrderIssuesUnproved`, and under the server's own rules `InterruptedAtServer`. Every
  other order is complete for as long as it is stored.
- Triggering a settled challenge again does nothing (`internal/service/acme.go:400-402`), so an order
  can stay pending for good when a store call fails after its challenge was stored as valid:
  `LostGrantExactly` and `LostReadyExactly` say when, and `ReadyReachableExactly` which pending orders
  can become ready at all.
- The entry made at a sign-out is meant to outlive every token of the session
  (`internal/service/auth.go:747-752`). It does exactly when the access lifetime is at most one
  second longer than the refresh lifetime, or the refresh lifetime is at most one second:
  `SignOutWorksExactly`.
- Denying all sessions of a user denies later ones too, and a repeated call does not extend
  the first: `RevokeAllDeniesUntilTheFirstLapses`.
- The label filter is documented as exact on key and value. `ExactQueries` says for which queries
  it is, over all label maps none of whose keys ends in a quote and the key: those without
  wildcards, but for a colon and a comma. `FilterExactly` says what else a query without wildcards
  matches in any label map; `QuotedKeyMatchesWrongly` and `PercentMatchesAnyValue` are examples.
- A certificate is meant to have a revocation row exactly while it is held or revoked
  (`internal/service/certificate.go:467-508`, `internal/service/certificate.go:757-789`). It has,
  exactly when the last revocation or lifting that wrote anything for it went through:
  `OneRowExactlyWhenWithdrawn`. What one that stops half way leaves is said by
  `RevocationKeepsExactly` and `LiftingKeepsExactly`, and whether it can be put right by
  `HalfRevocationSticks`, `HalfReplacedHoldLosesItsRow` and `UnsavedRevocationCanBeLifted`.
- Pruning nonces shows exactly when a value is issued anew after its row was pruned unspent:
  `PruningIsInvisibleExactly`.
- A one-day certificate stays due the moment it is renewed: `NotDueAtOnceExactly`.
- Lowering the warning days leaves statuses the scan no longer reaches: `LoweredWarningIsMissed`.
- Revocation rows also leave with their certificate or their CA
  (`internal/store/repo_pki.go:194`, `internal/store/repo_pki.go:442`).

## Model

| member | source | states |
|---|---|---|
| `NameConstraints.WithinIsUnder` | internal/pki/constraints.go:184-193 | the text comparison of a name with a constraint holds exactly when the constraint's label sequence is a suffix of the name's |
| `NameConstraints.PermitsByLabels` | internal/pki/constraints.go:79-101 | a name is permitted exactly when it is not blank, under no exclusion, and under some permission if there are any |
| `NameConstraints.SameVerdictsExactly` | internal/pki/constraints.go:79-93 | two spellings get the same verdict from every CA exactly when their trimmed, lower-cased, un-dotted, un-wildcarded forms agree |
| `NameConstraints.WildcardVerdict` | internal/pki/constraints.go:79-93 | a wildcard gets the verdict of its base name from every CA, exactly for base names that are not blank, do not start with a space and carry no wildcard of their own |
| `NameConstraints.AddingExclusion` | internal/pki/constraints.go:79-101 | adding an exclusion refuses exactly the names under it and admits none |
| `NameConstraints.SubdomainRefusedOnlyByExclusion` | internal/pki/constraints.go:79-101 | a name below a permitted one is refused exactly when an exclusion covers it |
| `NameConstraints.NormalizeKeepsVerdictsExactly` | internal/pki/constraints.go:32-43 | normalising the lists changes no verdict, exactly unless the permitted list held only blank entries |
| `NameConstraints.CanonicalExactly` | internal/pki/constraints.go:79-93 | the form a name is compared in: its text in lower case without the white space around it, a last dot and a leading `*.`, and nothing else taken off |
| `NameConstraints.CanonicalConstraintExactly` | internal/pki/constraints.go:184-193 | and the form of a constraint entry, likewise without a leading dot |
| `Text.TrimSpaceExactly` | internal/pki/san.go:36 | trimming takes white space off both ends and nothing else, until there is none |
| `Text.LowerExactly` | internal/pki/san.go:63 | lower-casing moves the letters of English by the distance between the cases, and nothing else |
| `Text.SplitExactly` | internal/pki/san.go:136 | splitting gives exactly the parts that join to the text and do not hold the separator |
| `San.PrintedParsesBackExactly` | internal/pki/san.go:34-74 | a printed entry parses back to itself exactly when it is valid and trimmed |
| `San.RoundTrip` | internal/pki/san.go:34-53 | everything the parser returns survives being printed and parsed again |
| `San.ParsedExactly` | internal/pki/san.go:34-128 | which entry is read from a text: the kind its label names in any case, or without a label an address, a URI where there is `://`, a mail address where there is an at sign, and a DNS name otherwise; and only if it meets the rule of its kind |
| `San.ValidDnsNameExactly` | internal/pki/san.go:132-178 | a DNS name is valid exactly when it is at most 253 characters of labels with dots between them, each of 1 to 63 letters, digits, dashes and underscores with no dash at either end; a star may stand for the first of three or more |
| `San.CollectedExactly` | internal/pki/san.go:278-293 | the set read back from four lists holds, in their order, each list's names without those seen before in it |
| `San.AddKeepsSet` | internal/pki/san.go:193-200 | adding keeps the set free of entries equal up to case, and adds nothing but the entry |
| `San.FanOut` | internal/pki/san.go:250-274 | the loop that splits a set into four typed lists gives the lists of each kind in order, or fails when an address does not parse |
| `San.Collect` | internal/pki/san.go:278-293 | the loops that gather four typed lists into a set give that set |
| `San.RegroupedIsGrouped` | internal/pki/san.go:250-293 | with canonical texts, splitting and gathering is a stable sort by kind |
| `San.GroupedIsPermutation` | internal/pki/san.go:250-293 | the sort by kind keeps every entry as often as it was there |
| `San.RegroupedShape` | internal/pki/san.go:250-293 | what comes back from a certificate is canonical, duplicate-free and grouped |
| `San.RegroupingTwice` | internal/pki/san.go:250-293 | regrouping what was regrouped changes nothing |
| `San.RegroupingLosesNothingExactly` | internal/pki/san.go:250-293 | a duplicate-free set keeps exactly its entries through a certificate exactly when its address and URI texts are canonical |
| `Signing.CheckCsrAgainstOrder` | internal/service/acme.go:594-624 | the check on sets of lower-cased names accepts exactly the CSRs whose names all equal an identifier ignoring case, at least one, and no other kind of name |
| `Signing.MatchesAsSets` | internal/service/acme.go:594-624 | the check on sets and the statement name by name are the same |
| `Signing.SignedNamesAuthorisedExactly` | internal/pki/sign.go:66-127 | for a matching CSR that can be signed, every DNS name on the certificate equals an identifier ignoring case exactly when the common name is absent, dotted, not a valid DNS name, or itself an identifier |
| `Signing.SignedExactly` | internal/pki/sign.go:66-127 | a CSR can be signed exactly when every name is valid for its kind, something is named, and the trimmed common name, or the first name without one, is not empty and at most 64 long; the certificate then carries the DNS names of the CSR in order without repetitions, and the common name if it is a valid DNS name not among them |
| `AcmeProtocol.StepKeepsInv` | internal/service/acme.go:398-504 | every write the server makes keeps the invariant across orders, authorizations, challenges and certificates |
| `AcmeProtocol.LegalRunInv` | internal/service/acme.go:217-589 | the invariant holds after every run, so also when a request stops between two writes: ready and valid orders have only valid authorizations, valid authorizations a valid challenge, invalid ones only invalid challenges |
| `AcmeProtocol.OrdersProvedKept` | internal/service/acme.go:486-504 | no write leaves a ready or valid order with an authorization that is not valid |
| `AcmeProtocol.AuthzsProvedKept` | internal/service/acme.go:459-475 | no write leaves a valid authorization without a valid challenge or an invalid one with a challenge that may still pass |
| `AcmeProtocol.CertificatesCheckedKept` | internal/service/acme.go:535-586 | a valid order's certificate was requested by a CSR that was checked against that order and could be signed |
| `AcmeProtocol.FailedAuthzOrderIsOpen` | internal/service/acme.go:475-479 | the unconditional write that fails an order never meets a ready or valid one |
| `AcmeProtocol.OrderMovesLegally` | internal/service/acme.go:459-589 | one write moves an order only pending to ready or invalid, or ready to valid or invalid |
| `AcmeProtocol.AuthzMovesLegally` | internal/service/acme.go:435-471 | one write moves an authorization only from pending to valid or invalid |
| `AcmeProtocol.OrderFollowsProtocol` | internal/service/acme.go:383-589 | between any two moments of any run an order moves only along RFC 8555 section 7.1.6, keeps its account and identifiers, and once valid keeps its certificate |
| `AcmeProtocol.ProvedExactlyWithAuthz` | internal/service/acme.go:486-504 | in a ready or valid order an identifier has a valid authorization of the account with a passed challenge (over DNS for a wildcard) exactly when it has an authorization |
| `AcmeProtocol.CompleteForever` | internal/service/acme.go:217-281 | an order whose creation finished keeps an authorization for each identifier for as long as it is stored |
| `AcmeProtocol.InterruptedOrderIssuesUnproved` | internal/service/acme.go:263-279 | an order whose creation stopped after its first authorization can become valid with a second name never proved |
| `AcmeServer.InterruptedAtServer` | internal/service/acme.go:217-589 | so it can under the server's own rules, for any two names the server accepts: the certificate carries both names and only the first was proved |
| `AcmeServer.InterruptedWithShortNames` | internal/service/acme.go:217-589 | and there are such names for every server without name constraints |
| `AcmeProtocol.PruneExactly` | internal/store/repo_acme.go:226-253 | pruning removes exactly the expired orders, orphans nothing, and leaves every row of a surviving order as it was |
| `AcmeProtocol.PrunedCount` | internal/store/repo_acme.go:247-252 | the rows removed are as many as the expired orders |
| `AcmeServer.Server.NewOrder` | internal/service/acme.go:217-281 | refuses too many names, or the first that may not be ordered for what is wrong with it, and changes nothing; otherwise, unless a name cannot be proved or a store call fails, stores a pending order for the cleaned names that lives a week, with one authorization a name and their challenges; whatever fails, only legal steps were made |
| `AcmeServer.Server.CheckNames` | internal/service/acme.go:228-239 | the loop gives the trimmed, lower-cased names exactly when each may be ordered, and otherwise the problem of the first that may not |
| `AcmeNames.MayOrderExactly` | internal/service/acme.go:325-370 | the checks accept a name exactly when it is not blank, is no address once `*.` is cut, has a star at most once and in front, lies label by label under an entry of the credential's list if it has one, the CA can be read, and the CA's constraints permit the name label by label; and which problem each failure gives |
| `AcmeNames.FirstProblemExactly` | internal/service/acme.go:228-239 | no problem is found exactly when every requested name may be ordered, and the one found is that of the first name that may not |
| `AcmeServer.Server.CreateAuthorizations` | internal/service/acme.go:263-279 | the loop over the names inserts exactly one pending authorization for each, with its challenges, and fails only when a write does or no challenge type fits |
| `AcmeServer.Server.CreateChallenges` | internal/service/acme.go:288-322 | inserts one pending challenge for each enabled type, none for HTTP on a wildcard, and fails when there is none |
| `AcmeServer.OpenedIsComplete` | internal/service/acme.go:217-281 | a new order that succeeds has an authorization for each identifier, as many new ones as names, all pending, its own and as long-lived as the order, with challenges that are all new, pending and theirs; every other order, authorization and challenge, and every certificate, is as it was |
| `AcmeServer.OpenedOffersExactly` | internal/service/acme.go:288-322 | each of its authorizations has exactly one challenge over DNS if that is enabled, one over HTTP if that is enabled and the name is no wildcard, and no other |
| `AcmeServer.Server.ValidateChallenge` | internal/service/acme.go:383-455 | answers a foreign, settled, spent or unknown challenge without a change; otherwise counts the attempt, settles the challenge as the network answers, makes its authorization valid for thirty days or, with the last failure, invalid, and its order ready with the last grant or invalid with the last failure; for each failing store call the tables and the answer are given |
| `AcmeServer.Server.RecordPass` | internal/service/acme.go:435-454 | a passed challenge becomes valid, its authorization valid for thirty days, and the order ready if it was pending and this was its last authorization; the tables are given for each of these writes that fails |
| `AcmeServer.Server.RecordFailure` | internal/service/acme.go:419-433 | a failed challenge becomes invalid, and its authorization and order with it exactly when no other challenge is left; the tables are given for each of these writes that fails |
| `AcmeServer.Server.FailAuthorizationIfExhausted` | internal/service/acme.go:459-483 | fails the authorization and then its order exactly when every challenge is invalid and the writes succeed, without asking the order's status |
| `AcmeServer.Server.AllChallengesInvalid` | internal/service/acme.go:464-468 | the loop over an authorization's challenges finds whether all are invalid |
| `AcmeServer.Server.RefreshOrderStatus` | internal/service/acme.go:486-504 | makes an order ready exactly when it is pending, all its authorizations are valid and the store calls succeed |
| `AcmeServer.Server.AllAuthorizationsValid` | internal/service/acme.go:495-499 | the loop over an order's authorizations finds whether all are valid |
| `AcmeValidation.ProcessingIsOverwritten` | internal/service/acme.go:412-416 | storing the row as processing first makes no difference to how a validation ends |
| `AcmeValidation.ValidatedWhole` | internal/service/acme.go:404-455 | when no store call fails, a validation writes the challenge, its authorization and its order as the network's answer says |
| `AcmeValidation.ValidatedExactly` | internal/service/acme.go:383-504 | whichever store calls fail, each table is told on its own: an attempt is made exactly of the account's own challenge, unsettled and tried fewer than ten times; the last failed challenge of an authorization fails it and its order; the last granted authorization makes a pending order ready |
| `AcmeProgress.ReadyReachableExactly` | internal/service/acme.go:383-504 | a pending order can be made ready by an account's validation requests, for some network answers and some failing store calls, if and only if it has a challenge that may still be triggered, and one for each authorization that is not valid |
| `AcmeProgress.EachPassedIsReady` | internal/service/acme.go:486-504 | when such a challenge of each authorization not yet valid passes, in whatever order, and no store call fails, the order ends ready |
| `AcmeProgress.OpenedCanBecomeReady` | internal/service/acme.go:217-504 | an order that was opened can become ready |
| `AcmeProgress.LostGrantExactly` | internal/service/acme.go:443-450 | when the challenge is stored as valid and the write of its authorization fails, the order stays pending and can still become ready exactly when that authorization has another challenge to trigger |
| `AcmeProgress.LostReadyExactly` | internal/service/acme.go:486-504 | when the last authorization is written and the order is not, the order stays pending with all authorizations valid and can still become ready exactly when some other challenge of it may be triggered |
| `AcmeServer.Server.Finalize` | internal/service/acme.go:507-589 | only a ready order of the account with a readable CSR is acted on: one that asks for some of the order's names and nothing else, and can be signed, ends in a valid order with the stored certificate and its names; any other makes the order invalid, and a CA that cannot be read leaves it ready; the tables and the answer are given for every signer and every failing store call |
| `AcmeServer.Server.SignCsr` | internal/service/certificate.go:135-204 | stores a certificate exactly when the request meets the rules of signing, the signer signs and the write succeeds, and says how it went |
| `AcmeServer.MatchesExactly` | internal/service/acme.go:594-624 | the check of a CSR against an order, from the CSR's own fields |
| `AcmeServer.EndToEnd` | internal/service/acme.go:507-624 | in every reachable state, each DNS name on the certificate of a valid, completely created order equals an identifier proved for its account, exactly when the CSR's common name is covered |
| `AcmeServer.EndToEndSinceOpening` | internal/service/acme.go:217-624 | the same at every moment after the new-order request succeeded, for the account and the names of that request |
| `AcmeServer.Server.PruneOrders` | internal/store/repo_acme.go:226-253 | the nested deletes end in exactly the pruned tables and the number of expired orders, or change nothing when a statement fails |
| `AcmeServer.Server.DropOrderRows` | internal/store/repo_acme.go:233-246 | the inner loop deletes exactly an order's authorizations and the challenges of those |
| `Nonces.NonceTable.IssueNonce` | internal/store/repo_acme.go:198-202 | inserts the value with its expiry, or does nothing when it is stored already |
| `Nonces.NonceTable.SpendNonce` | internal/store/repo_acme.go:209-216 | succeeds exactly for a stored, unexpired value, and then deletes it and nothing else |
| `Nonces.NonceTable.PruneNonces` | internal/store/repo_acme.go:219-222 | deletes exactly the rows past their expiry and counts them |
| `Nonces.SpendsNeverExceedInsertions` | internal/store/repo_acme.go:198-216 | in any interleaving, successful spends of a value plus its stored row never exceed its insertions |
| `Nonces.SpentWithinLifetime` | internal/store/repo_acme.go:198-216 | a spend succeeds only for a value issued less than an hour before |
| `Nonces.SpendableExactly` | internal/store/repo_acme.go:198-222 | in any interleaving with a clock that never goes back, a spend succeeds exactly for a value inserted less than an hour before that nobody has tried to spend since |
| `Nonces.FreshSpentOnce` | internal/service/acme.go:43-71 | a value issued once is spent at most once, ever |
| `Nonces.PruningIsInvisible` | internal/store/repo_acme.go:198-222 | with fresh values and a clock that never goes back, pruning changes the answer of no later spend |
| `Nonces.PruningIsInvisibleExactly` | internal/store/repo_acme.go:198-222 | in any interleaving with a clock that never goes back, the pruned and the unpruned table answer every spend alike at every moment exactly when no value is issued anew whose expired row only the unpruned table still holds |
| `Nonces.ReissueShowsPruning` | internal/store/repo_acme.go:198-222 | a run in which a value issued again after it expired can be spent only where the old row was pruned |
| `Serial.NaturalSerialParses` | internal/pki/ca.go:274-292 | every natural number survives formatting and parsing |
| `Serial.RoundTripExactly` | internal/pki/ca.go:274-292 | an integer survives formatting and parsing exactly when it is natural or its digits are odd in number, so that no padding lands before the sign |
| `Serial.FormatInjective` | internal/pki/ca.go:274-283 | no other number is stored under the text of a natural one |
| `Serial.ParsedExactly` | internal/pki/ca.go:285-292 | a text is read as a number exactly when it is, after a sign if there is one, zeros and then the number's hexadecimal digits in either case |
| `Serial.StoredExactly` | internal/pki/ca.go:274-283 | the text stored for a natural number is the one that is read as it, in lower case, in whole bytes, and with no byte of zeros in front |
| `Labels.FilterExactly` | internal/store/repo_pki.go:334-340 | for a query without wildcards and any label map, the filter matches exactly a listed pair, a pair with that value whose key ends in a quote and the key, and a colon or comma pair that the punctuation of the encoding spells |
| `Labels.FilterIsLookup` | internal/store/repo_pki.go:334-340 | for a query without wildcards, in whatever order keys are written, the filter is map lookup exactly when the pair is there or the encoding is not misread; it is not misread when no key ends in a quote and the key, and the key is no lone colon or comma |
| `Labels.ExactQueries` | internal/store/repo_pki.go:334-340 | for any query at all: the filter finds exactly the listed pair in every label map without a key that ends in a quote and the key, if and only if the query has no wildcard and is not a colon and a comma; the same over keys in the encoder's order only and over keys in any order |
| `Labels.EncodingHoldsExactly` | internal/store/repo_pki.go:475-482 | for any query and any label map, with quotes and wildcards too: the encoded pair stands in the encoded map exactly for those three reasons |
| `Labels.ListedMatches` | internal/store/repo_pki.go:334-340 | a certificate that carries the pair is never missed, whatever characters are in it |
| `Labels.OccursExactly` | internal/store/repo_pki.go:475-482 | where the encoded pair occurs in the encoded map, whatever characters the texts have: only at the start of a key or value, at an escaped quote in a key, or at the punctuation |
| `Labels.EscapeInjective` | internal/store/models.go:691-697 | two texts are encoded alike only if they are the same |
| `Labels.LikeIsSubstring` | internal/store/repo_pki.go:338-339 | a pattern without wildcards between two percent signs is substring search |
| `Labels.QuotedKeyMatchesWrongly` | internal/store/repo_pki.go:334-340 | a map whose key ends in a quote and another key matches any search for that other key and its value |
| `Labels.PercentMatchesAnyValue` | internal/store/repo_pki.go:334-340 | a percent sign as the value matches every certificate that has the key, whatever the key |
| `Labels.SelectorAgreesExactly` | internal/store/models.go:616-636 | for a pair without wildcards and any label map, a deployment selector and the filter part exactly where one of two things happens alone: an empty value is sought of a missing label, or the encoding is misread for an absent pair |
| `Forest.EveryAuthorityIsRooted` | internal/store/repo_pki.go:154-170 | in every reachable state an authority's ancestors are stored, end in a root, do not come back to it, are at most sixteen, and none expires sooner than it |
| `Forest.ChainIsUnique` | internal/store/repo_pki.go:154-170 | the ancestor list is the only walk from an authority to a root |
| `Forest.DeepestNeverSigns` | internal/service/service.go:109-137 | an authority with sixteen ancestors has never issued an authority or a certificate |
| `Forest.CertificateExpiresFirst` | internal/pki/ca.go:297-329 | no certificate outlives its issuer or any authority above it |
| `Forest.NoneBelowPathLengthZero` | internal/pki/ca.go:297-329 | in every reachable state no authority has one of path length zero above it, at any remove |
| `Forest.RootedKept` | internal/store/repo_pki.go:174-206 | every write, deletions included, leaves each authority its parent and each certificate its issuer |
| `Forest.NestedKept` | internal/pki/ca.go:297-329 | every write leaves nothing outliving its issuer |
| `Forest.ShallowKept` | internal/service/service.go:109-137 | no write makes a chain longer than sixteen ancestors |
| `PkiService.Service.Chain` | internal/store/repo_pki.go:154-170 | the walk of at most sixteen levels returns the ancestor list, root last, and succeeds exactly with fifteen ancestors or fewer |
| `PkiService.Service.LoadCa` | internal/service/service.go:109-137 | an authority can be loaded for signing exactly when it is stored, its whole chain is walked and a needed passphrase was given |
| `PkiService.Service.CheckIssuerCanSign` | internal/pki/ca.go:297-329 | the checks in turn accept exactly an issuer within its dates that outlives what it signs and may sign an authority if that is asked |
| `PkiService.Service.CreateAuthority` | internal/service/authority.go:37-135 | stores a new authority exactly when its parent, if any, can be loaded and may sign it and the first write succeeds; when the second write, of the distribution URLs, fails, the request fails and the authority stays |
| `PkiService.Service.DeleteAuthority` | internal/store/repo_pki.go:174-206 | deletes an authority exactly when it issued nothing or, forced, its children issued nothing; forced, takes its children, certificates and revocation rows along, and nothing else |
| `Revocations.OneRowExactlyWhenWithdrawn` | internal/service/certificate.go:467-533 | in every run, whatever writes fail: a certificate has exactly one revocation row if it is revoked or held and none otherwise, held exactly when the reason is six, if and only if the last revocation or lifting that wrote anything for it went through |
| `Revocations.RevokedIsInOrder` | internal/service/certificate.go:489-508 | a certificate marked as revoked has its one row in every run, whatever writes fail |
| `Revocations.OtherStepsKeepLifecycle` | internal/service/certificate.go:467-809 | no write made for another certificate, authority, scan or list puts a certificate in or out of order |
| `Revocations.RevokedForGood` | internal/service/certificate.go:757-774 | once revoked, a certificate stays revoked with the same row for as long as it is stored, whatever writes fail |
| `Revocations.RevocationKeepsExactly` | internal/service/certificate.go:467-508 | on any reachable tables, a revocation that writes anything leaves its certificate in order exactly when the row was inserted and the certificate saved, or it was held and is held again; one that writes nothing leaves it as it was |
| `Revocations.LiftingKeepsExactly` | internal/service/certificate.go:757-789 | a lifting that writes anything leaves its certificate in order exactly when it was saved; one that writes nothing leaves it as it was |
| `Revocations.RequestsKeepOthers` | internal/service/certificate.go:467-789 | wherever a revocation or a lifting stops, every other certificate is in order exactly if it was |
| `Revocations.RowsOkKept` | internal/service/certificate.go:489-508 | every write leaves each revocation row with a stored certificate of its authority and serial |
| `Revocations.OneRowEachKept` | internal/store/models.go:252 | no write leaves two rows for one certificate |
| `Revocations.SerialsOkKept` | internal/store/models.go:162-173 | no write leaves two certificates of one authority with the same serial |
| `Revocations.CrlNumberCountsLists` | internal/service/authority.go:483-500 | an authority's CRL number is the number of lists it has published |
| `Revocations.ListAndResponderAgree` | internal/service/ocsp.go:29-83 | while a list is current, for every serial number: the responder says revoked at a time for a reason exactly when the list does, good exactly for the authority's other certificates, unknown exactly for the rest |
| `Revocations.AgreeUntilTheNextChange` | internal/service/authority.go:453-510 | the same from every published list until a row of the authority is next written, in every run |
| `Revocations.HalfRevocationSticks` | internal/service/certificate.go:498-508 | when the row of a certificate not held is stored and the certificate not saved, it stays usable with a row, and every later revocation or lifting, whatever its writes do, changes nothing: the unique index refuses the row |
| `Revocations.HalfReplacedHoldLosesItsRow` | internal/service/certificate.go:481-500 | when a hold's row is deleted and not replaced, it stays held without a row and every lifting changes nothing, while a valid revocation leaves what it would have left otherwise |
| `Revocations.HalfLiftedHoldLosesItsRow` | internal/service/certificate.go:775-789 | a lifting that stops between its writes leaves the same tables as a hold half replaced |
| `Revocations.UnsavedRevocationCanBeLifted` | internal/service/certificate.go:481-508 | when the final row of a held certificate is stored and the certificate not saved, lifting the hold deletes that row |
| `PkiService.Service.Revoke` | internal/service/certificate.go:467-533 | refuses a reason outside RFC 5280, an unknown or an already revoked certificate without a change; otherwise replaces any hold by the one new row and marks the certificate, and for any failing write says row by row what the tables are then, whether the request succeeds and whether the certificate is in order |
| `PkiService.Service.ReleaseHold` | internal/service/certificate.go:757-809 | releases only a held certificate with a row, drops the row and gives it the status of the clock, and for any failing write says row by row what the tables are then, whether the request succeeds and whether the certificate is in order |
| `PkiEffects.RevocationExactly` | internal/service/certificate.go:467-508 | wherever a revocation stops: the rows, the certificate and everything else in the tables, and the reasons, statuses and writes for which it succeeds |
| `PkiEffects.LiftingExactly` | internal/service/certificate.go:757-789 | the same for the lifting of a hold |
| `PkiService.Service.DeleteCertificate` | internal/store/repo_pki.go:440-454 | deletes a certificate with its revocation row |
| `PkiService.Service.GenerateCrl` | internal/service/authority.go:453-510 | publishes one entry for exactly the readable rows of the authority, with their times and reasons, under the next number, exactly when the authority can be loaded and the write succeeds |
| `PkiService.Service.ListEntries` | internal/service/authority.go:463-477 | the loop over the rows lists exactly those of the authority whose serial can be read |
| `PkiService.Service.CrlFor` | internal/service/authority.go:515-532 | serves the stored list, or publishes a first one exactly when there is none, the authority can be loaded without a passphrase and the write succeeds; what it serves is what is stored |
| `PkiService.Service.OcspRespond` | internal/service/ocsp.go:29-83 | answers from the rows for any serial, exactly when the authority needs no passphrase and can be loaded |
| `Statuses.ScanRefinesRecomputation` | internal/service/certificate.go:708-728 | with fixed warning days, in every run the scan leaves every certificate, in or out of its range, as full recomputation would |
| `Statuses.ScanRecomputesExactly` | internal/store/repo_pki.go:380-388 | the scan equals full recomputation exactly when nothing outside its range is marked as expiring or expired |
| `Statuses.AlwaysTruthful` | internal/store/models.go:227-246 | no certificate is ever marked as expiring or expired before it is |
| `Statuses.LoweredWarningIsMissed` | internal/service/certificate.go:708-728 | fewer warning days leave an expiring mark the scan passes over |
| `Statuses.ScanFollowsTheClock` | internal/store/models.go:227-246 | in every run with fixed warning days, after the scan a certificate neither held nor revoked is expired exactly when it is past its end, expiring exactly when its end is less than the warning days away, and active otherwise; held and revoked rows, and all else, are untouched |
| `Statuses.LiftedFollowsTheClock` | internal/service/certificate.go:781-784 | a lifted hold comes back with the status its dates have at that moment, and nothing else changes |
| `PkiService.Service.RefreshCertificateStatuses` | internal/service/certificate.go:708-728 | each row saved is a step; the loop over the rows in range leaves every row with the status of the clock and counts the rows that changed, or stops at the first failing write with exactly the rows before it right and the others as they were |
| `PkiService.Service.RefreshRows` | internal/service/certificate.go:715-726 | the loop leaves exactly the rows it has passed with the status of the clock, in steps that keep every invariant, and stops only at a failing write |
| `Renewals.WindowFitsExactly` | internal/service/certificate.go:226-244 | an auto-renewing certificate's stored window is shorter than its life exactly when it lives two days or more |
| `Renewals.WindowExactly` | internal/service/certificate.go:226-244 | the window is the one asked for, thirty days by default; where that does not fit in the life of an auto-renewing certificate, half the life, rounded down but at least a day |
| `Renewals.ReplacementInherits` | internal/service/certificate.go:380-407 | a renewed certificate keeps the life unless another is asked for, and the window once that is shorter than the life |
| `Renewals.ReplacementDueExactly` | internal/store/repo_pki.go:391-410 | a replacement, for whatever days were asked, falls due exactly once more than its life less its window less five minutes has passed |
| `Renewals.NotDueAtOnceExactly` | internal/service/certificate.go:235-244 | a replacement is not due the moment it is made exactly when it lives two days or more |
| `Renewals.StaysDueExactly` | internal/service/certificate.go:405-417 | a due certificate stays due after its renewal exactly when clearing it failed |
| `Renewals.RenewMovesAutoRenewal` | internal/service/certificate.go:404-417 | a renewal of any lineage for any life takes automatic renewal from the old row and gives it to the new one, in its lineage only |
| `Renewals.LineageFollowsRenewals` | internal/service/certificate.go:395-407 | in every run, a stored certificate other than the first belongs to a lineage exactly when the one it was renewed from does, stored or deleted since |
| `Renewals.AutoCountUnchangedExactly` | internal/service/certificate.go:409-417 | a lineage's number of auto-renewing certificates stays the same exactly when the old row was cleared or did not renew |
| `Renewals.RenewalsAreBounded` | internal/schedule/scheduler.go:332-387 | over any span of any run in which the lineage itself is left on its terms, whatever happens to the others and whatever is deleted, the renewals of its due certificates are at most the span divided by the gap, and one more; none, if it began without automatic renewal |
| `RenewalBudget.RenewalsAreBudgeted` | internal/schedule/scheduler.go:332-387 | over any span of any run, whatever edits and renewals the lineage gets, the renewals of its due certificates are at most the span divided by the smallest gap its replacements were stored with, and one more, for its first auto-renewing certificate and again for each step that left one uncleared or on other terms |
| `PkiService.Service.CapWindow` | internal/service/certificate.go:226-244 | the capping statements compute that window |
| `PkiService.Service.Issue` | internal/service/certificate.go:46-115 | stores a certificate that starts five minutes early, lives the days asked for and has a window that fits, exactly when the issuer loads, may sign it, the serial is free and the write succeeds |
| `PkiService.Service.Renew` | internal/service/certificate.go:326-455 | stores a replacement of any certificate not revoked, for its own life or the days asked for, exactly when a key is at hand, the issuer loads and may sign it, the serial is free and the write succeeds, and clears automatic renewal on the old row unless that write fails |
| `PkiService.Service.UpdateCertificate` | internal/service/certificate.go:544-576 | changes only automatic renewal and a window of 1 to 365 days |
| `PkiService.Service.AutoRenew` | internal/schedule/scheduler.go:332-387 | makes exactly one renewal, at that instant and for the row's own life, of each row that succeeded, each of another due row, and nothing else; when the first writes succeed and the serials are new, the rows renewed are exactly the due ones with a key whose authority may sign; renewed and failed make up the due rows, and after a pass without a failure nothing is due at that instant if the due rows lived two days or more |
| `Sessions.SignOutEndsTheLineage` | internal/service/auth.go:741-760 | after signing out with any unexpired access token, every token of the session, whenever issued, is expired or denied at every later moment, also after its entry is pruned |
| `Sessions.SignOutWorksExactly` | internal/service/auth.go:741-760 | that holds in every run exactly when the access lifetime is at most one second over the refresh lifetime, or the refresh lifetime is at most one second |
| `Sessions.SigningOutEnds` | internal/service/auth.go:749-752 | at a sign-out the new entry outlives every token of the session |
| `Sessions.LateSignOutFails` | internal/service/auth.go:741-760 | for longer access lifetimes, a run in which the last access token outlives the entry |
| `Sessions.RevokeAllDeniesUntilTheFirstLapses` | internal/store/repo_auth.go:334-353 | denying all of a user's sessions denies any session of the user, later ones included, exactly until the first such entry lapses |
| `Sessions.Service.Refresh` | internal/service/auth.go:403-438 | mints an access and a refresh token of the user, in the same session, from now and for their own lifetimes, and returns them in that order, exactly for a refresh token in its time whose session and user are not denied, of an active user; otherwise mints nothing |
| `Sessions.Service.RevokeSession` | internal/service/auth.go:741-760 | denies the session of a parsing access token until its expiry plus the refresh lifetime, unless it is denied already |
| `Sessions.Service.RevokeAllSessions` | internal/service/auth.go:762-768 | denies all of a user's sessions until twice the refresh lifetime has passed, unless they are denied already |
| `Sessions.Service.IssueForSession` | internal/service/auth.go:139-162 | mints one access and one refresh token with their lifetimes in the session |
| `Sessions.Service.PruneDenied` | internal/store/repo_auth.go:356-359 | removes exactly the lapsed entries and counts them |
| `TwoFactor.VerifyStep` | internal/crypto/totp.go:90-113 | the loop over three steps finds the latest step within one of the clock whose six digits were typed, if any |
| `TwoFactor.MatchedStepIsNear` | internal/crypto/totp.go:90-113 | a code is matched exactly to the latest step within one of the clock whose code it is |
| `TwoFactor.MatchedExactly` | internal/crypto/totp.go:90-113 | both ways: a step is matched exactly when it is the latest of those the six typed digits are the code of |
| `TwoFactor.CounterExactly` | internal/crypto/totp.go:100 | a step is thirty seconds long, counted from 1970 and rounded toward zero |
| `TwoFactor.NormalizedExactly` | internal/crypto/totp.go:117-124 | of what was typed the digits are kept, in order, and nothing else |
| `TwoFactor.CheckedExactly` | internal/service/twofactor.go:258-297 | what a code is good for: a step later than the stored one or, if it is the code of no step, a recovery code of the set |
| `TwoFactor.AcceptedStepsIncrease` | internal/service/twofactor.go:258-297 | from confirming a secret until it is cleared, each accepted step is later than every one before and within one step of the clock |
| `TwoFactor.RecoveryCodesAreSingleUse` | internal/service/twofactor.go:313-334 | an accepted recovery digest is in the current set and was not accepted since that set was generated |
| `TwoFactor.RecoveryExactly` | internal/service/twofactor.go:313-334 | in every run the codes left are exactly those of the current set not accepted since it was put in place |
| `TwoFactor.SignInExactly` | internal/service/twofactor.go:258-297 | in every run a sign-in's code is accepted exactly as the code of a step later than every one accepted since the secret was confirmed, or as an unused code of the current set |
| `TwoFactor.RequiredExactlyWhenConfirmed` | internal/service/twofactor.go:74-161 | a factor is required exactly when its secret was confirmed since it was set |
| `TwoFactor.ConsumeRecoveryCode` | internal/service/twofactor.go:313-334 | the loop drops exactly the matching digests and finds whether there was one |
| `TwoFactor.WithoutMembers` | internal/service/twofactor.go:313-334 | dropping a digest leaves exactly the others |
| `TwoFactor.Account.BeginEnrollment` | internal/service/twofactor.go:74-114 | replaces the secret and switches the factor off, unless one is required already |
| `TwoFactor.Account.ConfirmEnrollment` | internal/service/twofactor.go:118-161 | switches a pending secret on exactly for a matching code, remembering its step and the new codes |
| `TwoFactor.Account.VerifySecondFactor` | internal/service/twofactor.go:258-297 | accepts exactly a fresh step or, when the text is the code of no step, an unspent recovery code, and stores exactly what accepting it uses up; a spent step is refused even if the text is a recovery code |
| `TwoFactor.Account.DisableTwoFactor` | internal/service/twofactor.go:166-196 | clears the factor exactly with the password, and a good code when it was confirmed; a code accepted before a failing write is used up |
| `TwoFactor.Account.ResetTwoFactor` | internal/service/twofactor.go:201-220 | clears whatever was enrolled |
| `TwoFactor.Account.RegenerateRecoveryCodes` | internal/service/twofactor.go:225-252 | replaces the codes exactly when a code was accepted and used up; it stays used up when the second write fails |
| `OAuthStates.StateStore.Issue` | internal/service/oauth.go:59-74 | collects if ten minutes have passed, then stores the state with its verifier and expiry |
| `OAuthStates.StateStore.Redeem` | internal/service/oauth.go:78-94 | always takes the state out, and answers with its verifier exactly when it has not expired |
| `OAuthStates.StateStore.Collect` | internal/service/oauth.go:96-106 | the loop drops exactly the expired entries, or nothing within ten minutes of the last time |
| `OAuthStates.CollectingIsInvisible` | internal/service/oauth.go:59-106 | a store that never collects gives the same answer to every callback of every run |
| `OAuthStates.RedeemedAtMostOncePerIssue` | internal/service/oauth.go:59-94 | successful redemptions of a state plus its stored entry never exceed its issues |
| `OAuthStates.RedeemedWithinLifetime` | internal/service/oauth.go:59-94 | a callback is told the verifier issued with its state, within ten minutes of that issue |
| `OAuthStates.AnsweredExactly` | internal/service/oauth.go:59-106 | in every run a callback is told a verifier exactly when the last call about its state was an issue with that verifier, no more than ten minutes before |
| `Deliveries.BackoffFor` | internal/service/notification.go:284-293 | the wait before an attempt is the table's entry for it, held at both ends of the table |
| `Deliveries.Queue.QueueRetry` | internal/service/notification.go:206-225 | parks a delivery with one attempt on it, due in thirty seconds, or drops it when it cannot be rendered or stored |
| `Deliveries.Queue.Due` | internal/store/repo_auth.go:236-248 | takes the due rows, oldest first, exactly those with fewer than a hundred due rows before them |
| `Deliveries.Queue.RetryDeliveries` | internal/service/notification.go:230-280 | sends each taken row once and leaves each row as its own send says: delivered, failed, or waiting for the next attempt; each counter is the number of rows of its branch, and they add up to the rows taken |
| `Deliveries.Queue.Handle` | internal/service/notification.go:238-272 | one row's outcome and new values: failed when its channel is unusable or its sixth attempt fails, delivered when the send succeeds, and otherwise one attempt more and the table's wait |
| `Deliveries.PassPointwise` | internal/service/notification.go:230-280 | a pass changes exactly the rows it takes, each as if alone |
| `Deliveries.PassTurns` | internal/service/notification.go:230-280 | what a pass does to each row in each of the four branches, from the outcome of its send alone |
| `Deliveries.CountersCount` | internal/service/notification.go:256-272 | each counter is the number of taken rows in its branch |
| `Deliveries.DueListExactly` | internal/store/repo_auth.go:236-248 | the rows taken are exactly the due ones with fewer than a hundred due before them |
| `Deliveries.EndsExactly` | internal/service/notification.go:230-280 | over every run a queued row is delivered exactly when a send of it in some pass succeeded and was saved, and failed exactly when a saved pass found its channel unusable or its sixth attempt failed |
| `Deliveries.OldestFirst` | internal/store/repo_auth.go:236-248 | a due row is passed over only when a hundred older due rows go first |
| `Deliveries.RowsStayOk` | internal/service/notification.go:230-280 | a pending row always has one to five attempts, and no row more than six |
| `Deliveries.AttemptsCountSends` | internal/service/notification.go:230-280 | a row's attempts are the sends of its delivery less those whose update was lost |
| `Deliveries.SentAtMostSixTimes` | internal/service/notification.go:143-158 | no delivery is sent more than six times, but for lost updates |
| `Deliveries.WaitsNeverShrink` | internal/service/notification.go:284-293 | each wait is read from the table without running past it and is no shorter than the one before |
| `Deliveries.PassLowersPotential` | internal/service/notification.go:230-280 | each row taken and saved lowers the attempts left to the pending rows by at least one |
| `Deliveries.QueueDrains` | internal/service/notification.go:230-280 | with nothing queued meanwhile, passes that take and save something are at most the attempts left, which are at most five a row, and when they are that many nothing is pending |
| `Deliveries.QueueEmpties` | internal/service/notification.go:230-280 | after any run, whatever the channels answer, five passes a row that save their rows and come when a pending row is due leave nothing pending |
| `Deliveries.EmptyExactly` | internal/service/notification.go:143-158 | nothing is pending exactly when no attempt is left |

## Left out

- AcmeProtocol.LegalRunInv: certificates in the ACME tables record the order and the CSR only; their other columns are in `PkiTables`, and the two are not joined.
- Labels.FilterExactly: LIKE is modelled as exact on case and with no escape character; SQLite ignores the case of ASCII letters and Postgres treats a backslash in a pattern as an escape. What a query with wildcards matches is LIKE itself; `Labels.ExactQueries` says that such a query is never exact.
- Forest.RootedKept: forced deletion is modelled with foreign keys enforced (`internal/config/config.go:507`), so it fails when a child still has certificates or children.
- Renewals.RenewalsAreBounded: for a lineage that began with a life of two days or more, and is left on its terms: no edit turns automatic renewal on in it or moves the window of a member that renews, and renewing such a member clears it and asks for no other life. `RenewalBudget.RenewalsAreBudgeted` has no such condition; its bound is larger, and its gap must be positive, which it is for lives of two days or more (`Renewals.NotDueAtOnceExactly`).
- PkiService.Service.GenerateCrl: the list is a set of entries; the order by revocation time is not modelled.
- PkiService.Service.Renew: names are not part of the certificate rows, so a request for other names is not modelled; of the key only whether one is at hand.
- PkiService.Service.Revoke: publishing the list afterwards is a separate call here.
- TwoFactor.AcceptedStepsIncrease: requests are atomic; two requests that read the same row before either saves it are not modelled.
- Sessions.SignOutEndsTheLineage: the clock of a token is in whole seconds, and a signature is the fact that a token was minted.
- Concurrent finalize or validation of one challenge: the code reads a row and saves it later, and promises nothing there.
- Text outside ASCII: case folding, trimming and lengths are those of ASCII text; invalid UTF-8 and line separators in labels are not modelled.
- The order's notBefore and notAfter, error texts, tokens and timestamps of ACME rows, ACME accounts, external account bindings and revocation over ACME: they steer none of the modelled decisions.
- IP, email and URI name constraints, and the constraint check inside CSR signing: an arbitrary refusal here.
- Parsing a list of names and sorting for display: each applies a modelled function to one element after another, or a library sort.
- Renewing or importing an authority: a root's renewal is checked against its own expiry, and an import links parents by common name, so neither belongs to the forest.
- The statuses of authorities and the scheduled republication of lists: the first recomputes every row outright, the second calls the modelled publication in a loop.
- Deployment targets beyond one selector pair, and choosing the newest certificate over the store.
- Cryptography and encodings from libraries (x509, JWS, JWT signing, AES-GCM, Argon2, PEM, base64, random numbers): abstract, or fresh values.
- Dialling out, mail, chat, webhooks, SSH and Kubernetes: an arbitrary success or failure.
- HTTP handlers, routes, command line, configuration files, dashboards, metrics, audit log, pagination, slugs, API tokens and roles: plumbing.
