# docmesh-py-core: the logic that has to be right

A Dafny model of the parts of `docmesh-py-core` that decide something: validating JWTs against a
cached JWKS, masking secrets in messages and URLs, fetching a token with retries, aggregating
health checks, provisioning Keycloak, and three small printers (the function-boundary log, CSV
settings, error-type names). `dafny verify dfyconfig.toml` checks all of it.

| file | models |
|---|---|
| `JwksCache.dfy`, `JwksDecisions.dfy`, `JwksTheorems.dfy`, `JwksExamples.dfy` | `KeycloakAuthService._decode_and_validate_jwt` and the JWKS cache behind it |
| `Masking.dfy`, `MaskingCases.dfy`, `MaskingFields.dfy`, `MaskingTheorems.dfy`, `MaskingGuarantees.dfy`, `MaskingConditions.dfy`, `MaskingAssignment.dfy`, `MaskingExactness.dfy`, `MaskingExamples.dfy` | `mask_sensitive_value` on text |
| `QueryMasking.dfy`, `UrlAuthority.dfy` | `mask_sensitive_value` on the query and on the authority of a URL |
| `UrlSplitting.dfy`, `UrlPrinting.dfy` | `urlsplit` and `urlunsplit` around it |
| `UrlBranch.dfy`, `UrlForms.dfy`, `UrlPasswords.dfy` | the whole function: which texts are URLs, what happens to them, and to the password in them |
| `Retry.dfy`, `TokenRetry.dfy` | `retry_call`; `fetch_access_token` and `_parse_token_response` |
| `HealthChecks.dfy` | `check_all_services`, sequential and parallel |
| `Provisioning.dfy` | `KeycloakProvisioner.provision` |
| `FunctionLog.dfy` | `log_function_boundary` |
| `CsvLists.dfy`, `ErrorTypes.dfy` | `_parse_csv` with `strip_strings`; `_error_type` |
| `Texts.dfy`, `Wrappers.dfy` | ASCII letters, `Option`, `Result` |

How the outside world enters the model:

- **JWKS.** `Env` gives the reply to the n-th GET and the n-th reading of the clock, so statements
  quantified over `Env` cover every provider that fails or rotates its keys at will. The clock never
  goes back where `Monotone` is required. The JWT library is a `Verifier`: does the key verify the
  signature, and what does the library say of the claims. The signature is judged first, and the
  claims are judged the same way whichever key verified. `get_unverified_header` failing is the
  token `Unreadable`; the library refuses a `kid` that is not a string, so a kid is an optional string.
  The reasons for bad claims (expired, wrong audience, wrong issuer and so on) are one reason here.
- **Masking.** Text is ASCII: lowering it keeps its length. A text is seen as fields separated by
  the four stop characters. "Offset o of field k" in the lemmas counts from the start of that field.
  A value is *hidden* when the masked field keeps nothing of the field behind its marker; a value
  that stands in another field, behind a space say, is not meant by that word.
- **URLs.** `urlsplit` and `urlunsplit` are modelled as in Python 3.11, which `.python-version` names:
  control characters and spaces stripped in front, tabs and line breaks removed, a scheme of a letter and
  letters, digits, `+`, `-` or `.` up to the first colon, then authority, path, query and fragment. `Library`
  holds what the library decides by lists and formats: which hosts may stand in brackets, and which schemes are
  followed by two slashes even without an authority. Statements hold for every `Library`.
- **Token.** A stream gives the reply to the n-th POST of the client's life.
- **Health.** The outcome of a check depends on the service only. The pool is a state machine with
  the steps Submit, Start and Finish; a schedule is any sequence of possible steps, more orders than
  the first-in-first-out queue of the pool produces.
- **Provisioning.** An arbitrary function answers the n-th admin call; `IsEnsureStyle` is the promise
  the `ensure_*` methods make by their names.

## What was found out

- Validation with the cache is exactly one round of "take a key set, find the kid, verify", and a
  second round on a freshly fetched key set if and only if the first ended in a bad signature
  (`ValidationIsTwoRounds`). From this follows when the cache can change a verdict at all
  (`AgreesForEveryKeySetIff`), that it cannot be noticed while the provider keeps its keys
  (`CacheIsInvisible`), and that with a TTL above 0 a withdrawn key is accepted for less than a TTL
  (`AcceptedKeyIsRecent`). With TTL 0, which the settings allow, a cached key set is kept until a
  forced refresh: an absent kid stays rejected and a withdrawn key stays accepted
  (`ZeroTtlKeepsKeySet`).
- The code does not refresh when a kid is missing from a live cache, although
  `.wiki/concepts/keycloak-auth-flow.md` says that a changed `kid` is detected. `AddedKeyIsMissed` and
  `WithdrawnKeyIsAccepted` give, for every configuration and every token, a run after which the
  verdict is not the one of the key set served; `DefaultTtlMissesAndKeeps` is one with 300 seconds.
  `RejectionWindow` and `WindowCloses` bound how long such a rejection can last when the TTL is above 0.
- Not every text is masked as text: one that begins with a word and a colon is a URL if the word can
  be a scheme and something follows that can be a host or path (`BranchIff`), and its path and
  fragment come back as they were (`ColonBehindWord`, `PartsInOrder`).
  `error: password=a` and `token: xyz`, the latter listed as masked by
  `.wiki/concepts/sensitive-value-masking.md`, come back readable (`PasswordInUrlPathStays`,
  `TokenAndColonStays`); so does a value behind a leading keyword and a colon, for the five
  keywords without underscore (`KeywordAsScheme`).
- The password of a URL is not always hidden. For fixed scheme, user, host and tail, all passwords
  without brackets give the same masked form if and only if the host and its port can be read
  (`UrlPasswordIsHiddenIff`); otherwise the library raises, and the whole URL is masked as a text.
  `ab://u:pw@h:x?token=z` comes back as `ab://u:pw@h:x?token=***` (`PasswordBeforeBadPortStays`). The same holds
  behind any brackets the password begins with (`PasswordsShareFormIff`); a single bracket is always refused
  (`BracketShowsPassword`, `PasswordWithBracketStays`).
- Masking an authority twice is masking it once if and only if the host that was read holds no `[`, and no
  colon unless it is a name and a port itself and no port is written behind it (`MaskedAuthorityTwice`).
  The address in brackets of an IPv6 host loses them and cannot be read again (`BracketsAreLost`).
- A URL comes back with its own scheme, path and fragment, the masked authority and the masked query
  (`AuthorityUrlIsMasked`, `PathUrlIsMasked`). Printed and split again it gives the masked query, and all its
  masked parts if and only if its path can be told from an authority (`MaskedUrlParses`,
  `MaskedUrlKeepsParts`).
- What the 24 passes do to a text is an assignment: a marker takes the first field in which it is left,
  given the markers before it. `FieldIsExact`, `ValueIsHiddenIff`, `EveryValueIsHiddenIff` and `DroppedIff` say from
  the assignment, for every text, what becomes of each field and each value; `SeparatedValueStaysIff` says when a
  value that a stop character separates from its marker stays. Inputs where a value stays are
  `SecondPasswordStays`, `SecretAfterClientSecretStays` (each keyword is assigned once), `SecondSpacedValueStays` and
  `SpacedTokenStays`; `TokenInPasswordIsMasked` is one where a marker in two fields does no harm.
- Three consequences can be read off the text alone. The value behind every = or : marker that no earlier
  field holds is hidden (`FreshMarkerHidesValue`, `MessageIsMasked`). Where no = or : marker is in two
  fields, every value in the field of its marker is hidden (`EveryValueIsHiddenWithoutRepeats`); the text of
  `SpacedTokenStays` meets that condition, for its value stands in the next field. And where markers
  shared by two fields come first in the earlier one, for instance because each field holds one
  assignment (`OneAssignmentPerField`), a value is hidden if and only if it is the mask already, its field
  is dropped, or some marker up to it is held by no earlier field (`DecidedValueIsHiddenIff`;
  `SteadyDroppedIff` for a keyword and a space).
- `.wiki/concepts/sensitive-value-masking.md` says that text without a keyword is returned as it is;
  the code returns `***`.
- Every result of a validation is determined by token, configuration, cache and replies as
  `ValidatedIsVerdict` spells out; `AcceptedIff` says when a token is accepted.
- A provider failure during validation leaves as the HTTP client's own exception, not as a
  validation error (`TransportError`).

## Model

| member | source | states |
|---|---|---|
| JwksCache.FirstForKidIsFirst | docmesh_py_core/keycloak.py:342-344 | of several entries with the kid the first one is taken, past entries that are not objects |
| JwksCache.KeycloakAuthService.constructor | docmesh_py_core/keycloak.py:155-166 | a new service has no cache; no or an empty algorithm list means HS256 only |
| JwksCache.KeycloakAuthService.FindJwk | docmesh_py_core/keycloak.py:338-345 | the search loop finds the first entry for the kid, or tells an invalid key set from a missing kid |
| JwksCache.KeycloakAuthService.GetJwks | docmesh_py_core/keycloak.py:303-318 | the new cache fields, the GETs, the clock readings and the result of a lookup, from the old ones |
| JwksCache.KeycloakAuthService.ResolveVerificationKey | docmesh_py_core/keycloak.py:279-300 | the configured key for HS256, the cached or fetched key for RS256, an error for anything else |
| JwksCache.KeycloakAuthService.RefreshJwkForHeader | docmesh_py_core/keycloak.py:328-335 | a forced load and the entry for the kid; nothing without kid or cache |
| JwksCache.KeycloakAuthService.RefreshVerificationKey | docmesh_py_core/keycloak.py:321-325 | the key built from the refreshed entry, or the failure of any step |
| JwksCache.KeycloakAuthService.DecodeAndValidateJwt | docmesh_py_core/keycloak.py:236-276 | verdict and new state of a validation, including the second attempt |
| JwksDecisions.FindIs | docmesh_py_core/keycloak.py:338-345 | the search ends with the first entry for the kid, or says that there is no list or no entry |
| JwksDecisions.LookupIs | docmesh_py_core/keycloak.py:303-318 | a lookup that asks the provider succeeds if and only if the reply is 2xx with a JSON object, returns and caches it with the load time; every other reply fails and leaves both cache fields; a usable cache is returned and left alone |
| JwksDecisions.ResolvedIs | docmesh_py_core/keycloak.py:279-300 | HS256 takes the configured key, RS256 an unforced lookup and the kid's entry; a missing key or kid and other algorithms fail without a lookup |
| JwksDecisions.RefreshedIs | docmesh_py_core/keycloak.py:321-335 | without a kid or cache there is nothing to refresh; else a forced lookup and the kid's entry |
| JwksDecisions.ValidatedIsVerdict | docmesh_py_core/keycloak.py:236-276 | for every state and token the result is the one verdict, claims or error, that token, configuration, cache and replies give |
| JwksDecisions.AcceptedIff | docmesh_py_core/keycloak.py:240-276 | an accept needs an allowed algorithm and good claims; a token that is not RS256 is accepted if and only if it is HS256, allowed, and the configured key verifies it; an RS256 token only by the first entry for its kid in the cache as the call leaves it |
| JwksTheorems.ValidationIsTwoRounds | docmesh_py_core/keycloak.py:236-345 | with any cache and any provider, RS256 validation is the cacheless validator on the first key set and, exactly after a bad signature, once more on a fresh one |
| JwksTheorems.ExpiredCacheRefines | docmesh_py_core/keycloak.py:303-318 | with an empty or expired cache and a provider serving J the result is the cacheless one on J, errors included |
| JwksTheorems.CacheRefinesCacheless | docmesh_py_core/keycloak.py:236-345 | with an empty, expired or usable cache, what the cacheless validator accepts is accepted with the same claims |
| JwksTheorems.LiveCacheDiffersExactlyWhen | docmesh_py_core/keycloak.py:259-271 | with a live cache the verdict differs from the cacheless one if and only if the cached key is unusable and J accepts, or the cached key accepts and J does not |
| JwksTheorems.AgreesForEveryKeySetIff | docmesh_py_core/keycloak.py:236-345 | the verdict is the cacheless one for every key set the provider may hold, if and only if the cache is transparent to the token |
| JwksTheorems.CallCost | docmesh_py_core/keycloak.py:236-345 | exact GETs, forced refreshes and a bound on verifications of one call: at most two, one and two |
| JwksTheorems.OtherTokensLeaveCacheAlone | docmesh_py_core/keycloak.py:281-287 | HS256 and refused tokens change neither cache nor clock nor network; HS256 is decided by the configured key, tried once |
| JwksTheorems.AcceptingKeyIsInTheCache | docmesh_py_core/keycloak.py:247-276 | an accepted RS256 token was verified by the first entry for its kid in the cache as the call leaves it, and that cache was just fetched or live |
| JwksTheorems.BadSignatureMeansTwoKeysFailed | docmesh_py_core/keycloak.py:259-271 | the branches "no cache" and "no refreshed key" are never taken: a bad signature is reported after a successful forced GET and two failed keys |
| JwksTheorems.CacheAndLoadTimeTogether | docmesh_py_core/keycloak.py:165-166 | in every reachable state cache and load time are both absent or both set |
| JwksTheorems.RunKeepsInvariant | docmesh_py_core/keycloak.py:303-318 | in every run the cache is the body of the last successful GET with its load time, and ordinary loads are spaced by the TTL |
| JwksTheorems.FetchRateBound | docmesh_py_core/keycloak.py:303-318 | N successful ordinary loads span at least (N-1) TTLs in any run; with TTL 0 there is at most one |
| JwksTheorems.BoundedStaleness | docmesh_py_core/keycloak.py:303-318 | a lookup in a run returns the key set last stored, of recorded age below a TTL above 0, and caches it; or it fails after one GET and leaves cache and load time as they were |
| JwksTheorems.RejectionWindow | docmesh_py_core/keycloak.py:295-300 | with a TTL above 0 a missing kid is rejected without asking the provider only before loaded_at + TTL |
| JwksTheorems.WindowCloses | docmesh_py_core/keycloak.py:303-318 | the first call at or after that time gives the cacheless verdict on the fetched key set, with a second round only after a bad signature |
| JwksTheorems.AcceptedKeyIsRecent | docmesh_py_core/keycloak.py:236-318 | in any run with a TTL above 0 the key set behind an accept was stored less than a TTL before the call, or during it: a withdrawn key is accepted no longer |
| JwksTheorems.ZeroTtlKeepsKeySet | docmesh_py_core/keycloak.py:303-309 | with TTL 0, until a forced refresh, every later call is decided on the key set first cached without a GET, unless that ends in a bad signature: an absent kid stays rejected, a withdrawn key accepted |
| JwksTheorems.CacheIsInvisible | docmesh_py_core/keycloak.py:236-345 | while the provider keeps its keys, every call of every run gives the cacheless result, or the failure of the GET it made |
| JwksExamples.AddedKeyIsMissed | docmesh_py_core/keycloak.py:303-318 | a run of a new service after which every token whose key the provider added is rejected for its kid, without a GET |
| JwksExamples.WithdrawnKeyIsAccepted | docmesh_py_core/keycloak.py:303-318 | a run of a new service after which every token of a withdrawn key is accepted, without a GET |
| JwksExamples.DefaultTtlMissesAndKeeps | docmesh_py_core/keycloak.py:303-318 | both with the default TTL, one key and one token |
| Masking.SensitiveIff | docmesh_py_core/security.py:7-9 | a key is sensitive if and only if a keyword is part of it in either case |
| Masking.EndOfValue | docmesh_py_core/security.py:44-48 | the minimum over the four searches is the nearest stop character, or the end |
| Masking.MaskText | docmesh_py_core/security.py:33-52 | the nested loops compute the 24 rewrites in order, and the bare mask when no marker occurs |
| MaskingCases.PassesInOrder | docmesh_py_core/security.py:4-39 | 24 passes: the eight keywords in order with `=`, then with `:`, then with a space |
| MaskingCases.SensitiveWords | docmesh_py_core/security.py:7-9 | a key is sensitive if and only if one of the eight words is part of it in either case |
| MaskingCases.RewriteIs | docmesh_py_core/security.py:40-49 | one pass puts three asterisks between the end of the marker's first occurrence and the next space, ampersand, comma or semicolon, or the end |
| MaskingCases.TextIsHiddenIff | docmesh_py_core/security.py:34-52 | a text comes back as `***`, with or without a keyword in it, if and only if no keyword in either case is followed by `=`, `:` or a space |
| MaskingCases.RawTokenIsHidden | docmesh_py_core/security.py:52 | a raw token without a keyword is hidden |
| MaskingCases.BareKeywordIsHidden | docmesh_py_core/security.py:51 | a text with a bare keyword is hidden |
| MaskingCases.CaseDoesNotMatter | docmesh_py_core/security.py:33-51 | texts that differ in the case of letters only are masked at the same places |
| MaskingFields.SplitIsUnique | docmesh_py_core/security.py:45-48 | a text has one decomposition into fields and stop characters |
| MaskingFields.StepsAreFlatRewrites | docmesh_py_core/security.py:37-49 | the index arithmetic on the flat string is a rewrite of one field, for every number of passes |
| MaskingTheorems.StepsMask | docmesh_py_core/security.py:37-49 | after any number of passes each field is unchanged, cut behind a marker of the input, or dropped after a keyword and a space of the input |
| MaskingGuarantees.MaskedTextStructure | docmesh_py_core/security.py:33-51 | same stop characters in the same order; each field kept, cut or dropped; growth at most 3 per field and 3 per pass |
| MaskingExactness.ValueBehindMarkerIsHidden | docmesh_py_core/security.py:36-51 | for = and :, the field with the first occurrence of a marker keeps at most what ends with the marker |
| MaskingExactness.ValueBehindSpaceIsHidden | docmesh_py_core/security.py:36-51 | for the space, the next field is exactly the mask, or the keyword's own field was cut before the keyword's end |
| MaskingGuarantees.UnmarkedFieldIsKept | docmesh_py_core/security.py:36-51 | a field without a marker that does not follow a keyword and a space is untouched |
| MaskingExactness.FieldIsCutAtItsFirstMarker | docmesh_py_core/security.py:36-51 | a field whose earliest marker is the first of its kind is cut exactly behind it |
| MaskingGuarantees.MarkersOnlyDisappear | docmesh_py_core/security.py:40-49 | no rewrite creates an occurrence of any marker |
| MaskingExactness.FreshMarkerHidesValue | docmesh_py_core/security.py:36-51 | in every text the value behind a marker that no earlier field holds is hidden |
| MaskingExactness.FreshKeywordDropsValue | docmesh_py_core/security.py:36-51 | in every text the field behind a keyword and a space that no earlier field ends with is dropped, if the field with the keyword is kept |
| MaskingAssignment.StepsAreExact | docmesh_py_core/security.py:37-49 | after any number of passes, in every text: a field is the mask if a pass for the space dropped it, else cut behind the earliest of the markers that took it, else as it came in |
| MaskingAssignment.FieldIsExact | docmesh_py_core/security.py:36-51 | the masked text has exactly these fields, for every text with a marker |
| MaskingAssignment.DroppedIff | docmesh_py_core/security.py:36-51 | in every text with a marker a field ends as the bare mask if and only if it was the mask, or a pass for the space dropped it |
| MaskingAssignment.ValueIsHiddenIff | docmesh_py_core/security.py:36-51 | in every text the value behind a marker is hidden if and only if it is the mask already, or its field was dropped, or some marker up to it took the field |
| MaskingAssignment.EveryValueIsHiddenIff | docmesh_py_core/security.py:36-51 | all values behind = and : are hidden if and only if that holds of each of them |
| MaskingAssignment.SeparatedValueStaysIff | docmesh_py_core/security.py:43-49 | the field behind one that ends with a = or : marker is left as it is if and only if every marker that takes it has the mask for a value |
| MaskingExactness.DecidedValueIsHiddenIff | docmesh_py_core/security.py:36-51 | where markers shared with earlier fields come first there, read off the text alone: a value is hidden if and only if it is the mask already, its field is dropped, or some marker up to it is held by no earlier field |
| MaskingExactness.SteadyDroppedIff | docmesh_py_core/security.py:36-51 | where keywords before a space stand in fields that nothing else changes, read off the text alone: a field ends as the bare mask if and only if it was the mask, or follows a keyword and a space that no earlier field ends with |
| MaskingExactness.OneAssignmentPerField | docmesh_py_core/security.py:37-49 | one assignment per field is enough for these: then a shared marker comes first in the earlier field |
| MaskingExactness.EveryValueIsHiddenWithoutRepeats | docmesh_py_core/security.py:37-49 | in any text where no = or : marker is in two fields, every value in the field of its marker is hidden |
| MaskingExactness.SeparatedValueStaysWithoutRepeats | docmesh_py_core/security.py:43-49 | where no marker repeats, if and only if it holds no marker with a value other than the mask |
| MaskingExamples.SecondPasswordStays | docmesh_py_core/security.py:41-49 | an input whose second password stays readable |
| MaskingExamples.SpacedTokenStays | docmesh_py_core/security.py:43-49 | an input whose value, behind a colon and a space, stays readable |
| MaskingExamples.SecretAfterClientSecretStays | docmesh_py_core/security.py:37-49 | an input that assigns each keyword once and whose second value stays readable |
| MaskingExamples.SecondSpacedValueStays | docmesh_py_core/security.py:41-49 | an input whose second value behind a keyword and a space stays readable |
| MaskingExamples.TokenInPasswordIsMasked | docmesh_py_core/security.py:37-49 | an input with a marker in two fields whose values are all masked |
| QueryMasking.EscapesInEitherCase | docmesh_py_core/security.py:27-29 | a percent escape is read as its byte with capital and with small digits |
| QueryMasking.QuotedAs | docmesh_py_core/security.py:29 | which characters are printed as they are, as a plus sign, and as an escape with capital digits |
| QueryMasking.ReadAs | docmesh_py_core/security.py:27 | a plus sign is read as a space, and what is no escape as itself |
| QueryMasking.UnquoteQuoted | docmesh_py_core/security.py:27-29 | unquoting a quoted byte string gives it back |
| QueryMasking.ParseEncoded | docmesh_py_core/security.py:27-29 | parsing an encoded list of pairs gives the pairs back, in order |
| QueryMasking.EncodedAs | docmesh_py_core/security.py:29 | pairs are printed with `=` inside and one `&` between them |
| QueryMasking.ParseLaws | docmesh_py_core/security.py:27 | an ampersand anywhere separates what parses on its own, empty pieces are skipped, a piece is cut at its first `=`, and a missing value is kept as blank |
| QueryMasking.MaskQuery | docmesh_py_core/security.py:26-29 | the loop over the parsed pairs builds the masked query |
| QueryMasking.MaskedQueryParses | docmesh_py_core/security.py:26-30 | the masked query parses to the input's pairs in order, with exactly the sensitive values replaced, and is what these pairs are printed as |
| QueryMasking.MaskingQueryIsIdempotent | docmesh_py_core/security.py:26-30 | masking a query twice is masking it once, and the result holds nothing that ends a query |
| QueryMasking.MaskedQueryDeterminesPairs | docmesh_py_core/security.py:26-30 | masked queries are equal if and only if the masked pairs are |
| UrlAuthority.PasswordIsHidden | docmesh_py_core/security.py:21-25 | whatever the password, colons and at signs included, the masked authority is that of the mask for a password |
| UrlAuthority.UserIsWritten | docmesh_py_core/security.py:21-25 | with a user name, with or without a password, the user name, `:***@` and the host are written; without one, the host |
| UrlAuthority.HostLetters | docmesh_py_core/security.py:22 | the host is written in small letters, but not a zone behind a percent sign |
| UrlAuthority.HostIsWritten | docmesh_py_core/security.py:22-25 | host and port with and without brackets: a port of 0 or none is dropped, one that is no number up to 65535 fails |
| UrlAuthority.PortIsKept | docmesh_py_core/security.py:23 | a port without a leading zero is written as it was read |
| UrlAuthority.MaskedAuthorityTwice | docmesh_py_core/security.py:21-25 | masking an authority twice is masking it once if and only if the host read holds no `[`, and no colon unless it is a name and the plain decimal of a port with no port written behind it |
| UrlAuthority.BracketsAreLost | docmesh_py_core/security.py:22-25 | every host with two colons, as in an IPv6 address, loses its brackets and the masked authority cannot be read again, whatever stands around it |
| UrlAuthority.LoopbackLosesBrackets | docmesh_py_core/security.py:22-25 | `[::1]:80` becomes `::1:80`, which cannot be read |
| UrlSplitting.BranchIff | docmesh_py_core/security.py:19-20 | the split text has a scheme and a host or path if and only if, cleaned, it begins with a letter, then letters, digits, `+`, `-` or `.` up to a colon, and no query or fragment follows there |
| UrlSplitting.PartsInOrder | docmesh_py_core/security.py:19 | the parts stand in the cleaned text in order, with only the separating characters between them |
| UrlSplitting.CleanedAs | docmesh_py_core/security.py:19 | control characters and spaces in front, tabs and line breaks anywhere are dropped and nothing else |
| UrlPrinting.PrintedSplitsIff | docmesh_py_core/security.py:30 | printed parts split again give scheme, query and fragment, and all parts if and only if the path can be told from an authority |
| UrlPrinting.MaskedUrlParses | docmesh_py_core/security.py:26-30 | the masked URL, printed and split, gives the masked query, which masking leaves alone, and all masked parts under that same condition |
| UrlBranch.MaskSensitiveValue | docmesh_py_core/security.py:12-52 | None, the empty string, a URL with a readable authority and any other text each take their branch and come back as the printed masked URL or the masked text |
| UrlForms.OtherTextsAreMessages | docmesh_py_core/security.py:14-33 | nothing and the empty text come back as they are; a text that has not the form of a URL, or whose authority is refused or unreadable, as a masked text |
| UrlForms.AcceptedAs | docmesh_py_core/security.py:19 | an authority with brackets of one kind is refused, one with both if the library refuses what stands between them |
| UrlForms.UrlPartsAre | docmesh_py_core/security.py:19 | a URL written out of its parts splits into these parts |
| UrlForms.AuthorityUrlIsMasked | docmesh_py_core/security.py:19-30 | a URL with a readable authority comes back with scheme in small letters, masked authority, its own path, masked query and its own fragment, written out |
| UrlForms.PathUrlIsMasked | docmesh_py_core/security.py:19-30 | so does a URL with a path and no authority |
| UrlForms.MaskedUrlKeepsParts | docmesh_py_core/security.py:19-30 | what comes back for any URL, split again, has the scheme and fragment that came in and the masked query; the path and the masked authority if and only if the path can be told from an authority |
| UrlForms.MessageWithoutValueIsHidden | docmesh_py_core/security.py:51-52 | a text that is no URL comes back as `***` if and only if no keyword in it is followed by a separator |
| UrlBranch.MessageIsMasked | docmesh_py_core/security.py:33-51 | in a text that is no URL a value is hidden exactly as ValueIsHiddenIff says, so whenever no earlier field holds its marker |
| UrlBranch.ColonBehindWord | docmesh_py_core/security.py:19-30 | a word and a colon in front of a path: the path comes back readable if the word can be a scheme, and the text is masked as text if it cannot |
| UrlBranch.KeywordAsScheme | docmesh_py_core/security.py:3-30 | so a value behind a keyword and a colon in front comes back readable exactly for the keywords without underscore |
| UrlPasswords.PasswordsShareFormIff | docmesh_py_core/security.py:19-52 | for fixed scheme, user, host, tail and beginning of the password, brackets included: all its continuations without brackets give the same masked form if and only if the authority can be read |
| UrlPasswords.UrlPasswordIsHiddenIff | docmesh_py_core/security.py:19-52 | all passwords without brackets give the same masked form if and only if host and port can be read |
| UrlPasswords.BracketShowsPassword | docmesh_py_core/security.py:19-52 | behind a bracket that the password begins with, where user and host have none, the masked forms differ |
| UrlPasswords.PasswordBeforeBadPortStays | docmesh_py_core/security.py:24-49 | a URL whose port is no number comes back with its password |
| UrlPasswords.PasswordWithBracketStays | docmesh_py_core/security.py:19-49 | a URL with a single bracket in the password comes back with its password |
| UrlBranch.PasswordInUrlPathStays | docmesh_py_core/security.py:20-30 | `error: password=a` is a URL and comes back with its password |
| UrlBranch.TokenAndColonStays | docmesh_py_core/security.py:20-30 | `token: xyz` is a URL and comes back with its value |
| UrlBranch.SpacedTokenIsMessage | docmesh_py_core/security.py:19-51 | with a word in front it is a text, and the value stays too |
| Retry.AttemptsIff | docmesh_py_core/retry.py:15-24 | the number of attempts is determined by how they end: all before the last are retried, the last is not or is the limit |
| Retry.AttemptsIsMinimum | docmesh_py_core/retry.py:15-24 | it is the smaller of the limit and the index of the first attempt not to be retried plus one |
| Retry.BackoffTotal | docmesh_py_core/retry.py:24 | n attempts sleep base*(2^(n-1)-1) in all, at most base*(2^(max_attempts-1)-1) |
| Retry.DelaysAre | docmesh_py_core/retry.py:24 | the first pause is the base delay and each further one twice the one before |
| Retry.Operation.RetryCall | docmesh_py_core/retry.py:13-24 | for any operation, retried errors, limit and base delay: every call but the last ended in an error to retry, the last did not or is the limit, and its value or error is the result; a limit below 1 is an error before any call |
| TokenRetry.TokenClient.RequestToken | docmesh_py_core/keycloak.py:186-198 | one POST, one event with the closure's counter, two timer readings |
| TokenRetry.TokenClient.RetryCall | docmesh_py_core/keycloak.py:199 | the same loop with the token request for its operation: for every reply stream, limit and base delay, POSTs, events and delays are determined and both counters end in step |
| TokenRetry.TokenClient.FetchAccessToken | docmesh_py_core/keycloak.py:169-199 | the whole call: nothing is sent without password credentials; else POSTs, events, sleeps, timer readings and result as determined by the replies |
| TokenRetry.EventsTellTheCall | docmesh_py_core/keycloak.py:182-199 | every reply but the last is a network failure, 408, 429 or 500 and more; the last decides: a token exactly for a 2xx reply with complete body, with its fields, and an authentication failure exactly for 400, 401 and 403; the i-th event has retry count i and the matching kind; the max_attempts error cannot occur |
| HealthChecks.VerdictIsUnique | docmesh_py_core/health.py:43-69 | services, outcomes and required set determine the verdict, so two right modes agree |
| HealthChecks.VerdictSays | docmesh_py_core/health.py:23-69 | a right verdict is an error exactly if a required service fails, and names the first, its masked message or `unknown error`, and its exception; else every service is listed in order, ok or with its masked message |
| HealthChecks.CheckSequential | docmesh_py_core/health.py:45-52 | the loop raises for the first failing required service with its text and cause, or reports every service in order |
| HealthChecks.CheckParallel | docmesh_py_core/health.py:53-69 | the same verdict under every interleaving of the pool |
| HealthChecks.CheckAllServices | docmesh_py_core/health.py:43-69 | either mode gives the one right verdict |
| HealthChecks.ReachableKeepsInvariant | docmesh_py_core/health.py:56-58 | in every reachable pool state finished checks hold their own service's outcome and submission is in input order |
| HealthChecks.QueuedCheckHasFreeWorker | docmesh_py_core/health.py:56-58 | with as many workers as checks a queued check can start in every reachable state |
| HealthChecks.PoolNeverStuck | docmesh_py_core/health.py:56-58 | the pool has no step left if and only if every check is done |
| HealthChecks.SchedulesEnd | docmesh_py_core/health.py:56-58 | schedules are done after exactly three steps per check and never longer |
| HealthChecks.ScheduleCanBeCompleted | docmesh_py_core/health.py:56-58 | every partial schedule extends to one that finishes all checks |
| Provisioning.NamesAreDistinct | docmesh_py_core/keycloak.py:132-134 | within a configuration an item name stands for one resource |
| Provisioning.OperationsAre | docmesh_py_core/keycloak.py:132-134 | the operations are the realm, the client, every realm role and every client role of the configuration, in this order and under these names, and no others |
| Provisioning.CallsAreMade | docmesh_py_core/keycloak.py:138-140 | each call is made in the world the calls before it left, on the resource of its operation |
| Provisioning.AnswersAreDealt | docmesh_py_core/keycloak.py:139-149 | each answer adds its name to one list by the state it returned, or with its masked message or `***` |
| Provisioning.KeycloakProvisioner.Provision | docmesh_py_core/keycloak.py:129-150 | a dry run plans the names of the operations and calls nothing; a real run calls exactly these operations in this order and deals their names to the lists |
| Provisioning.NothingIsLost | docmesh_py_core/keycloak.py:138-149 | for every pattern of answers the four lists are together the operation names, each in operation order |
| Provisioning.RunSettles | docmesh_py_core/keycloak.py:138-149 | each resource ends as declared or as it was, and as declared if one of its operations returned |
| Provisioning.ReportIsTrue | docmesh_py_core/keycloak.py:144-149 | the first operation on a resource is listed as created, updated or unchanged as the world before the run says |
| Provisioning.ProvisioningConverges | docmesh_py_core/keycloak.py:129-150 | every declared item not listed as failed is in its declared state, undeclared resources are untouched |
| Provisioning.ConfigurationConverges | docmesh_py_core/keycloak.py:129-150 | realm, client and every role of the configuration are as declared unless their name is among the failed; every other role is untouched |
| Provisioning.SettledRunKeeps | docmesh_py_core/keycloak.py:138-149 | a run over settled resources changes nothing and reports all unchanged |
| Provisioning.RerunIsAllUnchanged | docmesh_py_core/keycloak.py:129-150 | after a run without failures the next one without failures is all unchanged, duplicate roles included |
| FunctionLog.Logger.Wrapper | docmesh_py_core/function_logging.py:68-77 | a call adds its start record, its body's records and its end or error record, and passes the outcome on |
| FunctionLog.TraceIs | docmesh_py_core/function_logging.py:68-77 | a call writes start, its body's records, and end if it returns or error if it raises; calls in a row write in a row |
| FunctionLog.CaughtErrorIsLogged | docmesh_py_core/function_logging.py:68-77 | the records of a call that catches what an inner call raises |
| FunctionLog.TraceDeterminesCalls | docmesh_py_core/function_logging.py:68-77 | a parser recovers the exact forest of calls with outcomes from the records |
| FunctionLog.DifferentCallsDifferentLogs | docmesh_py_core/function_logging.py:68-77 | no two forests of calls, outcomes included, write the same records |
| FunctionLog.ParsedRecordsAreTheTrace | docmesh_py_core/function_logging.py:68-77 | the parsed calls write exactly the records that were read |
| FunctionLog.TraceIsBracketed | docmesh_py_core/function_logging.py:68-77 | a forest of calls closes what it opened, whatever was open before |
| FunctionLog.LogIffBracketed | docmesh_py_core/function_logging.py:68-77 | record sequences are logs of some forest of calls if and only if they are well bracketed |
| CsvLists.StripTwice | docmesh_py_core/config.py:29 | stripping is idempotent and keeps a text free of commas |
| CsvLists.StripIs | docmesh_py_core/config.py:29 | stripping removes the spaces at both ends and nothing else |
| CsvLists.StripStringsIs | docmesh_py_core/config.py:26-31 | the validator strips a text, makes a blank one unset and leaves other values alone |
| CsvLists.ParseCsvIs | docmesh_py_core/config.py:46-55 | a comma anywhere separates what is parsed on its own, a piece gives its stripped text or nothing, an unset value no items, a list itself, anything else an error |
| CsvLists.TwoItems | docmesh_py_core/config.py:52 | two items and a blank piece |
| CsvLists.StripStringsIsTransparent | docmesh_py_core/config.py:24-55 | the strip validator in front of the parser does not change what is parsed, for any value |
| CsvLists.ParsedAreItems | docmesh_py_core/config.py:52 | parsed items are non-empty, trimmed and free of commas |
| CsvLists.ParsePrinted | test_docmesh_py_core/conftest.py:149-150 | parsing a printed list of such items gives the list back |
| CsvLists.PrintedListIsNormalForm | docmesh_py_core/config.py:46-55 | parse, print and parse again is parse, for every string |
| ErrorTypes.ComputeErrorType | docmesh_py_core/factories.py:289-296 | the loop computes the snake-case name, and `error` for an empty one |
| ErrorTypes.ErrorTypeIs | docmesh_py_core/factories.py:289-296 | letter by letter: small letters, an underscore before each capital but the first character, `error` for nothing |
| ErrorTypes.AbbreviationIsSpelled | docmesh_py_core/factories.py:289-296 | `IOError` becomes `i_o_error` |
| ErrorTypes.ClassNameReadBackIff | docmesh_py_core/factories.py:289-296 | the class name can be read back if and only if it has no underscore and no small first letter |
| ErrorTypes.ErrorTypesAreDistinct | docmesh_py_core/factories.py:289-296 | such class names have equal error types if and only if they are equal |

## Left out

- MaskSensitiveValue: the library's lists and formats are arbitrary, and its check of host names outside ASCII is left out.
- UrlPasswordIsHiddenIff: where the user name holds a bracket, PasswordsShareFormIff says the same as long as the library's check does not depend on the password.
- MaskQuery: characters stand for bytes; the UTF-8 coding of other characters around percent-encoding is not part of this model.
- MaskText: text outside ASCII, where lowering can change the length of a string.
- ValueBehindMarkerIsHidden: speaks of first occurrences only, because a repeated marker does keep its later values; FieldIsExact says which.
- DecidedValueIsHiddenIff: needs a condition on the text, which ValueIsHiddenIff does not; it is for reading the answer off the text.
- SteadyDroppedIff: likewise, beside DroppedIff.
- MaskedTextStructure: the three asterisks may have been in the input, so a field that ends with them counts as kept and as cut.
- DecodeAndValidateJwt: the texts of validation errors, and the mapping of claims to a user record; the first and second attempt word the same failure differently.
- FetchAccessToken: the payload and headers of the POST, error texts, and latency numbers; only the number of timer readings is counted.
- RetryCall: an operation is a stream of outcomes; its arguments are fixed when it is made.
- CheckSequential: latency numbers; exceptions outside `Exception`.
- CheckParallel: same; the masking of the message is an arbitrary function of it.
- Provision: the admin API itself; deleting is never called, so it has no operation here.
- Wrapper: calls cancelled by exceptions outside `Exception`, and records of several threads or tasks mixed in one log.
- ComputeErrorType: class names outside ASCII.
- SSL contexts, the urllib HTTP client, client construction for the other services, `configure_logging` and settings validation other than CSV lists.
