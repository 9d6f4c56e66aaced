# Nevis Mobile Authentication example app (iOS, RxSwift): a Dafny model of its decision logic

The app is a UIKit/RxSwift example client of the closed Nevis Mobile Authentication SDK. Most of
it is screens and thin adapters. This project models the parts that make decisions, and proves
what they promise:

- **Validation and text encoding.**
  - `AuthCloudApiRegistrationValidator`: exactly one of two fields must be filled in.
  - `JWTValidator`: the token-shape pattern, re-expressed as a five-state recogniser and proved equal to the pattern.
  - `ValidationError` / `ValidationResult`: message joining and the validity flag.
  - `String+Extension`: `isNumeric`, `isAlphanumeric`, `isEmptyOrNil`, and `percentEscaped`. The escape is the byte serializer of the WHATWG URL Standard, section 5.2 (application/x-www-form-urlencoded). A decode of the escaped string gives back the string's UTF-8 bytes.
  - `URLRequest+Extension`: the form-body builder.
- **Account and authenticator filtering and the selection dispatch.**
  - The two validators, the three authenticator selectors, the account selector and `Authenticator.isEnrolled`.
  - SDK types are abstract datatypes, and the SDK's oracles (`isPolicyCompliant`, `isRegistered`, `isEnrolled`) are function-valued fields.
  - What a selector does to its handler or emitter is a returned action value, so "exactly one outcome per call" is a property of that value.
- **The view models' state machines** (Credential, PIN, Confirmation, Result, and the decision logic of Home).
  - Each is a class with an operation tag and optional handler fields.
  - Handlers are opaque ids. A ghost trace records every call the screen makes on them.
  - On the Credential and PIN screens the proved invariant is this: at most one handler is live, no handler is cancelled twice, and the teardown cancels only handlers still set.
  - The Confirmation screen keeps its handler after confirm and cancel, as the source does. Each tap repeats the call, and the model records every repetition.
- **Two stateful structures.**
  - `ActivityIndicator`'s in-flight counter, with its emitted `loading` trace.
  - `AppCoordinatorImpl`'s navigation stack: push, reset to Home, and refresh instead of push for the Credential screen.

Shared modules:
- `Wrappers`: Option and Result.
- `Seqs`: filter, map, join, split and subsequence, with their lemmas.
- `Utf8`: bytes and the UTF-8 encoder.
- `Localization`: values standing for the L10n entries.
- `Vendor`: the abstract SDK types.
- `Domain`: operations and errors.
- `HandlerCalls`: the handler-call trace and its lemmas.

## Model

| member | source | states |
|---|---|---|
| ValidationResults.Message | NevisExampleApp/Presentation/Utility/Validation/ValidationResult.swift:15-22 | the message is empty on success and the error's newline-joined description on failure |
| ValidationResults.IsValid | NevisExampleApp/Presentation/Utility/Validation/ValidationResult.swift:25-32 | true exactly for a success |
| ValidationResults.ValidImpliesEmptyMessage | NevisExampleApp/Presentation/Utility/Validation/ValidationResult.swift:15-32 | a valid result has an empty message, and an error without messages also has an empty message yet is not valid |
| ValidationErrors.FromMessages | NevisExampleApp/Presentation/Utility/Validation/ValidationError.swift:22-24 | the error keeps exactly the given messages |
| ValidationErrors.FromMessage | NevisExampleApp/Presentation/Utility/Validation/ValidationError.swift:29-31 | a single-message error holds just that message |
| ValidationErrors.FromStringLiteral | NevisExampleApp/Presentation/Utility/Validation/ValidationError.swift:66-68 | a string literal makes the same error as the single-message initializer |
| ValidationErrors.ErrorDescription | NevisExampleApp/Presentation/Utility/Validation/ValidationError.swift:39-41 | the localized error description is always present |
| ValidationErrors.FailureReason | NevisExampleApp/Presentation/Utility/Validation/ValidationError.swift:44-46 | the failure reason is always present |
| ValidationErrors.LocalizedTextsAreDescription | NevisExampleApp/Presentation/Utility/Validation/ValidationError.swift:39-56 | the error description and the failure reason are both the messages joined by newlines |
| ValidationErrors.DescriptionOfFewMessages | NevisExampleApp/Presentation/Utility/Validation/ValidationError.swift:54-56 | the description of one message is that message, and of no message the empty string |
| ValidationErrors.DescriptionRoundTrip | NevisExampleApp/Presentation/Utility/Validation/ValidationError.swift:54-56 | when no message contains a newline, splitting the description at newlines gives back the messages |
| JwtValidation.DefaultValidator | NevisExampleApp/Presentation/Utility/Validation/JWTValidator.swift:22-24 | the default validator fails with "JWT validation failed!" |
| JwtValidation.PatternIffCore | NevisExampleApp/Presentation/Utility/Validation/JWTValidator.swift:36 | the regular expression matches exactly the strings with a non-empty first segment, a dot, one more segment character and a tail of allowed characters |
| JwtValidation.RunMeaning | NevisExampleApp/Presentation/Utility/Validation/JWTValidator.swift:36 | each state of the left-to-right recogniser means exactly one stage of the pattern read so far: nothing, a first segment, a segment and its dot, or a complete token |
| JwtValidation.RunRecognisesPattern | NevisExampleApp/Presentation/Utility/Validation/JWTValidator.swift:36 | the recogniser accepts exactly the strings matching the pattern |
| JwtValidation.PatternNecessities | NevisExampleApp/Presentation/Utility/Validation/JWTValidator.swift:36 | a matching token has at least three characters, starts with a segment character, contains a dot and has only tail-class characters |
| JwtValidation.ValidateAsWritten | NevisExampleApp/Presentation/Utility/Validation/JWTValidator.swift:35-43 | accepted exactly when the searched range matches the pattern, or matches it up to one final line terminator or CRLF; so every string matching the pattern is accepted, and a rejection carries the validator's single message |
| JwtValidation.AsWrittenMeaning | NevisExampleApp/Presentation/Utility/Validation/JWTValidator.swift:36 | the recogniser run on the whole string and on its one- and two-character-shorter prefixes decides ICU's `$` semantics of the pattern |
| JwtValidation.CrlfPairs | NevisExampleApp/Presentation/Utility/Validation/JWTValidator.swift:38 | counts the CRLF pairs, at most the length, and none without a carriage return |
| JwtValidation.SearchedRange | NevisExampleApp/Presentation/Utility/Validation/JWTValidator.swift:38 | the range `NSRange(location: 0, length: jwt.count)` covers the prefix one unit shorter per CRLF pair, and the whole string when there is no carriage return |
| JwtValidation.PatternImpliesNoCr | NevisExampleApp/Presentation/Utility/Validation/JWTValidator.swift:36-38 | a string matching the pattern has no carriage return, so its whole length is searched |
| JwtValidation.CrlfTailIgnored | NevisExampleApp/Presentation/Utility/Validation/JWTValidator.swift:37-38 | "a.b\r\nX" is accepted although it does not match the pattern: its range stops before the "X", and `$` matches before the final CRLF |
| JwtValidation.TrailingNewlineAccepted | NevisExampleApp/Presentation/Utility/Validation/JWTValidator.swift:36-38 | "a.b" followed by a newline is accepted although it does not match the pattern |
| JwtValidation.Validate | NevisExampleApp/Presentation/Utility/Validation/JWTValidator.swift:35-43 | a token is accepted exactly when it matches the pattern up to the very end, and a rejection carries the validator's single message |
| JwtValidation.ValidateExamples | NevisExampleApp/Presentation/Utility/Validation/JWTValidator.swift:35-43 | "ab.cd.ef" and "ab.cd" are accepted; "", "abc" and ".ab" are rejected |
| JwtValidation.AsWrittenAcceptsMore | NevisExampleApp/Presentation/Utility/Validation/JWTValidator.swift:35-43 | whatever the end-anchored validator accepts, the validator as written accepts too |
| AuthCloudApiRegistrationValidation.Validate | NevisExampleApp/Presentation/Utility/Validation/AuthCloudApiRegistrationValidator.swift:22-36 | valid exactly when one of the enroll response and the app link URI is given and non-empty; both missing fail with the missing-data message, both given with the wrong-data message, each as a single message |
| StringExtension.RangeOfCharacter | NevisExampleApp/Common/Extensions/String+Extension.swift:13-22 | no position is found exactly when no character lies in the set; a found position is the first character in the set |
| StringExtension.IsNumeric | NevisExampleApp/Common/Extensions/String+Extension.swift:12-14 | true exactly for a non-empty string of decimal digits |
| StringExtension.IsAlphanumeric | NevisExampleApp/Common/Extensions/String+Extension.swift:19-23 | true exactly when every character is an ASCII letter or digit, with either flag; so the empty string answers true |
| StringExtension.IsEmptyOrNil | NevisExampleApp/Common/Extensions/String+Extension.swift:38-40 | true exactly for nil and for the empty string |
| StringExtension.AddingPercentEncodingAppend | NevisExampleApp/Common/Extensions/String+Extension.swift:30 | percent encoding works character by character: the encoding of a concatenation is the concatenation of the encodings |
| StringExtension.ReplacingOccurrencesAppend | NevisExampleApp/Common/Extensions/String+Extension.swift:31 | replacing spaces works character by character |
| StringExtension.PercentEncodeBytesAlphabet | NevisExampleApp/Common/Extensions/String+Extension.swift:30 | an escaped byte sequence holds only '%' and hexadecimal digits |
| StringExtension.ReplacingOccurrencesNoOp | NevisExampleApp/Common/Extensions/String+Extension.swift:31 | replacing a character that does not occur leaves the string unchanged |
| StringExtension.PercentEscapedAppend | NevisExampleApp/Common/Extensions/String+Extension.swift:26-32 | the escape of a concatenation is the concatenation of the escapes |
| StringExtension.PercentEscapedChar | NevisExampleApp/Common/Extensions/String+Extension.swift:26-32 | a letter, a digit or one of "-._*" passes unchanged, a space becomes '+', and any other character becomes its UTF-8 bytes as %XX |
| StringExtension.PlusIsEscaped | NevisExampleApp/Common/Extensions/String+Extension.swift:26-32 | '+' is escaped as "%2B", so it cannot be read back as a space |
| StringExtension.PercentEscapedAlphabet | NevisExampleApp/Common/Extensions/String+Extension.swift:26-32 | the escape holds only allowed characters other than the space, '+' and '%' |
| StringExtension.EncodedByteDecodes | NevisExampleApp/Common/Extensions/String+Extension.swift:30 | the %XX escape of a byte form-decodes back to that byte, whatever follows it |
| StringExtension.DecodePercentEncodedBytes | NevisExampleApp/Common/Extensions/String+Extension.swift:30 | the escape of a byte sequence form-decodes back to that sequence, whatever follows it |
| StringExtension.DecodeEscapedChar | NevisExampleApp/Common/Extensions/String+Extension.swift:26-32 | the escape of one character form-decodes to its UTF-8 bytes, whatever follows it |
| StringExtension.DecodeEscaped | NevisExampleApp/Common/Extensions/String+Extension.swift:26-32 | the escape of a string form-decodes to its UTF-8 bytes, whatever follows it |
| StringExtension.PercentEscapedRoundTrip | NevisExampleApp/Common/Extensions/String+Extension.swift:26-32 | form-decoding the escape of a string gives back the string's UTF-8 bytes |
| UrlRequestExtension.Pairs | NevisExampleApp/Data/Extensions/URLRequest+Extension.swift:14-17 | one pair string per key, in the dictionary's enumeration order |
| UrlRequestExtension.UrlRequest.Encode | NevisExampleApp/Data/Extensions/URLRequest+Extension.swift:13-20 | only the body changes, and it becomes the UTF-8 bytes of the pairs joined by "&" |
| UrlRequestExtension.PairsCount | NevisExampleApp/Data/Extensions/URLRequest+Extension.swift:14-17 | there are exactly as many pairs as dictionary entries |
| UrlRequestExtension.PairsPermutation | NevisExampleApp/Data/Extensions/URLRequest+Extension.swift:14-17 | any two enumeration orders give the same pairs, permuted |
| UrlRequestExtension.EmptyParametersGiveEmptyBody | NevisExampleApp/Data/Extensions/URLRequest+Extension.swift:13-20 | an empty dictionary gives an empty, non-nil body |
| UrlRequestExtension.PairShape | NevisExampleApp/Data/Extensions/URLRequest+Extension.swift:16 | a pair is the key, '=', and an escaped value that form-decodes to the value's bytes followed by a stray ')' |
| UrlRequestExtension.BodySplitsIntoPairs | NevisExampleApp/Data/Extensions/URLRequest+Extension.swift:14-19 | when no key contains '&', the body splits back at '&' into exactly its pairs |
| UrlRequestExtension.IntendedPairShape | NevisExampleApp/Data/Extensions/URLRequest+Extension.swift:16 | the pair without the stray ')' form-decodes to exactly the value's bytes |
| UrlRequestExtension.PairAsWrittenDiffers | NevisExampleApp/Data/Extensions/URLRequest+Extension.swift:16 | every pair as written is the intended pair plus ')', and its value decodes to something different |
| Utf8.EncodeChar | NevisExampleApp/Data/Extensions/URLRequest+Extension.swift:19 | one to four bytes per character, a single byte equal to the code exactly for ASCII, and only bytes of 0x80 or more otherwise |
| Utf8.EncodeAppend | NevisExampleApp/Data/Extensions/URLRequest+Extension.swift:19 | the encoding of a concatenation is the concatenation of the encodings |
| Utf8.EncodeAscii | NevisExampleApp/Data/Extensions/URLRequest+Extension.swift:19 | an ASCII-only string encodes to one byte per character, each equal to its code |
| AuthenticatorExtension.IsEnrolled | NevisExampleApp/Common/Extensions/Authenticator+Extension.swift:16-25 | an SDK enrollment answers for the given user, an OS enrollment answers for the device, any other kind is never enrolled |
| AuthenticatorExtension.OsEnrollmentIgnoresUsername | NevisExampleApp/Common/Extensions/Authenticator+Extension.swift:20-21 | with an OS enrollment every username gets the same answer |
| AuthenticatorExtension.EnrolledMeansSdkOrOs | NevisExampleApp/Common/Extensions/Authenticator+Extension.swift:17-24 | only the SDK and OS kinds can report an enrolled user |
| AccountValidation.CompliantAccountsMembership | NevisExampleApp/Domain/Validators/AccountValidatorImpl.swift:23-27 | an account is inserted for an authenticator exactly when that authenticator registered it and the policy allows the pair |
| AccountValidation.ContributedMembership | NevisExampleApp/Domain/Validators/AccountValidatorImpl.swift:22-28 | an account is collected exactly when some of the given authenticators has it registered and the policy allows it with that authenticator |
| AccountValidation.ValidAccountsMeaning | NevisExampleApp/Domain/Validators/AccountValidatorImpl.swift:15-31 | the validation throws authenticatorNotFound exactly when no authenticator is hardware-supported; otherwise an account is in the set exactly when a supported authenticator registered it under a compliant policy, and the set may be empty |
| AccountValidation.UnregisteredContributesNothing | NevisExampleApp/Domain/Validators/AccountValidatorImpl.swift:23 | an authenticator without a registration contributes no account |
| AccountValidation.InsertCompliant | NevisExampleApp/Domain/Validators/AccountValidatorImpl.swift:23-27 | the inner loop adds exactly the compliant registered accounts of one authenticator to the set |
| AccountValidation.CollectAccounts | NevisExampleApp/Domain/Validators/AccountValidatorImpl.swift:21-28 | the outer loop collects exactly what the supported authenticators contribute |
| AccountValidation.Validate | NevisExampleApp/Domain/Validators/AccountValidatorImpl.swift:15-31 | the method returns or throws exactly the specified result |
| AuthenticatorValidation.AllowedAuthenticators | NevisExampleApp/Domain/Validators/AuthenticatorValidatorImpl.swift:74-79 | keeps, in order, exactly the authenticators whose aaid parses to an allowlisted value, each with as many copies as the context holds |
| AuthenticatorValidation.Validated | NevisExampleApp/Domain/Validators/AuthenticatorValidatorImpl.swift:31-63 | a configuration that fails to load is passed on; otherwise the result fails with authenticatorNotFound exactly when no allowlisted authenticator passes the filter, and on success is a non-empty, ordered subsequence holding exactly the allowlisted authenticators that pass it, each with as many copies as the context holds |
| AuthenticatorValidation.ValidateForRegistration | NevisExampleApp/Domain/Validators/AuthenticatorValidatorImpl.swift:31-46 | as above, with the filter "hardware-supported and policy-compliant" |
| AuthenticatorValidation.ValidateForAuthentication | NevisExampleApp/Domain/Validators/AuthenticatorValidatorImpl.swift:48-63 | as above, with the filter "hardware-supported and registered for the context's user" |
| AuthenticatorSelection.Items | NevisExampleApp/Domain/Interaction/AuthenticatorSelectorImpl.swift:71-75 | one item per authenticator, in order, flagged with the policy's answer for its aaid and with the user's enrollment |
| AuthenticatorSelection.SelectAuthenticator | NevisExampleApp/Domain/Interaction/AuthenticatorSelectorImpl.swift:61-86 | exactly one outcome on the given handler: an emission exactly when the validation succeeds, with at least one item, each for an allowlisted, hardware-supported authenticator of the context that passes the operation's filter; otherwise the handler is cancelled |
| AuthenticationAuthenticatorSelection.SelectAuthenticator | NevisExampleApp/Domain/Interaction/AuthenticationAuthenticatorSelectorImpl.swift:42-62 | always one emission on the given handler and never a cancel, even with no items; the items are those of the filtered authenticators |
| AuthenticationAuthenticatorSelection.OfferedMeaning | NevisExampleApp/Domain/Interaction/AuthenticationAuthenticatorSelectorImpl.swift:44-52 | an authenticator is offered exactly when it is hardware-supported and registered for the user; one without a registration never is |
| AuthenticationAuthenticatorSelection.ItemsAreOffered | NevisExampleApp/Domain/Interaction/AuthenticationAuthenticatorSelectorImpl.swift:44-58 | the emitted items are, in order, exactly the context's supported authenticators registered for the user, each with as many copies as the context holds |
| AuthenticationAuthenticatorSelection.AgreesWithGenericSelector | NevisExampleApp/Domain/Interaction/AuthenticationAuthenticatorSelectorImpl.swift:42-62 | where every authenticator is allowlisted and some is offered, it emits exactly what the generic selector emits for authentication |
| RegistrationAuthenticatorSelection.SelectAuthenticator | NevisExampleApp/Domain/Interaction/RegistrationAuthenticatorSelectorImpl.swift:42-58 | always one emission on the given handler and never a cancel; the items are, in order, the supported and policy-compliant authenticators, each flagged compliant and with the user's enrollment |
| RegistrationAuthenticatorSelection.AgreesWithGenericSelector | NevisExampleApp/Domain/Interaction/RegistrationAuthenticatorSelectorImpl.swift:42-58 | where every authenticator is allowlisted and some is offered, it emits exactly what the generic selector emits for registration |
| RegistrationAuthenticatorSelection.RegistrationItemsAgree | NevisExampleApp/Domain/Interaction/RegistrationAuthenticatorSelectorImpl.swift:49-53 | on authenticators that pass the registration filter, the fixed true flag equals the policy's answer, so the items equal the generic ones |
| AccountSelection.TransactionText | NevisExampleApp/Domain/Interaction/AccountSelectorImpl.swift:55-73 | no text without transaction data; with data, the text is its UTF-8 decoding, which may fail |
| AccountSelection.SingletonElement | NevisExampleApp/Domain/Interaction/AccountSelectorImpl.swift:58 | a one-element set is exactly its element, so first! names the only account |
| AccountSelection.SelectAccount | NevisExampleApp/Domain/Interaction/AccountSelectorImpl.swift:44-85 | every outcome acts on the given handler: a validation error cancels it, no account sends the empty username, one account confirms the transaction when its text decodes and otherwise sends its username, and more accounts open the selection with all of them and the text |
| Home.Authenticate | NevisExampleApp/Presentation/Screens/Home/HomeViewModel.swift:247-257 | no accounts fails with accountsNotFound; otherwise all the accounts go to account selection for authentication |
| Home.Deregister | NevisExampleApp/Presentation/Screens/Home/HomeViewModel.swift:262-284 | never fails: the authentication cloud deregisters without a username, the identity suite opens account selection for deregistration with all accounts, even none |
| Home.EligibleAccounts | NevisExampleApp/Presentation/Screens/Home/HomeViewModel.swift:293-297 | keeps, in order, exactly the accounts whose username some enrolled account carries, each with as many copies as the input holds |
| Home.DispatchChange | NevisExampleApp/Presentation/Screens/Home/HomeViewModel.swift:299-314 | no eligible account fails with accountsNotFound, one is changed directly under its username, several go to account selection for the change |
| Home.GetSdkEnrollment | NevisExampleApp/Presentation/Screens/Home/HomeViewModel.swift:352-372 | succeeds exactly when the first authenticator with the aaid's raw value has an SDK-managed enrollment, and then returns that enrollment; otherwise fails with the aaid's own error |
| Home.ChangeCredential | NevisExampleApp/Presentation/Screens/Home/HomeViewModel.swift:289-346 | a failed enrollment lookup is passed on; otherwise the eligible accounts go through the count switch |
| Home.ChangePin | NevisExampleApp/Presentation/Screens/Home/HomeViewModel.swift:289-315 | only ever runs a PIN change or opens account selection for a PIN change |
| Home.ChangePassword | NevisExampleApp/Presentation/Screens/Home/HomeViewModel.swift:320-346 | only ever runs a password change or opens account selection for a password change |
| Home.ChangeWithEnrollment | NevisExampleApp/Presentation/Screens/Home/HomeViewModel.swift:289-346 | with the enrollment found: accountsNotFound exactly when no account is enrolled; several eligible accounts go to selection with enrolled accounts only; a direct change is for an enrolled account's username |
| Home.ChangeWithoutAuthenticator | NevisExampleApp/Presentation/Screens/Home/HomeViewModel.swift:362-364 | with no authenticator of the credential's aaid the change fails with that credential's not-found error |
| Activity.DistinctUntilChanged | NevisExampleApp/Presentation/Utility/Reactive/ActivityIndicator.swift:56 | the trace keeps its first and last values and exactly the values of the input, no longer than the input, with no value repeated twice in a row |
| Activity.DistinctUntilChangedKeepsDistinct | NevisExampleApp/Presentation/Utility/Reactive/ActivityIndicator.swift:56 | a trace without consecutive repeats passes unchanged |
| Activity.DistinctUntilChangedIdempotent | NevisExampleApp/Presentation/Utility/Reactive/ActivityIndicator.swift:56 | applying the operator twice is the same as once |
| Activity.LoadingFlags | NevisExampleApp/Presentation/Utility/Reactive/ActivityIndicator.swift:55 | one flag per counter value, true exactly for a positive value |
| Activity.ActivityIndicator.Loading | NevisExampleApp/Presentation/Utility/Reactive/ActivityIndicator.swift:54-55 | loading exactly while the counter is positive |
| Activity.ActivityIndicator.constructor | NevisExampleApp/Presentation/Utility/Reactive/ActivityIndicator.swift:47-57 | the counter starts at 0, nothing is tracked, and the loading trace is the single value false |
| Activity.ActivityIndicator.Increment | NevisExampleApp/Presentation/Utility/Reactive/ActivityIndicator.swift:91-95 | the counter goes up by one and the relay records the new value |
| Activity.ActivityIndicator.Decrement | NevisExampleApp/Presentation/Utility/Reactive/ActivityIndicator.swift:97-101 | the counter goes down by one and the relay records the new value |
| Activity.ActivityIndicator.Track | NevisExampleApp/Presentation/Utility/Reactive/ActivityIndicator.swift:82-89 | subscribing a tracked sequence hands out a fresh token, increments the counter, makes loading true and appends true to the trace unless it already ends in true; the counter stays the number of live tokens |
| Activity.ActivityIndicator.Dispose | NevisExampleApp/Presentation/Utility/Reactive/ActivityIndicator.swift:14-28 | disposing a live token decrements the counter once and extends the trace with the new loading value; disposing it again changes nothing; with no live token the counter is 0 and nothing is loading |
| Activity.ActivityIndicator.LoadingTraceShape | NevisExampleApp/Presentation/Utility/Reactive/ActivityIndicator.swift:35-57 | the loading trace starts with false, ends with the current loading value and never repeats a value twice in a row |
| CredentialView.Title | NevisExampleApp/Presentation/Screens/Credential/CredentialViewModel.swift:308-325 | a localized title for each PIN and password operation, and the empty text exactly for any other kind |
| CredentialView.Description | NevisExampleApp/Presentation/Screens/Credential/CredentialViewModel.swift:330-347 | a localized description for each PIN and password operation, and the empty text exactly for any other kind |
| CredentialView.TitleIdentifiesTheScreen | NevisExampleApp/Presentation/Screens/Credential/CredentialViewModel.swift:308-325 | different kinds or operations never share a title key |
| CredentialView.DescriptionIdentifiesTheScreen | NevisExampleApp/Presentation/Screens/Credential/CredentialViewModel.swift:330-347 | different kinds or operations never share a description key |
| CredentialView.TitleIsNeverDescription | NevisExampleApp/Presentation/Screens/Credential/CredentialViewModel.swift:308-347 | no title key is ever a description key |
| CredentialView.ConfirmCalls | NevisExampleApp/Presentation/Screens/Credential/CredentialViewModel.swift:387-405 | one call per set slot of the current operation, PIN slot first, none of them a cancel |
| CredentialView.CredentialReaction | NevisExampleApp/Presentation/Screens/Credential/CredentialViewModel.swift:432-484 | a PIN screen reacts to the PIN status, a password screen to the password status, any other kind publishes the default |
| CredentialView.CredentialTick | NevisExampleApp/Presentation/Screens/Credential/CredentialViewModel.swift:491-507 | a tick reports a cool-down exactly while time remains, with the kind's last-attempt-failed description and the remaining time |
| CredentialView.CredentialViewModel.PinSlotIndex | NevisExampleApp/Presentation/Screens/Credential/CredentialViewModel.swift:408-428 | each operation owns one PIN slot among the first three handler fields and the password slot three places later |
| CredentialView.CredentialViewModel.LastRecoverableError | NevisExampleApp/Presentation/Screens/Credential/CredentialViewModel.swift:352-361 | verification shows no error; enrollment and change show the PIN error's description when there is one, and otherwise the password error's description or nothing |
| CredentialView.CredentialViewModel.HideOldCredential | NevisExampleApp/Presentation/Screens/Credential/CredentialViewModel.swift:217 | the old credential is hidden for every operation but a change |
| CredentialView.CredentialViewModel.constructor | NevisExampleApp/Presentation/Screens/Credential/CredentialViewModel.swift:259-303 | the kind and operation come from the parameter, exactly that case's handler, status and error fields are set, the default protection information is published and no handler has been called |
| CredentialView.CredentialViewModel.Clear | NevisExampleApp/Presentation/Screens/Credential/CredentialViewModel.swift:366-379 | every handler slot is emptied and no handler is called |
| CredentialView.CredentialViewModel.Confirm | NevisExampleApp/Presentation/Screens/Credential/CredentialViewModel.swift:387-405 | the current operation's set handlers are called with the entered credentials, PIN before password, and stay set; nothing is cancelled |
| CredentialView.CredentialViewModel.Cancel | NevisExampleApp/Presentation/Screens/Credential/CredentialViewModel.swift:408-429 | the current operation's set handlers are cancelled, PIN before password, and emptied; the other four slots are unchanged and no handler has been cancelled twice |
| CredentialView.CredentialViewModel.Deinit | NevisExampleApp/Presentation/Screens/Credential/CredentialViewModel.swift:153-163 | every handler still set is cancelled, in field order, and no handler has been cancelled twice |
| CredentialView.CredentialViewModel.HandleProtectionStatus | NevisExampleApp/Presentation/Screens/Credential/CredentialViewModel.swift:432-484 | the reaction's information is published, and a started timer replaces the previous one |
| CredentialView.CredentialViewModel.CoolDownTick | NevisExampleApp/Presentation/Screens/Credential/CredentialViewModel.swift:492-507 | each tick publishes the tick information for the time remaining |
| PinView.Title | NevisExampleApp/Presentation/Screens/Pin/PinViewModel.swift:217-226 | every operation has a localized title |
| PinView.Description | NevisExampleApp/Presentation/Screens/Pin/PinViewModel.swift:231-240 | every operation has a localized description |
| PinView.TextsIdentifyTheOperation | NevisExampleApp/Presentation/Screens/Pin/PinViewModel.swift:217-240 | different operations never share a title or a description key, and no title key is a description key |
| PinView.AnswerCall | NevisExampleApp/Presentation/Screens/Pin/PinViewModel.swift:265-274 | confirming answers the operation's handler, never by a cancel: pin for enrollment, verify for verification, pins with the old and new PIN for a change |
| PinView.PinViewModel.Index | NevisExampleApp/Presentation/Screens/Pin/PinViewModel.swift:73-79 | each operation owns one of the three handler fields |
| PinView.PinViewModel.LastRecoverableError | NevisExampleApp/Presentation/Screens/Pin/PinViewModel.swift:245-254 | each operation shows its own recoverable error, or nothing |
| PinView.PinViewModel.HideOldPin | NevisExampleApp/Presentation/Screens/Pin/PinViewModel.swift:158 | the old PIN is hidden for every operation but a change |
| PinView.PinViewModel.constructor | NevisExampleApp/Presentation/Screens/Pin/PinViewModel.swift:191-212 | the operation, status and error come from the parameter, exactly that operation's handler is set, the default protection information is published and no handler has been called |
| PinView.PinViewModel.Confirm | NevisExampleApp/Presentation/Screens/Pin/PinViewModel.swift:262-280 | the operation's handler, which must be set, is answered once and emptied; the other handlers are unchanged |
| PinView.PinViewModel.Cancel | NevisExampleApp/Presentation/Screens/Pin/PinViewModel.swift:283-298 | the operation's handler is cancelled if set and emptied; the other handlers are unchanged |
| PinView.PinViewModel.Deinit | NevisExampleApp/Presentation/Screens/Pin/PinViewModel.swift:104-110 | every handler still set is cancelled; every handler has then been called exactly once and none cancelled twice |
| PinView.PinViewModel.HandleProtectionStatus | NevisExampleApp/Presentation/Screens/Pin/PinViewModel.swift:301-323 | the reaction to the PIN status is published, and a started timer replaces the previous one |
| PinView.PinViewModel.CoolDownTick | NevisExampleApp/Presentation/Screens/Pin/PinViewModel.swift:330-337 | each tick publishes the PIN tick information for the time remaining |
| PinView.ConfirmThenDeinitCancelsNothing | NevisExampleApp/Presentation/Screens/Pin/PinViewModel.swift:262-280 | after a confirm has emptied the only set slot, deinit cancels nothing |
| ProtectionInformation.React | NevisExampleApp/Presentation/Screens/Pin/PinViewModel.swift:301-323 | unlocked, absent and unknown statuses publish the default; a lock-out publishes its description; a failed last attempt publishes its description and whether a cool-down runs, and starts a timer for that cool-down and those tries exactly when it does |
| ProtectionInformation.CoolDownFlagMatchesTimer | NevisExampleApp/Presentation/Screens/Pin/PinViewModel.swift:306-314 | after a failed attempt the published cool-down flag is set exactly when a timer starts |
| ProtectionInformation.TicksContinueTheStatus | NevisExampleApp/Presentation/Screens/Pin/PinViewModel.swift:306-337 | a tick at the full cool-down republishes the status's own information, a tick reports a cool-down exactly while time remains, and the final tick ends it |
| ConfirmationView.Title | NevisExampleApp/Presentation/Screens/Confirmation/ConfirmationViewModel.swift:89 | the localized confirmation title with one argument, the authenticator's name when there is one |
| ConfirmationView.TitleNamesAuthenticator | NevisExampleApp/Presentation/Screens/Confirmation/ConfirmationViewModel.swift:89 | different authenticator names give different titles, and a missing name reads as the empty one |
| ConfirmationView.VerifyEach | NevisExampleApp/Presentation/Screens/Confirmation/ConfirmationViewModel.swift:92-93 | one verify call per set handler, in field order |
| ConfirmationView.ConfirmationViewModel.constructor | NevisExampleApp/Presentation/Screens/Confirmation/ConfirmationViewModel.swift:115-128 | the authenticator name is kept, exactly the handler of the parameter's kind is set, the title names the authenticator and no handler has been called |
| ConfirmationView.ConfirmationViewModel.Confirm | NevisExampleApp/Presentation/Screens/Confirmation/ConfirmationViewModel.swift:90-94 | the one set handler gets exactly one verify call and stays set |
| ConfirmationView.ConfirmationViewModel.Cancel | NevisExampleApp/Presentation/Screens/Confirmation/ConfirmationViewModel.swift:96-100 | the one set handler gets exactly one cancel call and stays set |
| Localization.OperationText | NevisExampleApp/Presentation/Utility/Extensions/Operation+Extension.swift:12-36 | the unknown operation's title is the empty string; every other operation gets its own title entry |
| ResultView.Title | NevisExampleApp/Presentation/Screens/Result/ResultViewModel.swift:127-138 | the generic failure title exactly when there is no operation; otherwise the success or failure title naming the operation |
| ResultView.TitleTellsOutcome | NevisExampleApp/Presentation/Screens/Result/ResultViewModel.swift:127-138 | a success title never equals a failure title, and titles of one outcome name different operations differently (compared as L10n keys and arguments; the unknown operation is named by the empty string) |
| ResultView.ResultViewModel.constructor | NevisExampleApp/Presentation/Screens/Result/ResultViewModel.swift:109-122 | a success keeps its operation and has no description; a failure keeps its optional operation and description; a success always has an operation |
| ResultView.ParameterTitle | NevisExampleApp/Presentation/Screens/Result/ResultViewModel.swift:109-138 | a success parameter shows the success title of its operation; a failure parameter shows the generic title exactly when it has no operation |
| AppCoordination.Destination | NevisExampleApp/Presentation/Coordinator/App/AppCoordinatorImpl.swift:93-191 | no push navigation leads to the Home, launch or Credential screen, which have their own navigations |
| AppCoordination.ScreenInStackFor | NevisExampleApp/Presentation/Coordinator/App/AppCoordinatorImpl.swift:56-73 | a screen is found exactly when one of that kind is in the stack, and the one found is of that kind and in the stack |
| AppCoordination.AppCoordinator.constructor | NevisExampleApp/Presentation/Coordinator/App/AppCoordinatorImpl.swift:28-40 | the resolved launch screen is the whole stack; without it there is no navigation controller; nothing is presented |
| AppCoordination.AppCoordinator.TopScreen | NevisExampleApp/Presentation/Coordinator/App/AppCoordinatorImpl.swift:47-49 | there is a top screen exactly when there is a navigation controller, and it is the last screen of the stack |
| AppCoordination.AppCoordinator.NavigateToHome | NevisExampleApp/Presentation/Coordinator/App/AppCoordinatorImpl.swift:56-73 | any alert is dismissed; a Home screen already in the stack becomes the only screen, else the resolved one does, else the stack is unchanged; a changed stack is a single Home screen |
| AppCoordination.AppCoordinator.Start | NevisExampleApp/Presentation/Coordinator/App/AppCoordinatorImpl.swift:51-54 | the same new state as navigating to Home |
| AppCoordination.AppCoordinator.Navigate | NevisExampleApp/Presentation/Coordinator/App/AppCoordinatorImpl.swift:93-191 | a resolved screen is pushed on top and the stack grows by one; a failed resolution changes nothing; no two Credential screens become adjacent |
| AppCoordination.AppCoordinator.Present | NevisExampleApp/Presentation/Coordinator/App/AppCoordinatorImpl.swift:193-195 | the alert is presented exactly when there is a navigation controller |
| AppCoordination.AppCoordinator.NavigateToQrScanner | NevisExampleApp/Presentation/Coordinator/App/AppCoordinatorImpl.swift:75-91 | on the simulator the stack is unchanged and the scan-unavailable alert is presented; otherwise the resolved scanner is pushed and nothing is presented |
| AppCoordination.AppCoordinator.NavigateToCredential | NevisExampleApp/Presentation/Coordinator/App/AppCoordinatorImpl.swift:141-161 | a Credential screen on top gets the new view model and is refreshed instead of a second one being pushed; otherwise the resolved screen is pushed; an unresolved screen changes nothing |
| HandlerCalls.Live | NevisExampleApp/Presentation/Screens/Credential/CredentialViewModel.swift:153-163 | the live handlers are exactly the set slots, and there are none exactly when every slot is empty |
| HandlerCalls.AtMostOneLive | NevisExampleApp/Presentation/Screens/Credential/CredentialViewModel.swift:153-163 | when at most one slot is set, at most one handler is live |
| HandlerCalls.CancelEach | NevisExampleApp/Presentation/Screens/Credential/CredentialViewModel.swift:153-163 | one cancel call per set slot, for that slot's handler, in field order |
| HandlerCalls.CancelFreshHandlers | NevisExampleApp/Presentation/Screens/Credential/CredentialViewModel.swift:153-163 | cancelling distinct handlers that were never cancelled introduces no double cancel |
| HandlerCalls.AppendWithoutCancel | NevisExampleApp/Presentation/Screens/Credential/CredentialViewModel.swift:387-405 | appending calls that cancel nothing leaves the cancelled handlers as they were |
| HandlerCalls.CancelSlots | NevisExampleApp/Presentation/Screens/Credential/CredentialViewModel.swift:408-429 | cancelling and emptying the PIN and password slots of one operation cancels no handler twice and leaves no live handler cancelled |
| HandlerCalls.SingleUseNoDoubleCancel | NevisExampleApp/Presentation/Screens/Pin/PinViewModel.swift:104-110 | a trace calling every handler at most once cancels none twice |
| HandlerCalls.AnswerSlot | NevisExampleApp/Presentation/Screens/Pin/PinViewModel.swift:262-280 | answering the handler of a slot once and emptying the slot keeps every handler called at most once, and that handler exactly once |
| HandlerCalls.CancelAllSlots | NevisExampleApp/Presentation/Screens/Pin/PinViewModel.swift:104-110 | cancelling every set slot calls each live handler exactly once and no handler twice |

## Left out

- UIKit screens, widgets and layout; RxSwift plumbing (`Driver`s, `transform`, `ErrorTracker`, `Observable.create`). The view-model logic is modelled as plain functions and methods.
- Logging (`SDKLogger`, `os_log`) has no effect on the logic and is not modelled.
- The closed SDK is abstract: `isPolicyCompliant`, `isRegistered`, `isSupportedByHardware` and `isEnrolled` are uninterpreted, and handlers are opaque ids whose calls are recorded in a ghost trace rather than performed.
- `AuthenticatorAaid`'s raw values are not part of this model. `AuthenticatorValidation` takes an `AaidTable` parameter (parse and raw value) in their place, and the allowlist is a parameter.
- `Authenticator.registration` is optional in the SDK revision the selectors and the account validator use, and non-optional in the one `AuthenticatorValidatorImpl` uses; the model has one optional field, and `AuthenticatorValidation` treats a missing registration as not registered.
- `AccountValidator.swift` declares an array result while `AccountValidatorImpl` returns a `Set`; the model follows the implementation.
- Decoding transaction data as UTF-8 (`String(data:encoding:)`) is a function parameter of `AccountSelection`.
- `URLRequest+Extension`: the order in which a dictionary enumerates its keys is unspecified, so it is a parameter, and the body is stated up to that order.
- StringExtension.IsNumeric, StringExtension.IsAlphanumeric: the character sets are ASCII. `CharacterSet.decimalDigits` and `alphanumerics` also contain non-ASCII digits and letters, which these two checks accept in the app and reject in the model. `percentEscaped` is not affected: `addingPercentEncoding(withAllowedCharacters:)` ignores allowed characters outside 7-bit ASCII, so only the ASCII part of its set takes effect and the model's set is exact.
- JwtValidation.ValidateAsWritten: `jwt.count` is modelled as the length minus the number of CRLF pairs, and the searched range as that many characters. That is exact for ASCII input. Other multi-scalar grapheme clusters (combining marks, emoji sequences) and characters outside the Basic Multilingual Plane, which take two UTF-16 units, are not modelled.
- JwtValidation.Validate: the pattern's `$` is modelled as the end of input, and the whole string is searched. The ICU behaviour (`$` also matches before a final line terminator) and the shortened range are modelled separately by `JwtValidation.ValidateAsWritten` (see Findings).
- Precondition failures on a parameter of the wrong screen type (`preconditionFailure`) are excluded by typing: each `setParameter` takes only its own screen's parameter.
- `PinView.PinViewModel.Confirm` requires the current handler to be set; the source force-unwraps it and would crash otherwise.
- `ResultView.ResultViewModel.constructor`: the source force-unwraps the operation of a success; the datatype of a success parameter always carries one.
- `CredentialView.CredentialViewModel.Confirm` keeps the handlers, as the source does, so a later `deinit` may cancel a handler that was already answered. The model states this rather than excluding it.
- `InteractionCountDownTimer`: the timing itself is left out; the per-tick information and which timer is started are modelled.
- `ActivityIndicator`'s `NSRecursiveLock` (concurrency) is left out; disposal of a tracked subscription is a method call.
- `AppCoordination`: screens the dependency container resolves (or fails to resolve) are parameters; whether the app runs on the simulator is a parameter. `screenInStackFor(screenType:)`'s body is not part of this model and is taken to find the first screen of that kind. UIKit's handling of an alert presented over another presentation is not modelled.
- `AppCoordination.AppCoordinator.Navigate` covers every push navigation (`changeDeviceInformation`, `authCloudApiRegistration`, `usernamePasswordLogin`, account and authenticator selection, transaction confirmation, confirmation, result) through a destination value; the screens' view-model parameters are not modelled.
- Home: the navigations and use-case calls are returned as action values; the use cases themselves (`deregister`, `changePin`, ...) run in the SDK and are not modelled.
- Configuration loading, the login repository (network), the launch and logging screens and the response classes without behaviour are not modelled.

## Findings

| source | as written | input that shows it | evidently intended | confidence | as-written member | corrected member |
|---|---|---|---|---|---|---|
| NevisExampleApp/Presentation/Utility/Validation/JWTValidator.swift:36-38 | the pattern ends in `$`, which ICU also matches before a final line terminator, so a token followed by a newline is accepted | "a.b\n" | only strings matching the pattern to the very end are accepted | not executed | JwtValidation.TrailingNewlineAccepted | JwtValidation.Validate |
| NevisExampleApp/Presentation/Utility/Validation/JWTValidator.swift:37-38 | the search range has the length `jwt.count`, which counts a CRLF pair as one `Character`, while `NSRange` counts UTF-16 units; the end of the string is never searched | "a.b\r\nX" | the whole string is searched (its UTF-16 length) | not executed | JwtValidation.CrlfTailIgnored | JwtValidation.Validate |
| NevisExampleApp/Data/Extensions/URLRequest+Extension.swift:16 | each pair is interpolated with a stray ')' after the escaped value | key "k", value "v" gives "k=v)" | the pair is the key, "=", and the escaped value | not executed | UrlRequestExtension.PairAsWrittenDiffers | UrlRequestExtension.IntendedPairShape |

The request body (`UrlRequestExtension.Body`) keeps the pair as written, since it states what the
app sends. `UrlRequestExtension.IntendedPair` is the corrected pair, proved to decode back to exactly
its value.
