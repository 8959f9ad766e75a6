# Pairing, message relay and account registry of a two-party encrypted chat server

This project models the server side of an end-to-end encrypted chat: the
Express routes that pair two e-mail addresses with a one-time code, accept a
signed ciphertext between a verified pair, list a caller's inbox, and register
and log in accounts. Each route is a pure step function
`(store, request) -> (reply, store')` over immutable datatypes. Cryptography
(bcrypt, base64, SPKI import, ECDSA verification) is a record of
function-valued oracles (`Oracles.Crypto`). `Math.random()`, `Date.now()` and
the authenticated caller's e-mail are parameters.

Modules, one per concern:

- `Common`: `Option`, JavaScript truthiness of optional strings, `Reply`.
- `Text`: `toLowerCase` on ASCII letters, and JavaScript's `<` on strings,
  proved to be a strict total order.
- `Decimal`: `toString()` of the six-digit codes (any integer up to 2^53,
  which JavaScript prints exactly), its inverse, and its length.
- `Utf8`: `TextEncoder.encode`.
- `Oracles`: the crypto primitives, and the bcrypt assumption `BcryptSound`.
- `Pairs`: the pair document, the canonical key `sortPairEmails`, the two
  phases a document moves between (awaiting a code, verified), the
  collection invariant, and the upsert.
- `Pairing`: `POST /request` and `POST /verify`.
- `Auth`: `POST /register`, `POST /login` and `GET /user/:email`.
- `Messaging`: the signed payload, `POST /send` and `GET /inbox/:email`.
- `Scenarios`: properties that span routes. These cover pairing unlocking
  both directions, delivery to both inboxes, the case-sensitivity gap, and
  the fact that registered accounts cannot send.

## Observations the proofs make explicit

- Pairing keys, `/send` and `/inbox` lower-case e-mail addresses, but
  `/register`, `/login` and `/user/:email` match them exactly. So `Alice@x`
  and `alice@x` can be two accounts (`Scenarios.RegisterKeepsCase`), yet
  they send as the same sender and read the same inbox
  (`Scenarios.CaseVariantsShareIdentity`). They also share every pair:
  `ALICE@x` requesting a code re-arms, and resets to unverified, the pair
  `alice@x` holds, and either can complete the verification
  (`Scenarios.CaseVariantsSharePairs`). An account whose e-mail has an
  upper-case letter is never found by `/send`
  (`Scenarios.MixedCaseSenderIsUnknown`).
- `/register` never stores a `signingPublicKey`, and `/send` requires one.
  So no account created by these routes alone can send
  (`Scenarios.RegisteredAccountsCannotSend`).
- The signed payload has no framing. Bytes can move across the
  recipient/nonce boundary and the nonce/ciphertext boundary without changing
  it (`Messaging.PayloadRecipientBoundaryAmbiguous`,
  `Messaging.PayloadNonceBoundaryAmbiguous`). It splits back only when both
  lengths are known (`Messaging.SplitPayloadRoundTrip`). With the nonce and
  ciphertext fixed, though, the payload does bind the recipient: two
  addresses give the same bytes exactly when they agree ignoring case
  (`Messaging.PayloadBindsRecipient`, through `Utf8.EncodeInjective`).

## Pairing behaviour as coded

- The code is drawn from 100000..999999, not 000000..999999, so it never has
  a leading zero.
- `Verified` is not terminal: a new `/request` resets the pair to
  unverified.
- A wrong code does not consume the OTP, so a later right code still works.
- The expiry test is `expiresAt < now`, so the code is accepted at the
  expiry instant.

## Model

| member | source | states |
|---|---|---|
| Text.LexTotal | server/routes/pair.js:11 | any two distinct strings are ordered by `<` one way or the other |
| Text.LexAsymmetric | server/routes/pair.js:11 | `a < b` and `b < a` never both hold |
| Text.LexTransitive | server/routes/pair.js:11 | `<` on strings is transitive |
| Text.LexIrreflexive | server/routes/pair.js:11 | no string is below itself |
| Text.Lower | server/routes/pair.js:9-10 | `toLowerCase` keeps the length and lower-cases each ASCII capital in place, leaving every other character alone |
| Text.LexLess | server/routes/pair.js:11 | the string `<` is strict, and no string is below the empty string |
| Text.LexLessIsReferenceOrder | server/routes/pair.js:11 | the character-by-character `<` agrees with the reference order: proper prefix, or smaller character at the first difference |
| Text.LowerIdempotent | server/routes/pair.js:9-10 | lower-casing twice is lower-casing once |
| Text.LowerFixedPoint | server/routes/message.js:33 | lower-casing changes a string exactly when it holds an upper-case letter |
| Pairs.SortPairEmails | server/routes/pair.js:8-12 | the key is the two lower-cased addresses, the smaller first |
| Pairs.SortPairSymmetric | server/routes/pair.js:8-12 | the key is the same whichever address comes first |
| Pairs.SortPairCaseInsensitive | server/routes/pair.js:9-10 | the key ignores the letter case of either address |
| Pairs.SortPairUnique | server/routes/pair.js:11 | the key is the only ordered arrangement of the lower-cased addresses with first not above second |
| Pairs.SortPairCanonical | server/routes/pair.js:8-12 | both key components are lower-case and ordered |
| Pairs.CanonicalKeysAgree | server/models/Pairs.js:11 | two canonical keys over the same two parties are one key, so one record per unordered pair |
| Pairs.StoredKeyIsSorted | server/models/Pairs.js:11 | in a well-formed collection, the only key that can hold two parties is `sortPairEmails` of them |
| Pairs.OtpPending | server/routes/pair.js:50-52 | the guard "hash and expiry on record" is, for a document in either phase, exactly "not yet verified" |
| Pairs.NewPair | server/models/Pairs.js:6-8 | a new document is unverified with null hash and null expiry |
| Pairs.UpsertOtp | server/routes/pair.js:26-30 | exactly the record at the key becomes unverified with the new hash and expiry, whatever it held before; the key set grows by that key only; other records are unchanged |
| Decimal.Render | server/routes/pair.js:22 | `toString()` yields at least one digit, digits only, no leading zero for a positive number |
| Decimal.ParseRender | server/routes/pair.js:22 | reading the rendered digits back gives the number |
| Decimal.RenderLength | server/routes/pair.js:22 | a number in [10^(k-1), 10^k) renders to exactly k digits |
| Pairing.OtpValue | server/routes/pair.js:22 | the drawn code lies in [100000, 999999] for every `Math.random()` result in [0, 1) |
| Pairing.OtpCode | server/routes/pair.js:22 | the code string has six decimal digits, no leading zero, and reads back as the drawn value |
| Pairing.RequestOtp | server/routes/pair.js:15-35 | no `to` gives 400 with nothing stored and nothing issued; otherwise the record at `sort(caller, to)` becomes unverified with `Hash(code)` and expiry `now + 600000`, only that key is added, other records unchanged, and the code is issued |
| Pairing.RequestSymmetric | server/routes/pair.js:20-30 | given the same code, bcrypt salt and time, a request from either party leaves the same collection |
| Pairing.RequestResetsVerified | server/routes/pair.js:26-30 | re-requesting for a verified pair makes it unverified |
| Pairing.RequestPreservesWellformed | server/routes/pair.js:20-30 | every key stays canonical with a non-empty larger party |
| Pairing.VerifyOtp | server/routes/pair.js:42-64 | missing fields give 400 first; "No OTP requested" iff no record or no hash or expiry; then "OTP expired" iff `expiresAt < now`; then "Invalid code" iff the compare fails; every failure is a 400 and changes nothing; success iff all pass, answering 200 "Pair verified" with verified set and hash and expiry cleared |
| Pairing.RequestPreservesPhases | server/routes/pair.js:26-30 | after a request every document is either awaiting a code (unverified, hash and expiry set) or verified (both cleared), given bcrypt hashes are non-empty |
| Pairing.VerifyPreservesPhases | server/routes/pair.js:59-62 | verification keeps every document in one of the two phases |
| Pairing.VerifiedPairHasNoOtp | server/routes/pair.js:50-52 | in a phased collection, verifying an already verified pair answers 400 "No OTP requested" and changes nothing |
| Pairing.VerifyPreservesWellformed | server/routes/pair.js:59-62 | verification keeps the collection invariant |
| Pairing.RequestThenVerify | server/routes/pair.js:22-64 | the issued code redeems the pair for either party until the expiry instant, given bcrypt's compare accepts its own hash |
| Pairing.VerifyAtExpiryInstant | server/routes/pair.js:53-55 | at `now == expiresAt` a matching code succeeds, one millisecond later it is expired |
| Pairing.WrongCodeKeepsOtp | server/routes/pair.js:56-57 | "Invalid code" leaves the collection unchanged and the right code then succeeds |
| Pairing.VerifySingleUse | server/routes/pair.js:59-64 | after a success the pair is verified and any further verify, from either party, fails with "No OTP requested" |
| Auth.Register | server/routes/auth.js:9-32 | a known e-mail gives 400 "Email already exists" with users unchanged; otherwise exactly one user is added, the e-mail as given, the password hashed, the public key verbatim and no signing key, the others unchanged, and the reply echoes e-mail and key with 201 |
| Auth.RegisterPreservesWellformed | server/models/User.js:4 | every stored user sits under its own e-mail, one user per e-mail |
| Auth.RegisterPreservesNoSigningKeys | server/routes/auth.js:18-23 | registration never gives any account a signing key |
| Auth.Login | server/routes/auth.js:38-58 | login succeeds iff the user exists and the password compares equal to the stored hash, and returns that user's e-mail and public key; every failure is the same 400 "Invalid email or password" |
| Auth.LoginFailuresIndistinguishable | server/routes/auth.js:43-50 | a wrong password and an unknown e-mail produce the identical reply |
| Auth.RegisterThenLogin | server/routes/auth.js:16-58 | a fresh account logs in with its password, and login and lookup return the registered key |
| Auth.LookupUser | server/routes/auth.js:66-69 | 404 "User not found" iff the e-mail is absent; otherwise 200 with only the stored public key |
| Utf8.Encode | server/routes/message.js:59-60 | `TextEncoder.encode` gives between one and four bytes per character |
| Utf8.EncodeAppend | server/routes/message.js:59-60 | encoding a concatenation is the concatenation of the encodings |
| Utf8.EncodeInjective | server/routes/message.js:59-60 | two strings with the same UTF-8 encoding are equal |
| Utf8.EncodeAscii | server/routes/message.js:60 | an ASCII address encodes to one byte per character, the character code |
| Messaging.Payload | server/routes/message.js:59-66 | the payload length is the sum of the parts, with recipient bytes at 0, nonce at the recipient length, ciphertext after both |
| Messaging.PayloadBindsRecipient | server/routes/message.js:59-66 | with the same nonce and ciphertext, two recipients give the same payload iff their lower-cased forms are equal |
| Messaging.SplitPayload | server/routes/message.js:63-66 | cutting at two lengths gives three parts of those lengths that concatenate to the payload |
| Messaging.SplitPayloadRoundTrip | server/routes/message.js:59-66 | with the recipient and nonce lengths known, the payload splits back into its parts |
| Messaging.PayloadRecipientBoundaryAmbiguous | server/routes/message.js:60-66 | a shorter recipient with its last character moved into the nonce yields the identical payload |
| Messaging.PayloadNonceBoundaryAmbiguous | server/routes/message.js:61-66 | a ciphertext byte moved into the nonce yields the identical payload |
| Messaging.Complete | server/routes/message.js:43-45 | a body is refused as incomplete iff one of the six required fields is falsy |
| Messaging.PairVerified | server/routes/message.js:47-51 | in a well-formed collection the gate opens iff some stored document for these two parties, in either order, is verified |
| Messaging.SenderKey | server/routes/message.js:53-56 | a key is found iff the lower-cased caller has a user record with a truthy signing key |
| Messaging.SignatureAccepted | server/routes/message.js:57-74 | a signature is accepted only when the sender's SPKI key string imports, and then iff ECDSA verification of the decoded signature over the payload succeeds |
| Messaging.SignatureIgnoresRecipientCase | server/routes/message.js:60 | the payload signs the lower-cased recipient, so a signature is accepted for one spelling of `to` exactly when it is accepted for the lower-cased one |
| Messaging.Send | server/routes/message.js:31-89 | missing fields give 400, an unverified pair 403, no signing key 400, a key that fails to import 500 `{error: 'Server error'}`, and a rejected signature over the payload 400 "Invalid signature"; success iff every check passes, and it answers 200 "Message sent successfully"; success appends exactly one message whose `from` is the lower-cased caller and `to` the lower-cased recipient, with the other five fields verbatim and timestamp `now`; no rejection stores anything |
| Messaging.SendChecksFieldsFirst | server/routes/message.js:43-48 | an incomplete body gets the same reply whatever the pair and user collections hold |
| Messaging.PairVerifiedSymmetric | server/routes/message.js:47-51 | the pair gate is the same in both directions |
| Messaging.NoSigningKeysBlocksSend | server/routes/message.js:53-56 | with no signing keys on record nothing is ever stored |
| Messaging.Mailbox | server/routes/message.js:99-101 | the query keeps each message to or from the address exactly as often as it is stored, and nothing else |
| Messaging.SortNewestFirst | server/routes/message.js:101 | the result is a permutation of the input with non-increasing timestamps |
| Messaging.Inbox | server/routes/message.js:93-103 | 403 iff the path address differs from the caller's ignoring case; otherwise exactly the stored messages to or from the lower-cased address, newest first |
| Scenarios.PairingUnlocksBothDirections | server/routes/message.js:47-51 | after a request by one party and verification by either, both directions pass the send gate |
| Scenarios.SentMessageReachesBothInboxes | server/routes/message.js:76-101 | an accepted message is listed in the recipient's and the sender's inbox |
| Scenarios.RegisterAllHasNoSigningKeys | server/routes/auth.js:18-25 | any run of registrations from accounts without signing keys leaves none with a signing key |
| Scenarios.RegisteredAccountsCannotSend | server/routes/message.js:53-56 | no account created only by registration can have a message accepted |
| Scenarios.RegisterKeepsCase | server/routes/auth.js:13-25 | an e-mail and its lower-cased form register as two distinct accounts |
| Scenarios.CaseVariantsShareIdentity | server/routes/message.js:33-98 | callers whose e-mails differ only in case get identical send results and identical inboxes |
| Scenarios.CaseVariantsSharePairs | server/routes/pair.js:15-64 | callers whose e-mails differ only in case get identical `/request` and `/verify` outcomes, replies and collections alike |
| Scenarios.MixedCaseSenderIsUnknown | server/routes/message.js:53-56 | a mixed-case account with a signing key cannot send unless some other account holds the lower-cased e-mail |

## Left out

- Cryptography: bcrypt, base64 decoding, SPKI import and ECDSA verification
  are oracles, never computed. bcrypt's random salt and its cost factor are
  folded into the `hash` function. `BcryptSound` states the one property
  used: a hash is a non-empty string that its secret compares equal to.
- `toLowerCase` lower-cases ASCII letters only. JavaScript also folds
  non-ASCII letters.
- `Text.LexTotal`: the order compares Unicode scalar values, while JavaScript
  compares UTF-16 code units. The two differ only between characters above
  U+FFFF and characters U+E000..U+FFFF.
- `Decimal.Render`: JavaScript writes numbers from 10^21 up in exponent
  form (`"1e+21"`) and loses exactness above 2^53. `Render` gives the plain
  digits of every natural number. The route only renders six-digit codes, so
  the difference never arises there.
- `Utf8.Encode`: a Dafny `char` is a Unicode scalar value. A JSON `to` can
  carry a lone UTF-16 surrogate, which `TextEncoder.encode` replaces by the
  bytes EF BF BD and `<` compares as one code unit. Lone surrogates are not
  modelled.
- `Pairing.OtpValue`: `Math.random()` is a real in [0, 1) and the
  arithmetic is exact. Double rounding is not modelled.
- `Messaging.SortNewestFirst`: among messages with equal timestamps, the
  model keeps stored order. The database leaves that order unspecified.
- 500 replies from exceptions are not modelled. They come from database
  errors, bcrypt failures, a `code` in `/verify` that is not a string (on
  which `bcrypt.compare` throws, `server/routes/pair.js:56`), and a `to` or
  `withEmail` that is not a string (on which `toLowerCase` throws). A number,
  boolean or plain object in `iv`, `encryptedMessage` or `signature` makes
  `Buffer.from` throw as well. A JSON array, or an array-like object, there
  does not throw: it becomes those bytes and reaches the signature check.
  `aesKeyForReceiver` and `aesKeyForSender` are stored without being decoded.
  The one exception the model includes is the failed SPKI import in
  `/send`, which it answers with 500 `{error: 'Server error'}`. Body fields
  are strings in the model.
- Register and login bodies without `email` or `password` are not
  modelled. Their outcome depends on how Mongoose treats an `undefined`
  filter value and on bcrypt's exception, both outside the model.
- Auth.Register: `email` is a string here. A JSON object in that field, such
  as `{"$ne": null}`, does not throw: Mongoose passes it to `findOne` as a
  query operator. The route then answers 400 "Email already exists"
  whenever some user matches the operator. Query operators are not modelled.
- Auth.Login: for the same reason, an operator object in `email` selects
  whichever user the query returns. Login then succeeds if the password
  matches that user's hash. Query operators are not modelled.
- Messaging.Send: the model stores the record the route builds
  (`server/routes/message.js:76-84`). The `Message` schema in
  `server/models/Message.js` declares required `contentForReceiver` and
  `contentForSender`, and none of the five ciphertext fields
  (`encryptedMessage`, `aesKeyForReceiver`, `aesKeyForSender`, `iv`,
  `signature`). It also declares required `from` and `to` and a `timestamp`
  default, which the model sets to `now`. As written, every
  `/send` that passes all checks would end in a failed save, a 500 with
  nothing stored. The model does not include this schema.
- The JSON Web Token is an opaque parameter. `server/helper/makeToken.js` is
  not part of this model, and neither is the authentication middleware: the
  caller's e-mail is a parameter.
- The `createdAt`/`updatedAt` timestamps of pair documents are not
  modelled, and neither is the `privateKey: "frontend-only"` field that
  register passes but the `User` schema does not declare.
- Mongoose's rejection of empty strings in `required` fields is not
  modelled; `a` and `b` are always present as the document's key.
- Pairing.VerifyOtp: a caller whose e-mail is `""` gets a pair document with
  `a == ""` from `/request`, because the upsert at
  `server/routes/pair.js:26-30` runs no validators. A correct code then makes
  `pair.save()` at `server/routes/pair.js:62` fail the `required` check on
  `a`, and the route answers 500. `VerifyOtp` answers 200 and marks the pair
  verified.
- Concurrency is not modelled: each upsert is one atomic step.
- The client pages and components, `client/src/helper/api.js` and
  `server/index.js` are not part of this model. They hold UI state, fetch
  calls, browser key generation and encryption, and server bootstrap.
- The hybrid cipher, fingerprint pinning and client-side decryption are not
  modelled, because they do not appear in the server routes.
- Delivery of the OTP to the console is modelled as the `issued` field of
  the `/request` outcome.
