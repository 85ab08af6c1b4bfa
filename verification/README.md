# Secure loyalty-coin transactions — a Dafny model

This project models the transaction core of a loyalty-rewards web application:

- **The browser hook** `useSecureTransaction` (module `Client`). It builds a coin
  transaction from the signed-in user's id, the amount, a fresh 32-byte nonce and
  the current time, and signs them with a SHA-256 hash. It throttles itself with a
  limiter kept in local storage. A coupon code is sent encrypted under a one-off
  AES-GCM key.
- **The crypto helpers** of `src/lib/crypto.ts` (modules `Hex`, `Decimal`,
  `Crypto`): hex encoding and its `parseInt`-based decoding, the hash message, the
  nonce and coupon-code generators, the key and cipher wrappers, and the local
  rate limiter.
- **The `secure-transaction` edge function** (modules `Backend`, `Gate`, `Ledger`).
  It is one step from a store (profiles and transaction rows) to a new store and an
  outcome. It runs the handler's checks in the code's order: identity, hash,
  nonce replay, freshness, rate, profile, funds, zero amount. Then it inserts the
  row, updates the balance, and rolls back on a failed update.
- **The reward catalogue page** (module `Rewards`): search and category filtering,
  the category list, the affordability flag and the client-side redemption writes.
- **The dashboard's tier progress** (module `Dashboard`): the tier table, the
  next-tier lookup, the coins needed and the capped percentage.

SHA-256 and AES-GCM are function-typed parameters (`Crypto.Sha256`, `Crypto.Seal`,
`Crypto.Open`). Random bytes, clocks, local storage, the authenticated identity and
database failures are explicit inputs. The server's own `createTransactionHash`
(`supabase/functions/secure-transaction/index.ts:203-216`) is textually the same as
the client's. Both are modelled by the single `Crypto.CreateTransactionHash`.

Points where the code's behaviour is easy to misread:

- **Check order.** The handler checks identity, then the hash, then the nonce, then
  freshness, then the rate (`Gate.RequestFailure`, `Gate.FirstFailure`).
- **Partial writes.** A rejection leaves the store unchanged, with one exception.
  When the balance update fails and the rollback delete also fails, the inserted
  row stays in place (`Gate.Step`, `Ledger.FailedRollbackLeavesOrphan`).
- **Tag comparison.** The hash is compared with `!==`, an ordinary string
  comparison. Only the lower-case hex spelling of the digest is accepted
  (`Crypto.VerifyTransactionHash`).
- **Query failures.** A failed nonce or rate query returns no data, and the handler
  then treats the check as passed (`Gate.NonceOk`, `Gate.RateOk`). A failed profile
  query is reported as a missing profile (`Gate.BalanceFailure`).
- **Replay check.** The nonce query uses `.single()`, which yields a row only when
  exactly one row matches (`Backend.SingleNonceRowMeans`). On stores with unique
  nonces this is the same as "the nonce is present"
  (`Backend.UniqueNonceMatchesAtMostOne`). With two matching rows the check passes
  (`Ledger.DuplicatedNonceNotDetected`).
- **Coupon decryption.** The server's coupon "decryption" copies the string through
  unchanged (`Gate.StoredCoupon`).

## Model

| member | source | states |
|---|---|---|
| Hex.Encode | src/lib/crypto.ts:24-26 | the hex text has two lower-case hex digits per byte |
| Hex.Decode | src/lib/crypto.ts:33-35 | one byte per one- or two-character chunk of the text |
| Hex.DecodeLength | src/lib/crypto.ts:33-35 | an even-length all-hex text decodes to half as many bytes |
| Hex.ParsePair | src/lib/crypto.ts:34 | `parseInt` of two hex digits in base 16 is 16·high + low |
| Hex.ParseByteToHex | src/lib/crypto.ts:22-35 | parsing a byte's two-digit form and storing it in a `Uint8Array` returns the byte |
| Hex.DecodeEncode | src/lib/crypto.ts:22-35 | decoding the hex of any byte sequence returns that sequence (the export/import round trip) |
| Hex.EncodeDecode | src/lib/crypto.ts:24-35 | re-encoding the bytes decoded from an even-length lower-case hex text gives the text back |
| Hex.OnlySpelling | src/lib/crypto.ts:24-35 | the hex encoding of some bytes is the only even-length lower-case hex text that decodes to them |
| Hex.EncodeInjective | src/lib/crypto.ts:24-26 | distinct byte sequences have distinct hex forms |
| Hex.ParseSingle | src/lib/crypto.ts:34 | `parseInt` of one hex digit in base 16 is that digit's value |
| Hex.DecodePairThen | src/lib/crypto.ts:34 | two hex digits at the front of the text become the first byte, 16·high + low, and decoding goes on with the rest |
| Hex.DecodeSkipThen | src/lib/crypto.ts:34 | `/.{1,2}/g` does not match line terminators, so one at the front of the text adds no byte |
| Hex.DecodeLoneDigit | src/lib/crypto.ts:34 | a last chunk of a single digit, as an odd-length text ends with, decodes to that digit's value |
| Decimal.IntToDecimal | src/lib/crypto.ts:129 | the printed integer is non-empty and contains no ':' |
| Decimal.DecimalValueOfNat | src/lib/crypto.ts:129 | the digits printed for a natural number read back as that number |
| Decimal.ParsePrinted | src/lib/crypto.ts:129 | reading back a printed integer, sign included, gives the integer |
| Decimal.IntToDecimalInjective | src/lib/crypto.ts:129 | distinct integers print differently |
| Crypto.CreateTransactionHash | src/lib/crypto.ts:122-135 | the tag is lower-case hex, twice the digest length, and decodes to the digest of `userId:amount:nonce:timestamp` |
| Crypto.VerifyTransactionHash | src/lib/crypto.ts:140-149 | a provided hash is accepted exactly when it is the lower-case hex spelling of the digest of the four fields: twice the digest length, lower-case digits only, decoding to the digest |
| Crypto.MessageLayout | src/lib/crypto.ts:129 | the hashed message holds the user id, the decimal amount, the nonce and the decimal timestamp, in that order, separated by single colons |
| Crypto.MessageInjective | src/lib/crypto.ts:129 | with colon-free user id and nonce, the hashed message determines all four fields |
| Crypto.TagDeterminesFields | src/lib/crypto.ts:122-149 | with colon-free ids and nonces, one tag that verifies for two different field tuples shows two different messages with the same SHA-256 digest |
| Crypto.ColonInUserIdCollides | src/lib/crypto.ts:129 | a ':' in the user id lets two different field tuples share one message |
| Crypto.GenerateTransactionNonce | src/lib/crypto.ts:111-117 | the nonce is 64 lower-case hex characters, so without ':', and decodes back to the 32 random bytes. By Hex.OnlySpelling it is the one such text |
| Crypto.AlphabetChars | src/lib/crypto.ts:156 | the alphabet has 36 characters, all upper-case letters or digits |
| Crypto.GenerateSecureCouponCode | src/lib/crypto.ts:155-163 | one character per random byte: character i is the alphabet's entry at byte i mod 36, so an upper-case letter or digit |
| Crypto.AlphabetIndex | src/lib/crypto.ts:156 | each alphabet character occurs once: its position and the character determine each other |
| Crypto.EveryCouponCodeIsGenerated | src/lib/crypto.ts:155-163 | every string over the alphabet is produced by some random input |
| Crypto.CouponCharBias | src/lib/crypto.ts:161 | 256 is not a multiple of 36, so the map is biased. Each of 'A' to 'D' comes from exactly 8 byte values and every other character from exactly 7 |
| Crypto.GenerateEncryptionKey | src/lib/crypto.ts:8-17 | the key holds 32 random bytes (AES-256) |
| Crypto.ExportKey | src/lib/crypto.ts:22-27 | the exported key is lower-case hex, two digits per key byte, and decodes to the key bytes |
| Crypto.ImportKey | src/lib/crypto.ts:32-44 | import succeeds exactly when the decoded text has 16, 24 or 32 bytes, and the key holds those bytes |
| Crypto.ImportExportedKey | src/lib/crypto.ts:22-44 | importing an exported AES key gives the key back |
| Crypto.EncryptCouponCode | src/lib/crypto.ts:49-76 | encryption fails exactly when the cipher fails; the IV text decodes to the 12 IV bytes |
| Crypto.DecryptCouponCode | src/lib/crypto.ts:81-105 | given the hex texts of a ciphertext and an IV, decryption opens exactly those bytes under the key |
| Crypto.CouponCipherRoundTrip | src/lib/crypto.ts:49-105 | for a cipher whose open inverts its seal, decrypting an encryption under the same key gives the coupon code back |
| Crypto.CheckRateLimit | src/lib/crypto.ts:169-187 | refuses exactly when `maxAttempts` attempts are still inside the window, and then leaves storage alone. When it allows, it stores as many attempts as were recent, all of them recent stored ones, then `now` last, at most `maxAttempts` in all, and touches no other key |
| Crypto.AllowedKeepsStoredOrder | src/lib/crypto.ts:178-185 | the attempts an allowed call keeps before `now` are a subsequence of the stored ones. With the count and recency above, they are exactly the recent stored attempts, in order |
| Crypto.FilterCountsRecent | src/lib/crypto.ts:178 | the filtered attempt list is as long as the count of recent attempts |
| Crypto.RateKeyInjective | src/lib/crypto.ts:174 | distinct operations use distinct storage keys |
| Crypto.OperationsIndependent | src/lib/crypto.ts:169-187 | an attempt for one operation never changes the verdict for another |
| Crypto.BurstAllowsExactlyMax | src/lib/crypto.ts:169-187 | starting with no recent attempts, a burst at one instant gets exactly the first `maxAttempts` calls allowed |
| Crypto.AllowedCountsOneMore | src/lib/crypto.ts:178-186 | an allowed attempt is stored, so the count of recent attempts grows by exactly one |
| Crypto.BurstFrom | src/lib/crypto.ts:169-187 | with `used` recent attempts, call i of a burst is allowed iff used + i < maxAttempts |
| Crypto.AllRecent | src/lib/crypto.ts:178 | a list of attempts all inside the window counts in full |
| Backend.Coins | supabase/functions/secure-transaction/index.ts:117 | a missing balance counts as 0 |
| Backend.FreshId | supabase/functions/secure-transaction/index.ts:134-147 | the inserted row's id differs from every existing id |
| Backend.RemoveId | supabase/functions/secure-transaction/index.ts:161-164 | the delete removes exactly the rows with the given id |
| Backend.RemoveFreshIdRestores | supabase/functions/secure-transaction/index.ts:159-164 | deleting the just-inserted row by id restores the table |
| Backend.SingleNonceRowMeans | supabase/functions/secure-transaction/index.ts:66-72 | the replay query's `.single()` finds a row exactly when one row, and no other, carries the nonce |
| Backend.CreatedSince | supabase/functions/secure-transaction/index.ts:84-91 | the rate query counts none exactly when no row is the caller's inside the window, and all exactly when every row is |
| Backend.NonceMatches | supabase/functions/secure-transaction/index.ts:66-72 | the nonce query matches no row iff no row carries the nonce |
| Backend.UniqueNonceMatchesAtMostOne | supabase/functions/secure-transaction/index.ts:66-74 | with unique nonces, `.single()` returns a row iff the nonce is present |
| Backend.AppendFreshNonce | supabase/functions/secure-transaction/index.ts:134-147 | inserting a row with an unseen nonce keeps nonces unique |
| Backend.NonceMatchesAppend | supabase/functions/secure-transaction/index.ts:66-72 | an appended row adds one match iff it carries the nonce |
| Backend.CreatedSinceAppend | supabase/functions/secure-transaction/index.ts:84-91 | an appended row adds one to the rate count iff it is the caller's and inside the window |
| Gate.SignedAmount | supabase/functions/secure-transaction/index.ts:138 | the stored amount has the request's magnitude and is positive exactly for "earn" |
| Gate.StoredCoupon | supabase/functions/secure-transaction/index.ts:96-104 | a non-empty coupon string is stored unchanged; a missing or empty one is stored as null |
| Gate.RequestFailure | supabase/functions/secure-transaction/index.ts:42-93 | names the first failing check among identity, hash, nonce, freshness and rate, every earlier one passing; none means all of them pass |
| Gate.IsFresh | supabase/functions/secure-transaction/index.ts:76-81 | a timestamp is fresh exactly when it is at most 5 minutes from the server clock in absolute value |
| Gate.BalanceFailure | supabase/functions/secure-transaction/index.ts:106-126 | a profile error first: a missing profile or a failed profile query. Then a redeem larger than the balance, then a zero amount, each reported only when the earlier ones do not apply. None means the query succeeded, the profile exists, the funds suffice and the amount is non-zero |
| Gate.PassesBelowMeans | supabase/functions/secure-transaction/index.ts:46-167 | "the first k checks pass" holds exactly when every check of rank below k passes |
| Gate.FirstFailure | supabase/functions/secure-transaction/index.ts:42-126 | names the first pre-write check that fails, all earlier ones passing, or none when all pass |
| Gate.Commit | supabase/functions/secure-transaction/index.ts:128-167 | a failed insert writes nothing. A failed update leaves the balances alone, and the table is unchanged after a successful rollback or has exactly the new row appended after a failed one. Otherwise it writes the row and the new balance |
| Gate.Step | supabase/functions/secure-transaction/index.ts:46-167 | accepts only when every check passes. A rejection names a failing check after passing ones. Every rejection other than a failed update changes nothing. A failed update leaves the balances alone and leaves exactly the new row only when its rollback fails. Acceptance appends one record and sets the balance to old + signed amount |
| Gate.AcceptedIffAllPass | supabase/functions/secure-transaction/index.ts:46-167 | a request is accepted iff every check passes |
| Ledger.ForeignUserRejectedFirst | supabase/functions/secure-transaction/index.ts:48-51 | a body naming another user is rejected as unauthorized, with no change |
| Ledger.FreshnessBoundary | supabase/functions/secure-transaction/index.ts:76-81 | timestamps exactly 5 minutes off either way pass; one more millisecond fails |
| Ledger.AcceptedCarriesValidHash | supabase/functions/secure-transaction/index.ts:53-63 | an accepted request carries the hash of its own fields, belongs to the caller, is fresh and non-zero |
| Ledger.RateLimitBoundary | supabase/functions/secure-transaction/index.ts:83-93 | 10 or more rows of the caller in the last minute reject the request; fewer never give a rate rejection |
| Ledger.ReplayRejected | supabase/functions/secure-transaction/index.ts:65-74 | resubmitting an accepted request is rejected and changes nothing (as a replay when the caller is the same) |
| Ledger.StepKeepsNoncesUnique | supabase/functions/secure-transaction/index.ts:65-74 | while the nonce query succeeds, unique nonces stay unique |
| Ledger.DuplicatedNonceNotDetected | supabase/functions/secure-transaction/index.ts:66-72 | a nonce already present twice passes the `.single()` replay check |
| Ledger.StepConserves | supabase/functions/secure-transaction/index.ts:128-167 | one request only appends rows and moves each balance by the amounts of that user's new rows |
| Ledger.RunConserves | supabase/functions/secure-transaction/index.ts:128-167 | over any run without failed rollbacks, each balance equals its start plus the sum of that user's new rows |
| Ledger.FailedRollbackLeavesOrphan | supabase/functions/secure-transaction/index.ts:153-167 | a failed update with a failed rollback keeps the balance but leaves the new row |
| Ledger.UnknownKindOverdraws | supabase/functions/secure-transaction/index.ts:119-139 | kind "bonus" for 10 coins against a balance of 5 is accepted with balance −5 |
| Ledger.AsDebit | supabase/functions/secure-transaction/index.ts:129-139 | every kind other than "earn" is treated as "redeem" and nothing else changes |
| Ledger.CheckedStep | supabase/functions/secure-transaction/index.ts:119-139 | corrected gate: every accepted debit is covered by the balance and agrees with the deployed gate for "earn" and "redeem" |
| Ledger.CheckedStepKeepsBalancesNonNegative | supabase/functions/secure-transaction/index.ts:119-156 | the corrected gate keeps all balances non-negative |
| Ledger.CheckedRunKeepsBalancesNonNegative | supabase/functions/secure-transaction/index.ts:119-156 | any run of the corrected gate keeps all balances non-negative |
| Ledger.RedeemScenario | supabase/functions/secure-transaction/index.ts:106-167 | U1 with 100 coins: a redeem of 150 is refused with no change, then a redeem of 50 leaves 50 |
| Client.KindName | src/hooks/useSecureTransaction.ts:14-19 | the hook sends only "earn" or "redeem" |
| Client.BuildRequest | src/hooks/useSecureTransaction.ts:49-94 | the body's hash verifies for its own user id, amount, nonce and timestamp; the nonce is lower-case hex and decodes to the random bytes |
| Client.ProcessSecureTransaction | src/hooks/useSecureTransaction.ts:26-124 | the request is sent exactly when there is a user, the limiter allows, a non-empty coupon encrypts and a session exists. The limiter is consulted, and its storage written, exactly when there is a user. Each refusal is reported under its own outcome. A sent body carries the user, amount, kind, description, nonce, timestamp and a valid hash. A non-empty coupon is replaced by its encrypted payload. Encryption failure is reported exactly when the cipher fails |
| Client.CalculateCouponValue | src/hooks/useSecureTransaction.ts:168-176 | a coupon is worth from 10 to 100 points |
| Client.CouponValueIgnoresOrder | src/hooks/useSecureTransaction.ts:168-176 | codes that are rearrangements of each other have the same value |
| Client.CharSumPermutation | src/hooks/useSecureTransaction.ts:170-172 | the character-code sum does not depend on character order |
| Client.RedeemCoupon | src/hooks/useSecureTransaction.ts:126-146 | an invalid code is refused before anything else and leaves storage alone. A valid code is sent exactly when there is a user, the limiter allows, the cipher succeeds and a session exists, and the limiter storage is written exactly when there is a user. A sent coupon request is an "earn" of the code's 10-100 point value. Its coupon field is the payload of the code's encryption under the one-off key |
| Client.RedeemReward | src/hooks/useSecureTransaction.ts:148-154 | nothing is encrypted, so the request is sent exactly when there is a user, the limiter allows and a session exists. Without a user it is refused and storage is unchanged, otherwise the limiter's storage is kept. A sent reward request is a "redeem" of exactly the cost, with no coupon |
| Client.GeneratedCouponsAreValid | src/hooks/useSecureTransaction.ts:128 | generated codes of 8 to 16 characters pass the format check |
| Client.ValidIffGenerated | src/hooks/useSecureTransaction.ts:128 | `/^[A-Z0-9]{8,16}$/` accepts exactly the codes `generateSecureCouponCode` can produce from 8 to 16 random bytes |
| Client.SentRequestPassesServerChecks | src/hooks/useSecureTransaction.ts:49-94 | a body the hook sends is never rejected by the server for identity, hash or freshness when it arrives within 5 minutes |
| Client.SentRequestsUnaffectedByDebitCheck | src/hooks/useSecureTransaction.ts:14-19 | for bodies the hook sends, the corrected and deployed gates agree |
| Client.CouponPayloadCarriesKey | src/hooks/useSecureTransaction.ts:56-64 | the coupon payload ends with the hex of its own key, which imports back to that key |
| Rewards.IncludesIffOccurs | src/pages/Rewards.tsx:99-102 | `includes` holds iff the term occurs at some position |
| Rewards.FilterRewards | src/pages/Rewards.tsx:95-110 | every shown reward is in the catalogue and matches; every matching reward is shown |
| Rewards.FilterRewardsIsOnePass | src/pages/Rewards.tsx:95-110 | the two filter stages equal one pass with the combined condition and keep catalogue order |
| Rewards.FilterRewardsShowsAll | src/pages/Rewards.tsx:95-110 | an empty search with "all" shows the whole catalogue unchanged |
| Rewards.Distinct | src/pages/Rewards.tsx:179 | same values as the input, each once, ordered by first occurrence |
| Rewards.Categories | src/pages/Rewards.tsx:179 | lists each category of the catalogue exactly once, in the order of first appearance in the catalogue |
| Rewards.HandleRedeem | src/pages/Rewards.tsx:112-177 | a short balance gives no writes and a positive shortfall. Otherwise the three writes go in order. A refused redemption insert leaves none, a refused transaction insert leaves the redemption, and a refused update leaves both inserts. On success the written balance is coins − price ≥ 0 |
| Rewards.CanAffordIffNotRefused | src/pages/Rewards.tsx:240 | the card's affordable flag is exactly the negation of the early-return guard at line 113 |
| Rewards.RedeemIsNotAtomic | src/pages/Rewards.tsx:122-158 | a failed balance update leaves the redemption and transaction rows written |
| Dashboard.Divide | src/pages/Dashboard.tsx:102 | division by zero gives NaN, +Infinity or −Infinity according to the numerator's sign |
| Dashboard.Min100 | src/pages/Dashboard.tsx:102 | `Math.min(x, 100)` keeps NaN, values up to 100 and −Infinity. Values above 100 and +Infinity become 100 |
| Dashboard.FindByName | src/pages/Dashboard.tsx:91 | finds the first tier with the name, or reports none |
| Dashboard.FindAbove | src/pages/Dashboard.tsx:97-99 | finds the first tier whose minimum exceeds the coins |
| Dashboard.NamesDistinct | src/pages/Dashboard.tsx:84-88 | each tier name identifies its own table row |
| Dashboard.CurrentCoins | src/pages/Dashboard.tsx:82 | the balance reads as 0 exactly when there is no profile or its coins are null or 0; otherwise it is the stored coins |
| Dashboard.CurrentTierName | src/pages/Dashboard.tsx:90 | a missing or empty tier name reads as Bronze; any other stored name is used as it is |
| Dashboard.LookupTier | src/pages/Dashboard.tsx:91 | a known name yields its table row; only Platinum has no upper bound |
| Dashboard.ProgressWithin | src/pages/Dashboard.tsx:97-108 | next tier is the first above the coins and then coins needed > 0, else ≤ 0. Progress is never NaN or +Infinity and at most 100; −Infinity only below the tier's own minimum |
| Dashboard.GetTierProgress | src/pages/Dashboard.tsx:81-109 | Platinum gives (100, none, 0); an unknown tier name fails; otherwise the next-tier, coins-needed and progress properties above hold |
| Dashboard.ConsistentTierProgress | src/pages/Dashboard.tsx:81-109 | a balance inside its tier's band shows the following tier, the distance to it and a progress in [0, 100) |
| Dashboard.ProgressInBand | src/pages/Dashboard.tsx:97-108 | inside the band, the next tier is the successor and the progress lies in [0, 100) |
| Dashboard.BelowOwnBand | src/pages/Dashboard.tsx:97-102 | a Silver member with 500 coins gets next tier Silver and progress −Infinity |

## Left out

- SHA-256, AES-GCM sealing and opening, and key generation are Web Crypto calls. They are function parameters, and the model claims nothing about them beyond "accept iff equal" and an assumed inverse for the round trip.
- Crypto.EncryptCouponCode: the UTF-8 encoding of the coupon before sealing is inside the `Seal` parameter.
- The HTTP plumbing is not modelled: `serve`, CORS, the JWT lookup, JSON parsing, the error responses and `supabase.functions.invoke`. The authenticated identity is an input, and the outcome is a `Reason`.
- Concurrency is not modelled. The nonce query and the insert are separate database calls, and the model says nothing about two requests racing.
- Gate.Step: `createdAt` is the handler's `now`, and row ids are fresh naturals. The database's own timestamp and id generation are not modelled.
- Amounts and timestamps are integers. Non-integer amounts, exponent notation for numbers of 1e21 or more and `NaN` are not modelled, so Decimal.IntToDecimal is plain decimal printing.
- Gate.Step: a body whose `timestamp` is missing or not a number is not modelled, because `Request.timestamp` is an integer. In the handler, `Math.abs(now - undefined)` is NaN and `NaN > 300000` is false (index.ts lines 76-81), so such a body passes the freshness check. Its hash over "…:undefined" is computable by any caller. The freshness conjunct of Ledger.AcceptedCarriesValidHash holds only for numeric timestamps.
- Crypto.GenerateSecureCouponCode, Crypto.CheckRateLimit: the default parameter values (12 characters; 5 attempts per 15 minutes) are not modelled. The length and the limits are inputs, and the callers pass 12 and 10 per 60 seconds explicitly.
- Characters are Unicode scalar values, not UTF-16 code units. Client.CalculateCouponValue only ever sees validated ASCII codes, where the two agree.
- Rewards.FilterRewards: `toLowerCase` maps only the ASCII letters. Unicode case mapping is not modelled.
- Dashboard.GetTierProgress: the percentage is an exact real, not a double.
- Dashboard.GetTierProgress: a tier name inherited from `Object.prototype` (for example "constructor") is not modelled. Such a name yields NaN arithmetic instead of the TypeError the model reports.
- Toasts, loading flags, the fetches that fill the catalogue and the balance, and the handling of the server's reply are presentation. They are not modelled.
- Rewards.HandleRedeem: the writes use `user?.id` as is (an absent user gives `None`). Row-level security, which decides whether such writes succeed, is not part of this model.
- Crypto.CheckRateLimit: a storage entry that is not valid JSON is not modelled. `JSON.parse` would throw on it.

## Findings

| source | as written | input that shows it | evidently intended | confidence | as-written member | corrected member |
|---|---|---|---|---|---|---|
| supabase/functions/secure-transaction/index.ts:119-139 | the funds check runs only for `type === 'redeem'`, but every type other than "earn" is debited | body with `type: "bonus"`, amount 10, balance 5: accepted, balance −5 | any debit is checked against the balance | medium, not executed; a database constraint on the `type` column would block it and is not part of this model | Ledger.UnknownKindOverdraws | Ledger.CheckedStep |
