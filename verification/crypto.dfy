/** The browser-side security helpers: transaction nonces and hashes, coupon
    codes, the coupon cipher wrappers and the local-storage rate limiter.

    The Web Crypto primitives are not modelled: SHA-256 and AES-GCM appear as
    function-typed parameters, and the random bytes, the clock and the
    local storage are explicit inputs. */
module Crypto {
  import opened Common
  import Hex
  import Decimal

  // ---------------------------------------------------------------------------
  // Transaction hash

  /** SHA-256 of the UTF-8 encoding of a string, as `crypto.subtle.digest` returns it. */
  type Sha256 = string -> seq<uint8>

  /** The text both client and server hash: `${userId}:${amount}:${nonce}:${timestamp}`,
      the numbers printed in decimal. */
  function TransactionMessage(userId: string, amount: int, nonce: string, timestamp: int): string {
    userId + ":" + Decimal.IntToDecimal(amount) + ":" + nonce + ":" + Decimal.IntToDecimal(timestamp)
  }

  /** Where each field sits in the message: the four fields in order, separated by
      single colons. */
  lemma MessageLayout(userId: string, amount: int, nonce: string, timestamp: int)
    ensures var m, a, t := TransactionMessage(userId, amount, nonce, timestamp), Decimal.IntToDecimal(amount), Decimal.IntToDecimal(timestamp);
      && |m| == |userId| + |a| + |nonce| + |t| + 3
      && m[..|userId|] == userId && m[|userId|] == ':'
      && m[|userId| + 1..|userId| + 1 + |a|] == a && m[|userId| + 1 + |a|] == ':'
      && m[|userId| + |a| + 2..|userId| + |a| + 2 + |nonce|] == nonce && m[|userId| + |a| + 2 + |nonce|] == ':'
      && m[|m| - |t|..] == t
  {
  }

  /** `createTransactionHash`: lower-case hex of the digest of the message. */
  function CreateTransactionHash(sha: Sha256, userId: string, amount: int, nonce: string, timestamp: int): (tag: string)
    ensures |tag| == 2 * |sha(TransactionMessage(userId, amount, nonce, timestamp))|
    ensures forall i :: 0 <= i < |tag| ==> Hex.IsLowerHexDigit(tag[i])
    ensures Hex.Decode(tag) == sha(TransactionMessage(userId, amount, nonce, timestamp))
  {
    var digest := sha(TransactionMessage(userId, amount, nonce, timestamp));
    Hex.DecodeEncode(digest);
    Hex.Encode(digest)
  }

  /** `verifyTransactionHash`: recompute and compare.  The strict string comparison
      accepts exactly the lower-case hex spelling of the digest: an upper-case
      spelling of the right digest is refused. */
  function VerifyTransactionHash(sha: Sha256, userId: string, amount: int, nonce: string, timestamp: int, providedHash: string): (ok: bool)
    ensures var digest := sha(TransactionMessage(userId, amount, nonce, timestamp));
      ok <==> && |providedHash| == 2 * |digest|
              && (forall i :: 0 <= i < |providedHash| ==> Hex.IsLowerHexDigit(providedHash[i]))
              && Hex.Decode(providedHash) == digest
  {
    Hex.OnlySpelling(providedHash, sha(TransactionMessage(userId, amount, nonce, timestamp)));
    CreateTransactionHash(sha, userId, amount, nonce, timestamp) == providedHash
  }

  predicate NoColon(s: string) {
    forall i :: 0 <= i < |s| ==> s[i] != ':'
  }

  /** `x + ":" + y` splits back at its first colon when `x` has none. */
  lemma SplitAtColon(x: string, y: string, x': string, y': string)
    requires NoColon(x) && NoColon(x')
    requires x + ":" + y == x' + ":" + y'
    ensures x == x' && y == y'
  {
    var s := x + ":" + y;
    assert s[|x|] == ':' && (x' + ":" + y')[|x'|] == ':';
    assert |x| == |x'|;
    assert x == s[..|x|] && x' == (x' + ":" + y')[..|x'|];
    assert y == s[|x| + 1..] && y' == (x' + ":" + y')[|x'| + 1..];
  }

  /** With colon-free user ids and nonces the message determines the fields. */
  lemma MessageInjective(u: string, a: int, n: string, t: int, u': string, a': int, n': string, t': int)
    requires NoColon(u) && NoColon(n) && NoColon(u') && NoColon(n')
    requires TransactionMessage(u, a, n, t) == TransactionMessage(u', a', n', t')
    ensures u == u' && a == a' && n == n' && t == t'
  {
    var da, dt, da', dt' := Decimal.IntToDecimal(a), Decimal.IntToDecimal(t), Decimal.IntToDecimal(a'), Decimal.IntToDecimal(t');
    assert TransactionMessage(u, a, n, t) == u + ":" + (da + ":" + (n + ":" + dt));
    assert TransactionMessage(u', a', n', t') == u' + ":" + (da' + ":" + (n' + ":" + dt'));
    SplitAtColon(u, da + ":" + (n + ":" + dt), u', da' + ":" + (n' + ":" + dt'));
    SplitAtColon(da, n + ":" + dt, da', n' + ":" + dt');
    SplitAtColon(n, dt, n', dt');
    Decimal.IntToDecimalInjective(a, a');
    Decimal.IntToDecimalInjective(t, t');
  }

  /** A tag verified for two different choices of fields (user ids and nonces
      without colons, as hex nonces are) exhibits a SHA-256 collision: two
      different messages with the same digest.  So forging a tag for altered
      fields is exactly as hard as finding such a collision. */
  lemma TagDeterminesFields(sha: Sha256, u: string, a: int, n: string, t: int,
                            u': string, a': int, n': string, t': int, tag: string)
    requires NoColon(u) && NoColon(n) && NoColon(u') && NoColon(n')
    requires VerifyTransactionHash(sha, u, a, n, t, tag) && VerifyTransactionHash(sha, u', a', n', t', tag)
    requires (u, a, n, t) != (u', a', n', t')
    ensures var m, m' := TransactionMessage(u, a, n, t), TransactionMessage(u', a', n', t');
            m != m' && sha(m) == sha(m')
  {
    var m, m' := TransactionMessage(u, a, n, t), TransactionMessage(u', a', n', t');
    Hex.EncodeInjective(sha(m), sha(m'));
    if m == m' {
      MessageInjective(u, a, n, t, u', a', n', t');
    }
  }

  /** Without the colon restriction the message is ambiguous: user "a:1" with amount 2
      and nonce "n", and user "a" with amount 1 and nonce "2:n", print the same text. */
  lemma ColonInUserIdCollides()
    ensures TransactionMessage("a:1", 2, "n", 4) == TransactionMessage("a", 1, "2:n", 4)
  {
    assert Decimal.IntToDecimal(1) == "1" && Decimal.IntToDecimal(2) == "2";
  }

  // ---------------------------------------------------------------------------
  // Nonces and coupon codes

  const NonceBytes := 32

  /** `generateTransactionNonce`, given the 32 bytes `crypto.getRandomValues` fills. */
  function GenerateTransactionNonce(random: seq<uint8>): (nonce: string)
    requires |random| == NonceBytes
    ensures |nonce| == 64
    ensures forall i :: 0 <= i < |nonce| ==> Hex.IsLowerHexDigit(nonce[i])
    ensures NoColon(nonce)
    ensures Hex.Decode(nonce) == random
  {
    Hex.DecodeEncode(random);
    Hex.Encode(random)
  }

  const CouponAlphabet: string := "ABCDEFGHIJKLMNOPQRSTUVWXYZ0123456789"

  predicate IsCouponChar(c: char) {
    ('A' <= c <= 'Z') || ('0' <= c <= '9')
  }

  lemma AlphabetChars()
    ensures |CouponAlphabet| == 36
    ensures forall i :: 0 <= i < 36 ==> IsCouponChar(CouponAlphabet[i])
  {
  }

  /** `generateSecureCouponCode(random.length)`, given the random bytes: character
      `i` sits at position `random[i] % 36` of the alphabet. */
  function GenerateSecureCouponCode(random: seq<uint8>): (code: string)
    ensures |code| == |random|
    ensures forall i :: 0 <= i < |code| ==> IsCouponChar(code[i]) && CouponIndex(code[i]) == random[i] % 36
  {
    AlphabetIndex();
    seq(|random|, i requires 0 <= i < |random| => CouponAlphabet[random[i] % 36])
  }

  /** The alphabet lists each of its characters once: position and character
      determine each other. */
  lemma AlphabetIndex()
    ensures forall k :: 0 <= k < 36 ==> IsCouponChar(CouponAlphabet[k]) && CouponIndex(CouponAlphabet[k]) == k
  {
    AlphabetChars();
    forall k | 0 <= k < 36
      ensures CouponIndex(CouponAlphabet[k]) == k
    {
      var c := CouponAlphabet[k];
      var j := CouponIndex(c);
      assert CouponAlphabet[j] == c;
      if j != k {
        AlphabetDistinct(j, k);
      }
    }
  }

  lemma AlphabetDistinct(j: nat, k: nat)
    requires j < 36 && k < 36 && j != k
    ensures CouponAlphabet[j] != CouponAlphabet[k]
  {
    assert CouponAlphabet == seq(36, i requires 0 <= i < 36 => AlphabetChar(i));
  }

  /** The alphabet's character at position `i`: the letters, then the digits. */
  function AlphabetChar(i: int): char
    requires 0 <= i < 36
  {
    if i < 26 then ('A' as int + i) as char else ('0' as int + i - 26) as char
  }

  /** Index of a coupon character in the alphabet. */
  function CouponIndex(c: char): (i: uint8)
    requires IsCouponChar(c)
    ensures i < 36 && CouponAlphabet[i] == c
  {
    if 'A' <= c <= 'Z' then c as int - 'A' as int else c as int - '0' as int + 26
  }

  /** Every code over the alphabet is produced by some random bytes. */
  lemma EveryCouponCodeIsGenerated(code: string)
    requires forall i :: 0 <= i < |code| ==> IsCouponChar(code[i])
    ensures GenerateSecureCouponCode(seq(|code|, i requires 0 <= i < |code| => CouponIndex(code[i]))) == code
  {
    var random := seq(|code|, i requires 0 <= i < |code| => CouponIndex(code[i]));
    var generated := GenerateSecureCouponCode(random);
    forall i | 0 <= i < |code|
      ensures generated[i] == code[i]
    {
      assert random[i] % 36 == random[i] == CouponIndex(code[i]);
    }
  }

  /** The byte values, in increasing order, for which a coupon character is the
      alphabet's `k`th one: `k`, `k + 36`, ... up to 255. */
  function CouponPreimage(k: nat): seq<uint8>
    requires k < 36
  {
    seq((255 - k) / 36 + 1, j requires 0 <= j <= (255 - k) / 36 => k + 36 * j)
  }

  /** Byte values are not a multiple of 36, so the map is biased: each of 'A' to
      'D' is produced by eight byte values, every other character by seven. */
  lemma CouponCharBias(k: nat)
    requires k < 36
    ensures |CouponPreimage(k)| == (if k < 4 then 8 else 7)
    ensures forall j, j' :: 0 <= j < j' < |CouponPreimage(k)| ==> CouponPreimage(k)[j] < CouponPreimage(k)[j']
    ensures forall b: uint8 :: GenerateSecureCouponCode([b]) == [CouponAlphabet[k]] <==> b in CouponPreimage(k)
  {
    forall b: uint8
      ensures GenerateSecureCouponCode([b]) == [CouponAlphabet[k]] <==> b in CouponPreimage(k)
    {
      SingleCouponChar(b, k);
      InPreimage(b, k);
    }
  }

  /** A one-byte code is the alphabet's `k`th character exactly when the byte is `k` modulo 36. */
  lemma SingleCouponChar(b: uint8, k: nat)
    requires k < 36
    ensures GenerateSecureCouponCode([b]) == [CouponAlphabet[k]] <==> b % 36 == k
  {
    var code := GenerateSecureCouponCode([b]);
    AlphabetIndex();
    if code == [CouponAlphabet[k]] {
      assert CouponIndex(code[0]) == b % 36;
    }
    if b % 36 == k {
      assert code == [CouponAlphabet[k]];
    }
  }

  lemma InPreimage(b: uint8, k: nat)
    requires k < 36
    ensures b in CouponPreimage(k) <==> b % 36 == k
  {
    var p := CouponPreimage(k);
    if b % 36 == k {
      assert p[b / 36] == b;
    }
  }

  // ---------------------------------------------------------------------------
  // Coupon cipher wrappers (AES-GCM itself is a parameter)

  /** A raw AES key as `exportKey(..., "raw")` exposes it. */
  datatype AesKey = AesKey(raw: seq<uint8>)

  const KeyBytes := 32
  const IvBytes := 12

  /** `generateEncryptionKey`, given the key bytes the browser draws. */
  function GenerateEncryptionKey(random: seq<uint8>): (key: AesKey)
    requires |random| == KeyBytes
    ensures |key.raw| == KeyBytes
  {
    AesKey(random)
  }

  /** `exportKey`: hex text of the raw key. */
  function ExportKey(key: AesKey): (text: string)
    ensures |text| == 2 * |key.raw|
    ensures forall i :: 0 <= i < |text| ==> Hex.IsLowerHexDigit(text[i])
    ensures Hex.Decode(text) == key.raw
  {
    Hex.DecodeEncode(key.raw);
    Hex.Encode(key.raw)
  }

  /** `importKey`: the raw AES import refuses keys that are not 128, 192 or 256 bits. */
  function ImportKey(text: string): (key: Option<AesKey>)
    ensures key.Some? <==> |Hex.Decode(text)| in {16, 24, 32}
    ensures key.Some? ==> key.value.raw == Hex.Decode(text)
  {
    var raw := Hex.Decode(text);
    if |raw| == 16 || |raw| == 24 || |raw| == 32 then Some(AesKey(raw)) else None
  }

  lemma ImportExportedKey(key: AesKey)
    requires |key.raw| in {16, 24, 32}
    ensures ImportKey(ExportKey(key)) == Some(key)
  {
    Hex.DecodeEncode(key.raw);
  }

  /** AES-GCM encryption of the UTF-8 plaintext; None is a rejected promise. */
  type Seal = (string, AesKey, seq<uint8>) -> Option<seq<uint8>>
  /** AES-GCM decryption followed by UTF-8 decoding; None is a rejected promise. */
  type Open = (seq<uint8>, AesKey, seq<uint8>) -> Option<string>

  /** The cipher's own round trip, the one assumption the wrappers rely on. */
  ghost predicate Inverse(seal: Seal, open: Open) {
    forall p, k, iv :: seal(p, k, iv).Some? ==> open(seal(p, k, iv).value, k, iv) == Some(p)
  }

  datatype Encrypted = Encrypted(encryptedData: string, iv: string)

  /** `encryptCouponCode`, given the IV bytes the browser draws. */
  function EncryptCouponCode(seal: Seal, couponCode: string, key: AesKey, iv: seq<uint8>): (r: Option<Encrypted>)
    requires |iv| == IvBytes
    ensures r.Some? <==> seal(couponCode, key, iv).Some?
    ensures r.Some? ==> |r.value.iv| == 2 * IvBytes && Hex.Decode(r.value.iv) == iv
  {
    match seal(couponCode, key, iv)
    case None => None
    case Some(ct) =>
      Hex.DecodeEncode(iv);
      Some(Encrypted(Hex.Encode(ct), Hex.Encode(iv)))
  }

  /** `decryptCouponCode`: hex-decode ciphertext and IV, then open.  On hex texts
      of byte arrays this opens exactly those bytes. */
  function DecryptCouponCode(open: Open, encryptedData: string, iv: string, key: AesKey): (r: Option<string>)
    ensures forall ct: seq<uint8>, ivBytes: seq<uint8> ::
      encryptedData == Hex.Encode(ct) && iv == Hex.Encode(ivBytes) ==> r == open(ct, key, ivBytes)
  {
    Hex.DecodeEncodeAll();
    open(Hex.Decode(encryptedData), key, Hex.Decode(iv))
  }

  /** Decrypting what was encrypted under the same key gives the coupon code back. */
  lemma CouponCipherRoundTrip(seal: Seal, open: Open, couponCode: string, key: AesKey, iv: seq<uint8>)
    requires Inverse(seal, open)
    requires |iv| == IvBytes
    requires EncryptCouponCode(seal, couponCode, key, iv).Some?
    ensures var e := EncryptCouponCode(seal, couponCode, key, iv).value;
            DecryptCouponCode(open, e.encryptedData, e.iv, key) == Some(couponCode)
  {
    var ct := seal(couponCode, key, iv).value;
    Hex.DecodeEncode(ct);
    Hex.DecodeEncode(iv);
  }

  // ---------------------------------------------------------------------------
  // Client-side rate limiter

  /** `localStorage`: key -> the JSON list of attempt timestamps stored there. */
  type Storage = map<string, seq<int>>

  function RateKey(operation: string): string {
    "rate_limit_" + operation
  }

  /** `JSON.parse(localStorage.getItem(key) || '[]')`. */
  function StoredAttempts(storage: Storage, key: string): seq<int> {
    if key in storage then storage[key] else []
  }

  /** Number of attempts strictly inside the window ending at `now`. */
  function CountRecent(attempts: seq<int>, now: int, windowMs: int): (n: nat)
    ensures n <= |attempts|
  {
    if |attempts| == 0 then 0
    else (if now - attempts[0] < windowMs then 1 else 0) + CountRecent(attempts[1..], now, windowMs)
  }

  datatype RateDecision = RateDecision(allowed: bool, storage: Storage)

  /** `checkRateLimit(operation, maxAttempts, windowMs)` with `Date.now()` = `now`. */
  function CheckRateLimit(storage: Storage, operation: string, maxAttempts: int, windowMs: int, now: int): (r: RateDecision)
    ensures !r.allowed <==> CountRecent(StoredAttempts(storage, RateKey(operation)), now, windowMs) >= maxAttempts
    ensures !r.allowed ==> r.storage == storage
    ensures r.allowed ==> RateKey(operation) in r.storage
    ensures r.allowed ==>
      var kept := r.storage[RateKey(operation)];
      && |kept| <= maxAttempts
      && |kept| == CountRecent(StoredAttempts(storage, RateKey(operation)), now, windowMs) + 1
      && kept[|kept| - 1] == now
      && (forall i :: 0 <= i < |kept| - 1 ==> now - kept[i] < windowMs && kept[i] in StoredAttempts(storage, RateKey(operation)))
    ensures forall k :: k != RateKey(operation) ==> StoredAttempts(r.storage, k) == StoredAttempts(storage, k)
  {
    var key := RateKey(operation);
    var attempts := StoredAttempts(storage, key);
    var valid := Filter(attempts, t => now - t < windowMs);
    FilterCountsRecent(attempts, now, windowMs);
    if |valid| >= maxAttempts then RateDecision(false, storage)
    else RateDecision(true, storage[key := valid + [now]])
  }

  /** The attempts an allowed call keeps before `now` are taken from the stored ones
      in their stored order.  With the count and recency stated by `CheckRateLimit`,
      this makes them exactly the recent stored attempts, in order. */
  lemma AllowedKeepsStoredOrder(storage: Storage, operation: string, maxAttempts: int, windowMs: int, now: int)
    ensures var r := CheckRateLimit(storage, operation, maxAttempts, windowMs, now);
      r.allowed ==>
        var kept := r.storage[RateKey(operation)];
        IsSubsequence(kept[..|kept| - 1], StoredAttempts(storage, RateKey(operation)))
  {
    var attempts := StoredAttempts(storage, RateKey(operation));
    var valid := Filter(attempts, t => now - t < windowMs);
    FilterIsSubsequence(attempts, t => now - t < windowMs);
    assert (valid + [now])[..|valid|] == valid;
  }

  lemma {:induction false} FilterCountsRecent(attempts: seq<int>, now: int, windowMs: int)
    ensures |Filter(attempts, t => now - t < windowMs)| == CountRecent(attempts, now, windowMs)
    decreases |attempts|
  {
    if |attempts| > 0 {
      FilterCountsRecent(attempts[1..], now, windowMs);
    }
  }

  lemma RateKeyInjective(a: string, b: string)
    requires RateKey(a) == RateKey(b)
    ensures a == b
  {
    var p := "rate_limit_";
    assert a == RateKey(a)[|p|..];
    assert b == RateKey(b)[|p|..];
  }

  /** One operation's calls never change another operation's verdict. */
  lemma OperationsIndependent(storage: Storage, op: string, other: string,
                              maxAttempts: int, windowMs: int, now: int,
                              otherMax: int, otherWindowMs: int, later: int)
    requires op != other
    ensures var s' := CheckRateLimit(storage, op, maxAttempts, windowMs, now).storage;
            CheckRateLimit(s', other, otherMax, otherWindowMs, later).allowed
              == CheckRateLimit(storage, other, otherMax, otherWindowMs, later).allowed
  {
    if RateKey(op) == RateKey(other) {
      RateKeyInjective(op, other);
    }
  }

  /** `n` calls of one operation at the same instant, starting from no stored attempts:
      the verdicts, in order. */
  function Burst(storage: Storage, operation: string, maxAttempts: int, windowMs: int, now: int, n: nat): (verdicts: seq<bool>)
    ensures |verdicts| == n
    decreases n
  {
    if n == 0 then []
    else
      var r := CheckRateLimit(storage, operation, maxAttempts, windowMs, now);
      [r.allowed] + Burst(r.storage, operation, maxAttempts, windowMs, now, n - 1)
  }

  /** Within one window exactly the first `maxAttempts` calls pass: with the hook's
      10 per minute, the 10th call is allowed and the 11th refused. */
  lemma {:induction false} BurstAllowsExactlyMax(storage: Storage, operation: string, maxAttempts: nat, windowMs: int, now: int, n: nat)
    requires windowMs > 0
    requires CountRecent(StoredAttempts(storage, RateKey(operation)), now, windowMs) == 0
    ensures forall i :: 0 <= i < n ==> Burst(storage, operation, maxAttempts, windowMs, now, n)[i] == (i < maxAttempts)
  {
    BurstFrom(storage, operation, maxAttempts, windowMs, now, n, 0);
  }

  lemma {:induction false} BurstFrom(storage: Storage, operation: string, maxAttempts: nat, windowMs: int, now: int, n: nat, used: nat)
    requires windowMs > 0
    requires CountRecent(StoredAttempts(storage, RateKey(operation)), now, windowMs) == used
    requires used <= maxAttempts
    ensures forall i :: 0 <= i < n ==> Burst(storage, operation, maxAttempts, windowMs, now, n)[i] == (used + i < maxAttempts)
    decreases n
  {
    if n > 0 {
      var r := CheckRateLimit(storage, operation, maxAttempts, windowMs, now);
      var b := Burst(storage, operation, maxAttempts, windowMs, now, n);
      assert b == [r.allowed] + Burst(r.storage, operation, maxAttempts, windowMs, now, n - 1);
      if r.allowed {
        AllowedCountsOneMore(storage, operation, maxAttempts, windowMs, now);
        BurstFrom(r.storage, operation, maxAttempts, windowMs, now, n - 1, used + 1);
      } else {
        BurstFrom(r.storage, operation, maxAttempts, windowMs, now, n - 1, used);
      }
    }
  }

  /** At a single instant, an allowed attempt raises the recent count by one. */
  lemma AllowedCountsOneMore(storage: Storage, operation: string, maxAttempts: int, windowMs: int, now: int)
    requires windowMs > 0
    requires CheckRateLimit(storage, operation, maxAttempts, windowMs, now).allowed
    ensures var r := CheckRateLimit(storage, operation, maxAttempts, windowMs, now);
            CountRecent(StoredAttempts(r.storage, RateKey(operation)), now, windowMs)
              == CountRecent(StoredAttempts(storage, RateKey(operation)), now, windowMs) + 1
  {
    var r := CheckRateLimit(storage, operation, maxAttempts, windowMs, now);
    AllRecent(r.storage[RateKey(operation)], now, windowMs);
  }

  lemma {:induction false} AllRecent(attempts: seq<int>, now: int, windowMs: int)
    requires forall i :: 0 <= i < |attempts| ==> now - attempts[i] < windowMs
    ensures CountRecent(attempts, now, windowMs) == |attempts|
    decreases |attempts|
  {
    if |attempts| > 0 {
      AllRecent(attempts[1..], now, windowMs);
    }
  }
}
