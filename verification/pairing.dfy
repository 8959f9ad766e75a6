/** The pairing routes: `POST /request` issues a one-time code for a pair of
    addresses and `POST /verify` redeems it, marking the pair verified. */
module Pairing {
  import opened Common
  import opened Text
  import opened Decimal
  import opened Oracles
  import opened Pairs

  const MissingTo := "Missing \"to\""
  const OtpSent := "OTP generated and sent (check server console in demo)."
  const MissingFields := "Missing fields"
  const NoOtpRequested := "No OTP requested"
  const OtpExpired := "OTP expired"
  const InvalidCode := "Invalid code"
  const PairIsVerified := "Pair verified"

  /** Ten minutes, in milliseconds. */
  const OtpLifetime := 10 * 60 * 1000

  /** `Math.floor(100000 + Math.random() * 900000)`, where `rnd` is the value
      `Math.random()` returned. */
  function OtpValue(rnd: real): (v: int)
    requires 0.0 <= rnd < 1.0
    ensures 100000 <= v <= 999999
  {
    (100000.0 + rnd * 900000.0).Floor
  }

  /** The code's `toString()`: six decimal digits, never a leading zero, and
      reading back as the drawn value. */
  function OtpCode(rnd: real): (code: string)
    requires 0.0 <= rnd < 1.0
    ensures |code| == 6 && AllDigits(code) && code[0] != '0'
    ensures Parse(code) == OtpValue(rnd)
  {
    var v := OtpValue(rnd);
    assert Pow10(5) == 100000 && Pow10(6) == 1000000;
    RenderLength(v, 6);
    ParseRender(v);
    Render(v)
  }

  /** What `/request` answers, the collection after it, and the code it wrote
      to the console (the out-of-band channel), if any. */
  datatype RequestOutcome = RequestOutcome(reply: Reply<Body>, store: PairStore, issued: Option<string>)

  /** `POST /request` by the authenticated `caller` with body field `to`;
      `rnd` is `Math.random()` and `now` is `Date.now()`. */
  function RequestOtp(store: PairStore, crypto: Crypto, caller: string, to: Option<string>,
                      rnd: real, now: int): (r: RequestOutcome)
    requires 0.0 <= rnd < 1.0
    ensures !Truthy(to) ==> r == RequestOutcome(Reply(400, Msg(MissingTo)), store, None)
    ensures Truthy(to) ==>
      var k := SortPairEmails(caller, to.value);
      && r.reply == Reply(200, Msg(OtpSent))
      && r.issued == Some(OtpCode(rnd))
      && k in r.store
      && r.store[k] == PairState(false, Some(crypto.hash(OtpCode(rnd))), Some(now + OtpLifetime))
      && r.store.Keys == store.Keys + {k}
      && (forall k' :: k' in store && k' != k ==> r.store[k'] == store[k'])
  {
    var me := Lower(caller);
    if !Truthy(to) then
      RequestOutcome(Reply(400, Msg(MissingTo)), store, None)
    else
      SortPairCaseInsensitive(caller, to.value);
      var k := SortPairEmails(me, to.value);
      var code := OtpCode(rnd);
      var otpHash := crypto.hash(code);
      var expiresAt := now + OtpLifetime;
      RequestOutcome(Reply(200, Msg(OtpSent)), UpsertOtp(store, k, otpHash, expiresAt), Some(code))
  }

  /** What `/verify` answers and the collection after it. */
  datatype Step = Step(reply: Reply<Body>, store: PairStore)

  function Failed(store: PairStore, msg: string): Step
  {
    Step(Reply(400, Msg(msg)), store)
  }

  /** `POST /verify` by the authenticated `caller` with body fields `withEmail`
      and `code`; `now` is the current time. Each failure leaves the collection
      as it was, and the failures are tried in a fixed order. */
  function VerifyOtp(store: PairStore, crypto: Crypto, caller: string, withEmail: Option<string>,
                     code: Option<string>, now: int): (r: Step)
    ensures !Truthy(withEmail) || !Truthy(code) ==> r == Failed(store, MissingFields)
    ensures r.reply.status != 200 ==> r.reply.status == 400 && r.store == store
    ensures r.reply.status == 200 ==> r.reply.body == Msg(PairIsVerified)
    ensures Truthy(withEmail) && Truthy(code) ==>
      var k := SortPairEmails(caller, withEmail.value);
      && (r.reply.body == Msg(NoOtpRequested) <==> k !in store || !OtpPending(store[k]))
      && (k in store && OtpPending(store[k]) ==>
           && (r.reply.body == Msg(OtpExpired) <==> store[k].expiresAt.value < now)
           && (r.reply.body == Msg(InvalidCode) <==>
                 now <= store[k].expiresAt.value && !crypto.compare(code.value, store[k].otpHash.value)))
      && (r.reply.status == 200 <==>
           && k in store && OtpPending(store[k]) && now <= store[k].expiresAt.value
           && crypto.compare(code.value, store[k].otpHash.value))
      && (r.reply.status == 200 ==> r.store == store[k := PairState(true, None, None)])
  {
    var me := Lower(caller);
    if !Truthy(withEmail) || !Truthy(code) then
      Failed(store, MissingFields)
    else
      SortPairCaseInsensitive(caller, withEmail.value);
      var k := SortPairEmails(me, withEmail.value);
      if k !in store || !OtpPending(store[k]) then
        Failed(store, NoOtpRequested)
      else if store[k].expiresAt.value < now then
        Failed(store, OtpExpired)
      else if !crypto.compare(code.value, store[k].otpHash.value) then
        Failed(store, InvalidCode)
      else
        var pair := store[k].(verified := true, otpHash := None, expiresAt := None);
        Step(Reply(200, Msg(PairIsVerified)), store[k := pair])
  }

  /** Either party can start pairing: given the same code, bcrypt salt and
      time, the collection ends up the same. The salt is folded into
      `crypto.hash`; real bcrypt draws a fresh one per call. */
  lemma RequestSymmetric(store: PairStore, crypto: Crypto, x: string, y: string, rnd: real, now: int)
    requires 0.0 <= rnd < 1.0
    requires x != "" && y != ""
    ensures RequestOtp(store, crypto, x, Some(y), rnd, now).store
         == RequestOtp(store, crypto, y, Some(x), rnd, now).store
  {
    SortPairSymmetric(x, y);
  }

  /** Re-requesting an OTP for an already verified pair makes it unverified again. */
  lemma RequestResetsVerified(store: PairStore, crypto: Crypto, caller: string, to: string,
                              rnd: real, now: int)
    requires 0.0 <= rnd < 1.0
    requires to != ""
    requires var k := SortPairEmails(caller, to); k in store && store[k].verified
    ensures var k := SortPairEmails(caller, to);
      !RequestOtp(store, crypto, caller, Some(to), rnd, now).store[k].verified
  {
  }

  lemma RequestPreservesWellformed(store: PairStore, crypto: Crypto, caller: string, to: Option<string>,
                                   rnd: real, now: int)
    requires 0.0 <= rnd < 1.0
    requires Wellformed(store)
    ensures Wellformed(RequestOtp(store, crypto, caller, to, rnd, now).store)
  {
    if Truthy(to) {
      var k := SortPairEmails(caller, to.value);
      SortPairCanonical(caller, to.value);
      if k.a == Lower(to.value) {
        LexAboveIsNonEmpty(k.a, k.b);
      }
    }
  }

  lemma VerifyPreservesWellformed(store: PairStore, crypto: Crypto, caller: string,
                                  withEmail: Option<string>, code: Option<string>, now: int)
    requires Wellformed(store)
    ensures Wellformed(VerifyOtp(store, crypto, caller, withEmail, code, now).store)
  {
  }

  /** The issued code redeems the pair for either party until the expiry
      instant, inclusive. */
  lemma RequestThenVerify(store: PairStore, crypto: Crypto, x: string, y: string,
                          rnd: real, now: int, later: int)
    requires BcryptSound(crypto)
    requires 0.0 <= rnd < 1.0
    requires x != "" && y != ""
    requires later <= now + OtpLifetime
    ensures var r := RequestOtp(store, crypto, x, Some(y), rnd, now);
      && VerifyOtp(r.store, crypto, y, Some(x), r.issued, later).reply.status == 200
      && VerifyOtp(r.store, crypto, x, Some(y), r.issued, later).reply.status == 200
  {
    SortPairSymmetric(x, y);
    var code := OtpCode(rnd);
    assert crypto.hash(code) != "" && crypto.compare(code, crypto.hash(code));
  }

  /** The expiry test is strict: at `now == expiresAt` a matching code still works. */
  lemma VerifyAtExpiryInstant(store: PairStore, crypto: Crypto, caller: string, peer: string,
                              code: string, now: int)
    requires peer != "" && code != ""
    requires var k := SortPairEmails(caller, peer);
      k in store && OtpPending(store[k]) && store[k].expiresAt.value == now
      && crypto.compare(code, store[k].otpHash.value)
    ensures VerifyOtp(store, crypto, caller, Some(peer), Some(code), now).reply.status == 200
    ensures VerifyOtp(store, crypto, caller, Some(peer), Some(code), now + 1).reply
         == Reply(400, Msg(OtpExpired))
  {
  }

  /** A wrong code does not consume the OTP: the right one still works afterwards. */
  lemma WrongCodeKeepsOtp(store: PairStore, crypto: Crypto, caller: string, peer: string,
                          wrong: string, right: string, now: int)
    requires peer != "" && right != ""
    requires VerifyOtp(store, crypto, caller, Some(peer), Some(wrong), now).reply.body == Msg(InvalidCode)
    requires crypto.compare(right, store[SortPairEmails(caller, peer)].otpHash.value)
    ensures var r := VerifyOtp(store, crypto, caller, Some(peer), Some(wrong), now);
      && r.store == store
      && VerifyOtp(r.store, crypto, caller, Some(peer), Some(right), now).reply.status == 200
  {
  }

  /** A code is single-use: once a verify succeeds, any further verify for the
      pair fails with "No OTP requested", whatever the code. */
  lemma VerifySingleUse(store: PairStore, crypto: Crypto, caller: string, peer: string,
                        code: string, again: string, now: int, later: int)
    requires caller != "" && peer != "" && again != ""
    requires VerifyOtp(store, crypto, caller, Some(peer), Some(code), now).reply.status == 200
    ensures var s := VerifyOtp(store, crypto, caller, Some(peer), Some(code), now).store;
      && s[SortPairEmails(caller, peer)].verified
      && VerifyOtp(s, crypto, caller, Some(peer), Some(again), later).reply.body == Msg(NoOtpRequested)
      && VerifyOtp(s, crypto, peer, Some(caller), Some(again), later).reply.body == Msg(NoOtpRequested)
  {
    SortPairSymmetric(caller, peer);
  }

  /** `/request` puts the pair in the awaiting-code phase. */
  lemma RequestPreservesPhases(store: PairStore, crypto: Crypto, caller: string, to: Option<string>,
                               rnd: real, now: int)
    requires BcryptSound(crypto)
    requires 0.0 <= rnd < 1.0
    requires Phased(store)
    ensures Phased(RequestOtp(store, crypto, caller, to, rnd, now).store)
  {
    var code := OtpCode(rnd);
    assert crypto.hash(code) != "";
  }

  /** `/verify` moves a pair from awaiting a code to verified, and nothing else. */
  lemma VerifyPreservesPhases(store: PairStore, crypto: Crypto, caller: string,
                              withEmail: Option<string>, code: Option<string>, now: int)
    requires Phased(store)
    ensures Phased(VerifyOtp(store, crypto, caller, withEmail, code, now).store)
  {
  }

  /** In a phased collection, a verified pair has no OTP to redeem: `/verify`
      answers "No OTP requested" until a new `/request`. */
  lemma VerifiedPairHasNoOtp(store: PairStore, crypto: Crypto, caller: string, peer: string,
                             code: string, now: int)
    requires Phased(store)
    requires peer != "" && code != ""
    requires var k := SortPairEmails(caller, peer); k in store && store[k].verified
    ensures VerifyOtp(store, crypto, caller, Some(peer), Some(code), now) == Failed(store, NoOtpRequested)
  {
    var k := SortPairEmails(caller, peer);
    assert InPhase(store[k]);
  }
}
