/** Properties that span the routes: pairing unlocks sending in both
    directions, a sent message reaches both inboxes, and the case-sensitivity
    gap between the account routes (exact e-mail) and the pairing and message
    routes (lower-cased e-mail). */
module Scenarios {
  import opened Common
  import opened Text
  import opened Oracles
  import opened Pairs
  import opened Pairing
  import opened Auth
  import opened Messaging

  /** Requesting a code and redeeming it, by either party, unlocks the pair
      gate of `/send` in both directions. */
  lemma PairingUnlocksBothDirections(store: PairStore, crypto: Crypto, x: string, y: string,
                                     rnd: real, now: int, later: int, verifier: string)
    requires BcryptSound(crypto)
    requires 0.0 <= rnd < 1.0
    requires x != "" && y != ""
    requires verifier == x || verifier == y
    requires later <= now + OtpLifetime
    ensures var r1 := RequestOtp(store, crypto, x, Some(y), rnd, now);
      var other := if verifier == x then y else x;
      var r2 := VerifyOtp(r1.store, crypto, verifier, Some(other), r1.issued, later);
      && r2.reply.status == 200
      && PairVerified(r2.store, x, y)
      && PairVerified(r2.store, y, x)
  {
    RequestThenVerify(store, crypto, x, y, rnd, now, later);
    SortPairSymmetric(x, y);
  }

  /** An accepted message is listed in the recipient's inbox and in the
      sender's, under their lower-cased addresses. */
  lemma SentMessageReachesBothInboxes(pairs: PairStore, users: Users, messages: seq<Message>,
                                      crypto: Crypto, caller: string, body: SendBody, now: int)
    requires Send(pairs, users, messages, crypto, caller, body, now).reply.status == 200
    ensures var r := Send(pairs, users, messages, crypto, caller, body, now);
      var m := r.messages[|messages|];
      var to := Lower(body.to.value);
      && Inbox(r.messages, to, to).status == 200
      && m in Inbox(r.messages, to, to).body.messages
      && m in Inbox(r.messages, caller, caller).body.messages
  {
    var r := Send(pairs, users, messages, crypto, caller, body, now);
    var m := r.messages[|messages|];
    var to := Lower(body.to.value);
    LowerIdempotent(body.to.value);
    assert m in multiset(r.messages);
    assert multiset(Inbox(r.messages, to, to).body.messages)[m] > 0;
    assert multiset(Inbox(r.messages, caller, caller).body.messages)[m] > 0;
  }

  /** A registration request: e-mail, password and RSA public key. */
  datatype Signup = Signup(email: string, password: string, publicKey: Option<string>)

  /** The user collection after a run of `/register` calls. */
  function RegisterAll(users: Users, crypto: Crypto, signups: seq<Signup>, token: string): Users
    decreases signups
  {
    if signups == [] then users
    else
      var s := signups[0];
      RegisterAll(Register(users, crypto, s.email, s.password, s.publicKey, token).users,
                  crypto, signups[1..], token)
  }

  lemma {:induction false} RegisterAllHasNoSigningKeys(users: Users, crypto: Crypto, signups: seq<Signup>,
                                                       token: string)
    requires NoSigningKeys(users)
    ensures NoSigningKeys(RegisterAll(users, crypto, signups, token))
    decreases signups
  {
    if signups != [] {
      var s := signups[0];
      RegisterPreservesNoSigningKeys(users, crypto, s.email, s.password, s.publicKey, token);
      RegisterAllHasNoSigningKeys(Register(users, crypto, s.email, s.password, s.publicKey, token).users,
                                  crypto, signups[1..], token);
    }
  }

  /** Accounts created through `/register` alone can never send: registration
      does not record a signing key, and `/send` demands one. */
  lemma RegisteredAccountsCannotSend(signups: seq<Signup>, crypto: Crypto, token: string,
                                     pairs: PairStore, messages: seq<Message>,
                                     caller: string, body: SendBody, now: int)
    ensures var users := RegisterAll(map[], crypto, signups, token);
      var r := Send(pairs, users, messages, crypto, caller, body, now);
      r.reply.status != 200 && r.messages == messages
  {
    RegisterAllHasNoSigningKeys(map[], crypto, signups, token);
    NoSigningKeysBlocksSend(pairs, RegisterAll(map[], crypto, signups, token), messages, crypto,
                            caller, body, now);
  }

  /** Registration keeps the e-mail's case, so `Alice@x` and `alice@x` can be
      two different accounts. */
  lemma RegisterKeepsCase(users: Users, crypto: Crypto, email: string, password1: string,
                          password2: string, key1: Option<string>, key2: Option<string>,
                          t1: string, t2: string)
    requires !IsLowered(email)
    requires email !in users && Lower(email) !in users
    ensures var u1 := Register(users, crypto, email, password1, key1, t1);
      var u2 := Register(u1.users, crypto, Lower(email), password2, key2, t2);
      && u1.reply.status == 201 && u2.reply.status == 201
      && email in u2.users && Lower(email) in u2.users && email != Lower(email)
  {
    LowerFixedPoint(email);
  }

  /** `/send` and `/inbox` see only the lower-cased caller: two accounts whose
      e-mails differ only in case send as the same sender, are checked against
      the same signing key, and read the same inbox. */
  lemma CaseVariantsShareIdentity(pairs: PairStore, users: Users, messages: seq<Message>, crypto: Crypto,
                                  c1: string, c2: string, body: SendBody, now: int)
    requires Lower(c1) == Lower(c2)
    ensures Send(pairs, users, messages, crypto, c1, body, now) == Send(pairs, users, messages, crypto, c2, body, now)
    ensures Inbox(messages, c1, c1) == Inbox(messages, c2, c2)
    ensures Inbox(messages, c1, c1).status == 200
  {
    if Complete(body) {
      SortPairCaseInsensitive(c1, body.to.value);
      SortPairCaseInsensitive(c2, body.to.value);
    }
  }

  /** `/request` and `/verify` also see only the lower-cased caller: an account
      registered as `ALICE@x` re-arms, and so resets to unverified, every
      pair that `alice@x` holds, and can complete its verification. */
  lemma CaseVariantsSharePairs(store: PairStore, crypto: Crypto, c1: string, c2: string,
                               to: Option<string>, code: Option<string>, rnd: real, now: int)
    requires 0.0 <= rnd < 1.0
    requires Lower(c1) == Lower(c2)
    ensures RequestOtp(store, crypto, c1, to, rnd, now) == RequestOtp(store, crypto, c2, to, rnd, now)
    ensures VerifyOtp(store, crypto, c1, to, code, now) == VerifyOtp(store, crypto, c2, to, code, now)
  {
    if Truthy(to) {
      SortPairCaseInsensitive(c1, to.value);
      SortPairCaseInsensitive(c2, to.value);
    }
  }

  /** An account whose e-mail is not lower-case cannot send unless some other
      account holds the lower-cased e-mail: its own record is never consulted. */
  lemma MixedCaseSenderIsUnknown(pairs: PairStore, users: Users, messages: seq<Message>, crypto: Crypto,
                                 caller: string, body: SendBody, now: int)
    requires caller in users && Truthy(users[caller].signingPublicKey)
    requires Lower(caller) !in users
    ensures var r := Send(pairs, users, messages, crypto, caller, body, now);
      r.reply.status != 200 && r.messages == messages
  {
  }
}
