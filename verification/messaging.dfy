/** The message routes: `POST /send` accepts a signed, encrypted message
    between a verified pair, and `GET /inbox/:email` lists a caller's messages. */
module Messaging {
  import opened Common
  import opened Text
  import opened Utf8
  import opened Oracles
  import opened Pairs
  import opened Auth

  /** A stored message, as the route builds it. The ciphertext, both wrapped
      keys, the nonce and the signature are base64 text, stored verbatim. */
  datatype Message = Message(from: string, to: string, encryptedMessage: string,
                             aesKeyForReceiver: string, aesKeyForSender: string,
                             iv: string, signature: string, timestamp: int)

  /** The JSON body of `/send`; every field may be absent. */
  datatype SendBody = SendBody(to: Option<string>, encryptedMessage: Option<string>,
                               aesKeyForReceiver: Option<string>, aesKeyForSender: Option<string>,
                               iv: Option<string>, signature: Option<string>)

  /** The six fields the route requires, in the order it tests them. */
  function RequiredFields(b: SendBody): seq<Option<string>>
  {
    [b.to, b.encryptedMessage, b.aesKeyForReceiver, b.aesKeyForSender, b.iv, b.signature]
  }

  /** All six required fields are present and non-empty: a body is refused
      as soon as any one of them is falsy. */
  predicate Complete(b: SendBody)
    ensures !Complete(b) <==> exists f :: f in RequiredFields(b) && !Truthy(f)
  {
    && Truthy(b.to) && Truthy(b.encryptedMessage) && Truthy(b.aesKeyForReceiver)
    && Truthy(b.aesKeyForSender) && Truthy(b.iv) && Truthy(b.signature)
  }

  /** The pair gate: the pair document for the two addresses exists and is
      verified. In a well-formed collection that is: some stored document for
      these two parties, in either order, is verified. */
  predicate PairVerified(pairs: PairStore, x: string, y: string)
    ensures Pairs.Wellformed(pairs) ==>
      (PairVerified(pairs, x, y) <==> exists k :: k in pairs && SameParties(k, x, y) && pairs[k].verified)
  {
    StoredKeyIsSorted(pairs, x, y);
    var k := SortPairEmails(x, y);
    k in pairs && pairs[k].verified
  }

  /** The signed bytes: the UTF-8 encoding of the lower-cased recipient, then
      the nonce, then the ciphertext, with no length fields or separators. */
  function Payload(to: string, iv: Bytes, ct: Bytes): (p: Bytes)
    ensures var t := |Encode(Lower(to))|;
      && |p| == t + |iv| + |ct|
      && p[..t] == Encode(Lower(to))
      && p[t..t + |iv|] == iv
      && p[t + |iv|..] == ct
  {
    Encode(Lower(to)) + iv + ct
  }

  /** With the same nonce and ciphertext, the payload names one recipient:
      two addresses sign the same bytes exactly when they agree ignoring case. */
  lemma {:induction false} PayloadBindsRecipient(t1: string, t2: string, iv: Bytes, ct: Bytes)
    ensures Payload(t1, iv, ct) == Payload(t2, iv, ct) <==> Lower(t1) == Lower(t2)
  {
    if Payload(t1, iv, ct) == Payload(t2, iv, ct) {
      var p := Payload(t1, iv, ct);
      var e1, e2 := Encode(Lower(t1)), Encode(Lower(t2));
      assert |e1| == |p| - |iv| - |ct| == |e2|;
      assert e1 == p[..|e1|] == e2;
      EncodeInjective(Lower(t1), Lower(t2));
    }
  }

  /** Cutting a payload back into its three parts, given the lengths of the
      first two. */
  function SplitPayload(p: Bytes, toLen: nat, ivLen: nat): (parts: (Bytes, Bytes, Bytes))
    requires toLen + ivLen <= |p|
    ensures parts.0 + parts.1 + parts.2 == p
    ensures |parts.0| == toLen && |parts.1| == ivLen
  {
    (p[..toLen], p[toLen..toLen + ivLen], p[toLen + ivLen..])
  }

  /** With both lengths known, the parts come back. */
  lemma SplitPayloadRoundTrip(to: string, iv: Bytes, ct: Bytes)
    ensures SplitPayload(Payload(to, iv, ct), |Encode(Lower(to))|, |iv|) == (Encode(Lower(to)), iv, ct)
  {
  }

  /** Without them they do not: the last character of the recipient can move
      into the nonce and the payload is unchanged, so a signature over one
      (recipient, nonce) also covers another. */
  lemma PayloadRecipientBoundaryAmbiguous(to: string, iv: Bytes, ct: Bytes)
    requires IsLowered(to) && |to| > 0
    ensures var shorter := to[..|to| - 1];
      && shorter != Lower(to)
      && Payload(shorter, Encode(to[|to| - 1..]) + iv, ct) == Payload(to, iv, ct)
  {
    var shorter := to[..|to| - 1];
    assert IsLowered(shorter);
    LowerFixedPoint(to);
    LowerFixedPoint(shorter);
    assert to == shorter + to[|to| - 1..];
    EncodeAppend(shorter, to[|to| - 1..]);
  }

  /** Nor is the nonce/ciphertext boundary fixed: the route does not check the
      nonce length, so one ciphertext byte can move into the nonce. */
  lemma PayloadNonceBoundaryAmbiguous(to: string, iv: Bytes, ct: Bytes)
    requires |ct| > 0
    ensures Payload(to, iv + ct[..1], ct[1..]) == Payload(to, iv, ct)
  {
    assert ct == ct[..1] + ct[1..];
  }

  /** The signing key on record for the lower-cased caller, if any. */
  function SenderKey(users: Users, caller: string): (k: Option<string>)
    ensures k.Some? <==> Lower(caller) in users && Truthy(users[Lower(caller)].signingPublicKey)
    ensures k.Some? ==> k == users[Lower(caller)].signingPublicKey && k.value != ""
  {
    var from := Lower(caller);
    if from in users && Truthy(users[from].signingPublicKey) then users[from].signingPublicKey else None
  }

  /** The signature check of a complete body against an SPKI key string: the
      key imports and the signature verifies over the payload. */
  predicate SignatureAccepted(crypto: Crypto, spki: string, b: SendBody)
    requires Complete(b)
    ensures SignatureAccepted(crypto, spki, b) ==> crypto.importSpki(spki).Some?
  {
    var key := crypto.importSpki(spki);
    && key.Some?
    && crypto.verify(key.value, crypto.base64(b.signature.value),
                     Payload(b.to.value, crypto.base64(b.iv.value), crypto.base64(b.encryptedMessage.value)))
  }

  /** The signed bytes carry the recipient lower-cased, so a signature made
      for one spelling of the recipient is accepted for every other. */
  lemma {:induction false} SignatureIgnoresRecipientCase(crypto: Crypto, spki: string, b: SendBody)
    requires Complete(b)
    ensures Complete(b.(to := Some(Lower(b.to.value))))
    ensures SignatureAccepted(crypto, spki, b) <==> SignatureAccepted(crypto, spki, b.(to := Some(Lower(b.to.value))))
  {
    LowerIdempotent(b.to.value);
  }

  const MissingRequired := "Missing required fields"
  const NotPaired := "Pair not verified. Request/verify OTP first."
  const NoSigningKey := "Sender has no signing key on record"
  const InvalidSignature := "Invalid signature"
  const Sent := "Message sent successfully"
  const ServerError := "Server error"

  /** What `/send` answers and the message list after it. */
  datatype Delivery = Delivery(reply: Reply<Body>, messages: seq<Message>)

  /** `POST /send` by the authenticated `caller`; `now` is the time the message
      document is created. */
  function Send(pairs: PairStore, users: Users, messages: seq<Message>, crypto: Crypto,
                caller: string, body: SendBody, now: int): (r: Delivery)
    ensures r.reply.status != 200 ==> r.messages == messages
    ensures !Complete(body) ==> r.reply == Reply(400, Msg(MissingRequired))
    ensures Complete(body) && !PairVerified(pairs, caller, body.to.value) ==>
      r.reply == Reply(403, Msg(NotPaired))
    ensures Complete(body) && PairVerified(pairs, caller, body.to.value) && SenderKey(users, caller).None? ==>
      r.reply == Reply(400, Msg(NoSigningKey))
    ensures Complete(body) && PairVerified(pairs, caller, body.to.value) && SenderKey(users, caller).Some? ==>
      (r.reply == Reply(400, Msg(InvalidSignature)) <==>
         && crypto.importSpki(SenderKey(users, caller).value).Some?
         && !SignatureAccepted(crypto, SenderKey(users, caller).value, body))
    ensures Complete(body) && PairVerified(pairs, caller, body.to.value) && SenderKey(users, caller).Some?
            && crypto.importSpki(SenderKey(users, caller).value).None? ==>
      r.reply == Reply(500, Error(ServerError))
    ensures r.reply.status == 200 ==> r.reply.body == Msg(Sent)
    ensures r.reply.status == 200 <==>
      && Complete(body) && PairVerified(pairs, caller, body.to.value)
      && SenderKey(users, caller).Some?
      && SignatureAccepted(crypto, SenderKey(users, caller).value, body)
    ensures r.reply.status == 200 ==>
      && |r.messages| == |messages| + 1
      && r.messages[..|messages|] == messages
      && var m := r.messages[|messages|];
         && m.from == Lower(caller) && m.to == Lower(body.to.value)
         && m.encryptedMessage == body.encryptedMessage.value
         && m.aesKeyForReceiver == body.aesKeyForReceiver.value
         && m.aesKeyForSender == body.aesKeyForSender.value
         && m.iv == body.iv.value && m.signature == body.signature.value
         && m.timestamp == now
  {
    var from := Lower(caller);
    if !Complete(body) then
      Delivery(Reply(400, Msg(MissingRequired)), messages)
    else
      SortPairCaseInsensitive(caller, body.to.value);
      var k := SortPairEmails(from, body.to.value);
      if k !in pairs || !pairs[k].verified then
        Delivery(Reply(403, Msg(NotPaired)), messages)
      else if from !in users || !Truthy(users[from].signingPublicKey) then
        Delivery(Reply(400, Msg(NoSigningKey)), messages)
      else
        var spki := crypto.importSpki(users[from].signingPublicKey.value);
        if spki.None? then
          Delivery(Reply(500, Error(ServerError)), messages)
        else
          var to := body.to.value;
          var payload := Payload(to, crypto.base64(body.iv.value), crypto.base64(body.encryptedMessage.value));
          if !crypto.verify(spki.value, crypto.base64(body.signature.value), payload) then
            Delivery(Reply(400, Msg(InvalidSignature)), messages)
          else
            var m := Message(from, Lower(to), body.encryptedMessage.value, body.aesKeyForReceiver.value,
                             body.aesKeyForSender.value, body.iv.value, body.signature.value, now);
            Delivery(Reply(200, Msg(Sent)), messages + [m])
  }

  /** The field check comes before any lookup: an incomplete body gets the same
      reply whatever the pair and user collections hold. */
  lemma SendChecksFieldsFirst(p1: PairStore, p2: PairStore, u1: Users, u2: Users, messages: seq<Message>,
                              crypto: Crypto, caller: string, body: SendBody, now: int)
    requires !Complete(body)
    ensures Send(p1, u1, messages, crypto, caller, body, now) == Send(p2, u2, messages, crypto, caller, body, now)
  {
  }

  /** The pair gate is the same in both directions, so pairing started by
      either party lets both send. */
  lemma PairVerifiedSymmetric(pairs: PairStore, x: string, y: string)
    ensures PairVerified(pairs, x, y) <==> PairVerified(pairs, y, x)
  {
    SortPairSymmetric(x, y);
  }

  /** If no account has a signing key, no message is ever accepted. */
  lemma NoSigningKeysBlocksSend(pairs: PairStore, users: Users, messages: seq<Message>, crypto: Crypto,
                                caller: string, body: SendBody, now: int)
    requires NoSigningKeys(users)
    ensures var r := Send(pairs, users, messages, crypto, caller, body, now);
      r.reply.status in {400, 403} && r.messages == messages
  {
  }

  /** The recipient and sender that a message involves, as the inbox query sees it. */
  predicate Involves(m: Message, email: string)
  {
    m.to == email || m.from == email
  }

  /** The inbox query `{ $or: [{ to: email }, { from: email }] }`. */
  function Mailbox(messages: seq<Message>, email: string): (r: seq<Message>)
    ensures forall m :: multiset(r)[m] == if Involves(m, email) then multiset(messages)[m] else 0
  {
    if messages == [] then []
    else
      assert messages == [messages[0]] + messages[1..];
      var rest := Mailbox(messages[1..], email);
      if Involves(messages[0], email) then [messages[0]] + rest else rest
  }

  /** Timestamps never increase along the list. */
  predicate NewestFirst(s: seq<Message>)
  {
    forall i, j :: 0 <= i < j < |s| ==> s[i].timestamp >= s[j].timestamp
  }

  /** A message no older than the head of a newest-first list can go in front. */
  lemma {:induction false} PrependNewest(x: Message, t: seq<Message>)
    requires NewestFirst(t)
    requires t == [] || x.timestamp >= t[0].timestamp
    ensures NewestFirst([x] + t)
  {
    var r := [x] + t;
    forall i, j | 0 <= i < j < |r|
      ensures r[i].timestamp >= r[j].timestamp
    {
      if i == 0 {
        assert r[j] == t[j - 1];
        assert t[0].timestamp >= t[j - 1].timestamp;
      } else {
        assert r[i] == t[i - 1] && r[j] == t[j - 1];
      }
    }
  }

  function InsertByTime(m: Message, s: seq<Message>): (r: seq<Message>)
    requires NewestFirst(s)
    ensures NewestFirst(r)
    ensures multiset(r) == multiset(s) + multiset{m}
    ensures |r| == |s| + 1 && (r[0] == m || (|s| > 0 && r[0] == s[0]))
  {
    if s == [] then [m]
    else if m.timestamp >= s[0].timestamp then
      PrependNewest(m, s);
      [m] + s
    else
      assert s == [s[0]] + s[1..];
      var rest := InsertByTime(m, s[1..]);
      PrependNewest(s[0], rest);
      [s[0]] + rest
  }

  /** `.sort({ timestamp: -1 })`. Documents with equal timestamps keep their
      stored order here; the database leaves their order unspecified. */
  function SortNewestFirst(s: seq<Message>): (r: seq<Message>)
    ensures NewestFirst(r)
    ensures multiset(r) == multiset(s)
  {
    if s == [] then []
    else
      assert s == [s[0]] + s[1..];
      InsertByTime(s[0], SortNewestFirst(s[1..]))
  }

  const Refused := "Forbidden"

  /** The body of `GET /inbox/:email`: a refusal, or the listed messages. */
  datatype InboxBody = Forbidden(msg: string) | Listing(messages: seq<Message>)

  /** `GET /inbox/:email` by the authenticated `caller` for the path address
      `path`: only one's own inbox, compared case-insensitively; every stored
      message to or from the lower-cased address, each as often as stored,
      newest first. */
  function Inbox(messages: seq<Message>, caller: string, path: string): (r: Reply<InboxBody>)
    ensures r.status == 403 <==> Lower(path) != Lower(caller)
    ensures r.status == 403 ==> r.body == Forbidden(Refused)
    ensures r.status != 403 ==>
      && r.status == 200 && r.body.Listing?
      && NewestFirst(r.body.messages)
      && forall m :: multiset(r.body.messages)[m] == if Involves(m, Lower(path)) then multiset(messages)[m] else 0
  {
    if Lower(path) != Lower(caller) then Reply(403, Forbidden(Refused))
    else
      var email := Lower(path);
      Reply(200, Listing(SortNewestFirst(Mailbox(messages, email))))
  }
}
