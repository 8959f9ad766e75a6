/** The `Pair` collection: one document per unordered pair of e-mail
    addresses, keyed by the canonical ordered tuple `(a, b)`. */
module Pairs {
  import opened Common
  import opened Text
  import opened Oracles

  /** The unique index `{ a: 1, b: 1 }`: a pair is identified by its two parties. */
  datatype PairKey = PairKey(a: string, b: string)

  /** The mutable part of a pair document. */
  datatype PairState = PairState(verified: bool, otpHash: Option<Digest>, expiresAt: Option<int>)

  /** The collection. Being a map, it holds at most one document per `(a, b)`,
      and every document has both party fields, taken from its key. */
  type PairStore = map<PairKey, PairState>

  /** A document as the schema creates it, before any update is applied.
      The upsert of `/request` overwrites all three fields at once, so these
      defaults are never observed in a stored document; nothing else in the
      model depends on them. */
  function NewPair(): (p: PairState)
    ensures !p.verified
    ensures p.otpHash == None && p.expiresAt == None
  {
    PairState(false, None, None)
  }

  /** The two phases a stored document moves between: awaiting a code
      (unverified, hash and expiry set) and verified (both cleared). */
  predicate InPhase(p: PairState)
  {
    if p.verified then p.otpHash == None && p.expiresAt == None
    else Truthy(p.otpHash) && p.expiresAt.Some?
  }

  /** Every stored document is in one of the two phases. */
  ghost predicate Phased(store: PairStore)
  {
    forall k :: k in store ==> InPhase(store[k])
  }

  /** An OTP is on record: a truthy hash and an expiry. For a document in one
      of the two phases, that is exactly "not yet verified". */
  predicate OtpPending(p: PairState)
    ensures InPhase(p) ==> (OtpPending(p) <==> !p.verified)
  {
    Truthy(p.otpHash) && p.expiresAt.Some?
  }

  /** `sortPairEmails`: both addresses lower-cased, smaller one first. */
  function SortPairEmails(e1: string, e2: string): (k: PairKey)
    ensures (k.a == Lower(e1) && k.b == Lower(e2)) || (k.a == Lower(e2) && k.b == Lower(e1))
    ensures LexLeq(k.a, k.b)
  {
    var a := Lower(e1);
    var b := Lower(e2);
    if LexLess(a, b) then LexAsymmetric(a, b); PairKey(a, b) else PairKey(b, a)
  }

  /** A key as `sortPairEmails` produces it. */
  predicate Canonical(k: PairKey)
  {
    IsLowered(k.a) && IsLowered(k.b) && LexLeq(k.a, k.b)
  }

  lemma SortPairCanonical(e1: string, e2: string)
    ensures Canonical(SortPairEmails(e1, e2))
  {
    LowerIsLowered(e1);
    LowerIsLowered(e2);
  }

  /** The pair key does not depend on which party comes first. */
  lemma SortPairSymmetric(x: string, y: string)
    ensures SortPairEmails(x, y) == SortPairEmails(y, x)
  {
    LexTotal(Lower(x), Lower(y));
    LexAsymmetric(Lower(x), Lower(y));
  }

  /** The pair key does not depend on the letter case of either address. */
  lemma SortPairCaseInsensitive(x: string, y: string)
    ensures SortPairEmails(Lower(x), y) == SortPairEmails(x, y)
    ensures SortPairEmails(x, Lower(y)) == SortPairEmails(x, y)
  {
    LowerIdempotent(x);
    LowerIdempotent(y);
  }

  /** Reference definition: the key is the one ordered arrangement of the two
      lower-cased addresses whose first component is not above the second. */
  lemma SortPairUnique(x: string, y: string, k: PairKey)
    requires (k.a == Lower(x) && k.b == Lower(y)) || (k.a == Lower(y) && k.b == Lower(x))
    requires LexLeq(k.a, k.b)
    ensures SortPairEmails(x, y) == k
  {
    LexTotal(Lower(x), Lower(y));
    LexAsymmetric(Lower(x), Lower(y));
  }

  /** Two keys with the same parties in either order are the same key. */
  lemma CanonicalKeysAgree(k1: PairKey, k2: PairKey)
    requires Canonical(k1) && Canonical(k2)
    requires (k1.a == k2.a && k1.b == k2.b) || (k1.a == k2.b && k1.b == k2.a)
    ensures k1 == k2
  {
    if k1.a != k1.b {
      LexTotal(k1.a, k1.b);
    }
  }

  /** `k` names the two addresses, lower-cased, in either order. */
  predicate SameParties(k: PairKey, x: string, y: string)
  {
    (k.a == Lower(x) && k.b == Lower(y)) || (k.a == Lower(y) && k.b == Lower(x))
  }

  /** In a well-formed collection, the only key that can hold the pair of
      `x` and `y` is `sortPairEmails(x, y)`. */
  lemma StoredKeyIsSorted(store: PairStore, x: string, y: string)
    ensures Wellformed(store) ==>
      forall k :: k in store && SameParties(k, x, y) ==> k == SortPairEmails(x, y)
  {
    if Wellformed(store) {
      forall k | k in store && SameParties(k, x, y)
        ensures k == SortPairEmails(x, y)
      {
        SortPairCanonical(x, y);
        CanonicalKeysAgree(k, SortPairEmails(x, y));
      }
    }
  }

  /** The collection invariant: every key is canonical and names a non-empty
      larger party (the lower-cased `to`, or something above it). */
  ghost predicate Wellformed(store: PairStore)
  {
    forall k :: k in store ==> Canonical(k) && k.b != ""
  }

  /** `findOneAndUpdate({ a, b }, { verified: false, otpHash, expiresAt }, { upsert: true })`:
      update the document at `k`, or create it with the schema defaults first. */
  function UpsertOtp(store: PairStore, k: PairKey, otpHash: Digest, expiresAt: int): (s: PairStore)
    ensures k in s && s[k] == PairState(false, Some(otpHash), Some(expiresAt))
    ensures s.Keys == store.Keys + {k}
    ensures forall k' :: k' in store && k' != k ==> s[k'] == store[k']
  {
    var doc := if k in store then store[k] else NewPair();
    store[k := doc.(verified := false, otpHash := Some(otpHash), expiresAt := Some(expiresAt))]
  }
}
