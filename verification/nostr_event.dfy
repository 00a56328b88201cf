/**
 * The `NostrEvent` record and the operations that give it its identity: the
 * identifier is the hex SHA-256 digest of the commitment, recomputed only by an
 * explicit `calculate_id`, and a signature is written over it by `sign`.
 */
module NostrEvent {
  import opened Results
  import opened Hex
  import opened Externals
  import Commitment

  /** A tag is an ordered list of strings; an event carries an ordered list of tags. */
  type Tag = seq<string>

  /**
   * The fields of a `NostrEvent`. `id`, `sig`, `tags` and `pow` are the class's `var`s;
   * the rest are `let`s fixed at construction.
   */
  datatype Event = Event(
    id: string,
    sig: string,
    tags: seq<Tag>,
    pow: Option<int>,
    pubkey: string,
    createdAt: int64,
    kind: int64,
    content: string
  )

  /** The five fields the identifier commits to. */
  predicate SameCommittedFields(a: Event, b: Event) {
    a.pubkey == b.pubkey && a.createdAt == b.createdAt && a.kind == b.kind
    && a.tags == b.tags && a.content == b.content
  }

  /** The commitment text of an event, with its tags JSON-encoded first. */
  function CommitmentOf(p: Platform, ev: Event): string {
    Commitment.EventCommitment(p, ev.pubkey, ev.createdAt, ev.kind, ev.content, p.encodeTags(ev.tags))
  }

  /** The 32-byte SHA-256 digest of the commitment's UTF-8 bytes. */
  function EventDigest(p: Platform, ev: Event): Digest {
    p.sha256(p.utf8(CommitmentOf(p, ev)))
  }

  /** `calculate_event_id`: the lowercase hex form of the commitment's digest, 64 digits long. */
  function CalculateEventId(p: Platform, ev: Event): (id: string)
    ensures |id| == 2 * DigestLength && IsLowerHex(id)
  {
    HexEncode(EventDigest(p, ev))
  }

  /** The identifier decodes to the commitment's SHA-256 digest. */
  lemma EventIdDecodesToDigest(p: Platform, ev: Event)
    ensures HexDecode(CalculateEventId(p, ev)) == Ok(EventDigest(p, ev))
  {
    DecodeEncode(EventDigest(p, ev));
  }

  /** The identifier is a function of the five committed fields alone; `id`, `sig` and `pow` play no part. */
  lemma EventIdIgnoresDerivedFields(p: Platform, a: Event, b: Event)
    requires SameCommittedFields(a, b)
    ensures CalculateEventId(p, a) == CalculateEventId(p, b)
  {
  }

  /** Two events have equal identifiers exactly when their commitments have equal digests. */
  lemma SameIdSameDigest(p: Platform, a: Event, b: Event)
    ensures CalculateEventId(p, a) == CalculateEventId(p, b) <==> EventDigest(p, a) == EventDigest(p, b)
  {
    if CalculateEventId(p, a) == CalculateEventId(p, b) {
      HexEncodeInjective(EventDigest(p, a), EventDigest(p, b));
    }
  }

  /** An event whose cached `id` and `pow` are current for its committed fields. */
  predicate IsIdentified(p: Platform, ev: Event) {
    ev.id == CalculateEventId(p, ev) && ev.pow == p.leadingZeroBits(ev.id)
  }

  /** `calculate_id`: writes `id` and then `pow` from the new `id`; every other field is kept. */
  function CalculateId(p: Platform, ev: Event): (ev': Event)
    ensures IsIdentified(p, ev')
    ensures SameCommittedFields(ev, ev') && ev'.sig == ev.sig
    ensures |ev'.id| == 64 && IsLowerHex(ev'.id)
  {
    var id := CalculateEventId(p, ev);
    ev.(id := id, pow := p.leadingZeroBits(id))
  }

  /** Recomputing the identity of an identified event changes nothing. */
  lemma CalculateIdIdempotent(p: Platform, ev: Event)
    requires IsIdentified(p, ev)
    ensures CalculateId(p, ev) == ev
  {
  }

  /**
   * `init(content:pubkey:kind:tags:)`: empty signature, the given fields, and an identity
   * computed on the spot. The clock reading `Int64(Date().timeIntervalSince1970)` is the
   * parameter `createdAt`.
   */
  function Init(p: Platform, createdAt: int64, content: string, pubkey: string,
                kind: int64 := 1, tags: seq<Tag> := []): (ev: Event)
    ensures ev.sig == ""
    ensures ev.content == content && ev.pubkey == pubkey && ev.kind == kind
    ensures ev.tags == tags && ev.createdAt == createdAt
    ensures IsIdentified(p, ev)
    ensures |ev.id| == 64 && IsLowerHex(ev.id)
  {
    var blank := Event("", "", tags, None, pubkey, createdAt, kind, content);
    CalculateId(p, blank)
  }

  // ---------------------------------------------------------------------------
  // ensure_nonce_tag

  /**
   * The tag `ensure_nonce_tag` accepts: exactly two strings, one of which, in either
   * position, is "nonce".
   */
  predicate IsNonceTag(tag: Tag) {
    |tag| == 2 && "nonce" in tag
  }

  const NewNonceTag: Tag := ["nonce", "0"]

  /** The first nonce tag at or after `from`, if any. */
  function FindNonceTag(tags: seq<Tag>, from: nat): (r: Option<nat>)
    requires from <= |tags|
    ensures r.Some? ==> from <= r.value < |tags| && IsNonceTag(tags[r.value])
    ensures r.Some? ==> forall k :: from <= k < r.value ==> !IsNonceTag(tags[k])
    ensures r.None? <==> forall k :: from <= k < |tags| ==> !IsNonceTag(tags[k])
    decreases |tags| - from
  {
    if from == |tags| then None
    else if IsNonceTag(tags[from]) then Some(from)
    else FindNonceTag(tags, from + 1)
  }

  /** The index `ensure_nonce_tag` returns together with the tags it leaves. */
  datatype NonceSlot = NonceSlot(index: nat, tags: seq<Tag>)

  /**
   * `ensure_nonce_tag`: the first nonce tag with the tags untouched, or else a new
   * `["nonce", "0"]` appended at the end and its index.
   */
  function EnsureNonceTag(tags: seq<Tag>): (r: NonceSlot)
    ensures r.index < |r.tags| && IsNonceTag(r.tags[r.index])
    ensures |tags| <= |r.tags| && r.tags[..|tags|] == tags
    ensures forall k :: 0 <= k < r.index && k < |tags| ==> !IsNonceTag(tags[k])
    ensures r.tags == tags <==> exists j :: 0 <= j < |tags| && IsNonceTag(tags[j])
    ensures r.tags != tags ==> r.tags == tags + [NewNonceTag] && r.index == |tags|
  {
    match FindNonceTag(tags, 0)
    case Some(i) => NonceSlot(i, tags)
    case None =>
      assert IsNonceTag(NewNonceTag) by { assert NewNonceTag[0] == "nonce"; }
      assert (tags + [NewNonceTag])[..|tags|] == tags;
      NonceSlot(|tags|, tags + [NewNonceTag])
  }

  /** A second call finds the tag the first one found or added, and adds nothing. */
  lemma EnsureNonceTagIdempotent(tags: seq<Tag>)
    ensures EnsureNonceTag(EnsureNonceTag(tags).tags) == EnsureNonceTag(tags)
  {
  }

  /** The source accepts "nonce" in the second position too, not only as the tag's name. */
  lemma NonceMatchedInAnyPosition()
    ensures EnsureNonceTag([["p", "nonce"]]) == NonceSlot(0, [["p", "nonce"]])
  {
    assert IsNonceTag(["p", "nonce"]) by { assert ["p", "nonce"][1] == "nonce"; }
  }

  /**
   * `ensure_nonce_tag` as the source writes it: for each tag, scan its strings for
   * "nonce" while checking the tag has two of them; return on the first hit, else append.
   * The identifier is not recomputed, so `id` and `pow` are left as they were.
   */
  method EnsureNonceTagLoop(ev: Event) returns (i: nat, ev': Event)
    ensures NonceSlot(i, ev'.tags) == EnsureNonceTag(ev.tags)
    ensures i < |ev'.tags| && IsNonceTag(ev'.tags[i])
    ensures ev' == ev.(tags := ev'.tags)
  {
    var n := 0;
    while n < |ev.tags|
      invariant n <= |ev.tags|
      invariant FindNonceTag(ev.tags, 0) == FindNonceTag(ev.tags, n)
    {
      var tags := ev.tags[n];
      var m := 0;
      while m < |tags|
        invariant m <= |tags|
        invariant forall l :: 0 <= l < m ==> !(|tags| == 2 && tags[l] == "nonce")
      {
        if |tags| == 2 && tags[m] == "nonce" {
          return n, ev;
        }
        m := m + 1;
      }
      n := n + 1;
    }
    ev' := ev.(tags := ev.tags + [NewNonceTag]);
    i := |ev'.tags| - 1;
  }

  // ---------------------------------------------------------------------------
  // sign

  /**
   * One of the four force-unwraps in `sign_event` failed: the private key text is
   * not hex, the key bytes are not a valid secp256k1 key, the identifier is not
   * hex, or the Schnorr signing call failed.
   */
  datatype SignError = UnwrapFailed

  /**
   * `sign_event`: the Schnorr signature over the identifier with 64 bytes of auxiliary
   * randomness (`random_bytes(count: 64)`, passed in), hex encoded.
   */
  function SignEvent(p: Platform, privkey: string, ev: Event, auxRand: seq<byte>): (r: Result<string, SignError>)
    requires |auxRand| == 64
    ensures r.Err? <==> p.schnorrSign(privkey, ev.id, auxRand).None?
    ensures r.Ok? ==> |r.value| == 2 * SignatureLength && IsLowerHex(r.value)
    ensures r.Ok? ==> HexDecode(r.value) == Ok(p.schnorrSign(privkey, ev.id, auxRand).value)
  {
    match p.schnorrSign(privkey, ev.id, auxRand)
    case None => Err(UnwrapFailed)
    case Some(signature) =>
      DecodeEncode(signature);
      Ok(HexEncode(signature))
  }

  /** `sign`: writes `sig` and nothing else; on failure the event is not changed. */
  function Sign(p: Platform, ev: Event, privkey: string, auxRand: seq<byte>): (r: Result<Event, SignError>)
    requires |auxRand| == 64
    ensures r.Err? <==> SignEvent(p, privkey, ev, auxRand).Err?
    ensures r.Ok? ==> r.value == ev.(sig := r.value.sig)
    ensures r.Ok? ==> r.value.sig == SignEvent(p, privkey, ev, auxRand).value
    ensures r.Ok? ==> |r.value.sig| == 128 && IsLowerHex(r.value.sig)
  {
    match SignEvent(p, privkey, ev, auxRand)
    case Err(e) => Err(e)
    case Ok(sig) => Ok(ev.(sig := sig))
  }

  /** Signing keeps an identified event identified: the signature is not part of the commitment. */
  lemma SignKeepsIdentity(p: Platform, ev: Event, privkey: string, auxRand: seq<byte>)
    requires |auxRand| == 64
    ensures IsIdentified(p, ev) && Sign(p, ev, privkey, auxRand).Ok? ==> IsIdentified(p, Sign(p, ev, privkey, auxRand).value)
  {
    var r := Sign(p, ev, privkey, auxRand);
    if r.Ok? {
      EventIdIgnoresDerivedFields(p, ev, r.value);
    }
  }
}
