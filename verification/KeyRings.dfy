/** Authenticated encryption of stored secrets under a versioned ring of keys
    (apps/api/src/crypto/token-cipher.ts, apps/api/src/crypto/key-ring.ts). */
module KeyRings {
  import opened Common

  type Bytes = string

  const NONCE_BYTES := 12
  const TAG_BYTES := 16
  const KEY_BYTES := 32

  /** The block primitive, as functions of key, nonce, text and associated data. */
  datatype Aead = Aead(seal: (Bytes, Bytes, Bytes, Bytes) -> Bytes, open: (Bytes, Bytes, Bytes, Bytes) -> Option<Bytes>)

  /** Sections 7.1 and 7.2 of NIST SP 800-38D: what was sealed opens to itself under the same key,
      nonce and associated data, and a sealed text is as long as the plain one and a tag of sixteen bytes. */
  ghost predicate IsGcm(a: Aead) {
    && (forall k, n, p, d :: a.open(k, n, a.seal(k, n, p, d), d) == Some(p) && |a.seal(k, n, p, d)| == |p| + TAG_BYTES)
    && (forall k, n, c, d :: a.open(k, n, c, d).Some? ==> |c| == |a.open(k, n, c, d).value| + TAG_BYTES)
  }

  datatype Secret = Secret(ciphertext: Bytes, nonce: Bytes, keyVersion: int)

  datatype VersionedKey = VersionedKey(version: int, key: Bytes)

  datatype Settings = Settings(current: VersionedKey, previous: seq<VersionedKey>)

  datatype RingError = InvalidVersion | DuplicateVersion | CurrentNotNewest | InvalidKey

  datatype Ring = Ring(current: int, keys: map<int, Bytes>)

  function AllKeys(s: Settings): seq<VersionedKey> { [s.current] + s.previous }

  /** Positive versions, each different from those before it. */
  ghost predicate SoundVersions(keys: seq<VersionedKey>) {
    && (forall i :: 0 <= i < |keys| ==> keys[i].version >= 1)
    && (forall i, j :: 0 <= i < j < |keys| ==> keys[i].version != keys[j].version)
  }

  ghost predicate ValidVersions(s: Settings) {
    SoundVersions(AllKeys(s)) && forall k :: k in s.previous ==> k.version < s.current.version
  }

  /** Sound versions, and keys of the size that the cipher takes. */
  ghost predicate ValidSettings(s: Settings) {
    ValidVersions(s) && forall k :: k in AllKeys(s) ==> |k.key| == KEY_BYTES
  }

  /** The key at `i` is the first whose version is faulty, in the way that `error` says. */
  ghost predicate IsFirstBadVersion(keys: seq<VersionedKey>, i: nat, error: RingError)
    requires i < |keys|
  {
    && SoundVersions(keys[..i])
    && (error == InvalidVersion <==> keys[i].version < 1)
    && (error == DuplicateVersion ==> exists j :: 0 <= j < i && keys[j].version == keys[i].version)
  }

  /** The one error that these settings deserve: the first bad version, else an old key that is newer than
      the current one, else a key of the wrong size. */
  ghost predicate IsRightError(s: Settings, error: RingError) {
    match error
    case InvalidVersion | DuplicateVersion =>
      exists i :: 0 <= i < |AllKeys(s)| && IsFirstBadVersion(AllKeys(s), i, error)
    case CurrentNotNewest => SoundVersions(AllKeys(s)) && exists k :: k in s.previous && k.version > s.current.version
    case InvalidKey => ValidVersions(s) && exists k :: k in AllKeys(s) && |k.key| != KEY_BYTES
  }

  /** Refuses bad, repeated or too new versions, and says which it met first; silent exactly when there are
      none. */
  method AssertVersions(s: Settings) returns (error: Option<RingError>)
    ensures error.None? <==> ValidVersions(s)
    ensures error.Some? ==> IsRightError(s, error.value)
  {
    var all := AllKeys(s);
    var seen: set<int> := {};
    for i := 0 to |all|
      invariant seen == set j | 0 <= j < i :: all[j].version
      invariant forall j :: 0 <= j < i ==> all[j].version >= 1
      invariant forall j, k :: 0 <= j < k < i ==> all[j].version != all[k].version
    {
      if all[i].version < 1 {
        assert IsFirstBadVersion(all, i, InvalidVersion);
        return Some(InvalidVersion);
      }
      if all[i].version in seen {
        assert IsFirstBadVersion(all, i, DuplicateVersion);
        return Some(DuplicateVersion);
      }
      seen := seen + {all[i].version};
    }
    if exists k :: k in s.previous && k.version > s.current.version {
      return Some(CurrentNotNewest);
    }
    forall k | k in s.previous ensures k.version < s.current.version {
      var i :| 0 <= i < |s.previous| && s.previous[i] == k;
      assert all[i + 1] == k && all[0] == s.current;
    }
    error := None;
  }

  /** A ring that encrypts with the current key and knows every key by its version. */
  method CreateKeyRing(s: Settings) returns (r: Result<Ring, RingError>)
    ensures r.Ok? <==> ValidSettings(s)
    ensures r.Err? ==> IsRightError(s, r.error)
    ensures r.Ok? ==> r.value.current == s.current.version && r.value.current in r.value.keys
    ensures r.Ok? ==> forall k :: k in AllKeys(s) ==> k.version in r.value.keys && r.value.keys[k.version] == k.key
    ensures r.Ok? ==> forall v :: v in r.value.keys ==> exists k :: k in AllKeys(s) && k.version == v
  {
    var error := AssertVersions(s);
    if error.Some? {
      return Err(error.value);
    }
    var all, keys := AllKeys(s), map[];
    for i := 0 to |all|
      invariant forall j :: 0 <= j < i ==> all[j].version in keys && keys[all[j].version] == all[j].key
      invariant forall v :: v in keys ==> exists j :: 0 <= j < i && all[j].version == v
      invariant forall j :: 0 <= j < i ==> |all[j].key| == KEY_BYTES
    {
      if |all[i].key| != KEY_BYTES {
        assert all[i] in AllKeys(s);
        return Err(InvalidKey);
      }
      keys := keys[all[i].version := all[i].key];
    }
    assert all[0] == s.current;
    r := Ok(Ring(s.current.version, keys));
  }

  lemma BadVersionIsUnsound(keys: seq<VersionedKey>, i: nat, n: nat, error: RingError)
    requires i < n <= |keys| && IsFirstBadVersion(keys, i, error)
    requires error == InvalidVersion || error == DuplicateVersion
    ensures !SoundVersions(keys[..n])
  {
    assert keys[..n][i] == keys[i];
    if error == DuplicateVersion {
      var j :| 0 <= j < i && keys[j].version == keys[i].version;
      assert keys[..n][j] == keys[j];
    }
  }

  /** Refused settings have one right error. */
  lemma OnlyOneError(s: Settings, a: RingError, b: RingError)
    requires IsRightError(s, a) && IsRightError(s, b)
    ensures a == b && !ValidSettings(s)
  {
    var all := AllKeys(s);
    assert all[..|all|] == all;
    forall e, i: nat, n: nat | e in {InvalidVersion, DuplicateVersion} && i < n <= |all| && IsFirstBadVersion(all, i, e)
      ensures !SoundVersions(all[..n])
    {
      BadVersionIsUnsound(all, i, n, e);
    }
  }

  function Encrypt(a: Aead, ring: Ring, version: int, plain: Bytes, aad: Bytes, nonce: Bytes): Secret
    requires version in ring.keys
  {
    Secret(a.seal(ring.keys[version], nonce, plain, aad), nonce, version)
  }

  /** Refuses an unknown version, a nonce of the wrong size and a text no longer than its tag. */
  function Decrypt(a: Aead, ring: Ring, s: Secret, aad: Bytes): Option<Bytes> {
    if s.keyVersion !in ring.keys || |s.nonce| != NONCE_BYTES || |s.ciphertext| <= TAG_BYTES then None
    else a.open(ring.keys[s.keyVersion], s.nonce, s.ciphertext, aad)
  }

  /** Encryption is undone by decryption exactly for non-empty texts: an encrypted empty text is all tag,
      and decryption refuses it. */
  lemma RoundTripsUnlessEmpty(a: Aead, ring: Ring, version: int, plain: Bytes, aad: Bytes, nonce: Bytes)
    requires IsGcm(a) && version in ring.keys && |nonce| == NONCE_BYTES
    ensures Decrypt(a, ring, Encrypt(a, ring, version, plain, aad, nonce), aad) == Some(plain) <==> plain != ""
    ensures Decrypt(a, ring, Encrypt(a, ring, version, plain, aad, nonce), aad).Some? <==> plain != ""
  {
  }
}
