/** server/piiEncryption.ts: storing IP addresses encrypted, with a primary and a previous key. */
module PiiEncryption {
  import opened Wrappers

  const PREFIX_LEGACY: string := "enc:"
  const PREFIX_V1: string := "enc:v1:"
  const MASK: string := "[encrypted]"
  const MIN_PACKED: nat := 28

  /**
   AES-256-GCM with its packing as a pair of functions: seal takes key, initialisation vector and
   plaintext, open takes key and packed text.
   */
  datatype Cipher = Cipher(seal: (string, string, string) -> string, open: (string, string) -> Option<string>)

  /** Opens what it sealed, under the same key only. */
  ghost predicate Ideal(c: Cipher) {
    && (forall k, iv, p :: c.open(k, c.seal(k, iv, p)) == Some(p))
    && (forall k, k', iv, p :: k != k' ==> c.open(k', c.seal(k, iv, p)) == None)
    && forall k, iv, p :: |c.seal(k, iv, p)| >= MIN_PACKED
  }

  /**
   A key is taken from a text of 64 characters, and only from such a text; decode is
   Buffer.from(_, "hex"), so two spellings of the same bytes configure the same key.
   */
  function FromEnv(decode: string -> string, env: string): Option<string> { if |env| == 64 then Some(decode(env)) else None }

  function EncryptPii(c: Cipher, key: Option<string>, iv: string, plaintext: Option<string>): Option<string> {
    if plaintext.None? || plaintext.value == "" then None
    else if key.None? then plaintext
    else Some(PREFIX_V1 + c.seal(key.value, iv, plaintext.value))
  }

  function TryDecrypt(c: Cipher, key: Option<string>, packed: string): Option<string> {
    if key.None? || |packed| < MIN_PACKED then None else c.open(key.value, packed)
  }

  predicate HasPrefix(s: string, p: string) { |p| <= |s| && s[..|p|] == p }

  function DecryptPii(c: Cipher, primary: Option<string>, previous: Option<string>, stored: Option<string>): Option<string> {
    if stored.None? || stored.value == "" then None
    else if !HasPrefix(stored.value, PREFIX_LEGACY) then stored
    else
      var packed := if HasPrefix(stored.value, PREFIX_V1) then stored.value[|PREFIX_V1|..] else stored.value[|PREFIX_LEGACY|..];
      if |packed| < MIN_PACKED then Some(MASK)
      else if TryDecrypt(c, primary, packed).Some? then TryDecrypt(c, primary, packed)
      else if TryDecrypt(c, previous, packed).Some? then TryDecrypt(c, previous, packed)
      else Some(MASK)
  }

  /** The key that sealed a value is still configured. */
  predicate Known(key: Option<string>, primary: Option<string>, previous: Option<string>) {
    key.None? || key == primary || key == previous
  }

  /** A text that cannot be mistaken for a stored ciphertext or for the mask. */
  predicate PlainText(p: Option<string>) {
    p.Some? ==> !HasPrefix(p.value, PREFIX_LEGACY) && p.value != MASK
  }

  function NonEmpty(p: Option<string>): Option<string> { if p == Some("") then None else p }

  /**
   What comes back is the plaintext if the key it was sealed under is still the primary or the
   previous one, or if it was not sealed at all, and the mask otherwise.
   */
  lemma DecryptAfterEncrypt(c: Cipher, key: Option<string>, iv: string, p: Option<string>, primary: Option<string>, previous: Option<string>)
    requires Ideal(c) && PlainText(p)
    ensures DecryptPii(c, primary, previous, EncryptPii(c, key, iv, p))
         == if NonEmpty(p).None? || Known(key, primary, previous) then NonEmpty(p) else Some(MASK)
  {
    if p.Some? && p.value != "" && key.Some? {
      var packed := c.seal(key.value, iv, p.value);
      var s := PREFIX_V1 + packed;
      assert s[..4] == PREFIX_LEGACY && s[..7] == PREFIX_V1 && s[7..] == packed;
      assert primary.Some? && primary != key ==> c.open(primary.value, packed) == None;
      assert previous.Some? && previous != key ==> c.open(previous.value, packed) == None;
    }
  }

  /** The module's cached keys. */
  class Keys {
    const decode: string -> string
    const envKey: string
    const envKeyPrev: string
    var cachedKey: Option<string>
    var keyChecked: bool
    var cachedKeyPrev: Option<Option<string>>

    /** The caches never disagree with the environment. */
    predicate Valid()
      reads this
    {
      && (cachedKey.Some? ==> cachedKey == FromEnv(decode, envKey))
      && (keyChecked && cachedKey.None? ==> FromEnv(decode, envKey).None?)
      && (cachedKeyPrev.Some? ==> cachedKeyPrev.value == FromEnv(decode, envKeyPrev))
    }

    /** What the configured keys open, in this order, or the mask; a packed text of fewer than 28 bytes is not tried. */
    function Opened(c: Cipher, packed: string): string
      reads this
    {
      if |packed| >= 28 && |envKey| == 64 && c.open(decode(envKey), packed).Some? then c.open(decode(envKey), packed).value
      else if |packed| >= 28 && |envKeyPrev| == 64 && c.open(decode(envKeyPrev), packed).Some? then c.open(decode(envKeyPrev), packed).value
      else "[encrypted]"
    }

    constructor (decode: string -> string, envKey: string, envKeyPrev: string)
      ensures Valid() && this.decode == decode && this.envKey == envKey && this.envKeyPrev == envKeyPrev
    {
      this.decode, this.envKey, this.envKeyPrev := decode, envKey, envKeyPrev;
      cachedKey, keyChecked, cachedKeyPrev := None, false, None;
    }

    method GetKey() returns (key: Option<string>)
      requires Valid()
      modifies this
      ensures Valid() && key == FromEnv(decode, envKey)
    {
      if cachedKey.Some? { return cachedKey; }
      if keyChecked { return None; }
      if |envKey| == 64 {
        cachedKey := Some(decode(envKey));
        keyChecked := true;
        return cachedKey;
      }
      keyChecked := true;
      return None;
    }

    method GetPrevKey() returns (key: Option<string>)
      requires Valid()
      modifies this
      ensures Valid() && key == FromEnv(decode, envKeyPrev)
    {
      if cachedKeyPrev.Some? { return cachedKeyPrev.value; }
      cachedKeyPrev := Some(if |envKeyPrev| == 64 then Some(decode(envKeyPrev)) else None);
      return cachedKeyPrev.value;
    }

    method Encrypt(c: Cipher, iv: string, plaintext: Option<string>) returns (stored: Option<string>)
      requires Valid()
      modifies this
      ensures Valid() && stored == EncryptPii(c, FromEnv(decode, envKey), iv, plaintext)
      ensures plaintext.Some? && plaintext.value != "" ==>
                stored == Some(if |envKey| == 64 then "enc:v1:" + c.seal(decode(envKey), iv, plaintext.value) else plaintext.value)
      ensures plaintext == None || plaintext == Some("") ==> stored == None
    {
      if plaintext.None? || plaintext.value == "" { return None; }
      var key := GetKey();
      if key.None? { return plaintext; }
      return Some(PREFIX_V1 + c.seal(key.value, iv, plaintext.value));
    }

    method Decrypt(c: Cipher, stored: Option<string>) returns (plaintext: Option<string>)
      requires Valid()
      modifies this
      ensures Valid() && plaintext == DecryptPii(c, FromEnv(decode, envKey), FromEnv(decode, envKeyPrev), stored)
      ensures stored == None || stored == Some("") ==> plaintext == None
      ensures stored.Some? && stored.value != "" && !("enc:" <= stored.value) ==> plaintext == stored
      ensures forall packed: string {:trigger "enc:v1:" + packed} | stored == Some("enc:v1:" + packed) ::
                plaintext == Some(Opened(c, packed))
      ensures forall packed: string {:trigger "enc:" + packed} | stored == Some("enc:" + packed) && !("v1:" <= packed) ::
                plaintext == Some(Opened(c, packed))
    {
      if stored.None? || stored.value == "" { return None; }
      if !HasPrefix(stored.value, PREFIX_LEGACY) { return stored; }
      var packed := stored.value[|PREFIX_LEGACY|..];
      if HasPrefix(stored.value, PREFIX_V1) { packed := stored.value[|PREFIX_V1|..]; }
      if |packed| < MIN_PACKED { return Some(MASK); }
      var primary := GetKey();
      var result := TryDecrypt(c, primary, packed);
      if result.Some? { return result; }
      var previous := GetPrevKey();
      result := TryDecrypt(c, previous, packed);
      if result.Some? { return result; }
      return Some(MASK);
    }
  }
}
