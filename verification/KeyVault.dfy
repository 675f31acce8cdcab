/**
 Envelope encryption with the data keys wrapped by a vault and cached in process. The vault and the
 authenticated cipher are function parameters with their inverse laws; whether the vault answers a
 call, the random key and nonce and the clock readings are parameters of each call.
 */
module KeyVault {
  import opened Wrappers
  import opened Envelope
  import opened DekCache

  datatype Opened = Plain(text: string) | InvalidTag | NotUtf8

  datatype Decrypted = Text(text: string) | NotAnEnvelope(error: EnvelopeError) | VaultFailed | Unauthentic | Undecodable

  datatype Encrypted = Envelope(bytes: Bytes) | WrapFailed | CannotPack(error: EnvelopeError)

  type Unwrap = Bytes -> Option<Bytes>
  type Open = (Bytes, Bytes, Bytes) -> Opened
  type Seal = (Bytes, Bytes, string) -> Bytes

  /** What decryption answers with a given unwrapped key. */
  function OpenWith(open: Open, dek: Bytes, p: Parts): Decrypted {
    match open(dek, p.nonce, p.ciphertext)
    case Plain(text) => Text(text)
    case InvalidTag => Unauthentic
    case NotUtf8 => Undecodable
  }

  /** Decryption without any cache: every call asks the vault. */
  function Cacheless(unwrap: Unwrap, open: Open, envelope: Bytes, answers: bool): Decrypted {
    match UnpackEnvelope(envelope)
    case UnpackFailed(error) => NotAnEnvelope(error)
    case Unpacked(p) =>
      if answers && unwrap(p.wrapped).Some? then OpenWith(open, unwrap(p.wrapped).value, p) else VaultFailed
  }

  class KeyVaultCipher {
    const cache: Cache
    const unwrap: Unwrap
    const open: Open
    const seal: Seal

    /** Opening with the same key and nonce inverts sealing. */
    ghost predicate Authentic() {
      forall dek, nonce, text :: open(dek, nonce, seal(dek, nonce, text)) == Plain(text)
    }

    /** Every cached key is what the vault would answer. */
    ghost predicate Valid()
      reads this, cache
    {
      cache.Valid() && Authentic() && forall x :: x in cache.entries ==> unwrap(x.key) == Some(x.dek)
    }

    constructor (unwrap: Unwrap, open: Open, seal: Seal, cacheSize: nat, ttl: real)
      requires forall dek, nonce, text :: open(dek, nonce, seal(dek, nonce, text)) == Plain(text)
      ensures Valid() && fresh(cache) && cache.maxSize == cacheSize && cache.ttl == ttl
      ensures this.unwrap == unwrap && this.open == open && this.seal == seal
    {
      this.unwrap, this.open, this.seal := unwrap, open, seal;
      cache := new Cache(cacheSize, ttl);
    }

    /**
     `wrapped` is the vault's answer to wrapping the fresh key, None when it fails. The key is cached
     before packing, and any later decryption of the envelope that reaches the vault gives the text back.
     */
    method Encrypt(plaintext: string, dek: Bytes, nonce: Bytes, wrapped: Option<Bytes>, now: real) returns (r: Encrypted)
      requires Valid() && |nonce| == NONCE_BYTES
      requires wrapped.Some? ==> unwrap(wrapped.value) == Some(dek)
      modifies cache
      ensures Valid()
      ensures r.WrapFailed? <==> wrapped.None?
      ensures r.CannotPack? <==> wrapped.Some? && |wrapped.value| >= 65536
      ensures r.CannotPack? ==> r.error == LengthOverflow
      ensures r.Envelope? ==> Cacheless(unwrap, open, r.bytes, true) == Text(plaintext)
      ensures cache.calls == if wrapped.Some? then old(cache.calls) + [Put(wrapped.value, dek, now)] else old(cache.calls)
    {
      var ciphertext := seal(dek, nonce, plaintext);
      if wrapped.None? {
        return WrapFailed;
      }
      cache.Store(wrapped.value, dek, now);
      var parts := Parts(wrapped.value, nonce, ciphertext);
      UnpackInvertsPack(parts);
      match PackEnvelope(parts) {
        case Packed(envelope) => r := Envelope(envelope);
        case PackFailed(error) => r := CannotPack(error);
      }
    }

    /**
     The cacheless answer whenever the vault answers, and also without it when the key is cached and
     unexpired; otherwise an outage, never a wrong text. A failed unwrap caches nothing.
     */
    method Decrypt(envelope: Bytes, answers: bool, now: real, later: real) returns (r: Decrypted)
      requires Valid()
      modifies cache
      ensures Valid()
      ensures var u := UnpackEnvelope(envelope);
              var hit := u.Unpacked? && EventOf(old(cache.entries), Get(u.parts.wrapped, now)).Hit?;
              && r == Cacheless(unwrap, open, envelope, answers || hit)
              && cache.calls == old(cache.calls)
                 + (if u.Unpacked? then [Get(u.parts.wrapped, now)] else [])
                 + (if u.Unpacked? && !hit && !r.VaultFailed? then [Put(u.parts.wrapped, unwrap(u.parts.wrapped).value, later)] else [])
      ensures var u := UnpackEnvelope(envelope);
              u.UnpackFailed? ==> r == NotAnEnvelope(u.error)
      ensures var u := UnpackEnvelope(envelope);
              u.Unpacked? && !r.VaultFailed? ==>
                var dek := unwrap(u.parts.wrapped);
                && dek.Some?
                && (forall text :: open(dek.value, u.parts.nonce, u.parts.ciphertext) == Plain(text) <==> r == Text(text))
                && (open(dek.value, u.parts.nonce, u.parts.ciphertext).InvalidTag? <==> r == Unauthentic)
                && (open(dek.value, u.parts.nonce, u.parts.ciphertext).NotUtf8? <==> r == Undecodable)
    {
      var u := UnpackEnvelope(envelope);
      if u.UnpackFailed? {
        return NotAnEnvelope(u.error);
      }
      var p := u.parts;
      var cached := cache.Lookup(p.wrapped, now);
      var dek: Bytes;
      if cached.Some? {
        dek := cached.value;
      } else {
        if !answers || unwrap(p.wrapped).None? {
          return VaultFailed;
        }
        dek := unwrap(p.wrapped).value;
        cache.Store(p.wrapped, dek, later);
      }
      r := OpenWith(open, dek, p);
    }
  }
}
