/**
 The wire format of an encrypted field: version, big-endian length of the wrapped data key, the
 wrapped key, a 12-byte nonce and the ciphertext.
 */
module Envelope {

  type Byte = b: int | 0 <= b < 256
  type Bytes = seq<Byte>

  const ENVELOPE_VERSION: Byte := 1
  const NONCE_BYTES: nat := 12
  const HEADER: nat := 3

  datatype EnvelopeError = BadNonce | LengthOverflow | Truncated | UnsupportedVersion(version: Byte)
  datatype Parts = Parts(wrapped: Bytes, nonce: Bytes, ciphertext: Bytes)
  datatype Packed = Packed(envelope: Bytes) | PackFailed(error: EnvelopeError)
  datatype Unpacked = Unpacked(parts: Parts) | UnpackFailed(error: EnvelopeError)

  /** A number in two bytes, most significant first. */
  function TwoBytes(n: nat): Bytes
    requires n < 65536
  {
    [n / 256, n % 256]
  }

  function FromTwoBytes(b: Bytes): nat
    requires |b| == 2
  {
    var hi: int := b[0];
    hi * 256 + b[1]
  }

  function PackEnvelope(p: Parts): Packed {
    if |p.nonce| != NONCE_BYTES then PackFailed(BadNonce)
    else if |p.wrapped| >= 65536 then PackFailed(LengthOverflow)
    else Packed([ENVELOPE_VERSION] + TwoBytes(|p.wrapped|) + p.wrapped + p.nonce + p.ciphertext)
  }

  function UnpackEnvelope(e: Bytes): Unpacked {
    if |e| < HEADER then UnpackFailed(Truncated)
    else if e[0] != ENVELOPE_VERSION then UnpackFailed(UnsupportedVersion(e[0]))
    else
      var nonceStart := HEADER + FromTwoBytes(e[1..3]);
      var ciphertextStart := nonceStart + NONCE_BYTES;
      if |e| < ciphertextStart then UnpackFailed(Truncated)
      else Unpacked(Parts(e[HEADER..nonceStart], e[nonceStart..ciphertextStart], e[ciphertextStart..]))
  }

  /** Every packed envelope unpacks to its parts; packing fails only on a wrong nonce or a key of 64 KiB or more. */
  lemma UnpackInvertsPack(p: Parts)
    ensures var e := PackEnvelope(p);
            && (e.Packed? <==> |p.nonce| == 12 && |p.wrapped| < 65536)
            && (e.Packed? ==> UnpackEnvelope(e.envelope) == Unpacked(p))
            && (e.PackFailed? ==> e.error == if |p.nonce| == 12 then LengthOverflow else BadNonce)
  {
    var r := PackEnvelope(p);
    if r.Packed? {
      var e, n := r.envelope, 3 + |p.wrapped|;
      assert e[1..3] == TwoBytes(|p.wrapped|);
      assert e[3..n] == p.wrapped;
      assert e[n..n + 12] == p.nonce;
      assert e[n + 12..] == p.ciphertext;
    }
  }

  /** Conversely, whatever bytes unpacking accepts are exactly what packing its result writes. */
  lemma PackInvertsUnpack(e: Bytes)
    requires UnpackEnvelope(e).Unpacked?
    ensures PackEnvelope(UnpackEnvelope(e).parts) == Packed(e)
  {
    var p := UnpackEnvelope(e).parts;
    var n := 3 + |p.wrapped|;
    assert |p.wrapped| == FromTwoBytes(e[1..3]);
    assert TwoBytes(|p.wrapped|) == e[1..3];
    assert e == [e[0]] + e[1..3] + e[3..n] + e[n..n + 12] + e[n + 12..];
  }

  /**
   Bytes unpack if and only if packing some parts gives them. Other bytes are refused for their version
   exactly when they have a header with another version than 1, and as truncated otherwise.
   */
  lemma UnpacksIff(e: Bytes)
    ensures UnpackEnvelope(e).Unpacked? <==> exists p :: PackEnvelope(p) == Packed(e)
    ensures var r := UnpackEnvelope(e);
            r.UnpackFailed? ==> r.error == if |e| >= 3 && e[0] != 1 then UnsupportedVersion(e[0]) else Truncated
  {
    if UnpackEnvelope(e).Unpacked? {
      PackInvertsUnpack(e);
    } else if p :| PackEnvelope(p) == Packed(e) {
      UnpackInvertsPack(p);
    }
  }

  /** A value cut anywhere before the end of its nonce is rejected as truncated. */
  lemma TruncationIsRejected(p: Parts, k: nat)
    requires PackEnvelope(p).Packed? && k < 15 + |p.wrapped|
    ensures UnpackEnvelope(PackEnvelope(p).envelope[..k]) == UnpackFailed(Truncated)
  {
    var e, two := PackEnvelope(p).envelope, TwoBytes(|p.wrapped|);
    assert e == [ENVELOPE_VERSION, two[0], two[1]] + (p.wrapped + p.nonce + p.ciphertext);
    if k >= 3 {
      var cut := e[..k];
      assert cut[0] == ENVELOPE_VERSION && cut[1] == two[0] && cut[2] == two[1];
      assert cut[1..3] == two;
    }
  }
}
