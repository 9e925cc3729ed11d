/** The strong-name key material: the public-key blob built from the key file
    (`AddStrongName.GetPublicKey`) and the 8-byte public-key token derived from
    it (`AddStrongName.GetKeyTokenFromKey`). SHA-1 and the CryptoAPI key
    conversion are given as functions; the byte layout is exact. */
module StrongNameKey {
  import opened Wrappers
  import opened Bytes

  /** A SHA-1 digest is always 20 bytes long. */
  type Sha1Digest = d: seq<byte> | |d| == 20
    witness [0, 0, 0, 0, 0, 0, 0, 0, 0, 0, 0, 0, 0, 0, 0, 0, 0, 0, 0, 0]

  /** The cryptographic collaborators. `capiPublicKeyBlob` is
      `CryptoConvert.ToCapiPublicKeyBlob(CryptoConvert.FromCapiKeyBlob(blob))`;
      it is `None` when the key file does not hold a key (the conversion
      throws). */
  datatype Crypto = Crypto(
    sha1: seq<byte> -> Sha1Digest,
    capiPublicKeyBlob: seq<byte> -> Option<seq<byte>>)

  /** CALG_RSA_SIGN, the signature algorithm of the blob header. */
  const SignatureAlgorithmId: nat := 0x2400
  /** CALG_SHA1, the hash algorithm of the blob header. */
  const HashAlgorithmId: nat := 0x8004
  const HeaderSize: nat := 12
  const TokenSize: nat := 8

  /** The public key as stored in assembly metadata: a 12-byte header holding
      the signature algorithm, the hash algorithm and the length of the
      CryptoAPI blob, each as four little-endian bytes, then that blob. */
  function PublicKeyBlob(csp: seq<byte>): (blob: seq<byte>)
    ensures |blob| == HeaderSize + |csp|
    ensures blob[HeaderSize..] == csp
    ensures blob[..8] == [0, 0x24, 0, 0, 4, 0x80, 0, 0]
    ensures DecodeLe32(blob[0..4]) == SignatureAlgorithmId
    ensures DecodeLe32(blob[4..8]) == HashAlgorithmId
    ensures DecodeLe32(blob[8..12]) == |csp| % TwoTo32
    ensures |csp| < TwoTo32 ==> DecodeLe32(blob[8..12]) == |csp|
  {
    DecodeLe32OfLe32(|csp|);
    var blob := BlobHeader(|csp|) + csp;
    assert blob[0..4] == Le32(SignatureAlgorithmId);
    assert blob[4..8] == Le32(HashAlgorithmId);
    assert blob[8..12] == Le32(|csp|);
    blob
  }

  lemma BlobHeaderBytes(n: nat)
    ensures BlobHeader(n) == [0, 36, 0, 0, 4, 128, 0, 0, (n % 256) as byte, (n / 0x100 % 256) as byte,
                              (n / 0x1_0000 % 256) as byte, (n / 0x100_0000 % 256) as byte]
  {
  }

  /** The three little-endian header fields for a CryptoAPI blob of `n` bytes. */
  function BlobHeader(n: nat): (header: seq<byte>)
    ensures |header| == HeaderSize
  {
    Le32(SignatureAlgorithmId) + Le32(HashAlgorithmId) + Le32(n)
  }

  /** Builds the public-key blob in a zeroed array the way `AddStrongName` does: copy
      the CryptoAPI blob to offset 12, then store the header bytes one by one.
      Fails when the key file does not hold a key. */
  method GetPublicKey(keyBlob: seq<byte>, crypto: Crypto) returns (publicKey: Option<seq<byte>>)
    ensures crypto.capiPublicKeyBlob(keyBlob).None? ==> publicKey.None?
    ensures crypto.capiPublicKeyBlob(keyBlob).Some? ==>
      publicKey == Some(PublicKeyBlob(crypto.capiPublicKeyBlob(keyBlob).value))
  {
    var converted := crypto.capiPublicKeyBlob(keyBlob);
    if converted.None? {
      return None;
    }
    var cspBlob := converted.value;
    var a := new byte[HeaderSize + |cspBlob|](_ => 0);
    for i := 0 to |cspBlob|
      invariant forall j :: 0 <= j < HeaderSize ==> a[j] == 0
      invariant forall j :: 0 <= j < i ==> a[HeaderSize + j] == cspBlob[j]
    {
      a[HeaderSize + i] := cspBlob[i];
    }
    a[1] := 36;
    a[4] := 4;
    a[5] := 128;
    var n := |cspBlob|;
    a[8] := (n % 256) as byte;
    a[9] := (n / 0x100 % 256) as byte;
    a[10] := (n / 0x1_0000 % 256) as byte;
    a[11] := (n / 0x100_0000 % 256) as byte;
    BlobHeaderBytes(n);
    assert a[..HeaderSize] == [0, 36, 0, 0, 4, 128, 0, 0, a[8], a[9], a[10], a[11]];
    assert a[HeaderSize..] == cspBlob;
    assert a[..] == a[..HeaderSize] + a[HeaderSize..];
    publicKey := Some(a[..]);
  }

  /** `SHA1(fullKey).Reverse().Take(8)`: eight bytes, the last byte of the
      digest first. */
  function GetKeyTokenFromKey(fullKey: seq<byte>, sha1: seq<byte> -> Sha1Digest): (token: seq<byte>)
    ensures |token| == TokenSize
    ensures forall i :: 0 <= i < TokenSize ==> token[i] == sha1(fullKey)[19 - i]
  {
    Reverse(sha1(fullKey))[..TokenSize]
  }

  /** The token is the "low 8 bytes of the SHA-1 hash" of ECMA-335 Partition
      II, section 6.3: the last eight bytes of the digest, in reverse order. */
  lemma TokenIsReversedLowBytes(fullKey: seq<byte>, sha1: seq<byte> -> Sha1Digest)
    ensures GetKeyTokenFromKey(fullKey, sha1) == Reverse(sha1(fullKey)[20 - TokenSize..])
  {
    var low := sha1(fullKey)[20 - TokenSize..];
    assert forall i :: 0 <= i < TokenSize ==> Reverse(low)[i] == sha1(fullKey)[19 - i];
  }
}
