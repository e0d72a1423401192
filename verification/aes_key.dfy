/** The key handling and the length guard of the AES-GCM helper used to store
    PDF passwords. The block cipher, GCM sealing and opening, base64 and the
    random nonce are parameters or left out; what is modelled is how a
    configured key string becomes a 32-byte key, and when decryption gives
    up before opening anything. */
module AesKey {
  import opened Wrappers

  newtype byte = x: int | 0 <= x < 256

  /** AES-256 takes 32 key bytes; GCM's standard nonce is 12 bytes. */
  const KeySize: nat := 32
  const NonceSize: nat := 12

  const CiphertextTooShort: string := "ciphertext too short"

  /** The bytes of one character in UTF-8, as Go's `[]byte(s)` produces them. */
  function Utf8Char(c: char): (r: seq<byte>)
    ensures 1 <= |r| <= 4
    ensures |r| == 1 <==> c as int < 0x80
    ensures |r| == 1 ==> r[0] as int == c as int
  {
    var n := c as int;
    if n < 0x80 then [n as byte]
    else if n < 0x800 then [(0xC0 + n / 0x40) as byte, (0x80 + n % 0x40) as byte]
    else if n < 0x10000 then [(0xE0 + n / 0x1000) as byte, (0x80 + n / 0x40 % 0x40) as byte, (0x80 + n % 0x40) as byte]
    else [(0xF0 + n / 0x40000) as byte, (0x80 + n / 0x1000 % 0x40) as byte, (0x80 + n / 0x40 % 0x40) as byte,
          (0x80 + n % 0x40) as byte]
  }

  function Utf8(s: string): (r: seq<byte>)
    ensures |s| <= |r| <= 4 * |s|
  {
    if |s| == 0 then [] else Utf8Char(s[0]) + Utf8(s[1..])
  }

  /** An ASCII string is its own bytes. */
  lemma {:induction false} Utf8Ascii(s: string)
    requires forall k :: 0 <= k < |s| ==> s[k] as int < 0x80
    ensures |Utf8(s)| == |s|
    ensures forall k :: 0 <= k < |s| ==> Utf8(s)[k] as int == s[k] as int
    decreases |s|
  {
    if |s| > 0 {
      Utf8Ascii(s[1..]);
      var r := Utf8(s);
      assert r == Utf8Char(s[0]) + Utf8(s[1..]);
      forall k | 1 <= k < |s|
        ensures r[k] as int == s[k] as int
      {
        assert r[k] == Utf8(s[1..])[k - 1] && s[k] == s[1..][k - 1];
      }
    }
  }

  /** The key rule: zero-padded up to 32 bytes, cut down to 32 bytes. */
  function NormalizeKey(key: seq<byte>): (r: seq<byte>)
    ensures |r| == KeySize
    ensures |key| <= KeySize ==> r[..|key|] == key && forall i :: |key| <= i < KeySize ==> r[i] == 0
    ensures |key| >= KeySize ==> r == key[..KeySize]
  {
    if |key| < KeySize then key + seq(KeySize - |key|, _ => 0) else key[..KeySize]
  }

  /** `NewAESCrypto`: defined for every key string, the empty one included. */
  function NewAesKey(key: string): (r: seq<byte>)
    ensures |r| == KeySize
    ensures |Utf8(key)| >= KeySize ==> r == Utf8(key)[..KeySize]
  {
    NormalizeKey(Utf8(key))
  }

  /** Normalising a normalised key changes nothing. */
  lemma NormalizeIdempotent(key: seq<byte>)
    ensures NormalizeKey(NormalizeKey(key)) == NormalizeKey(key)
  {
    var r := NormalizeKey(key);
    assert r[..KeySize] == r;
  }

  /** A key that is already 32 bytes is used as it is. */
  lemma NormalizeFullKey(key: seq<byte>)
    requires |key| == KeySize
    ensures NormalizeKey(key) == key
  {
    assert key[..KeySize] == key;
  }

  /** Padding with zeros means a short key and the same key with zero
      bytes appended give the same cipher key. */
  lemma TrailingZerosCollide(key: seq<byte>, zeros: nat)
    requires |key| + zeros <= KeySize
    ensures NormalizeKey(key + seq(zeros, _ => 0)) == NormalizeKey(key)
  {
    var a := NormalizeKey(key + seq(zeros, _ => 0));
    var b := NormalizeKey(key);
    forall i | 0 <= i < KeySize
      ensures a[i] == b[i]
    {
      if i < |key| {
        assert a[i] == (key + seq(zeros, _ => 0))[i] == key[i];
      } else if i < |key| + zeros {
        assert a[i] == (key + seq(zeros, _ => 0))[i];
      }
    }
  }

  /** Only the first 32 bytes of a key matter. */
  lemma LongKeysCollide(a: seq<byte>, b: seq<byte>)
    requires |a| >= KeySize && |b| >= KeySize && a[..KeySize] == b[..KeySize]
    ensures NormalizeKey(a) == NormalizeKey(b)
  {
  }

  /** `Decrypt`: decode the base64 text, refuse data shorter than a nonce,
      then open the rest under the leading nonce. */
  function Decrypt(ciphertext: string, decode: string -> Result<seq<byte>>,
                   open: (seq<byte>, seq<byte>) -> Result<string>): (r: Result<string>)
    ensures decode(ciphertext).Err? ==> r == Err(decode(ciphertext).msg)
    ensures decode(ciphertext).Ok? && |decode(ciphertext).value| < NonceSize ==> r == Err(CiphertextTooShort)
    ensures decode(ciphertext).Ok? && |decode(ciphertext).value| >= NonceSize ==>
      var data := decode(ciphertext).value;
      exists nonce, sealed :: nonce + sealed == data && |nonce| == NonceSize && r == open(nonce, sealed)
  {
    match decode(ciphertext)
    case Err(e) => Err(e)
    case Ok(data) =>
      if |data| < NonceSize then Err(CiphertextTooShort)
      else
        assert data[..NonceSize] + data[NonceSize..] == data;
        open(data[..NonceSize], data[NonceSize..])
  }

  /** Decoded data of three bytes, as in the text `YWJj`, is refused before
      any opening is attempted. */
  lemma ThreeBytesTooShort(ciphertext: string, decode: string -> Result<seq<byte>>,
                           open: (seq<byte>, seq<byte>) -> Result<string>)
    requires decode(ciphertext) == Ok([0x61, 0x62, 0x63])
    ensures Decrypt(ciphertext, decode, open) == Err(CiphertextTooShort)
  {
  }
}
