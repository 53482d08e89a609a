/**
 * The byte layout and the password policy of utils/crypto.ts.
 *
 * PBKDF2-HMAC-SHA256 (section 5.2 of RFC 8018, 100,000 iterations) and
 * AES-256-GCM (NIST SP 800-38D) are Web Crypto calls; the model takes them as
 * the fields of a Cipher value. The random salt and IV that
 * `crypto.getRandomValues` draws are parameters.
 */
module Crypto {
  import opened Results
  import opened Bytes

  // ---------------------------------------------------------------------------
  // JavaScript strings
  // ---------------------------------------------------------------------------

  /** A UTF-16 code unit: what `string.length` counts and what a regular expression without the `u` flag matches. */
  newtype CodeUnit = x: int | 0 <= x < 0x1_0000

  /** A JavaScript string. */
  type JsString = seq<CodeUnit>

  /** The JavaScript string holding the characters of s: one code unit per character below U+10000, a surrogate pair for the others. */
  function Utf16(s: string): (u: JsString)
    ensures |s| <= |u| <= 2 * |s|
  {
    if s == [] then []
    else
      var c := s[0] as int;
      var head: JsString :=
        if c < 0x1_0000 then [c as CodeUnit]
        else [(0xD800 + (c - 0x1_0000) / 0x400) as CodeUnit, (0xDC00 + (c - 0x1_0000) % 0x400) as CodeUnit];
      head + Utf16(s[1..])
  }

  /** The code units of a string without characters above U+FFFF: one per character, of the same value. */
  function Bmp(s: string): (u: JsString)
    requires forall i :: 0 <= i < |s| ==> (s[i] as int) < 0x1_0000
    ensures |u| == |s|
  {
    seq(|s|, i requires 0 <= i < |s| => s[i] as int as CodeUnit)
  }

  /** Characters below U+10000 take one code unit each, with the same value. */
  lemma {:induction false} Utf16Bmp(s: string)
    requires forall i :: 0 <= i < |s| ==> (s[i] as int) < 0x1_0000
    ensures Utf16(s) == Bmp(s)
  {
    if s != [] {
      Utf16Bmp(s[1..]);
    }
  }

  // ---------------------------------------------------------------------------
  // validatePassword
  // ---------------------------------------------------------------------------

  predicate IsUpper(u: CodeUnit) { 0x41 <= u <= 0x5A }  // 'A' .. 'Z'
  predicate IsLower(u: CodeUnit) { 0x61 <= u <= 0x7A }  // 'a' .. 'z'
  predicate IsDigit(u: CodeUnit) { 0x30 <= u <= 0x39 }  // '0' .. '9', what \d matches without the u flag

  /** `/[A-Z]/.test(p)`. */
  predicate HasUpper(p: JsString) { exists i :: 0 <= i < |p| && IsUpper(p[i]) }
  /** `/[a-z]/.test(p)`. */
  predicate HasLower(p: JsString) { exists i :: 0 <= i < |p| && IsLower(p[i]) }
  /** `/\d/.test(p)`. */
  predicate HasDigit(p: JsString) { exists i :: 0 <= i < |p| && IsDigit(p[i]) }

  /** `validatePassword`: at least 8 code units, an upper-case letter, a lower-case letter and a digit. */
  predicate ValidatePassword(p: JsString)
  {
    |p| >= 8 && HasUpper(p) && HasLower(p) && HasDigit(p)
  }

  /**
   * The policy only asks for things to be present, so appending code units to
   * an accepted password keeps it accepted.
   */
  lemma ValidatePasswordExtends(p: JsString, q: JsString)
    requires ValidatePassword(p)
    ensures ValidatePassword(p + q)
  {
    var i :| 0 <= i < |p| && IsUpper(p[i]);
    var j :| 0 <= j < |p| && IsLower(p[j]);
    var k :| 0 <= k < |p| && IsDigit(p[k]);
    assert (p + q)[i] == p[i] && (p + q)[j] == p[j] && (p + q)[k] == p[k];
  }

  lemma HasUpperOfBmp(s: string)
    requires forall i :: 0 <= i < |s| ==> (s[i] as int) < 0x1_0000
    ensures HasUpper(Bmp(s)) <==> exists i :: 0 <= i < |s| && 'A' <= s[i] <= 'Z'
  {
    var p := Bmp(s);
    if HasUpper(p) {
      var i :| 0 <= i < |p| && IsUpper(p[i]);
      assert 'A' <= s[i] <= 'Z';
    }
    if exists i :: 0 <= i < |s| && 'A' <= s[i] <= 'Z' {
      var i :| 0 <= i < |s| && 'A' <= s[i] <= 'Z';
      assert IsUpper(p[i]);
    }
  }

  lemma HasLowerOfBmp(s: string)
    requires forall i :: 0 <= i < |s| ==> (s[i] as int) < 0x1_0000
    ensures HasLower(Bmp(s)) <==> exists i :: 0 <= i < |s| && 'a' <= s[i] <= 'z'
  {
    var p := Bmp(s);
    if HasLower(p) {
      var i :| 0 <= i < |p| && IsLower(p[i]);
      assert 'a' <= s[i] <= 'z';
    }
    if exists i :: 0 <= i < |s| && 'a' <= s[i] <= 'z' {
      var i :| 0 <= i < |s| && 'a' <= s[i] <= 'z';
      assert IsLower(p[i]);
    }
  }

  lemma HasDigitOfBmp(s: string)
    requires forall i :: 0 <= i < |s| ==> (s[i] as int) < 0x1_0000
    ensures HasDigit(Bmp(s)) <==> exists i :: 0 <= i < |s| && '0' <= s[i] <= '9'
  {
    var p := Bmp(s);
    if HasDigit(p) {
      var i :| 0 <= i < |p| && IsDigit(p[i]);
      assert '0' <= s[i] <= '9';
    }
    if exists i :: 0 <= i < |s| && '0' <= s[i] <= '9' {
      var i :| 0 <= i < |s| && '0' <= s[i] <= '9';
      assert IsDigit(p[i]);
    }
  }

  /**
   * For a string without characters above U+FFFF the policy reads character by
   * character: at least 8 characters, one of them in 'A'..'Z', one in 'a'..'z'
   * and one in '0'..'9'.
   */
  lemma ValidatePasswordOfBmp(s: string)
    requires forall i :: 0 <= i < |s| ==> (s[i] as int) < 0x1_0000
    ensures ValidatePassword(Utf16(s)) <==>
      && |s| >= 8
      && (exists i :: 0 <= i < |s| && 'A' <= s[i] <= 'Z')
      && (exists i :: 0 <= i < |s| && 'a' <= s[i] <= 'z')
      && (exists i :: 0 <= i < |s| && '0' <= s[i] <= '9')
  {
    Utf16Bmp(s);
    HasUpperOfBmp(s);
    HasLowerOfBmp(s);
    HasDigitOfBmp(s);
  }

  /** "Abcd1234" passes the policy. */
  lemma AcceptsAbcd1234()
    ensures ValidatePassword(Bmp("Abcd1234"))
  {
    var p := Bmp("Abcd1234");
    assert IsUpper(p[0]) && IsLower(p[1]) && IsDigit(p[4]);
  }

  /** "abcd1234" fails: no upper-case letter. */
  lemma RejectsNoUpper()
    ensures !ValidatePassword(Bmp("abcd1234"))
  {
  }

  /** "ABCD1234" fails: no lower-case letter. */
  lemma RejectsNoLower()
    ensures !ValidatePassword(Bmp("ABCD1234"))
  {
  }

  /** "Abcdefgh" fails: no digit. */
  lemma RejectsNoDigit()
    ensures !ValidatePassword(Bmp("Abcdefgh"))
  {
  }

  /** "Abc123" fails: six code units are too few. */
  lemma RejectsShort()
    ensures !ValidatePassword(Bmp("Abc123"))
  {
  }

  /**
   * Only ASCII letters and digits count: a password whose letters are all
   * outside 'A'..'Z' (here 'É', U+00C9) is rejected even if it has lower-case
   * letters and digits.
   */
  lemma ValidatePasswordAsciiOnly()
    ensures !ValidatePassword(Bmp("Ébcd1234"))
  {
  }

  /**
   * The length is counted in UTF-16 code units: "Ab1" followed by three
   * characters outside the Basic Multilingual Plane is six characters but nine
   * code units, and passes.
   */
  lemma ValidatePasswordCountsCodeUnits()
    ensures ValidatePassword(Utf16("Ab1\U{1F600}\U{1F600}\U{1F600}"))
  {
    var p := Utf16("Ab1\U{1F600}\U{1F600}\U{1F600}");
    assert Utf16("Ab1\U{1F600}\U{1F600}\U{1F600}")[..3] == [0x41, 0x62, 0x31];
    assert IsUpper(p[0]) && IsLower(p[1]) && IsDigit(p[2]);
  }

  // ---------------------------------------------------------------------------
  // encryptData / decryptData
  // ---------------------------------------------------------------------------

  /** The 16 random bytes of `getRandomValues(new Uint8Array(16))`. */
  type Salt = s: seq<byte> | |s| == 16 witness seq(16, _ => 0)

  /** The 12 random bytes of `getRandomValues(new Uint8Array(12))`. */
  type Iv = s: seq<byte> | |s| == 12 witness seq(12, _ => 0)

  /** A derived AES-256 key, not extractable by the caller. */
  type Key = seq<byte>

  /**
   * The Web Crypto operations the module calls.
   * deriveKey: `deriveKey(password, salt)`, None where it rejects;
   * seal: AES-GCM encryption (key, iv, plaintext) to ciphertext ‖ tag;
   * open: AES-GCM decryption and tag check, None where it rejects.
   */
  datatype Cipher = Cipher(
    deriveKey: (JsString, seq<byte>) -> Option<Key>,
    seal: (Key, seq<byte>, seq<byte>) -> seq<byte>,
    open: (Key, seq<byte>, seq<byte>) -> Option<seq<byte>>)

  datatype CryptoError =
    | KeyDerivationFailed       // deriveKey rejected inside encryptData
    | WrongPasswordOrCorrupted  // the one error decryptData reports

  /** The bytes `encryptData` returns: salt ‖ iv ‖ ciphertext ‖ tag. */
  function EncryptedLayout(salt: Salt, iv: Iv, sealed: seq<byte>): seq<byte>
  {
    salt + iv + sealed
  }

  /** The output is 16 + 12 + |sealed| bytes, with the salt at [0, 16), the iv at [16, 28) and the sealed bytes from 28 on. */
  lemma EncryptedLayoutFields(salt: Salt, iv: Iv, sealed: seq<byte>)
    ensures |EncryptedLayout(salt, iv, sealed)| == 16 + 12 + |sealed|
    ensures EncryptedLayout(salt, iv, sealed)[0 .. 16] == salt
    ensures EncryptedLayout(salt, iv, sealed)[16 .. 28] == iv
    ensures EncryptedLayout(salt, iv, sealed)[28 ..] == sealed
  {
  }

  /**
   * `encryptData(data, password)` with the salt and IV it draws given as
   * parameters: derive the key, encrypt, and copy salt, IV and ciphertext into
   * a buffer of the exact size.
   */
  method EncryptData(data: seq<byte>, password: JsString, salt: Salt, iv: Iv, cipher: Cipher)
    returns (r: Result<seq<byte>, CryptoError>)
    ensures cipher.deriveKey(password, salt).None? ==> r == Failure(KeyDerivationFailed)
    ensures cipher.deriveKey(password, salt).Some? ==>
      r == Success(EncryptedLayout(salt, iv, cipher.seal(cipher.deriveKey(password, salt).value, iv, data)))
  {
    var key := cipher.deriveKey(password, salt);
    if key.None? {
      return Failure(KeyDerivationFailed);
    }
    var encryptedContent := cipher.seal(key.value, iv, data);
    var result := new byte[|salt| + |iv| + |encryptedContent|](_ => 0);
    Set(result, salt, 0);
    Set(result, iv, |salt|);
    Set(result, encryptedContent, |salt| + |iv|);
    assert result[..] == salt + iv + encryptedContent;
    return Success(result[..]);
  }

  /** `data.slice(start, end)`: indices are clamped to the data, so it never fails. */
  function Slice(data: seq<byte>, start: nat, end: nat): (r: seq<byte>)
    ensures |r| == if start <= end && start <= |data| then (if end <= |data| then end else |data|) - start else 0
  {
    var e := if end <= |data| then end else |data|;
    if start <= e then data[start .. e] else []
  }

  /** The three parts `decryptData` cuts its input into. */
  function SplitEncrypted(data: seq<byte>): (seq<byte>, seq<byte>, seq<byte>)
  {
    (Slice(data, 0, 16), Slice(data, 16, 28), Slice(data, 28, |data|))
  }

  /** Cutting the output of `encryptData` at 16 and 28 gives back the salt, the IV and the sealed bytes. */
  lemma SplitEncryptedInverse(salt: Salt, iv: Iv, sealed: seq<byte>)
    ensures SplitEncrypted(EncryptedLayout(salt, iv, sealed)) == (salt, iv, sealed)
  {
    var data := EncryptedLayout(salt, iv, sealed);
    assert data[0 .. 16] == salt;
    assert data[16 .. 28] == iv;
    assert data[28 .. |data|] == sealed;
  }

  /** Cutting is lossless: the three parts put together are the input again. */
  lemma SplitEncryptedConcat(data: seq<byte>)
    ensures SplitEncrypted(data).0 + SplitEncrypted(data).1 + SplitEncrypted(data).2 == data
  {
    if |data| >= 28 {
      assert data == data[0 .. 16] + data[16 .. 28] + data[28 .. |data|];
    } else if |data| >= 16 {
      assert data == data[0 .. 16] + data[16 .. |data|];
    }
  }

  /**
   * `decryptData(data, password)`: split, derive the key from the salt, decrypt
   * and check the tag. Every failure, whatever its cause, becomes the same
   * WrongPasswordOrCorrupted error.
   */
  function DecryptData(data: seq<byte>, password: JsString, cipher: Cipher): (r: Result<seq<byte>, CryptoError>)
    ensures r.Failure? ==> r.error == WrongPasswordOrCorrupted
    ensures r.Failure? <==>
      || cipher.deriveKey(password, SplitEncrypted(data).0).None?
      || cipher.open(cipher.deriveKey(password, SplitEncrypted(data).0).value,
                     SplitEncrypted(data).1, SplitEncrypted(data).2).None?
    ensures r.Success? ==>
      cipher.open(cipher.deriveKey(password, SplitEncrypted(data).0).value,
                  SplitEncrypted(data).1, SplitEncrypted(data).2) == Some(r.value)
  {
    var (salt, iv, encryptedContent) := SplitEncrypted(data);
    match cipher.deriveKey(password, salt)
    case None => Failure(WrongPasswordOrCorrupted)
    case Some(key) =>
      match cipher.open(key, iv, encryptedContent)
      case None => Failure(WrongPasswordOrCorrupted)
      case Some(plaintext) => Success(plaintext)
  }

  /**
   * Decrypting what `encryptData` produced, with the same password, gives the
   * data back, given that AES-GCM decryption inverts encryption under the
   * derived key and IV.
   */
  lemma DecryptInvertsEncrypt(data: seq<byte>, password: JsString, salt: Salt, iv: Iv, cipher: Cipher, key: Key)
    requires cipher.deriveKey(password, salt) == Some(key)
    requires cipher.open(key, iv, cipher.seal(key, iv, data)) == Some(data)
    ensures DecryptData(EncryptedLayout(salt, iv, cipher.seal(key, iv, data)), password, cipher) == Success(data)
  {
    SplitEncryptedInverse(salt, iv, cipher.seal(key, iv, data));
  }

  /**
   * A wrong password and corrupted data look the same to the caller: two
   * failing decryptions report the same error, whatever input and password.
   */
  lemma DecryptFailuresIndistinguishable(data1: seq<byte>, password1: JsString, data2: seq<byte>, password2: JsString, cipher: Cipher)
    requires DecryptData(data1, password1, cipher).Failure?
    requires DecryptData(data2, password2, cipher).Failure?
    ensures DecryptData(data1, password1, cipher) == DecryptData(data2, password2, cipher)
  {
  }
}
