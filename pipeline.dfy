/**
 * How the two cores are chained by the views: `encryptData` then
 * `hideDataInImage` when hiding, `extractDataFromImage` then `decryptData`
 * when recovering. The image is taken to come back with the pixels it was
 * written with (a lossless PNG round trip).
 */
module Pipeline {
  import opened Results
  import opened Bytes
  import opened PixelChannel
  import opened Stega
  import opened Crypto

  /**
   * End-to-end round trip: hiding the encrypted secret in a carrier that is
   * large enough, then extracting and decrypting with the same password,
   * returns the secret and its name and MIME type. The encrypted payload is
   * never empty (it starts with the 28 bytes of salt and IV), so the payload
   * length check of extraction always passes.
   */
  lemma EncryptHideExtractDecrypt(carrier: seq<byte>, secret: seq<byte>, password: JsString,
                                  salt: Salt, iv: Iv, cipher: Cipher, key: Key, metadata: FileMetadata,
                                  serialize: FileMetadata -> seq<byte>, parse: seq<byte> -> Option<FileMetadata>)
    requires cipher.deriveKey(password, salt) == Some(key)
    requires cipher.open(key, iv, cipher.seal(key, iv, secret)) == Some(secret)
    requires parse(serialize(metadata)) == Some(metadata)
    requires 0 < |serialize(metadata)| <= MaxHeaderLen
    requires |EncryptedLayout(salt, iv, cipher.seal(key, iv, secret))| < 0x1_0000_0000
    requires Fits(|ContainerLayout(serialize(metadata), EncryptedLayout(salt, iv, cipher.seal(key, iv, secret)))|, |carrier|)
    ensures ExtractSpec(Embedded(carrier, ContainerLayout(serialize(metadata), EncryptedLayout(salt, iv, cipher.seal(key, iv, secret)))), parse).Success?
    ensures var extracted := ExtractSpec(Embedded(carrier, ContainerLayout(serialize(metadata), EncryptedLayout(salt, iv, cipher.seal(key, iv, secret)))), parse).value;
      && extracted.name == metadata.name
      && extracted.mimeType == metadata.mimeType
      && DecryptData(extracted.data, password, cipher) == Success(secret)
  {
    var payload := EncryptedLayout(salt, iv, cipher.seal(key, iv, secret));
    HideThenExtract(carrier, payload, metadata, serialize, parse);
    DecryptInvertsEncrypt(secret, password, salt, iv, cipher, key);
  }
}
