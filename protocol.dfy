/**
 * The two client commands meeting the server: a document uploaded with the
 * tokens of its keywords is found again, and decrypts to its plaintext, by
 * a search for any keyword with the same normal form.
 */
module Protocol {
  import opened Wrappers
  import opened Bytes
  import opened Crypto
  import opened Server

  /** The associated data cmd_upload and cmd_search bind to every blob: the ASCII bytes of "sse-demo-v1". */
  const VersionTag: seq<byte> := [115, 115, 101, 45, 100, 101, 109, 111, 45, 118, 49]

  /**
   * No false negatives: after cmd_upload sends the base64 of the encrypted
   * document with make_tokens of its keywords, a search with the token of a
   * query normalising like one of those keywords returns that blob, which
   * decodes and decrypts to the original plaintext.
   */
  lemma {:induction false} NoFalseNegatives(
    p: Primitives, aead: Aead, b64: Base64, keyToken: seq<byte>, keyEnc: seq<byte>, nonce: Nonce,
    plaintext: seq<byte>, keywords: seq<string>, tokens: seq<string>, docId: string,
    index: Index, docs: DocStore, w: string, query: string)
    requires p.Valid() && aead.Valid() && b64.Valid() && ValidAesKey(keyEnc)
    requires TokensOf(p, keyToken, keywords, tokens)
    requires w in keywords && Normalize(p.lower, w) != []
    requires Normalize(p.lower, query) == Normalize(p.lower, w)
    ensures EncryptDocument(aead, keyEnc, plaintext, VersionTag, nonce).Success?
    ensures var sent := b64.encode(EncryptDocument(aead, keyEnc, plaintext, VersionTag, nonce).value);
      && b64.decode(sent).Some?
      && var index', docs' := AddPostings(index, tokens, docId), docs[docId := b64.decode(sent).value];
      && var hits := Hits(b64.encode, docs', Lookup(index', DeriveToken(p, keyToken, query)));
      && sent in hits
      && DecryptDocument(aead, keyEnc, b64.decode(sent).value, VersionTag) == Success(plaintext)
  {
    DecryptEncrypt(aead, keyEnc, plaintext, VersionTag, nonce);
    var blob := EncryptDocument(aead, keyEnc, plaintext, VersionTag, nonce).value;
    var sent := b64.encode(blob);
    assert b64.decode(sent) == Some(blob);
    var token := DeriveToken(p, keyToken, query);
    SameNormalFormSameToken(p, keyToken, query, w);
    assert token in tokens;
    AddPostingsListsDoc(index, tokens, docId, token);
    var index', docs' := AddPostings(index, tokens, docId), docs[docId := blob];
    HitsMembers(b64.encode, docs', Lookup(index', token), sent);
  }
}
