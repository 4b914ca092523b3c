/**
 * The client's cryptographic helpers: keyword normalisation, search-token
 * derivation, the token list sent with an upload, and the nonce-prefixed
 * framing of AES-GCM ciphertexts.
 *
 * HMAC-SHA256, UTF-8 encoding, per-character lowercasing and AES-GCM are
 * library code: they enter as function-valued fields of Primitives and Aead,
 * and what the model assumes of them is stated by the Valid() predicates.
 */
module Crypto {
  import opened Wrappers
  import opened Bytes
  import opened Text
  import opened Ordering

  /** Output size of HMAC-SHA256, in bytes. */
  const DigestLength := 32
  /** Nonce size drawn by encrypt_document, in bytes. */
  const NonceLength := 12
  /** Size of the GCM authentication tag AESGCM appends, in bytes. */
  const TagLength := 16

  type Digest = d: seq<byte> | |d| == DigestLength witness seq(32, i => 0)
  type Nonce = n: seq<byte> | |n| == NonceLength witness seq(12, i => 0)

  /**
   * What the model assumes of str.lower() applied one character at a time:
   * lowering twice is lowering once, whitespace has no case, and no letter
   * lowers to whitespace.
   */
  ghost predicate CaseMap(lower: char -> char) {
    && (forall c {:trigger lower(lower(c))} :: lower(lower(c)) == lower(c))
    && (forall c {:trigger lower(c)} :: if IsSpace(c) then lower(c) == c else !IsSpace(lower(c)))
  }

  /** The library functions the token codec calls. */
  datatype Primitives = Primitives(
    lower: char -> char,                                  // str.lower(), per character
    utf8: string -> seq<byte>,                            // str.encode("utf-8")
    hmacSha256: (seq<byte>, seq<byte>) -> Digest)         // hmac.new(key, msg, sha256).digest()
  {
    ghost predicate Valid() {
      CaseMap(lower)
    }
  }

  /** normalize_keyword: strip, lowercase, then rejoin the whitespace-separated words with single spaces. */
  function Normalize(lower: char -> char, w: string): (r: string)
    ensures SingleSpaced(r)
  {
    var ws := Words(MapChars(lower, Strip(w)));
    JoinSingleSpaced(ws);
    Join(ws)
  }

  /** Lowercasing keeps a word list a word list. */
  lemma {:induction false} MapEachWordList(lower: char -> char, ws: seq<string>)
    requires CaseMap(lower) && IsWordList(ws)
    ensures IsWordList(MapEach(lower, ws))
  {
  }

  /** The normal form is the lowercased words of w, single-spaced; strip() adds nothing to split(). */
  lemma {:induction false} NormalizeAsWords(lower: char -> char, w: string)
    requires CaseMap(lower)
    ensures Normalize(lower, w) == Join(MapEach(lower, Words(w)))
  {
    var s := Strip(w);
    var lead, trail := StrippedLead(w), StrippedTrail(w);
    StripFrames(w);
    assert w == lead + (s + trail);
    assert NoneOf(lead, IsWordChar) && NoneOf(trail, IsWordChar);
    calc {
      Words(w);
      Runs(lead + (s + trail), IsWordChar);
      { RunsSkipLeading(lead, s + trail, IsWordChar); }
      Runs(s + trail, IsWordChar);
      { RunsSkipTrailing(s, trail, IsWordChar); }
      Runs(s, IsWordChar);
    }
    assert forall c :: IsWordChar(lower(c)) == IsWordChar(c);
    RunsMapChars(lower, s, IsWordChar);
    assert Normalize(lower, w) == Join(Words(MapChars(lower, s)));
  }

  /** Lowercasing an already lowercased word list changes nothing. */
  lemma {:induction false} MapEachIdempotent(lower: char -> char, ws: seq<string>)
    requires CaseMap(lower)
    ensures MapEach(lower, MapEach(lower, ws)) == MapEach(lower, ws)
  {
    var once := MapEach(lower, ws);
    forall k | 0 <= k < |ws| ensures MapChars(lower, once[k]) == once[k] {
      assert once[k] == MapChars(lower, ws[k]);
    }
  }

  /** normalize_keyword is idempotent. */
  lemma {:induction false} NormalizeIdempotent(lower: char -> char, w: string)
    requires CaseMap(lower)
    ensures Normalize(lower, Normalize(lower, w)) == Normalize(lower, w)
  {
    var ws := MapEach(lower, Words(w));
    MapEachWordList(lower, Words(w));
    calc {
      Normalize(lower, Normalize(lower, w));
      { NormalizeAsWords(lower, w); }
      Normalize(lower, Join(ws));
      { NormalizeAsWords(lower, Join(ws)); }
      Join(MapEach(lower, Words(Join(ws))));
      { WordsOfJoin(ws); }
      Join(MapEach(lower, ws));
      { MapEachIdempotent(lower, Words(w)); }
      Join(ws);
      { NormalizeAsWords(lower, w); }
      Normalize(lower, w);
    }
  }

  /**
   * The shape of a normal form: whitespace only as single ' ' between words,
   * none at either end, already lowercase, and empty exactly when w is blank.
   */
  lemma {:induction false} NormalizeShape(lower: char -> char, w: string)
    requires CaseMap(lower)
    ensures var r := Normalize(lower, w);
      && SingleSpaced(r)
      && (r != [] ==> !IsSpace(r[0]) && !IsSpace(r[|r| - 1]))
      && MapChars(lower, r) == r
      && (r == [] <==> AllSpace(w))
  {
    var ws := MapEach(lower, Words(w));
    NormalizeAsWords(lower, w);
    MapEachWordList(lower, Words(w));
    JoinSingleSpaced(ws);
    MapCharsJoin(lower, ws);
    MapEachIdempotent(lower, Words(w));
    RunsEmpty(w, IsWordChar);
  }

  /** A search token: 64 lowercase hexadecimal digits. */
  predicate IsToken(t: string) {
    |t| == 2 * DigestLength && forall i :: 0 <= i < |t| ==> IsLowerHexDigit(t[i])
  }

  /** derive_token: the hex HMAC-SHA256 of the UTF-8 normal form of the keyword. */
  function DeriveToken(p: Primitives, key: seq<byte>, keyword: string): (token: string)
    ensures IsToken(token)
  {
    Hex(p.hmacSha256(key, p.utf8(Normalize(p.lower, keyword))))
  }

  /** The token only depends on the keyword's normal form. */
  lemma {:induction false} DeriveTokenNormalized(p: Primitives, key: seq<byte>, keyword: string)
    requires p.Valid()
    ensures DeriveToken(p, key, keyword) == DeriveToken(p, key, Normalize(p.lower, keyword))
  {
    NormalizeIdempotent(p.lower, keyword);
  }

  /** Keywords with the same normal form get the same token (upload and search agree). */
  lemma {:induction false} SameNormalFormSameToken(p: Primitives, key: seq<byte>, w1: string, w2: string)
    requires p.Valid() && Normalize(p.lower, w1) == Normalize(p.lower, w2)
    ensures DeriveToken(p, key, w1) == DeriveToken(p, key, w2)
  {
    DeriveTokenNormalized(p, key, w1);
    DeriveTokenNormalized(p, key, w2);
  }

  /** The list make_tokens has built before set() and sorted(): one token per non-blank keyword, in order. */
  function CollectTokens(p: Primitives, key: seq<byte>, keywords: seq<string>): (toks: seq<string>)
    ensures forall t :: t in toks ==> IsToken(t)
  {
    if keywords == [] then []
    else
      var w2 := Normalize(p.lower, keywords[|keywords| - 1]);
      CollectTokens(p, key, keywords[..|keywords| - 1]) + (if w2 == [] then [] else [DeriveToken(p, key, w2)])
  }

  /** The collected tokens are exactly the tokens of the non-blank keywords. */
  lemma {:induction false} CollectTokensMembers(p: Primitives, key: seq<byte>, keywords: seq<string>, t: string)
    requires p.Valid()
    ensures t in CollectTokens(p, key, keywords) <==>
      exists w :: w in keywords && Normalize(p.lower, w) != [] && t == DeriveToken(p, key, w)
  {
    if keywords != [] {
      var init, last := keywords[..|keywords| - 1], keywords[|keywords| - 1];
      assert keywords == init + [last];
      CollectTokensMembers(p, key, init, t);
      DeriveTokenNormalized(p, key, last);
      if t in CollectTokens(p, key, keywords) && t !in CollectTokens(p, key, init) {
        assert Normalize(p.lower, last) != [] && t == DeriveToken(p, key, last);
      }
      if exists w :: w in keywords && Normalize(p.lower, w) != [] && t == DeriveToken(p, key, w) {
        var w :| w in keywords && Normalize(p.lower, w) != [] && t == DeriveToken(p, key, w);
        if w != last {
          assert w in init;
        }
      }
    }
  }

  /** tokens holds exactly the tokens of the keywords that do not normalise to the empty string. */
  ghost predicate TokensOf(p: Primitives, key: seq<byte>, keywords: seq<string>, tokens: seq<string>) {
    forall t :: t in tokens <==>
      exists w :: w in keywords && Normalize(p.lower, w) != [] && t == DeriveToken(p, key, w)
  }

  /**
   * make_tokens: the sorted, duplicate-free tokens of the keywords that do not
   * normalise to the empty string.
   */
  method MakeTokens(p: Primitives, key: seq<byte>, keywords: seq<string>) returns (tokens: seq<string>)
    requires p.Valid()
    ensures StrictlyIncreasing(tokens)
    ensures forall i :: 0 <= i < |tokens| ==> IsToken(tokens[i])
    ensures TokensOf(p, key, keywords, tokens)
    ensures (forall w :: w in keywords ==> Normalize(p.lower, w) == []) ==> tokens == []
  {
    var toks: seq<string> := [];
    for i := 0 to |keywords|
      invariant toks == CollectTokens(p, key, keywords[..i])
    {
      var w2 := Normalize(p.lower, keywords[i]);
      assert keywords[..i + 1][..i] == keywords[..i] && keywords[..i + 1][i] == keywords[i];
      assert CollectTokens(p, key, keywords[..i + 1]) ==
        CollectTokens(p, key, keywords[..i]) + (if w2 == [] then [] else [DeriveToken(p, key, w2)]);
      if w2 != [] {
        toks := toks + [DeriveToken(p, key, w2)];
      }
    }
    assert keywords[..|keywords|] == keywords;
    tokens := SortedSet(toks);
    forall i | 0 <= i < |tokens| ensures IsToken(tokens[i]) {
      assert tokens[i] in toks;
    }
    forall t ensures t in tokens <==>
      exists w :: w in keywords && Normalize(p.lower, w) != [] && t == DeriveToken(p, key, w)
    {
      CollectTokensMembers(p, key, keywords, t);
    }
    if tokens != [] {
      assert tokens[0] in tokens;
    }
  }

  /** Errors of the document cipher: AESGCM's key check, the length guard, and InvalidTag. */
  datatype CipherError = InvalidKeyLength | CiphertextTooShort | InvalidTag

  /** The key sizes AESGCM accepts: 128, 192 or 256 bits. */
  predicate ValidAesKey(key: seq<byte>) {
    |key| == 16 || |key| == 24 || |key| == 32
  }

  /**
   * AESGCM(key).encrypt and .decrypt (None standing for InvalidTag), with what
   * the model assumes of them: the ciphertext carries a 16-byte tag, and
   * opening with the same key, nonce and associated data gives back the plaintext.
   */
  datatype Aead = Aead(
    seal: (seq<byte>, seq<byte>, seq<byte>, seq<byte>) -> seq<byte>,          // (key, nonce, plaintext, aad)
    open: (seq<byte>, seq<byte>, seq<byte>, seq<byte>) -> Option<seq<byte>>)  // (key, nonce, ciphertext, aad)
  {
    ghost predicate Valid() {
      && (forall k, n, pt, aad :: |seal(k, n, pt, aad)| == |pt| + TagLength)
      && (forall k, n, pt, aad :: open(k, n, seal(k, n, pt, aad), aad) == Some(pt))
    }
  }

  /** encrypt_document, with the random nonce as a parameter: the blob is nonce ‖ ciphertext. */
  function EncryptDocument(aead: Aead, key: seq<byte>, plaintext: seq<byte>, aad: seq<byte>, nonce: Nonce): (r: Result<seq<byte>, CipherError>)
    ensures r.Failure? <==> !ValidAesKey(key)
    ensures r.Failure? ==> r.error == InvalidKeyLength
    ensures r.Success? ==> |r.value| >= NonceLength && r.value[..NonceLength] == nonce && r.value[NonceLength..] == aead.seal(key, nonce, plaintext, aad)
    ensures r.Success? && aead.Valid() ==> |r.value| == NonceLength + |plaintext| + TagLength
  {
    if !ValidAesKey(key) then Failure(InvalidKeyLength)
    else Success(nonce + aead.seal(key, nonce, plaintext, aad))
  }

  /**
   * decrypt_document: refuses a bad key, then a blob shorter than a nonce, and
   * otherwise returns exactly what opening blob[12..] under nonce blob[..12] gives.
   */
  function DecryptDocument(aead: Aead, key: seq<byte>, blob: seq<byte>, aad: seq<byte>): (r: Result<seq<byte>, CipherError>)
    ensures r == Failure(InvalidKeyLength) <==> !ValidAesKey(key)
    ensures r == Failure(CiphertextTooShort) <==> ValidAesKey(key) && |blob| < NonceLength
    ensures r.Success? <==> ValidAesKey(key) && |blob| >= NonceLength && aead.open(key, blob[..NonceLength], blob[NonceLength..], aad).Some?
    ensures r.Success? ==> aead.open(key, blob[..NonceLength], blob[NonceLength..], aad) == Some(r.value)
  {
    if !ValidAesKey(key) then Failure(InvalidKeyLength)
    else if |blob| < NonceLength then Failure(CiphertextTooShort)
    else
      match aead.open(key, blob[..NonceLength], blob[NonceLength..], aad)
      case None => Failure(InvalidTag)
      case Some(pt) => Success(pt)
  }

  /** Decrypting what encrypt_document produced, with the same key and associated data, gives the plaintext back. */
  lemma {:induction false} DecryptEncrypt(aead: Aead, key: seq<byte>, plaintext: seq<byte>, aad: seq<byte>, nonce: Nonce)
    requires aead.Valid() && ValidAesKey(key)
    ensures EncryptDocument(aead, key, plaintext, aad, nonce).Success?
    ensures DecryptDocument(aead, key, EncryptDocument(aead, key, plaintext, aad, nonce).value, aad) == Success(plaintext)
  {
    var blob := EncryptDocument(aead, key, plaintext, aad, nonce).value;
    assert blob[..NonceLength] == nonce;
  }
}
