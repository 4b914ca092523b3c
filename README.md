# sse-demo: a verified model of the searchable-encryption demo

sse-demo is a small searchable symmetric encryption system. The client
encrypts each document with AES-GCM under a secret key. It derives one
search token per keyword as the hex HMAC-SHA256 of the keyword's normal form.
It uploads the ciphertext (base64) together with the sorted, duplicate-free
token list. The server keeps an inverted index from token to document ids and
a store from document id to ciphertext. A search sends one token and gets back
the stored ciphertexts of the ids listed under it, in index order.

This Dafny project models three parts of the system:

- **Crypto** (`crypto.dfy`, with `text.dfy`, `bytes.dfy` and `ordering.dfy`).
  It models keyword normalisation (`strip`, `lower`, `split`, `" ".join`),
  token derivation, `make_tokens` and the `nonce ‖ ciphertext` framing of
  documents. HMAC-SHA256, UTF-8 encoding, `str.lower` and AES-GCM seal/open
  are function-valued parameters. `Primitives.Valid()` and `Aead.Valid()`
  state what is assumed of them:
  - `lower` is idempotent per character, fixes whitespace, and never maps
    non-whitespace to whitespace;
  - a sealed text is the plaintext plus a 16-byte tag;
  - opening what was sealed under the same key, nonce and associated data
    gives the plaintext back.

  The random nonce is a 12-byte parameter. Python's whitespace class
  (`str.isspace`) and string ordering are written out exactly.
- **Server** (`server.dfy`). The class `DocumentServer` has the two maps
  `index: map<string, seq<string>>` and `docs: map<string, seq<byte>>`, which
  stand for the index file and the blob files. `Upload` and `Search` are
  proved against the specification functions `AddPostings` and `Hits`. Base64
  is a parameter `Base64` with a round-trip assumption; a decoder failure is
  `None`.
- **Client** (`client.dfy`). `simple_extract_keywords` is modelled as the
  regular-expression split plus the strip-and-length filter, and proved equal
  to "the maximal runs of `[0-9A-Za-z一-鿿]` of length two or more".
  The default `doc_id` is `basename-len`.

`protocol.dfy` joins the parts. A document uploaded with the tokens of its
keywords is returned by a search for any query with the same normal form as
one of those keywords. The returned blob decodes and decrypts to the original
plaintext.

## Model

| member | source | states |
|---|---|---|
| Text.Strip | client/crypto.py:14 | `str.strip()`: the result is no longer than the input and has no whitespace at either end |
| Text.StripFrames | client/crypto.py:14 | `str.strip()` only removes whitespace: the input is the removed leading whitespace, then the result, then the removed trailing whitespace |
| Text.StripUntrimmed | client/client.py:24 | a string with no whitespace at either end is left unchanged by `strip()` |
| Text.Span | client/client.py:21 | the length of the longest prefix whose characters are all in, or all outside, a class |
| Text.Words | client/crypto.py:14 | `str.split()` gives non-empty words without whitespace; with `RunsAreMaximal` and `MaximalRunIsListed` they are exactly the maximal non-whitespace runs, and by `RunsEmpty` there are none for a blank string |
| Text.Runs | client/crypto.py:14 | `split()`, and the maximal runs the extractor keeps, are non-empty pieces made only of class characters |
| Text.RunsSkipLeading | client/crypto.py:14 | characters outside the class in front of a string add no piece to the split |
| Text.RunsSkipTrailing | client/crypto.py:14 | characters outside the class behind a string add no piece to the split |
| Text.RunsMapChars | client/crypto.py:14 | lowercasing before `split()` is the same as lowercasing each word after it |
| Text.RunsEmpty | client/crypto.py:14 | `split()` returns `[]` exactly when the string has no character of the class (all-whitespace input) |
| Text.Join | client/crypto.py:14 | `" ".join(ws)` starts with the first word; `WordsOfJoin` (split undoes it) and `JoinSingleSpaced` (its spacing and ends) state the rest |
| Text.MapChars | client/crypto.py:14 | `str.lower()` acts character by character and keeps the length; `RunsMapChars` and `MapCharsJoin` state that it commutes with `split()` and `" ".join` |
| Text.WordsOfJoin | client/crypto.py:14 | `" ".join` of non-empty words without whitespace, split again, gives the same words |
| Text.JoinSingleSpaced | client/crypto.py:14 | the joined string has only single `' '` spaces, each between two non-whitespace characters, and non-whitespace ends; it is empty exactly when there are no words |
| Text.MapCharsJoin | client/crypto.py:14 | a per-character map that fixes `' '` commutes with `" ".join` |
| Text.RunsAreMaximal | client/client.py:21 | every listed run is a maximal run of class characters of the text |
| Text.MaximalRunIsListed | client/client.py:21 | every maximal run of class characters of the text is listed |
| Bytes.HexDigit | client/crypto.py:19 | `hexdigest()` writes each nibble as a lowercase hex digit |
| Bytes.HexValue | client/crypto.py:19 | reading a hex digit back returns its nibble value, and only hex digits are read |
| Bytes.Hex | client/crypto.py:19 | `hexdigest()` writes two lowercase hex characters per byte |
| Bytes.UnHexHex | client/crypto.py:19 | hex encoding is invertible, so distinct digests give distinct tokens |
| Ordering.Less | client/crypto.py:72 | Python's string `<`: a proper prefix is smaller, otherwise the first differing code point decides; `LessIrreflexive`, `LessTransitive` and `LessTotal` make it a strict total order |
| Ordering.LessIrreflexive | client/crypto.py:72 | Python string `<` is irreflexive |
| Ordering.LessTransitive | client/crypto.py:72 | Python string `<` is transitive |
| Ordering.LessTotal | client/crypto.py:72 | any two distinct strings are ordered one way or the other |
| Ordering.Insert | client/crypto.py:72 | inserting into a strictly increasing list keeps it strictly increasing and adds exactly that element |
| Ordering.SortedSet | client/crypto.py:72 | `sorted(set(xs))` is strictly increasing and has exactly the elements of `xs` |
| Ordering.StrictlyIncreasingUnique | client/crypto.py:72 | two strictly increasing lists with the same elements are equal, so `sorted(set(xs))` is determined by the set |
| Crypto.MapEachWordList | client/crypto.py:14 | lowercasing each word keeps the words non-empty and free of whitespace |
| Crypto.Normalize | client/crypto.py:13-14 | the normal form has only single `' '` spaces between non-whitespace characters and none at either end; `NormalizeAsWords`, `NormalizeIdempotent` and `NormalizeShape` state the rest |
| Crypto.NormalizeAsWords | client/crypto.py:13-14 | `normalize_keyword(w)` is the words of `w`, each lowercased, joined by single spaces |
| Crypto.MapEachIdempotent | client/crypto.py:14 | lowercasing words twice is the same as lowercasing them once |
| Crypto.NormalizeIdempotent | client/crypto.py:13-14 | `normalize_keyword(normalize_keyword(w)) == normalize_keyword(w)` |
| Crypto.NormalizeShape | client/crypto.py:13-14 | the normal form is single-spaced, has no whitespace at either end and is already lowercase; it is empty exactly when `w` is all whitespace |
| Crypto.DeriveToken | client/crypto.py:17-20 | a token is 64 lowercase hex characters |
| Crypto.DeriveTokenNormalized | client/crypto.py:17-19 | `derive_token(k, w) == derive_token(k, normalize_keyword(w))` |
| Crypto.SameNormalFormSameToken | client/crypto.py:17-19 | keywords with the same normal form get the same token, so upload and search agree |
| Crypto.CollectTokens | client/crypto.py:66-71 | every token collected by the loop is 64 lowercase hex characters |
| Crypto.CollectTokensMembers | client/crypto.py:65-71 | the loop collects exactly the tokens of the keywords whose normal form is non-empty |
| Crypto.MakeTokens | client/crypto.py:65-72 | the result is strictly increasing (sorted, no duplicates), all tokens; `t` is in it iff some keyword with a non-empty normal form has token `t`; all-blank input gives `[]` |
| Crypto.EncryptDocument | client/crypto.py:49-53 | AESGCM refuses a key not 16, 24 or 32 bytes long; otherwise the blob is the 12-byte nonce followed by the sealed text, `12 + \|pt\| + 16` bytes long |
| Crypto.DecryptDocument | client/crypto.py:56-62 | a bad key fails first; a blob shorter than 12 bytes fails with "ciphertext too short"; otherwise the result is exactly what opening `blob[12..]` under nonce `blob[..12]` gives, with a failed open as InvalidTag |
| Crypto.DecryptEncrypt | client/crypto.py:49-62 | decrypting an encrypted document with the same key and associated data gives the plaintext back |
| Server.Lookup | server/main.py:57 | `index.get(token, [])`: the ids listed under a token, none for a token never indexed; `AddPostingsLookup` gives its value after an upload and `Search` returns the blobs of these ids |
| Server.AddPosting | server/main.py:44-46 | one step of the upload loop: the token becomes a key, `doc_id` is listed under it, its old list is a prefix of the new one, and every other key keeps its list |
| Server.AddPostings | server/main.py:43-46 | after the upload loop the keys are the old keys plus the request tokens; the `AddPostings` lemmas below state the lists |
| Server.AddPostingsLookup | server/main.py:43-46 | after the upload loop, each request token's list has `doc_id` appended once unless it was listed already; other lists and keys are unchanged, and the new keys are the request tokens |
| Server.AddPostingsListsDoc | server/main.py:43-46 | after an upload, `doc_id` is listed under every token of the request |
| Server.AddPostingsWellFormed | server/main.py:44-46 | append-if-absent keeps every index list free of duplicates |
| Server.AddPostingsIdempotent | server/main.py:43-46 | repeating the index update of an upload changes nothing |
| Server.AddPostingsExtends | server/main.py:43-46 | each old list is a prefix of its new list, which is the same or has only `doc_id` appended; lists of tokens outside the request are unchanged |
| Server.Hits | server/main.py:60-65 | there are never more hits than listed ids |
| Server.HitsMembers | server/main.py:60-65 | a hit is exactly the encoding of the blob of a listed id that has a blob |
| Server.HitsAllStored | server/main.py:60-65 | when every listed id has a blob, the hits are those blobs in index order |
| Server.DocumentServer.constructor | server/storage.py:17-18 | a fresh server has an empty index and no documents |
| Server.DocumentServer.Upload | server/main.py:33-51 | an undecodable ciphertext gives 400 "ciphertext_b64 is not valid base64" and changes nothing; otherwise the blob overwrites `docs[doc_id]` and leaves other ids alone, the index becomes `AddPostings(old index, tokens, doc_id)`, duplicate-free lists stay duplicate-free, and the reply is `ok=true`, `stored_doc_id=doc_id`, `token_count=\|tokens\|` (duplicates counted) |
| Server.DocumentServer.Search | server/main.py:54-66 | the reply echoes the token; the hits are the encoded blobs of the ids listed under the token, in index order, with ids that have no blob skipped; there are at most as many hits as ids; a token never indexed gives no hits |
| Client.SplitParts | client/client.py:21 | each piece of `re.split` on runs of characters outside a class holds only class characters, and there is always at least one piece |
| Client.KeepLong | client/client.py:25-26 | the filter never lengthens the list |
| Client.KeepLongAppend | client/client.py:23-26 | filtering a concatenation filters each half |
| Client.KeepLongMembers | client/client.py:25-26 | a piece is kept iff it has at least two characters |
| Client.Keywords | client/client.py:20-27 | every keyword has at least two characters, all in `[0-9A-Za-z一-鿿]`; `KeywordsMembers` and `KeywordsEmpty` state which runs are keywords |
| Client.PartsAreRuns | client/client.py:21-27 | the pieces of the split with two or more characters are exactly the maximal runs of the class with two or more characters, in order |
| Client.KeywordsMembers | client/client.py:20-27 | a keyword is exactly a maximal run of `[0-9A-Za-z一-鿿]` of two or more characters |
| Client.KeywordsEmpty | client/client.py:20-27 | the result is empty iff the text has no maximal run of two or more keyword characters; the empty text gives `[]` |
| Client.StripKeepsParts | client/client.py:21-24 | `strip()` never changes a piece, because no whitespace character is in the keyword class |
| Client.ExtractKeywords | client/client.py:20-27 | `simple_extract_keywords` returns the long maximal runs in order of occurrence; each has length at least 2 and only keyword-class characters |
| Client.AfterLast | client/client.py:50 | `basename` returns a suffix of the path that contains no `/` |
| Client.AfterLastBoundary | client/client.py:50 | the part of the path that `basename` drops ends with `/`, so the suffix is the longest one without `/` |
| Client.Basename | client/client.py:50 | `os.path.basename(path)` is a suffix of the path without `/`; with `AfterLastBoundary` it is the longest such suffix |
| Client.Decimal | client/client.py:51 | `str(len(pt))` is a non-empty string of decimal digits with no leading zero (only `0` itself starts with `0`) |
| Client.DecimalValueDecimal | client/client.py:51 | `str(n)` reads back as `n` |
| Client.UploadDocId | client/client.py:48-51 | a given non-empty `--doc-id` is used unchanged, and the doc id is never empty |
| Client.DefaultDocIdParts | client/client.py:49-51 | splitting a default doc id at its last `-` gives the file's basename and the decimal plaintext length |
| Client.SplitAtLastDash | client/client.py:51 | `f"{base}-{digits}"` splits back, at its last `-`, into `base` and `digits`, whatever `base` holds |
| Client.AfterLastDigits | client/client.py:51 | the part after the last `-` of `basename-digits` is the digits |
| Protocol.NoFalseNegatives | client/client.py:45-77 | uploading a document with `make_tokens` of its keywords, then searching with the token of a query that normalises like one of those keywords, returns the uploaded blob, which decodes and decrypts to the plaintext |

## Left out

- `load_or_create_keys` (client/crypto.py:29-46) is left out: it reads and writes a key file and calls `os.urandom`. Fresh keys are 32 bytes long, which `ValidAesKey` accepts.
- HMAC-SHA256, AES-GCM, UTF-8 encoding and `os.urandom` are parameters, not definitions. Only the framing and the algebra around them are proved. Tamper detection, collision resistance and key isolation are security claims outside this model.
- AES-GCM's limit on the plaintext length, and the AESGCM constructor's type checks, are not modelled.
- `str.lower` is an abstract per-character map. Python's lowercasing of a few characters produces two characters (`'İ'`), and capital sigma lowercases by context: `"ΑΣ".lower()` is `"ας"` with a final sigma, while a lone `"Σ".lower()` is `"σ"`. No per-character map reproduces these cases, and they are not modelled.
- Base64 is an opaque encoder with an `Option`-returning decoder. Python's lenient decoder, which silently drops non-alphabet characters, is not reproduced.
- `server/storage.py` becomes the two maps of `DocumentServer`. File I/O is not modelled, and neither is a doc id that acts as a path: a `/` or `..` in it, or two ids naming one file.
- Concurrent requests are not modelled: each upload is atomic. The source's read-modify-write of the index file can lose an update when two uploads overlap.
- The `/health` endpoint, FastAPI/pydantic validation, argparse, `print` logging and the HTTP client calls are not modelled.
- The text decoding `errors="ignore"` in `cmd_upload` is not modelled. The extractor takes the decoded text as its input.
- Client.AfterLast: models POSIX `os.path.basename` only, not the Windows variant that also splits at `\`.
- `cmd_search`'s loop over the hits is not modelled beyond `Protocol.NoFalseNegatives`. Its code calls `decrypt_document` on each hit with no error handling, so the first hit that fails to decrypt stops the command. It does not skip that hit and go on.
- `client/gui.py` is not part of this model. Its keyword split and default id repeat the command-line client's.
