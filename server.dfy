/**
 * The storage server: an inverted index from search tokens to document ids
 * and a store from document ids to ciphertext blobs, with the two request
 * handlers upload and search. The on-disk index file and blob files are
 * modelled as the two maps of DocumentServer: a missing index file is the
 * empty map, a missing blob file an id outside docs, and writing a blob
 * replaces the map entry.
 */
module Server {
  import opened Wrappers
  import opened Bytes

  /** base64.b64encode / b64decode, with the round trip the model relies on. */
  datatype Base64 = Base64(
    encode: seq<byte> -> string,
    decode: string -> Option<seq<byte>>)  // None: the decoder raised
  {
    ghost predicate Valid() {
      forall b :: decode(encode(b)) == Some(b)
    }
  }

  /** The body of POST /upload. */
  datatype UploadRequest = UploadRequest(docId: string, ciphertextB64: string, tokens: seq<string>)

  /** The body of a successful upload reply. */
  datatype UploadResponse = UploadResponse(ok: bool, storedDocId: string, tokenCount: int)

  /** The body of a search reply: the token echoed and the base64 blobs found. */
  datatype SearchResponse = SearchResponse(token: string, hits: seq<string>)

  /** An HTTPException raised by a handler. */
  datatype HttpError = HttpError(status: int, detail: string)

  type Index = map<string, seq<string>>
  type DocStore = map<string, seq<byte>>

  predicate NoDuplicates(s: seq<string>) {
    forall i, j :: 0 <= i < j < |s| ==> s[i] != s[j]
  }

  /** index.get(token, []). */
  function Lookup(index: Index, token: string): seq<string> {
    if token in index then index[token] else []
  }

  /** index.setdefault(t, []) followed by an append of docId when it is not listed yet. */
  function AddPosting(index: Index, t: string, docId: string): (r: Index)
    ensures r.Keys == index.Keys + {t}
    ensures Lookup(index, t) <= r[t] && docId in r[t]
    ensures forall u :: u in index && u != t ==> r[u] == index[u]
  {
    var ids := Lookup(index, t);
    if docId in ids then index[t := ids] else index[t := ids + [docId]]
  }

  /** The index after the upload loop has handled every token of tokens, in order. */
  function AddPostings(index: Index, tokens: seq<string>, docId: string): (r: Index)
    ensures r.Keys == index.Keys + set t | t in tokens
  {
    if tokens == [] then index
    else AddPosting(AddPostings(index, tokens[..|tokens| - 1], docId), tokens[|tokens| - 1], docId)
  }

  /**
   * What upload does to the index, in closed form: each token of the request
   * gets docId appended to its list unless it is listed already; nothing else changes.
   */
  lemma {:induction false} AddPostingsLookup(index: Index, tokens: seq<string>, docId: string, t: string)
    ensures t in AddPostings(index, tokens, docId) <==> t in index || t in tokens
    ensures Lookup(AddPostings(index, tokens, docId), t) ==
      if t in tokens && docId !in Lookup(index, t) then Lookup(index, t) + [docId] else Lookup(index, t)
  {
    if tokens != [] {
      var init, last := tokens[..|tokens| - 1], tokens[|tokens| - 1];
      assert tokens == init + [last];
      AddPostingsLookup(index, init, docId, t);
    }
  }

  /** Every token of an upload lists the document afterwards. */
  lemma {:induction false} AddPostingsListsDoc(index: Index, tokens: seq<string>, docId: string, t: string)
    requires t in tokens
    ensures t in AddPostings(index, tokens, docId)
    ensures docId in AddPostings(index, tokens, docId)[t]
  {
    AddPostingsLookup(index, tokens, docId, t);
  }

  /** Every list of the index is free of repeated ids. */
  ghost predicate IndexWellFormed(index: Index) {
    forall t :: t in index ==> NoDuplicates(index[t])
  }

  /** Append-if-absent never creates a repeated id. */
  lemma {:induction false} AddPostingsWellFormed(index: Index, tokens: seq<string>, docId: string)
    requires IndexWellFormed(index)
    ensures IndexWellFormed(AddPostings(index, tokens, docId))
  {
    var m := AddPostings(index, tokens, docId);
    forall t | t in m ensures NoDuplicates(m[t]) {
      AddPostingsLookup(index, tokens, docId, t);
    }
  }

  /** Repeating an upload's index update changes nothing: the update is idempotent. */
  lemma {:induction false} AddPostingsIdempotent(index: Index, tokens: seq<string>, docId: string)
    ensures AddPostings(AddPostings(index, tokens, docId), tokens, docId) == AddPostings(index, tokens, docId)
  {
    var once := AddPostings(index, tokens, docId);
    var twice := AddPostings(once, tokens, docId);
    forall t ensures (t in twice <==> t in once) && (t in once ==> twice[t] == once[t]) {
      AddPostingsLookup(index, tokens, docId, t);
      AddPostingsLookup(once, tokens, docId, t);
    }
  }

  /** For every token, the old list is a prefix of the new one and at most docId is added, at the end. */
  lemma {:induction false} AddPostingsExtends(index: Index, tokens: seq<string>, docId: string, t: string)
    ensures var before, after := Lookup(index, t), Lookup(AddPostings(index, tokens, docId), t);
      before <= after && (after == before || after == before + [docId])
    ensures t !in tokens ==> Lookup(AddPostings(index, tokens, docId), t) == Lookup(index, t)
  {
    AddPostingsLookup(index, tokens, docId, t);
  }

  /** The search loop's result for the ids ids: the encoded blob of each id that has one, in order. */
  function Hits(encode: seq<byte> -> string, docs: DocStore, ids: seq<string>): (hits: seq<string>)
    ensures |hits| <= |ids|
  {
    if ids == [] then []
    else
      var d := ids[|ids| - 1];
      Hits(encode, docs, ids[..|ids| - 1]) + (if d in docs then [encode(docs[d])] else [])
  }

  /** A hit is exactly the encoded blob of a listed id that has a blob. */
  lemma {:induction false} HitsMembers(encode: seq<byte> -> string, docs: DocStore, ids: seq<string>, h: string)
    ensures h in Hits(encode, docs, ids) <==> exists d :: d in ids && d in docs && h == encode(docs[d])
  {
    if ids != [] {
      var init, last := ids[..|ids| - 1], ids[|ids| - 1];
      assert ids == init + [last];
      HitsMembers(encode, docs, init, h);
      if exists d :: d in ids && d in docs && h == encode(docs[d]) {
        var d :| d in ids && d in docs && h == encode(docs[d]);
        if d != last {
          assert d in init;
        }
      }
    }
  }

  /** When every listed id has a blob, the hits are those blobs in index order. */
  lemma {:induction false} HitsAllStored(encode: seq<byte> -> string, docs: DocStore, ids: seq<string>)
    requires forall d :: d in ids ==> d in docs
    ensures |Hits(encode, docs, ids)| == |ids|
    ensures forall i :: 0 <= i < |ids| ==> Hits(encode, docs, ids)[i] == encode(docs[ids[i]])
  {
    if ids != [] {
      var init := ids[..|ids| - 1];
      assert forall d :: d in init ==> d in ids;
      HitsAllStored(encode, docs, init);
    }
  }

  class DocumentServer {
    var index: Index
    var docs: DocStore

    /** The invariant upload maintains: index lists never repeat an id. */
    ghost predicate Valid()
      reads this
    {
      IndexWellFormed(index)
    }

    /** A server started with no index file and no blob files. */
    constructor ()
      ensures index == map[] && docs == map[]
      ensures Valid()
    {
      index := map[];
      docs := map[];
    }

    /**
     * POST /upload: a ciphertext that does not decode is refused with 400 and
     * changes nothing; otherwise the blob replaces whatever docId held and
     * docId is appended, once, to the list of every token of the request.
     */
    method Upload(b64: Base64, req: UploadRequest) returns (r: Result<UploadResponse, HttpError>)
      modifies this
      ensures b64.decode(req.ciphertextB64).None? ==>
        && r == Failure(HttpError(400, "ciphertext_b64 is not valid base64"))
        && index == old(index) && docs == old(docs)
      ensures b64.decode(req.ciphertextB64).Some? ==>
        && r == Success(UploadResponse(true, req.docId, |req.tokens|))
        && docs == old(docs)[req.docId := b64.decode(req.ciphertextB64).value]
        && index == AddPostings(old(index), req.tokens, req.docId)
      ensures old(Valid()) ==> Valid()
    {
      var decoded := b64.decode(req.ciphertextB64);
      if decoded.None? {
        return Failure(HttpError(400, "ciphertext_b64 is not valid base64"));
      }
      var blob := decoded.value;
      docs := docs[req.docId := blob];
      for i := 0 to |req.tokens|
        invariant index == AddPostings(old(index), req.tokens[..i], req.docId)
        invariant docs == old(docs)[req.docId := blob]
      {
        var t := req.tokens[i];
        assert req.tokens[..i + 1][..i] == req.tokens[..i];
        var ids := Lookup(index, t);
        if req.docId !in ids {
          index := index[t := ids + [req.docId]];
        } else {
          index := index[t := ids];
        }
      }
      assert req.tokens[..|req.tokens|] == req.tokens;
      if old(Valid()) {
        AddPostingsWellFormed(old(index), req.tokens, req.docId);
      }
      r := Success(UploadResponse(true, req.docId, |req.tokens|));
    }

    /**
     * GET /search: the encoded blobs of the ids listed under token, in index
     * order, skipping ids without a blob; no hits for a token never indexed.
     */
    method Search(b64: Base64, token: string) returns (resp: SearchResponse)
      ensures resp.token == token
      ensures resp.hits == Hits(b64.encode, docs, Lookup(index, token))
      ensures |resp.hits| <= |Lookup(index, token)|
      ensures token !in index ==> resp.hits == []
    {
      var ids := Lookup(index, token);
      var hits: seq<string> := [];
      for i := 0 to |ids|
        invariant hits == Hits(b64.encode, docs, ids[..i])
      {
        assert ids[..i + 1][..i] == ids[..i];
        var d := ids[i];
        if d in docs {
          hits := hits + [b64.encode(docs[d])];
        }
      }
      assert ids[..|ids|] == ids;
      resp := SearchResponse(token, hits);
    }
  }
}
