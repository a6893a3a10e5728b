/**
 * main: normalise the article table, combine the texts, sign the dataset,
 * load or build the embeddings, compare every pair of articles and pick the
 * best targets for every source. Reading and writing the CSV files is left to
 * the caller; the embeddings file is the store passed in.
 */
module Pipeline {
  import opened Wrappers
  import opened Text
  import opened Corpus
  import opened Signature
  import opened EmbeddingCache
  import opened Selection

  /** The sentence-embedding model the cache is keyed on. */
  const ModelName: string := "all-MiniLM-L6-v2"

  /**
   * Why a run produces no recommendations file: the table lacks a url column;
   * the similarity matrix is still not n by n after the embeddings were
   * rebuilt from scratch (where the program itself would index out of range
   * or pair scores with the wrong articles); or the table lacks a title
   * column, so that looking up the anchor text of the first target raises a
   * KeyError once the embeddings are in place.
   */
  datatype RunError = SchemaFailure(cause: SchemaError) | ShapeMismatch | MissingTitleColumn

  /** The combined_text column. */
  function Texts(corpus: seq<Article>): seq<string>
  {
    seq(|corpus|, i requires 0 <= i < |corpus| => CombineText(corpus[i].title, corpus[i].excerpt, corpus[i].keywords))
  }

  /** The url column. */
  function Urls(corpus: seq<Article>): seq<string>
  {
    seq(|corpus|, i requires 0 <= i < |corpus| => corpus[i].url)
  }

  /** `similarity_matrix.shape == (n, n)`. */
  predicate Square(matrix: seq<seq<real>>, n: nat)
  {
    |matrix| == n && forall i :: 0 <= i < |matrix| ==> |matrix[i]| == n
  }

  /** The key the embeddings of a corpus are stored under. */
  function CacheSignature(corpus: seq<Article>, digest: seq<Utf8.byte> -> string): string
  {
    digest(Stream(ModelName, Zip(Urls(corpus), Texts(corpus))))
  }

  /** The store is reusable for these texts and its embeddings give a square matrix. */
  predicate WarmHit(before: StoreFile, texts: seq<string>, signature: string,
                    similarity: seq<Vector> -> seq<seq<real>>)
  {
    Reusable(before, |texts|, signature, ModelName)
    && Square(similarity(before.payload.embeddings.value.rows), |texts|)
  }

  /**
   * The embeddings a run ends up comparing: the stored ones on a warm hit,
   * and otherwise a fresh encoding of the texts.
   */
  function ExpectedEmbeddings(before: StoreFile, texts: seq<string>, signature: string,
                              encode: seq<string> -> seq<Vector>,
                              similarity: seq<Vector> -> seq<seq<real>>): seq<Vector>
  {
    if WarmHit(before, texts, signature, similarity) then before.payload.embeddings.value.rows
    else encode(texts)
  }

  /**
   * How often the embedding step calls the encoder: never on a warm hit; once
   * when the stored vectors load but give a matrix of another shape, or when
   * the first fresh encoding gives an n by n matrix; twice otherwise.
   */
  function EncoderRuns(before: StoreFile, texts: seq<string>, signature: string,
                       encode: seq<string> -> seq<Vector>,
                       similarity: seq<Vector> -> seq<seq<real>>): nat
  {
    if WarmHit(before, texts, signature, similarity) then 0
    else if Reusable(before, |texts|, signature, ModelName) || Square(similarity(encode(texts)), |texts|) then 1
    else 2
  }

  /**
   * The embedding step of main: load or build the embeddings and compare
   * them; when the matrix is not n by n, delete the embeddings file, build
   * again and compare again. `ok` tells whether the final matrix is square,
   * which can fail only when the fresh encoding itself gives a matrix of
   * another shape. A warm store whose embeddings fit is left as it was and
   * the encoder is not called; otherwise the encoder runs at most twice and
   * the store ends reusable for these texts whenever the encoder gives one
   * vector per text.
   */
  method CompareEmbeddings(store: EmbeddingStore, texts: seq<string>, signature: string,
                           encode: seq<string> -> seq<Vector>,
                           similarity: seq<Vector> -> seq<seq<real>>)
    returns (emb: seq<Vector>, matrix: seq<seq<real>>, ok: bool)
    modifies store
    ensures emb == ExpectedEmbeddings(old(store.file), texts, signature, encode, similarity)
    ensures matrix == similarity(emb)
    ensures ok == Square(matrix, |texts|)
    ensures !ok ==> !Square(similarity(encode(texts)), |texts|)
    ensures WarmHit(old(store.file), texts, signature, similarity) ==>
      store.file == old(store.file) && store.encoderCalls == old(store.encoderCalls)
    ensures !WarmHit(old(store.file), texts, signature, similarity) ==>
      store.file == Written(encode(texts), signature, ModelName)
    ensures store.encoderCalls == old(store.encoderCalls) + EncoderRuns(old(store.file), texts, signature, encode, similarity)
    ensures store.encoderCalls <= old(store.encoderCalls) + 2
    ensures |encode(texts)| == |texts| ==> Reusable(store.file, |texts|, signature, ModelName)
  {
    emb := store.LoadOrBuild(texts, signature, ModelName, encode);
    matrix := similarity(emb);
    ok := Square(matrix, |texts|);
    if !ok {
      store.Remove();
      emb := store.LoadOrBuild(texts, signature, ModelName, encode);
      matrix := similarity(emb);
      ok := Square(matrix, |texts|);
    }
  }

  /**
   * Running the embedding step twice on the same texts: when the first run
   * ends with an n by n matrix and the encoder gives one vector per text, the
   * second run is a warm hit. It compares the same embeddings and leaves the
   * store and the encoder count as the first run left them.
   */
  method SecondCompareHits(store: EmbeddingStore, texts: seq<string>, signature: string,
                           encode: seq<string> -> seq<Vector>,
                           similarity: seq<Vector> -> seq<seq<real>>)
    returns (first: seq<Vector>, ok: bool, second: seq<Vector>)
    requires |encode(texts)| == |texts|
    modifies store
    ensures ok ==> second == first
    ensures ok ==>
      store.encoderCalls == old(store.encoderCalls) + EncoderRuns(old(store.file), texts, signature, encode, similarity)
    ensures ok ==> store.file == (if WarmHit(old(store.file), texts, signature, similarity) then old(store.file)
                                  else Written(encode(texts), signature, ModelName))
  {
    var m1, m2, ok2;
    first, m1, ok := CompareEmbeddings(store, texts, signature, encode, similarity);
    second, m2, ok2 := CompareEmbeddings(store, texts, signature, encode, similarity);
  }

  /**
   * One run of main. The encoder, the MD5 digest, cosine_similarity and the
   * tie order of np.argsort are parameters. Besides the result, the method
   * returns the normalised corpus, the embeddings and the similarity matrix
   * it used, and (as a ghost value) the recommendations of each source.
   */
  method Run(table: Table, store: EmbeddingStore,
             encode: seq<string> -> seq<Vector>,
             digest: seq<Utf8.byte> -> string,
             similarity: seq<Vector> -> seq<seq<real>>,
             prefer: (nat, nat) -> bool)
    returns (out: Result<seq<Recommendation>, RunError>,
             corpus: seq<Article>, emb: seq<Vector>,
             matrix: seq<seq<real>>, ghost blocks: seq<seq<Recommendation>>)
    requires WellFormed(table)
    modifies store
    // A table without a url column fails before anything else happens.
    ensures !table.hasUrlColumn <==> out == Failure(SchemaFailure(MissingUrlColumn))
    ensures table.hasUrlColumn ==> Normalize(table) == Success(corpus)
    // Fewer than two articles: an empty result, and the store is not touched.
    ensures table.hasUrlColumn && |corpus| < 2 ==> out == Success([])
    ensures |corpus| < 2 ==> store.file == old(store.file) && store.encoderCalls == old(store.encoderCalls)
    // Otherwise the embeddings are the stored ones or a fresh encoding.
    ensures |corpus| >= 2 ==>
      emb == ExpectedEmbeddings(old(store.file), Texts(corpus), CacheSignature(corpus, digest), encode, similarity) &&
      matrix == similarity(emb)
    ensures |corpus| >= 2 && WarmHit(old(store.file), Texts(corpus), CacheSignature(corpus, digest), similarity) ==>
      store.file == old(store.file) && store.encoderCalls == old(store.encoderCalls)
    ensures |corpus| >= 2 && !WarmHit(old(store.file), Texts(corpus), CacheSignature(corpus, digest), similarity) ==>
      store.file == Written(encode(Texts(corpus)), CacheSignature(corpus, digest), ModelName)
    ensures |corpus| >= 2 ==>
      store.encoderCalls == old(store.encoderCalls) +
        EncoderRuns(old(store.file), Texts(corpus), CacheSignature(corpus, digest), encode, similarity)
    ensures store.encoderCalls <= old(store.encoderCalls) + 2
    ensures |corpus| >= 2 && |encode(Texts(corpus))| == |corpus| ==>
      Reusable(store.file, |corpus|, CacheSignature(corpus, digest), ModelName)
    // A shape mismatch survives only when the fresh encoding itself is off.
    ensures out == Failure(ShapeMismatch) <==> table.hasUrlColumn && |corpus| >= 2 && !Square(matrix, |corpus|)
    ensures out == Failure(ShapeMismatch) ==> !Square(similarity(encode(Texts(corpus))), |corpus|)
    // Without a title column the anchor-text lookup fails, after the embedding step.
    ensures out == Failure(MissingTitleColumn) <==>
      table.hasUrlColumn && !table.hasTitleColumn && |corpus| >= 2 && Square(matrix, |corpus|)
    ensures out.Success? <==>
      table.hasUrlColumn && (|corpus| < 2 || (table.hasTitleColumn && Square(matrix, |corpus|)))
    // Otherwise: for each source in URL order, its EffectiveK best targets.
    ensures out.Success? && |corpus| >= 2 ==>
      |blocks| == |corpus| && out.value == Flatten(blocks) &&
      (forall i :: 0 <= i < |corpus| ==> IsBlockFor(blocks[i], corpus, i, matrix[i], EffectiveK(|corpus|)))
    ensures out.Success? && |corpus| >= 2 ==> |out.value| == |corpus| * EffectiveK(|corpus|)
    ensures out.Success? && |corpus| >= 2 && OffDiagonalAbove(matrix, SelfScore) ==>
      forall r :: r in out.value ==> r.sourceUrl != r.targetUrl
  {
    var normalized := Normalize(table);
    if normalized.Failure? {
      NormalizeSpec(table);
      return Failure(SchemaFailure(normalized.error)), [], [], [], [];
    }
    corpus := normalized.value;
    var n := |corpus|;
    if n < 2 {
      return Success([]), corpus, [], [], [];
    }
    var texts := Texts(corpus);
    var sig := DatasetSignature(Urls(corpus), texts, ModelName, digest);
    var ok;
    emb, matrix, ok := CompareEmbeddings(store, texts, sig, encode, similarity);
    if !ok {
      return Failure(ShapeMismatch), corpus, emb, matrix, [];
    }
    if !table.hasTitleColumn {
      return Failure(MissingTitleColumn), corpus, emb, matrix, [];
    }
    NormalizeSpec(table);
    SortedHasDistinctUrls(corpus);
    var recs;
    recs, blocks := Recommend(corpus, matrix, prefer);
    out := Success(recs);
  }
}
