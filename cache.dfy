/**
 * load_or_build_embeddings: reuse the persisted embeddings only when the
 * stored payload matches the corpus size, the dataset signature and the model
 * name; otherwise encode the texts again and overwrite the store.
 */
module EmbeddingCache {
  import opened Wrappers

  /** One embedding vector; its numbers are never inspected here. */
  type Vector = seq<real>

  /**
   * The value stored under "embeddings": an array with its rows, or a value
   * without a usable `shape[0]` (no `shape` attribute, or a zero-dimensional
   * array whose `shape[0]` raises and is caught).
   */
  datatype Embeddings = Shapeless | Matrix(rows: seq<Vector>)

  /** A dict loaded from the pickle file; each of its three keys may be missing. */
  datatype Payload = Payload(embeddings: Option<Embeddings>, signature: Option<string>, model: Option<string>)

  /**
   * The embeddings file: not there, there but failing to load (any exception
   * while opening, unpickling or reading the dict), or a loaded payload.
   */
  datatype StoreFile = NoFile | Unreadable | Stored(payload: Payload)

  /** The payload written after a rebuild. */
  function Written(vectors: seq<Vector>, signature: string, modelName: string): StoreFile
  {
    Stored(Payload(Some(Matrix(vectors)), Some(signature), Some(modelName)))
  }

  /**
   * All checks of load_or_build_embeddings pass: the file loads, embeddings
   * are present with `count` rows, and signature and model match.
   */
  predicate Reusable(f: StoreFile, count: nat, signature: string, modelName: string)
  {
    && f.Stored?
    && f.payload.embeddings.Some?
    && f.payload.embeddings.value.Matrix?
    && |f.payload.embeddings.value.rows| == count
    && f.payload.signature == Some(signature)
    && f.payload.model == Some(modelName)
  }

  /** A freshly written store is reusable exactly for the texts it has one vector each for. */
  lemma {:induction false} WrittenIsReusable(vectors: seq<Vector>, count: nat, signature: string, modelName: string)
    ensures Reusable(Written(vectors, signature, modelName), count, signature, modelName) <==> |vectors| == count
  {
  }

  /** A store is never reused for a different signature or a different model. */
  lemma {:induction false} ReuseNeedsSameKey(f: StoreFile, count: nat, sig1: string, model1: string, sig2: string, model2: string)
    requires Reusable(f, count, sig1, model1)
    ensures Reusable(f, count, sig2, model2) <==> sig1 == sig2 && model1 == model2
  {
  }

  /**
   * The persisted embedding store together with a ghost count of the times
   * the encoder has been invoked on it.
   */
  class EmbeddingStore {
    var file: StoreFile
    ghost var encoderCalls: nat

    constructor (initial: StoreFile)
      ensures file == initial && encoderCalls == 0
    {
      file := initial;
      encoderCalls := 0;
    }

    /** `os.remove(EMBEDDINGS_FILE)`. */
    method Remove()
      modifies this
      ensures file == NoFile && encoderCalls == old(encoderCalls)
    {
      file := NoFile;
    }

    /**
     * load_or_build_embeddings. On a reusable store it returns the stored
     * rows and changes nothing, without calling the encoder; otherwise it
     * calls the encoder once, overwrites the store with the fresh vectors, the
     * signature and the model name, and returns the fresh vectors. Afterwards
     * the store is reusable for the same arguments whenever the encoder gives
     * one vector per text.
     */
    method LoadOrBuild(texts: seq<string>, signature: string, modelName: string,
                       encode: seq<string> -> seq<Vector>)
      returns (emb: seq<Vector>)
      modifies this
      ensures Reusable(old(file), |texts|, signature, modelName) ==>
        emb == old(file).payload.embeddings.value.rows && file == old(file) && encoderCalls == old(encoderCalls)
      ensures !Reusable(old(file), |texts|, signature, modelName) ==>
        emb == encode(texts) && file == Written(emb, signature, modelName) && encoderCalls == old(encoderCalls) + 1
      ensures |encode(texts)| == |texts| ==> Reusable(file, |texts|, signature, modelName)
    {
      if file.Stored? {
        var payload := file.payload;
        var e, s, m := payload.embeddings, payload.signature, payload.model;
        if e.Some? && e.value.Matrix? && |e.value.rows| == |texts| && s == Some(signature) && m == Some(modelName) {
          return e.value.rows;
        }
      }
      emb := encode(texts);
      encoderCalls := encoderCalls + 1;
      file := Written(emb, signature, modelName);
    }
  }

  /**
   * Calling load_or_build_embeddings twice with the same arguments: the second
   * call hits the cache, returns what the first returned and changes nothing,
   * so the store and the encoder count end exactly as one call leaves them.
   */
  method SecondCallHits(store: EmbeddingStore, texts: seq<string>, signature: string, modelName: string,
                        encode: seq<string> -> seq<Vector>)
    returns (first: seq<Vector>, second: seq<Vector>)
    requires |encode(texts)| == |texts|
    modifies store
    ensures second == first
    ensures Reusable(old(store.file), |texts|, signature, modelName) ==>
      store.file == old(store.file) && store.encoderCalls == old(store.encoderCalls)
    ensures !Reusable(old(store.file), |texts|, signature, modelName) ==>
      store.file == Written(encode(texts), signature, modelName) && store.encoderCalls == old(store.encoderCalls) + 1
    ensures Reusable(store.file, |texts|, signature, modelName)
  {
    first := store.LoadOrBuild(texts, signature, modelName, encode);
    ghost var calls, file := store.encoderCalls, store.file;
    second := store.LoadOrBuild(texts, signature, modelName, encode);
    assert store.file == file && store.encoderCalls == calls;
  }
}
