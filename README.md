# Internal-link recommendations, modelled in Dafny

This project models the recommendation pipeline of `recommendations.py`. The
pipeline reads a table of articles and normalises it: rows without a URL are
dropped, duplicate URLs keep their first row, and the rows are sorted by URL.
It then combines each article's title, excerpt and keywords into one text. It
signs the dataset with an MD5 digest of the model name and every (URL, text)
pair. It reuses the pickled embeddings when their size, signature and model
match, and otherwise encodes the texts again and overwrites the store. Finally
it compares every pair of articles and emits, for each source article, its
`max(1, min(8, n - 1))` best-scoring targets, with the source itself masked
to -1.0.

Modules, one per step:

- `Wrappers` (`wrappers.dfy`): `Option` and `Result`.
- `Text` (`text.dfy`): `combine_text`, with Python's `str.strip()` and `str.join`.
  It also keeps the rendering of a missing CSV cell as the text `"nan"`.
- `Corpus` (`corpus.dfy`): `ensure_unique_and_ordered`, as drop-missing, keep-first
  and sort-by-URL over a table of rows.
- `Utf8` (`utf8.dfy`): `str.encode("utf-8")` and a decoder that inverts it.
- `Signature` (`signature.dfy`): `dataset_signature`. The MD5 object is a `Hasher`
  class that accumulates the bytes fed to it, and the digest is a function parameter.
- `EmbeddingCache` (`cache.dfy`): `load_or_build_embeddings`. The embeddings file is
  an `EmbeddingStore` object whose `file` field the method overwrites. A ghost
  counter records the encoder calls.
- `Selection` (`selection.dfy`): the per-source loop of `main`. It covers the
  effective k, the self mask on a copied score array, an argsort, the reversed
  top-k slice and the output rows.
- `Pipeline` (`pipeline.dfy`): `main` from normalisation to the list of rows,
  including the n < 2 guard, the shape-mismatch rebuild and the failure of the
  anchor-text lookup when the table has no title column.

Foreign code enters as function parameters:

| foreign code | parameter |
|---|---|
| `SentenceTransformer.encode` | `encode` |
| MD5 digest | `digest` |
| `cosine_similarity` | `similarity` |
| order of `np.argsort` among equal scores | `prefer` |

Every property about selection holds for every tie order.

Two behaviours of the code are easy to misread, and the model keeps both:

- `dropna(subset=["url"])` drops only missing URLs (absent or NaN). A URL that
  is the empty string is kept.
- Equal scores are not ordered by any fixed rule. `np.argsort` uses an
  unstable sort, so the model leaves the tie order open.

A table without a `title` column is read without complaint: `combine_text`
falls back on "" for it. The first anchor-text lookup (`df.at[target_idx,
"title"]`) then raises a KeyError, after the embeddings file has been loaded
or rewritten. `Run` returns the error `MissingTitleColumn` at that point, with
the store as the embedding step left it.

## Model

| member | source | states |
|---|---|---|
| Text.Render | recommendations.py:31-33 | definition of `str(x or "")`, with NaN rendered as "nan"; its consequence is stated by MissingCellIsKept |
| Text.IsSpace | recommendations.py:35 | definition of the characters `str.isspace()` accepts, which `strip()` removes; used by TrimLeft, TrimRight and Trim |
| Text.TrimLeft | recommendations.py:35 | the result is a suffix of the input, everything removed is whitespace, and it does not start with whitespace |
| Text.TrimRight | recommendations.py:35 | the result is a prefix of the input, everything removed is whitespace, and it does not end with whitespace |
| Text.Trim | recommendations.py:35 | `strip()` leaves no whitespace at either end, and leaves nothing exactly when the string is all whitespace |
| Text.TrimWindow | recommendations.py:35 | `strip()` returns an infix of the string with only whitespace before and after it |
| Text.TrimOfUnspaced | recommendations.py:35 | a string without whitespace is its own strip |
| Text.Join | recommendations.py:35 | joining no parts gives ""; the join starts with the first part and ends with the last |
| Text.JoinOfTrimmedParts | recommendations.py:35 | joining non-empty stripped parts gives a stripped string, which is empty exactly when there are no parts |
| Text.NonEmptyStripped | recommendations.py:35 | definition of the comprehension `[p.strip() for p in parts if p.strip()]`; its properties are stated by NonEmptyStrippedSpec |
| Text.NonEmptyStrippedSpec | recommendations.py:35 | the comprehension keeps at most every part, keeps only non-empty stripped strings, and keeps nothing exactly when every part strips to "" |
| Text.CombineText | recommendations.py:28-35 | the combined text is "" exactly when title, excerpt and keywords all strip to "", and it never starts or ends with whitespace |
| Text.CombineTextLeadsWithTitle | recommendations.py:29-35 | a title that survives stripping opens the combined text |
| Text.CombineTextOfTitleAlone | recommendations.py:29-35 | when excerpt and keywords strip to "", the combined text is the stripped title |
| Text.MissingCellIsKept | recommendations.py:31-33 | a missing (NaN) title renders as "nan", so the combined text is never empty |
| Corpus.Less | recommendations.py:24 | definition of Python's `<` on `str`, lexicographic by code point, which `sort_values("url")` uses; its properties are stated by LessTotal and LessTransitive |
| Corpus.LessTotal | recommendations.py:24 | the URL order is total: of two different URLs exactly one sorts first |
| Corpus.LessTransitive | recommendations.py:24 | the URL order is transitive |
| Corpus.WellFormed | recommendations.py:96 | definition: every cell of a column the CSV file lacks is absent, as `read_csv` gives it; Pipeline.Run requires it |
| Corpus.Normalize | recommendations.py:17-25 | definition: ValueError without a url column, otherwise drop missing URLs, keep first, sort; its properties are stated by NormalizeSpec and NormalizeIgnoresRowOrder |
| Corpus.NormalizeSpec | recommendations.py:17-25 | normalisation fails exactly when there is no url column; otherwise the rows are strictly ascending by URL, each comes from the first input row with its URL, and every input URL is kept |
| Corpus.SortedHasDistinctUrls | recommendations.py:22-24 | a strictly sorted corpus has pairwise distinct URLs |
| Corpus.DropMissing | recommendations.py:22 | definition of `dropna(subset=["url"])`; its properties are stated by DropMissingSpec and FirstRowsOfPresent |
| Corpus.DropMissingSpec | recommendations.py:22 | `dropna` keeps only rows of the input and keeps every row that has a URL |
| Corpus.FirstRowsOfPresent | recommendations.py:22 | the first article for a URL after `dropna` is the first input row for that URL |
| Corpus.KeepFirst | recommendations.py:22 | definition of `drop_duplicates(subset=["url"])`, keeping first occurrences; its properties are stated by KeepFirstSpec and KeepFirstOfDistinct |
| Corpus.KeepFirstSpec | recommendations.py:22 | `drop_duplicates` keeps the same URLs, leaves them distinct, and keeps only first occurrences |
| Corpus.KeepFirstOfDistinct | recommendations.py:22 | `drop_duplicates` changes nothing when the URLs are already distinct |
| Corpus.Insert | recommendations.py:24 | definition of one insertion step of the sort by URL; its properties are stated by InsertContents and InsertSorted |
| Corpus.InsertContents | recommendations.py:24 | inserting adds exactly one element |
| Corpus.InsertSorted | recommendations.py:24 | inserting a new URL into a strictly sorted sequence keeps it strictly sorted |
| Corpus.SortByUrl | recommendations.py:24 | definition of `sort_values("url")` as an insertion sort; its properties are stated by SortByUrlSpec and SortedUnique |
| Corpus.SortByUrlSpec | recommendations.py:24 | `sort_values` permutes its input, keeps its URLs, and sorts it strictly when the URLs are distinct |
| Corpus.SortedUnique | recommendations.py:24 | two strictly sorted sequences with the same elements are equal |
| Corpus.NormalizeIgnoresRowOrder | recommendations.py:22-24 | if the present URLs are distinct, any reordering of the rows gives the same normalised corpus |
| Utf8.Encode | recommendations.py:44-50 | definition of `str.encode("utf-8")`; its properties are stated by DecodeEncode, EncodeInjective and EncodeHasNoZero |
| Utf8.DecodeEncode | recommendations.py:44-50 | decoding the UTF-8 encoding of a string gives the string back |
| Utf8.EncodeInjective | recommendations.py:44-50 | different strings have different UTF-8 encodings |
| Utf8.EncodeHasNoZero | recommendations.py:47-50 | a string without NUL encodes to bytes without 0, so the 0 separators cannot occur inside a field |
| Signature.Zip | recommendations.py:46 | definition of `zip(urls, texts)`, the pairs up to the shorter list; StreamInjective recovers both lists from them |
| Signature.Record | recommendations.py:47-50 | definition of the bytes one loop iteration feeds: NUL, URL, NUL, text |
| Signature.Records | recommendations.py:46-50 | definition of the bytes the whole loop feeds; its properties are stated by RecordsInjective |
| Signature.Stream | recommendations.py:43-51 | definition of everything the hasher is fed: the model name, then the records; its properties are stated by StreamInjective |
| Signature.Hasher.constructor | recommendations.py:43 | `hashlib.md5()` starts with nothing fed |
| Signature.Hasher.Update | recommendations.py:44-50 | `update` appends its bytes to what the hasher has been fed |
| Signature.FeedRecord | recommendations.py:47-50 | one loop iteration feeds exactly NUL, the URL, NUL, the text |
| Signature.DatasetSignature | recommendations.py:38-51 | the signature is the digest of the model name followed by NUL, URL, NUL, text for each pair of `zip(urls, texts)` |
| Signature.RecordsInjective | recommendations.py:45-50 | without NUL in any field, the record bytes determine the pairs |
| Signature.StreamInjective | recommendations.py:43-51 | without NUL in any string, equal streams have equal model names, URL lists and text lists, so any change to urls, texts, order or model changes what is hashed |
| EmbeddingCache.WrittenIsReusable | recommendations.py:65-71 | a freshly written store passes the reuse checks exactly when it holds one vector per text |
| EmbeddingCache.ReuseNeedsSameKey | recommendations.py:65-71 | a store that is reusable under one signature and model is reusable under another pair exactly when the pairs are equal |
| EmbeddingCache.EmbeddingStore.LoadOrBuild | recommendations.py:54-91 | when every check passes: the stored vectors are returned, the store is unchanged, and the encoder is not called; otherwise: the encoder runs once, the store holds the fresh vectors, signature and model, and the fresh vectors are returned |
| EmbeddingCache.EmbeddingStore.Remove | recommendations.py:128-132 | deleting the embeddings file leaves no file and does not call the encoder |
| EmbeddingCache.SecondCallHits | recommendations.py:57-91 | with one vector per text, a second call with the same arguments returns the same vectors and changes nothing: the store and the encoder count end exactly as after one call |
| EmbeddingCache.Reusable | recommendations.py:57-73 | definition of the checks that let a stored payload be returned; its properties are stated by WrittenIsReusable and ReuseNeedsSameKey |
| EmbeddingCache.Written | recommendations.py:84-89 | definition of the payload dumped after a rebuild; its properties are stated by WrittenIsReusable |
| Selection.EffectiveK | recommendations.py:138 | k is between 1 and 8, at most n - 1 when n >= 2, and exactly min(8, n - 1) then |
| Selection.Mask | recommendations.py:141-143 | definition of the copied score row with the source's own score set to -1.0; its consequences are stated by SelfNeverSelected and SelfSelectedOnTie |
| Selection.Argsort | recommendations.py:146 | the result is a permutation of the indices in ascending score order, for any tie order |
| Selection.TopIndices | recommendations.py:146 | definition of `order[-k:][::-1]`; its properties are stated by ArgsortTopK |
| Selection.ArgsortTopK | recommendations.py:146 | the reversed last k indices of an argsort are k distinct indices in non-increasing score order, scoring at least as much as every index left out |
| Selection.SelfNeverSelected | recommendations.py:141-146 | when k < n and every other score is above -1.0, the masked source is never among the selected |
| Selection.SelfSelectedOnTie | recommendations.py:143-146 | when another score is exactly -1.0, the source can be selected: for n = 2 the masked source comes out on top under one tie order |
| Selection.Rows | recommendations.py:148-156 | definition of one output row per target; its properties are stated by BlockRows |
| Selection.RecommendFor | recommendations.py:141-156 | one source gives k rows, for the top-k targets of its masked score row, each naming the target's URL and title with the masked score |
| Selection.BlockRows | recommendations.py:141-156 | a source's rows are k in number, share the source URL, are non-increasing in score, each describes an article with its score, the targets are distinct, and the source is excluded under the hypotheses of SelfNeverSelected |
| Selection.Flatten | recommendations.py:137-156 | definition of the rows of all sources appended in source order; its properties are stated by FlattenLength |
| Selection.FlattenLength | recommendations.py:140-156 | n blocks of k rows make n * k rows |
| Selection.Recommend | recommendations.py:137-156 | the output is the concatenation, in URL order, of each source's top-k rows, n * k rows in total, with no row pointing at its source when URLs are distinct and off-diagonal scores are above -1.0 |
| Pipeline.EncoderRuns | recommendations.py:119-134 | definition of how often the embedding step encodes: 0 on a warm hit, 1 when the stored vectors load but misfit or the first fresh encoding fits, 2 otherwise; CompareEmbeddings is proved to match it |
| Pipeline.CompareEmbeddings | recommendations.py:119-134 | the compared embeddings are the stored ones on a warm hit, which leaves the store alone, and otherwise a fresh encoding, which the store then holds with the signature and model name; a non-square matrix survives only when the fresh encoding gives one; the encoder runs exactly EncoderRuns times; with one vector per text the store ends reusable |
| Pipeline.SecondCompareHits | recommendations.py:119-134 | after an embedding step that ends with an n by n matrix, repeating it with one vector per text compares the same embeddings and changes neither the store nor the encoder count |
| Pipeline.Urls | recommendations.py:115 | definition of the url column, one URL per corpus article in order; used by CacheSignature |
| Pipeline.Square | recommendations.py:125 | definition of `similarity_matrix.shape == (n, n)`; used by CompareEmbeddings and Run |
| Pipeline.WarmHit | recommendations.py:65-71 | definition of the path that skips both rebuilds: the store passes the reuse checks and its vectors give an n by n matrix (lines 123-125); used by ExpectedEmbeddings and EncoderRuns |
| Pipeline.Texts | recommendations.py:104 | definition of the combined_text column, one CombineText per article in corpus order |
| Pipeline.CacheSignature | recommendations.py:115 | definition of the signature as the digest of Stream over the model name and the (URL, text) pairs; DatasetSignature is proved to compute it |
| Pipeline.ExpectedEmbeddings | recommendations.py:119-134 | definition of the embeddings a run compares: the stored ones on a warm hit, otherwise a fresh encoding; CompareEmbeddings is proved to return them |
| Pipeline.Run | recommendations.py:94-160 | for a table whose missing columns have only absent cells: a missing url column fails before anything else; fewer than two articles give no rows and leave the store alone; otherwise the store ends as it was on a warm hit and holds the fresh encoding of the texts under the dataset signature and model name if not, with exactly EncoderRuns encoder calls; a missing title column fails after the embedding step; the run succeeds exactly when neither column is missing (or there are fewer than two articles) and the matrix is n by n; the rows are each source's top-k targets over the similarity of the expected embeddings, n * k rows in total, never pointing at their own source when off-diagonal scores are above -1.0 |

## Left out

- Reading the CSV, writing the output CSV, `print` and the `MAX_ARTICLES` cut (off in the source) are not modelled. `Run` takes the table and returns the rows.
- Pickle files, `os.path.exists`, an `OSError` from `os.remove`, and which exception made a load fail are not modelled. The store is a value that is absent, unreadable or a loaded payload.
- The dead `need_rebuild` flag is not modelled.
- The MD5 digest, the sentence-transformer encoder and `cosine_similarity` are function parameters, and their internals are not modelled. Scores are reals; `astype(float)` and floating-point rounding are not modelled.
- A model that cannot be loaded, or an encoder that raises, is not modelled.
- The tie order of `np.argsort` is the `prefer` parameter. No particular order is assumed.
- `errors="ignore"` in the UTF-8 encoding only matters for lone surrogates. Dafny strings cannot hold them, so that path is not modelled.
- `u or ""` and `t or ""` in the signature loop are not modelled separately, because a URL or text is never `None` here. The URLs are strings after `dropna`, and the combined texts are always strings.
- EmbeddingCache.EmbeddingStore.LoadOrBuild: a failing write of the pickle file (lines 84-89) is not modelled. The source then raises and may leave a truncated file; the model always ends with the fresh payload written.
- Pipeline.CompareEmbeddings: `cosine_similarity` raising is not modelled. Reused embeddings can pass the checks at lines 65-71 without being a finite two-dimensional array (a one-dimensional array, or NaN entries), and then the source raises at line 123. The model's `similarity` is a total function, so it carries on or rebuilds. A failing write inside either call of LoadOrBuild is not modelled either, as above.
- Pipeline.Run: when the similarity matrix is still not n by n after the rebuild, the source goes on to index it, which crashes or pairs scores with the wrong articles. The model returns `ShapeMismatch` instead.
- Selection.SelfNeverSelected: self-exclusion is proved only when every other score is above -1.0, because cosine similarity can itself be -1.0 (see SelfSelectedOnTie).
- Text.Join: its contract states only the empty case and the first and last parts. The separators between parts are given by its definition, not its contract.
