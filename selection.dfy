/**
 * The recommendation loop of main: for every source article, mask its own
 * score, order the scores with an argsort whose tie order is unspecified, and
 * emit one row for each of the top_k highest-scoring targets, best first.
 * The score matrix is given; scores are only compared.
 */
module Selection {
  import opened Text
  import opened Corpus

  /** TOP_K. */
  const TopK: nat := 8

  /** The score written over an article's similarity to itself. */
  const SelfScore: real := -1.0

  /** One row of the output table. */
  datatype Recommendation = Recommendation(sourceUrl: string, targetUrl: string, score: real, anchorText: Cell)

  /**
   * `max(1, min(TOP_K, n - 1))`: at least one and at most TOP_K targets, and
   * never more than the n - 1 other articles when there are at least two.
   */
  function EffectiveK(n: nat): (k: nat)
    ensures 1 <= k <= TopK
    ensures n >= 2 ==> k <= n - 1
    ensures n - 1 >= TopK ==> k == TopK
    ensures 1 <= n - 1 <= TopK ==> k == n - 1
  {
    var m: int := if TopK <= n - 1 then TopK else n - 1;
    if m < 1 then 1 else m
  }

  /** `sim_scores[idx] = -1.0` on a copy of the row. */
  function Mask(row: seq<real>, idx: nat): seq<real>
    requires idx < |row|
  {
    row[idx := SelfScore]
  }

  /** Pairwise different entries. */
  predicate Distinct(xs: seq<nat>)
  {
    forall i, j :: 0 <= i < j < |xs| ==> xs[i] != xs[j]
  }

  /** Every entry indexes a sequence of length n. */
  predicate InRange(xs: seq<nat>, n: nat)
  {
    forall i :: 0 <= i < |xs| ==> xs[i] < n
  }

  /**
   * What `np.argsort(s)` returns: a permutation of the indices of `s` under
   * which the scores ascend. The order among equal scores is not fixed.
   */
  predicate IsArgsort(order: seq<nat>, s: seq<real>)
  {
    && |order| == |s|
    && InRange(order, |s|)
    && Distinct(order)
    && forall i, j :: 0 <= i < j < |order| ==> s[order[i]] <= s[order[j]]
  }

  /** `order[-k:][::-1]`: the last k indices of the argsort, last first. */
  function TopIndices(order: seq<nat>, k: nat): (top: seq<nat>)
    requires k <= |order|
  {
    seq(k, m requires 0 <= m < k => order[|order| - 1 - m])
  }

  /**
   * A selection of the k best targets: k distinct indices, in non-increasing
   * score order, none of them scoring below an index left out.
   */
  predicate IsTopK(top: seq<nat>, s: seq<real>, k: nat)
  {
    && |top| == k
    && InRange(top, |s|)
    && Distinct(top)
    && (forall a, b :: 0 <= a < b < k ==> s[top[a]] >= s[top[b]])
    && (forall m, y :: 0 <= m < k && 0 <= y < |s| && y !in top ==> s[y] <= s[top[m]])
  }

  // ---------------------------------------------------------------------------
  // Counting indices.

  function IndexSet(xs: seq<nat>): set<nat>
  {
    set i | 0 <= i < |xs| :: xs[i]
  }

  /** The indices below n. */
  function Below(n: nat): (r: set<nat>)
    ensures forall y: nat :: y in r <==> y < n
  {
    if n == 0 then {} else Below(n - 1) + {n - 1}
  }

  lemma {:induction false} BelowSize(n: nat)
    ensures |Below(n)| == n
  {
    if n > 0 {
      BelowSize(n - 1);
    }
  }

  lemma {:induction false} IndexSetSize(xs: seq<nat>)
    requires Distinct(xs)
    ensures |IndexSet(xs)| == |xs|
  {
    if xs != [] {
      var init := xs[..|xs| - 1];
      assert Distinct(init);
      IndexSetSize(init);
      assert IndexSet(xs) == IndexSet(init) + {xs[|xs| - 1]};
      assert xs[|xs| - 1] !in IndexSet(init);
    }
  }

  /** Fewer than n distinct indices below n leave some index out. */
  lemma {:induction false} Unpicked(xs: seq<nat>, n: nat)
    requires Distinct(xs) && InRange(xs, n) && |xs| < n
    ensures exists y :: 0 <= y < n && y !in xs
  {
    IndexSetSize(xs);
    BelowSize(n);
    var missing := Below(n) - IndexSet(xs);
    assert |missing| > 0;
    var y :| y in missing;
    assert y !in xs;
  }

  /** n distinct indices below n cover every index below n. */
  lemma {:induction false} Covers(xs: seq<nat>, n: nat)
    requires Distinct(xs) && InRange(xs, n) && |xs| == n
    ensures forall y :: 0 <= y < n ==> y in xs
  {
    IndexSetSize(xs);
    BelowSize(n);
    assert IndexSet(xs) <= Below(n);
    assert |Below(n) - IndexSet(xs)| == 0;
    forall y | 0 <= y < n ensures y in xs {
      assert y in Below(n);
      assert y in IndexSet(xs);
    }
  }

  // ---------------------------------------------------------------------------
  // Argsort and the top-k it yields.

  /**
   * `np.argsort(s)`: a selection sort over indices. When scores are equal,
   * `prefer` decides which index goes first; it stands for the unspecified tie
   * order, so everything proved holds for every tie order.
   */
  method Argsort(s: seq<real>, prefer: (nat, nat) -> bool) returns (order: seq<nat>)
    ensures IsArgsort(order, s)
  {
    order := [];
    while |order| < |s|
      invariant |order| <= |s| && InRange(order, |s|) && Distinct(order)
      invariant forall i, j :: 0 <= i < j < |order| ==> s[order[i]] <= s[order[j]]
      invariant forall i, y :: 0 <= i < |order| && 0 <= y < |s| && y !in order ==> s[order[i]] <= s[y]
      decreases |s| - |order|
    {
      Unpicked(order, |s|);
      var best := -1;
      for y := 0 to |s|
        invariant best == -1 || (0 <= best < |s| && best !in order)
        invariant best == -1 ==> forall z :: 0 <= z < y ==> z in order
        invariant best != -1 ==> forall z :: 0 <= z < y && z !in order ==> s[best] <= s[z]
      {
        if y !in order && (best == -1 || s[y] < s[best] || (s[y] == s[best] && prefer(y, best))) {
          best := y;
        }
      }
      order := order + [best];
    }
  }

  /**
   * For every argsort of the masked row, whatever its tie order, the last k
   * indices reversed are a top-k selection.
   */
  lemma {:induction false} ArgsortTopK(order: seq<nat>, s: seq<real>, k: nat)
    requires IsArgsort(order, s) && k <= |s|
    ensures IsTopK(TopIndices(order, k), s, k)
  {
    var n, top := |s|, TopIndices(order, k);
    forall a, b | 0 <= a < b < k ensures top[a] != top[b] && s[top[a]] >= s[top[b]] {
      assert top[a] == order[n - 1 - a] && top[b] == order[n - 1 - b];
    }
    forall m, y | 0 <= m < k && 0 <= y < n && y !in top ensures s[y] <= s[top[m]] {
      LeftOutScoresNoHigher(order, s, k, m, y);
    }
  }

  lemma {:induction false} LeftOutScoresNoHigher(order: seq<nat>, s: seq<real>, k: nat, m: nat, y: nat)
    requires IsArgsort(order, s) && m < k <= |s| && y < |s|
    requires y !in TopIndices(order, k)
    ensures s[y] <= s[TopIndices(order, k)[m]]
  {
    var n, top := |s|, TopIndices(order, k);
    Covers(order, n);
    assert y in order;
    var p :| 0 <= p < n && order[p] == y;
    assert forall q :: n - k <= q < n ==> order[q] == top[n - 1 - q];
    assert p < n - k;
    assert top[m] == order[n - 1 - m];
  }

  /**
   * The article itself is never among the targets when k leaves out at least
   * one other article and every other score is above the mask value -1.0.
   */
  lemma {:induction false} SelfNeverSelected(row: seq<real>, idx: nat, top: seq<nat>, k: nat)
    requires idx < |row| && k < |row|
    requires forall j :: 0 <= j < |row| && j != idx ==> row[j] > SelfScore
    requires IsTopK(top, Mask(row, idx), k)
    ensures idx !in top
  {
    var s := Mask(row, idx);
    Unpicked(top, |row|);
    var y :| 0 <= y < |row| && y !in top;
    if y != idx {
      forall m | 0 <= m < k ensures top[m] != idx {
        assert s[top[m]] >= s[y] > SelfScore;
      }
    }
  }

  /**
   * The hypothesis above is needed: with two articles whose similarity is
   * -1.0, an argsort may put the masked article last and select it.
   */
  lemma {:induction false} SelfSelectedOnTie()
    ensures IsArgsort([0, 1], Mask([-1.0, 1.0], 1))
    ensures TopIndices([0, 1], 1) == [1]
  {
  }

  // ---------------------------------------------------------------------------
  // The recommendation rows.

  /** One row per target: the source URL, the target's URL, its score and its title. */
  function Rows(sourceUrl: string, targets: seq<nat>, articles: seq<Article>, s: seq<real>): (r: seq<Recommendation>)
    requires InRange(targets, |articles|) && InRange(targets, |s|)
  {
    seq(|targets|, m requires 0 <= m < |targets| =>
      Recommendation(sourceUrl, articles[targets[m]].url, s[targets[m]], articles[targets[m]].title))
  }

  /** The rows of one source are its top-k selection over its masked row. */
  ghost predicate IsBlockFor(block: seq<Recommendation>, articles: seq<Article>, idx: nat, row: seq<real>, k: nat)
    requires idx < |articles| == |row|
  {
    exists targets ::
      && IsTopK(targets, Mask(row, idx), k)
      && block == Rows(articles[idx].url, targets, articles, Mask(row, idx))
  }

  /**
   * The body of the loop over sources: copy the row, mask the article's own
   * score, argsort, and append a row for each of the last k indices, last first.
   */
  method RecommendFor(articles: seq<Article>, idx: nat, row: seq<real>, k: nat, prefer: (nat, nat) -> bool)
    returns (recs: seq<Recommendation>, targets: seq<nat>)
    requires idx < |articles| == |row| && 1 <= k <= |row|
    ensures IsTopK(targets, Mask(row, idx), k)
    ensures recs == Rows(articles[idx].url, targets, articles, Mask(row, idx))
  {
    var n := |row|;
    var scores := new real[n](i requires 0 <= i < n => row[i]);
    scores[idx] := SelfScore;
    assert scores[..] == Mask(row, idx);
    var order := Argsort(scores[..], prefer);
    var top := TopIndices(order, k);
    ArgsortTopK(order, scores[..], k);
    recs := [];
    for m := 0 to k
      invariant |recs| == m
      invariant forall j :: 0 <= j < m ==>
        recs[j] == Recommendation(articles[idx].url, articles[top[j]].url, scores[top[j]], articles[top[j]].title)
    {
      var t := top[m];
      recs := recs + [Recommendation(articles[idx].url, articles[t].url, scores[t], articles[t].title)];
    }
    targets := top;
  }

  function Flatten(blocks: seq<seq<Recommendation>>): seq<Recommendation>
  {
    if blocks == [] then [] else Flatten(blocks[..|blocks| - 1]) + blocks[|blocks| - 1]
  }

  /**
   * The recommendation loop of main (top_k and the loop over sources): the
   * output is one block per source, in corpus order, and each block is that
   * source's top-k selection.
   */
  method Recommend(articles: seq<Article>, matrix: seq<seq<real>>, prefer: (nat, nat) -> bool)
    returns (recs: seq<Recommendation>, ghost blocks: seq<seq<Recommendation>>)
    requires |matrix| == |articles|
    requires forall i :: 0 <= i < |matrix| ==> |matrix[i]| == |articles|
    ensures |blocks| == |articles| && recs == Flatten(blocks)
    ensures forall i :: 0 <= i < |articles| ==> IsBlockFor(blocks[i], articles, i, matrix[i], EffectiveK(|articles|))
    ensures |recs| == |articles| * EffectiveK(|articles|)
    ensures |articles| >= 2 && DistinctUrls(articles) && OffDiagonalAbove(matrix, SelfScore) ==>
      forall r :: r in recs ==> r.sourceUrl != r.targetUrl
  {
    var n := |articles|;
    var k := EffectiveK(n);
    recs, blocks := [], [];
    for idx := 0 to n
      invariant |blocks| == idx && recs == Flatten(blocks)
      invariant forall i :: 0 <= i < idx ==> IsBlockFor(blocks[i], articles, i, matrix[i], k)
    {
      var block, targets := RecommendFor(articles, idx, matrix[idx], k, prefer);
      assert IsBlockFor(block, articles, idx, matrix[idx], k);
      assert (blocks + [block])[..idx] == blocks;
      recs, blocks := recs + block, blocks + [block];
    }
    forall i | 0 <= i < n ensures |blocks[i]| == k {
      BlockRows(blocks[i], articles, i, matrix[i], k);
    }
    FlattenLength(blocks, k);
    if n >= 2 && DistinctUrls(articles) && OffDiagonalAbove(matrix, SelfScore) {
      forall r | r in recs ensures r.sourceUrl != r.targetUrl {
        FlattenMember(blocks, r);
        var i :| 0 <= i < n && r in blocks[i];
        BlockRows(blocks[i], articles, i, matrix[i], k);
      }
    }
  }

  // ---------------------------------------------------------------------------
  // What the output rows satisfy.

  /** r points at article a with score s. */
  predicate Describes(r: Recommendation, a: Article, s: real) {
    r.targetUrl == a.url && r.anchorText == a.title && r.score == s
  }

  /** Every score off the diagonal of a square matrix is above bound. */
  predicate OffDiagonalAbove(matrix: seq<seq<real>>, bound: real) {
    forall i, j :: 0 <= i < |matrix| && 0 <= j < |matrix[i]| && i != j ==> matrix[i][j] > bound
  }

  /**
   * The rows of one source: exactly k of them, all from that source, best
   * score first, each naming a corpus article with its URL, title and masked
   * score; with distinct URLs the targets differ, and the source is not among
   * them when k leaves out an article and every other score is above -1.0.
   */
  lemma {:induction false} BlockRows(block: seq<Recommendation>, articles: seq<Article>, idx: nat, row: seq<real>, k: nat)
    requires idx < |articles| == |row| && IsBlockFor(block, articles, idx, row, k)
    ensures |block| == k
    ensures forall m :: 0 <= m < k ==> block[m].sourceUrl == articles[idx].url
    ensures forall a, b :: 0 <= a < b < k ==> block[a].score >= block[b].score
    ensures forall m :: 0 <= m < k ==> exists j :: 0 <= j < |articles| && Describes(block[m], articles[j], Mask(row, idx)[j])
    ensures DistinctUrls(articles) ==> forall a, b :: 0 <= a < b < k ==> block[a].targetUrl != block[b].targetUrl
    ensures DistinctUrls(articles) && k < |row| && (forall j :: 0 <= j < |row| && j != idx ==> row[j] > SelfScore) ==>
      forall m :: 0 <= m < k ==> block[m].targetUrl != block[m].sourceUrl
  {
    var targets :| IsTopK(targets, Mask(row, idx), k) && block == Rows(articles[idx].url, targets, articles, Mask(row, idx));
    forall m | 0 <= m < k ensures exists j :: 0 <= j < |articles| && Describes(block[m], articles[j], Mask(row, idx)[j])
    {
      var j := targets[m];
    }
    if DistinctUrls(articles) && k < |row| && (forall j :: 0 <= j < |row| && j != idx ==> row[j] > SelfScore) {
      SelfNeverSelected(row, idx, targets, k);
      forall m | 0 <= m < k ensures block[m].targetUrl != block[m].sourceUrl {
        assert targets[m] != idx && targets[m] < |articles|;
        assert targets[m] in targets;
      }
    }
  }

  lemma {:induction false} FlattenLength(blocks: seq<seq<Recommendation>>, k: nat)
    requires forall i :: 0 <= i < |blocks| ==> |blocks[i]| == k
    ensures |Flatten(blocks)| == |blocks| * k
  {
    if blocks != [] {
      FlattenLength(blocks[..|blocks| - 1], k);
      assert |blocks| * k == (|blocks| - 1) * k + k;
    }
  }

  lemma {:induction false} FlattenMember(blocks: seq<seq<Recommendation>>, r: Recommendation)
    requires r in Flatten(blocks)
    ensures exists i :: 0 <= i < |blocks| && r in blocks[i]
  {
    var init := blocks[..|blocks| - 1];
    if r !in blocks[|blocks| - 1] {
      FlattenMember(init, r);
      var i :| 0 <= i < |init| && r in init[i];
      assert blocks[i] == init[i];
    }
  }
}
