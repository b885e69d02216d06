/** The same-category neighbour query of `SimilarityEngine`
    (similarity_engine.py): given a catalog row, rank the other rows of its
    category by the precomputed similarity to it and return the best `top_n`
    of them as display records. The similarity matrix is an input; how it is
    computed is not part of this model. */
module Similarity {
  import opened Options
  import opened Text

  /** One catalog row, with the columns the query reads. Cell values are kept
      as the text they hold; `None` stands for a column the catalog lacks. */
  datatype Product = Product(
    name: string,
    image: string,
    brand: string,
    discountedPrice: string,
    retailPrice: Option<string>,
    overallRating: string,
    category: string,
    description: Option<string>)

  /** One result record of `get_similar_products`. */
  datatype SimilarProduct = SimilarProduct(
    name: string,
    image: string,
    brand: string,
    price: string,
    retailPrice: Option<string>,
    rating: string,
    score: real,
    category: string,
    description: string)

  /** A candidate row index paired with its similarity to the query row. */
  datatype Scored = Scored(idx: nat, score: real)

  /** A catalog and a square score matrix over its rows. */
  predicate WellFormed(data: seq<Product>, matrix: seq<seq<real>>) {
    |matrix| == |data| && forall i :: 0 <= i < |matrix| ==> |matrix[i]| == |data|
  }

  function Min(a: nat, b: nat): nat {
    if a <= b then a else b
  }

  // ---------------------------------------------------------------------------
  // The specification: what a correct answer is.

  /** The ranking order of the result: higher score first, and among equal
      scores the lower catalog index first. It is a strict total order on
      `Scored` values. */
  predicate Before(a: Scored, b: Scored) {
    a.score > b.score || (a.score == b.score && a.idx < b.idx)
  }

  /** Strictly increasing in the ranking order, hence without repetitions. */
  predicate Ranked(s: seq<Scored>) {
    forall i, j :: 0 <= i < j < |s| ==> Before(s[i], s[j])
  }

  /** `c` is another row of the query's category, paired with its score. */
  predicate IsNeighbour(data: seq<Product>, matrix: seq<seq<real>>, index: nat, c: Scored)
    requires WellFormed(data, matrix) && index < |data|
  {
    c.idx < |data| && c.idx != index && data[c.idx].category == data[index].category
    && c.score == matrix[index][c.idx]
  }

  /** Every other row of the query's category, with its score. */
  ghost function Neighbours(data: seq<Product>, matrix: seq<seq<real>>, index: nat): (C: set<Scored>)
    requires WellFormed(data, matrix) && index < |data|
    ensures forall c :: c in C <==> IsNeighbour(data, matrix, index, c)
  {
    var C := set j: nat | j < |data| && j != index && data[j].category == data[index].category
                         :: Scored(j, matrix[index][j]);
    assert forall c :: IsNeighbour(data, matrix, index, c) ==> c == Scored(c.idx, matrix[index][c.idx]);
    C
  }

  /** `r` lists the `n` best elements of `C` (all of them if there are fewer),
      best first: every candidate left out ranks after every one returned. */
  ghost predicate IsTopN(C: set<Scored>, n: nat, r: seq<Scored>) {
    && |r| == Min(n, |C|)
    && (forall i :: 0 <= i < |r| ==> r[i] in C)
    && Ranked(r)
    && (forall c, i :: c in C && c !in r && 0 <= i < |r| ==> Before(r[i], c))
  }

  /** The head of a top-n list is at least as good as every candidate. */
  lemma FirstIsBest(C: set<Scored>, n: nat, r: seq<Scored>, c: Scored)
    requires IsTopN(C, n, r) && r != [] && c in C
    ensures c == r[0] || Before(r[0], c)
  {
    if c in r {
      var i :| 0 <= i < |r| && r[i] == c;
      assert i == 0 || Before(r[0], r[i]);
    }
  }

  /** There is exactly one top-n list: the answer is fully determined by the
      candidates, their scores and the tie-break on catalog order. */
  lemma {:induction false} TopNUnique(C: set<Scored>, n: nat, r1: seq<Scored>, r2: seq<Scored>)
    requires IsTopN(C, n, r1) && IsTopN(C, n, r2)
    ensures r1 == r2
    decreases |C|
  {
    if r1 != [] {
      var h := r1[0];
      FirstIsBest(C, n, r1, r2[0]);
      FirstIsBest(C, n, r2, h);
      assert h == r2[0];
      var rest := C - {h};
      assert |rest| == |C| - 1;
      TailIsTopN(C, n, r1);
      TailIsTopN(C, n, r2);
      TopNUnique(rest, n - 1, r1[1..], r2[1..]);
      assert r1 == [h] + r1[1..] && r2 == [h] + r2[1..];
    }
  }

  /** Removing the best element leaves the top-(n-1) list of the others. */
  lemma TailIsTopN(C: set<Scored>, n: nat, r: seq<Scored>)
    requires IsTopN(C, n, r) && r != []
    ensures n >= 1 && r[0] in C && IsTopN(C - {r[0]}, n - 1, r[1..])
  {
    var h := r[0];
    assert |C - {h}| == |C| - 1;
    forall c, i | c in C - {h} && c !in r[1..] && 0 <= i < |r| - 1
      ensures Before(r[1..][i], c)
    {
      forall k | 0 <= k < |r| ensures r[k] != c {
        if k > 0 {
          assert r[k] == r[1..][k - 1];
        }
      }
    }
    forall i | 0 <= i < |r| - 1 ensures r[1..][i] in C - {h} {
      assert Before(r[0], r[i + 1]);
    }
  }

  // ---------------------------------------------------------------------------
  // The pipeline of lines 17-32, one function per step.

  /** The catalog indices from `from` on whose row has category `cat`, in
      ascending order. */
  function IndicesFrom(data: seq<Product>, cat: string, from: nat): (r: seq<nat>)
    ensures forall i, j :: 0 <= i < j < |r| ==> r[i] < r[j]
    ensures forall k :: 0 <= k < |r| ==> from <= r[k] < |data| && data[r[k]].category == cat
    ensures forall j: nat :: from <= j < |data| && data[j].category == cat ==> j in r
    decreases |data| - from
  {
    if from >= |data| then []
    else
      var rest := IndicesFrom(data, cat, from + 1);
      if data[from].category == cat then [from] + rest else rest
  }

  /** Line 20: `data[data["category"] == category].index.tolist()`: the
      indices of the rows of category `cat`, each once, in ascending order. */
  function SameCategory(data: seq<Product>, cat: string): (r: seq<nat>)
    ensures forall i, j :: 0 <= i < j < |r| ==> r[i] < r[j]
    ensures forall k :: 0 <= k < |r| ==> r[k] < |data| && data[r[k]].category == cat
    ensures forall j: nat :: j < |data| && data[j].category == cat ==> j in r
  {
    IndicesFrom(data, cat, 0)
  }

  /** Lines 22-24: each index paired with the query row's entry for it;
      ascending indices give an index-ordered list. */
  function Paired(row: seq<real>, idxs: seq<nat>): (r: seq<Scored>)
    requires forall k :: 0 <= k < |idxs| ==> idxs[k] < |row|
    ensures |r| == |idxs|
    ensures forall k :: 0 <= k < |r| ==> r[k].idx == idxs[k] && r[k].score == row[r[k].idx]
    ensures (forall i, j :: 0 <= i < j < |idxs| ==> idxs[i] < idxs[j]) ==> IndexOrdered(r)
  {
    seq(|idxs|, k requires 0 <= k < |idxs| => Scored(idxs[k], row[idxs[k]]))
  }

  /** Scores never increase along `s`. */
  predicate Descending(s: seq<Scored>) {
    forall i, j :: 0 <= i < j < |s| ==> s[i].score >= s[j].score
  }

  /** Catalog indices strictly increase along `s`. */
  predicate IndexOrdered(s: seq<Scored>) {
    forall i, j :: 0 <= i < j < |s| ==> s[i].idx < s[j].idx
  }

  /** Puts `x` in front of the first element whose score does not exceed its
      own: `x` goes before the elements with its score. */
  function InsertByScore(x: Scored, s: seq<Scored>): (r: seq<Scored>)
    ensures multiset(r) == multiset(s) + multiset{x}
  {
    if s == [] || x.score >= s[0].score then
      [x] + s
    else
      assert s == [s[0]] + s[1..];
      [s[0]] + InsertByScore(x, s[1..])
  }

  /** A list is in ranking order exactly when its tail is and its head
      comes before every later element. */
  lemma ConsRanked(x: Scored, s: seq<Scored>)
    ensures Ranked([x] + s) <==> Ranked(s) && forall y :: y in s ==> Before(x, y)
  {
    var t := [x] + s;
    assert t[1..] == s;
    if Ranked(t) {
      forall y | y in s ensures Before(x, y) {
        var k :| 0 <= k < |s| && s[k] == y;
        assert t[0] == x && t[k + 1] == y;
      }
    }
    if Ranked(s) && forall y :: y in s ==> Before(x, y) {
      forall i, j | 0 <= i < j < |t| ensures Before(t[i], t[j]) {
        assert t[j] == s[j - 1];
      }
    }
  }

  /** The same for the order by score alone. */
  lemma ConsDescending(x: Scored, s: seq<Scored>)
    ensures Descending([x] + s) <==> Descending(s) && forall y :: y in s ==> x.score >= y.score
  {
    var t := [x] + s;
    assert t[1..] == s;
    if Descending(t) {
      forall y | y in s ensures x.score >= y.score {
        var k :| 0 <= k < |s| && s[k] == y;
        assert t[0] == x && t[k + 1] == y;
      }
    }
    if Descending(s) && forall y :: y in s ==> x.score >= y.score {
      forall i, j | 0 <= i < j < |t| ensures t[i].score >= t[j].score {
        assert t[j] == s[j - 1];
      }
    }
  }

  lemma MultisetMembers(r: seq<Scored>, s: seq<Scored>, x: Scored)
    requires multiset(r) == multiset(s) + multiset{x}
    ensures forall y :: y in r <==> y == x || y in s
  {
    forall y ensures y in r <==> y == x || y in s {
      assert y in r <==> y in multiset(r);
      assert y in s <==> y in multiset(s);
    }
  }

  /** Insertion keeps a list sorted by descending score. */
  lemma {:induction false} InsertKeepsDescending(x: Scored, s: seq<Scored>)
    requires Descending(s)
    ensures Descending(InsertByScore(x, s))
  {
    if s == [] || x.score >= s[0].score {
      forall y | y in s ensures x.score >= y.score {
        var k :| 0 <= k < |s| && s[k] == y;
        assert k == 0 || s[0].score >= s[k].score;
      }
      ConsDescending(x, s);
    } else {
      var rest := InsertByScore(x, s[1..]);
      assert s == [s[0]] + s[1..];
      ConsDescending(s[0], s[1..]);
      InsertKeepsDescending(x, s[1..]);
      MultisetMembers(rest, s[1..], x);
      ConsDescending(s[0], rest);
    }
  }

  /** Insertion keeps a list in ranking order when `x` precedes every element
      in catalog order: `x` lands after the higher scores and before the equal
      ones, which come later in the catalog. */
  lemma {:induction false} InsertKeepsRanked(x: Scored, s: seq<Scored>)
    requires Ranked(s) && forall y :: y in s ==> x.idx < y.idx
    ensures Ranked(InsertByScore(x, s))
  {
    if s == [] || x.score >= s[0].score {
      forall y | y in s ensures Before(x, y) {
        var k :| 0 <= k < |s| && s[k] == y;
        assert k == 0 || Before(s[0], s[k]);
      }
      ConsRanked(x, s);
    } else {
      var rest := InsertByScore(x, s[1..]);
      assert s == [s[0]] + s[1..];
      ConsRanked(s[0], s[1..]);
      InsertKeepsRanked(x, s[1..]);
      MultisetMembers(rest, s[1..], x);
      ConsRanked(s[0], rest);
    }
  }

  /** Line 27: `sorted(scores, key=score, reverse=True)`, by insertion; see
      `SortKeepsOrder` for the order of the result. */
  function SortByScore(s: seq<Scored>): (r: seq<Scored>)
    ensures multiset(r) == multiset(s)
  {
    if s == [] then []
    else
      assert s == [s[0]] + s[1..];
      InsertByScore(s[0], SortByScore(s[1..]))
  }

  /** The sort is stable: it orders by score, highest first, and keeps the
      input order among equal scores. On index-ordered input the result is
      therefore in ranking order. */
  lemma {:induction false} SortKeepsOrder(s: seq<Scored>)
    ensures Descending(SortByScore(s))
    ensures IndexOrdered(s) ==> Ranked(SortByScore(s))
  {
    if s != [] {
      var tail := s[1..];
      var sorted := SortByScore(tail);
      SortKeepsOrder(tail);
      InsertKeepsDescending(s[0], sorted);
      assert SortByScore(s) == InsertByScore(s[0], sorted);
      if IndexOrdered(s) {
        assert IndexOrdered(tail);
        forall y | y in sorted ensures s[0].idx < y.idx {
          assert y in multiset(tail);
          var k :| 0 <= k < |tail| && tail[k] == y;
          assert s[k + 1] == y;
        }
        InsertKeepsRanked(s[0], sorted);
      }
    }
  }

  /** Line 30: drops the entries of catalog index `q`, keeping the order. */
  function Without(s: seq<Scored>, q: nat): (r: seq<Scored>)
    ensures forall x :: x in r <==> x in s && x.idx != q
  {
    if s == [] then []
    else
      assert s == [s[0]] + s[1..];
      var rest := Without(s[1..], q);
      if s[0].idx != q then [s[0]] + rest else rest
  }

  lemma {:induction false} WithoutKeepsRanked(s: seq<Scored>, q: nat)
    requires Ranked(s)
    ensures Ranked(Without(s, q))
  {
    if s != [] {
      ConsRanked(s[0], s[1..]);
      assert s == [s[0]] + s[1..];
      WithoutKeepsRanked(s[1..], q);
      ConsRanked(s[0], Without(s[1..], q));
    }
  }

  /** Line 32: `scores[:n]` for `n >= 0`. */
  function Prefix(s: seq<Scored>, n: nat): (r: seq<Scored>)
    ensures |r| == Min(n, |s|) && r == s[..|r|]
  {
    if n <= |s| then s[..n] else s
  }

  /** A list without repetitions has as many elements as its set. */
  lemma {:induction false} RankedCard(s: seq<Scored>)
    requires Ranked(s)
    ensures |set x | x in s| == |s|
  {
    if s != [] {
      RankedCard(s[1..]);
      assert (set x | x in s) == {s[0]} + (set x | x in s[1..]);
      assert s[0] !in s[1..];
    }
  }

  /** The first `n` entries of a ranked list of all candidates are the
      top-n list. */
  lemma PrefixIsTopN(C: set<Scored>, n: nat, s: seq<Scored>)
    requires Ranked(s) && forall x :: x in s <==> x in C
    ensures IsTopN(C, n, Prefix(s, n))
  {
    RankedCard(s);
    assert (set x | x in s) == C;
    var r := Prefix(s, n);
    forall c, i | c in C && c !in r && 0 <= i < |r| ensures Before(r[i], c) {
      var k :| 0 <= k < |s| && s[k] == c;
      forall j | 0 <= j < |r| ensures s[j] != c {
        assert r[j] == s[j];
      }
    }
  }

  /** Lines 17-32: the ranked neighbours of row `index`, at most `n` of them.
      It is the unique top-n list of the other rows of the query's category
      (see `TopNUnique`). */
  function Ranking(data: seq<Product>, matrix: seq<seq<real>>, index: nat, n: nat): (r: seq<Scored>)
    requires WellFormed(data, matrix) && index < |data|
    ensures IsTopN(Neighbours(data, matrix, index), n, r)
  {
    var scores := Paired(matrix[index], SameCategory(data, data[index].category));
    var others := Without(SortByScore(scores), index);
    OthersRanked(data, matrix, index, scores, others);
    PrefixIsTopN(Neighbours(data, matrix, index), n, others);
    Prefix(others, n)
  }

  /** After sorting and dropping the query, the list holds exactly the
      neighbours, in ranking order. */
  lemma OthersRanked(data: seq<Product>, matrix: seq<seq<real>>, index: nat,
                     scores: seq<Scored>, others: seq<Scored>)
    requires WellFormed(data, matrix) && index < |data|
    requires scores == Paired(matrix[index], SameCategory(data, data[index].category))
    requires others == Without(SortByScore(scores), index)
    ensures Ranked(others)
    ensures forall x :: x in others <==> x in Neighbours(data, matrix, index)
  {
    assert IndexOrdered(scores);
    SortKeepsOrder(scores);
    WithoutKeepsRanked(SortByScore(scores), index);
    NeighboursListed(data, matrix, index, scores, SortByScore(scores), others);
  }

  /** The entries left after dropping the query are exactly its neighbours. */
  lemma NeighboursListed(data: seq<Product>, matrix: seq<seq<real>>, index: nat,
                         scores: seq<Scored>, sorted: seq<Scored>, others: seq<Scored>)
    requires WellFormed(data, matrix) && index < |data|
    requires scores == Paired(matrix[index], SameCategory(data, data[index].category))
    requires multiset(sorted) == multiset(scores)
    requires forall x :: x in others <==> x in sorted && x.idx != index
    ensures forall x :: x in others <==> x in Neighbours(data, matrix, index)
  {
    var idxs := SameCategory(data, data[index].category);
    forall x ensures x in sorted <==> x in scores {
      assert x in sorted <==> x in multiset(sorted);
    }
    forall x | IsNeighbour(data, matrix, index, x) ensures x in scores {
      var k :| 0 <= k < |idxs| && idxs[k] == x.idx;
      assert scores[k] == x;
    }
  }

  /** The query row's category is shared by every row the ranking returns,
      none of them is the query row, and each carries its matrix entry. */
  lemma RankingNeighbours(data: seq<Product>, matrix: seq<seq<real>>, index: nat, n: nat)
    requires WellFormed(data, matrix) && index < |data|
    ensures var r := Ranking(data, matrix, index, n);
            forall i :: 0 <= i < |r| ==>
              && r[i].idx < |data| && r[i].idx != index
              && data[r[i].idx].category == data[index].category
              && r[i].score == matrix[index][r[i].idx]
  {
    var r := Ranking(data, matrix, index, n);
    forall i | 0 <= i < |r|
      ensures r[i].idx < |data| && r[i].idx != index
      ensures data[r[i].idx].category == data[index].category
      ensures r[i].score == matrix[index][r[i].idx]
    {
      assert r[i] in Neighbours(data, matrix, index);
    }
  }

  /** The steps of lines 27-32 applied to the scored candidates of line 24
      give the ranking, whose entries are neighbours. */
  lemma RankingOfScores(data: seq<Product>, matrix: seq<seq<real>>, index: nat, n: nat, scores: seq<Scored>)
    requires WellFormed(data, matrix) && index < |data|
    requires scores == Paired(matrix[index], SameCategory(data, data[index].category))
    ensures var r := Prefix(Without(SortByScore(scores), index), n);
            && r == Ranking(data, matrix, index, n)
            && forall i :: 0 <= i < |r| ==>
                 r[i].idx < |data| && data[r[i].idx].category == data[index].category
                 && r[i].score == matrix[index][r[i].idx]
  {
    RankingNeighbours(data, matrix, index, n);
  }

  /** The result record for catalog row `p` with score `score` (lines 36-47);
      the description is trimmed, and an absent one becomes empty. */
  function Describe(p: Product, score: real): (r: SimilarProduct)
    ensures r.name == p.name && r.category == p.category && r.score == score
    ensures r.image == p.image && r.brand == p.brand && r.rating == p.overallRating
    ensures r.price == p.discountedPrice && r.retailPrice == p.retailPrice
    ensures p.description.Some? ==> r.description == Strip(p.description.value, Whitespace)
    ensures p.description.None? ==> r.description == ""
    ensures IsStripped(r.description, Whitespace)
  {
    SimilarProduct(p.name, p.image, p.brand, p.discountedPrice, p.retailPrice,
                   p.overallRating, score, p.category,
                   if p.description.Some? then Strip(p.description.value, Whitespace) else "")
  }

  /** The loop of lines 22-24: pairs each candidate index with the query
      row's matrix entry for it, in the order of the candidates. */
  method ScoreCandidates(row: seq<real>, idxs: seq<nat>) returns (scores: seq<Scored>)
    requires forall k :: 0 <= k < |idxs| ==> idxs[k] < |row|
    ensures scores == Paired(row, idxs)
  {
    scores := [];
    for k := 0 to |idxs|
      invariant |scores| == k
      invariant forall i :: 0 <= i < k ==> scores[i] == Scored(idxs[i], row[idxs[i]])
    {
      scores := scores + [Scored(idxs[k], row[idxs[k]])];
    }
  }

  /** The loop of lines 34-48: one record per ranked entry, in order, built
      from the entry's catalog row and score. */
  method Records(rows: seq<Product>, items: seq<Scored>) returns (results: seq<SimilarProduct>)
    requires forall i :: 0 <= i < |items| ==> items[i].idx < |rows|
    ensures |results| == |items|
    ensures forall i :: 0 <= i < |items| ==> results[i] == Describe(rows[items[i].idx], items[i].score)
  {
    results := [];
    for k := 0 to |items|
      invariant |results| == k
      invariant forall i :: 0 <= i < k ==> results[i] == Describe(rows[items[i].idx], items[i].score)
    {
      results := results + [Describe(rows[items[k].idx], items[k].score)];
    }
  }

  /** The engine: the catalog and its precomputed score matrix, fixed when it
      is built and only read afterwards. */
  class SimilarityEngine {
    var data: seq<Product>
    var similarityMatrix: seq<seq<real>>

    ghost predicate Valid()
      reads this
    {
      WellFormed(data, similarityMatrix)
    }

    /** `__init__` with the catalog loaded and the matrix computed. */
    constructor (data: seq<Product>, matrix: seq<seq<real>>)
      requires WellFormed(data, matrix)
      ensures Valid()
      ensures this.data == data && similarityMatrix == matrix
    {
      this.data := data;
      similarityMatrix := matrix;
    }

    /** Lines 16-50, for a valid row `index` and `topN >= 0`. It changes
        nothing (it has no `modifies` clause). The records are those of the
        top-`topN` neighbours in ranking order: same category as the query,
        never the query itself, scores non-increasing, ties in catalog order,
        as many as `min(topN, other rows of the category)`. */
    method GetSimilarProducts(index: nat, topN: nat := 5) returns (results: seq<SimilarProduct>)
      requires Valid() && index < |data|
      ensures var ranking := Ranking(data, similarityMatrix, index, topN);
              && |results| == |ranking| == Min(topN, |Neighbours(data, similarityMatrix, index)|)
              && forall i :: 0 <= i < |results| ==>
                   && ranking[i].idx < |data|
                   && results[i] == Describe(data[ranking[i].idx], ranking[i].score)
                   && results[i].category == data[index].category
                   && results[i].score == similarityMatrix[index][ranking[i].idx]
    {
      var rows := data;
      var matrix := similarityMatrix;
      var sameCatIndices := SameCategory(rows, rows[index].category);
      var scores := ScoreCandidates(matrix[index], sameCatIndices);
      var topItems := Prefix(Without(SortByScore(scores), index), topN);
      RankingOfScores(rows, matrix, index, topN, scores);
      results := Records(rows, topItems);
    }
  }
}
