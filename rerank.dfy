/**
 * `CrossEncoderReranker.rerank`: pair the query with every candidate's text,
 * score the pairs with the cross-encoder, write each score onto its candidate
 * and keep the `top_k` best, best first. The cross-encoder itself is not part
 * of the model: it is a parameter, a function from the list of pairs to one
 * score per pair in pair order.
 */
module Rerank {
  import opened Common
  import opened Corpus
  import opened Order

  /** `[[query, d["text"]] for d in docs]`. */
  function Pairs(query: string, docs: seq<Doc>): (r: seq<(string, string)>)
    ensures |r| == |docs|
  {
    if docs == [] then [] else [(query, docs[0].chunk.text)] + Pairs(query, docs[1..])
  }

  /** Pair `k` holds the query and the text of doc `k`: one pair per doc, in input order. */
  lemma {:induction false} PairsAt(query: string, docs: seq<Doc>, k: nat)
    requires k < |docs|
    ensures Pairs(query, docs)[k] == (query, docs[k].chunk.text)
  {
    if k > 0 {
      PairsAt(query, docs[1..], k - 1);
    }
  }

  /**
   * `rerank(query, docs, top_k)`: the cross-encoder `scorer` scores the pairs,
   * every doc gets the score of its own pair, and the result is the first
   * `top_k` of the docs stably sorted by that score, highest first. The docs
   * are distinct objects (each is a fresh copy of a chunk record).
   */
  method Rerank(query: string, docs: seq<Doc>, scorer: seq<(string, string)> -> seq<real>, topK: nat)
    returns (ranked: seq<Doc>)
    requires |scorer(Pairs(query, docs))| == |docs|
    requires Distinct(docs)
    modifies set d | d in docs
    ensures forall i :: 0 <= i < |docs| ==> docs[i].rerankScore == Some(scorer(Pairs(query, docs))[i])
    ensures |ranked| == Min(topK, |docs|)
    ensures forall k :: 0 <= k < |ranked| ==> ranked[k] == docs[Top(scorer(Pairs(query, docs)), topK)[k]]
    ensures forall a, b :: 0 <= a < b < |ranked| ==>
      ranked[a].rerankScore.Some? && ranked[b].rerankScore.Some?
      && ranked[a].rerankScore.value >= ranked[b].rerankScore.value
    ensures forall j :: 0 <= j < |docs| && j !in Top(scorer(Pairs(query, docs)), topK) && |ranked| > 0 ==>
      docs[j].rerankScore.Some? && ranked[|ranked| - 1].rerankScore.Some?
      && docs[j].rerankScore.value <= ranked[|ranked| - 1].rerankScore.value
  {
    var scores := scorer(Pairs(query, docs));
    for i := 0 to |docs|
      invariant forall j :: 0 <= j < i ==> docs[j].rerankScore == Some(scores[j])
    {
      docs[i].rerankScore := Some(scores[i]);
    }
    var top := Top(scores, topK);
    ranked := seq(|top|, k requires 0 <= k < |top| => docs[top[k]]);
    TopFacts(scores, topK);
  }
}
