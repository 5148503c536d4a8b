/**
 * The `/ask` endpoint: fuse the dense and lexical hits into candidates,
 * rerank them, pool the confident extractive answers, merge the answers that
 * agree once trimmed, and assemble an abstain, extractive or abstractive
 * response. The embedding search, BM25, the cross-encoder and the QA model are
 * not part of the model: their outputs are inputs.
 */
module App {
  import opened Common
  import opened Text
  import opened Corpus
  import opened Order
  import opened Rerank
  import opened Merge

  /**
   * The settings `ask` reads from the configuration file. `topKCandidates`
   * is never read: the search hit lists are inputs of any length.
   */
  datatype Config = Config(topKCandidates: nat, topKReranked: nat, minAnswerScore: real)

  /** The request body; `topK` is accepted but never used. */
  datatype AskPayload = AskPayload(query: string, mode: string, topK: int)

  /**
   * What the QA model returns for one context: the answer text (absent or
   * `None`: `None` here) and the score (absent: `None` here, read as 0.0).
   */
  datatype QaOutput = QaOutput(answer: Option<string>, score: Option<real>)

  /** One pooled answer: the span, its score and the citation of its chunk. */
  datatype Answer = Answer(answer: string, score: real, citation: string)

  datatype Response =
    | Abstain(query: string, mode: string, message: string, topCitations: seq<string>)
    | Extractive(query: string, quotes: seq<Answer>, joined: string)
    | Abstractive(query: string, note: string, topCitations: seq<string>, contextPreview: string)

  const AbstainMessage: string :=
    "I can\U{2019}t find a clear clause in the indexed documents. Refine the query or ingest more sources."
  const AbstractiveNote: string := "Attach a local HF LLM to paraphrase 'combined_ctx' cautiously."

  // ---------------------------------------------------------------------------
  // Citations

  /** `f'{page_start}-{page_end}'`. */
  function PageRange(c: Chunk): (r: string)
    ensures |r| == |Decimal(c.pageStart)| + 1 + |Decimal(c.pageEnd)|
  {
    Decimal(c.pageStart) + "-" + Decimal(c.pageEnd)
  }

  /** `f'{source} p.{page_start}-{page_end} | {section_hint[:80]}'`. */
  function FormatCitation(c: Chunk): (r: string)
    ensures |r| == |c.source| + |PageRange(c)| + 6 + Min(80, |c.sectionHint|)
  {
    c.source + " p." + PageRange(c) + " | " + Prefix(c.sectionHint, 80)
  }

  /**
   * Where the fields of a citation sit, character by character: the source,
   * then " p.", the first page in decimal, "-", the last page in decimal,
   * " | ", and the start of the section hint.
   */
  lemma CitationLayout(c: Chunk)
    ensures var r, n, s1, s2 := FormatCitation(c), |c.source|, Decimal(c.pageStart), Decimal(c.pageEnd);
      && (forall m :: 0 <= m < n ==> r[m] == c.source[m])
      && r[n] == ' ' && r[n + 1] == 'p' && r[n + 2] == '.'
      && (forall m :: 0 <= m < |s1| ==> r[n + 3 + m] == s1[m])
      && r[n + 3 + |s1|] == '-'
      && (forall m :: 0 <= m < |s2| ==> r[n + 4 + |s1| + m] == s2[m])
      && r[n + 4 + |s1| + |s2|] == ' ' && r[n + 5 + |s1| + |s2|] == '|' && r[n + 6 + |s1| + |s2|] == ' '
      && (forall m :: 0 <= m < |r| - (n + 7 + |s1| + |s2|) ==> r[n + 7 + |s1| + |s2| + m] == c.sectionHint[m])
  {
  }

  /** The fields of a citation as slices: the source, both page numbers in decimal, and the hint's start. */
  lemma CitationSlices(c: Chunk)
    ensures var r, n, s1, s2 := FormatCitation(c), |c.source|, Decimal(c.pageStart), Decimal(c.pageEnd);
      && r[..n] == c.source
      && r[n + 3..n + 3 + |s1|] == s1
      && r[n + 4 + |s1|..n + 4 + |s1| + |s2|] == s2
      && r[n + 7 + |s1| + |s2|..] == c.sectionHint[..|r| - (n + 7 + |s1| + |s2|)]
  {
    var r, n, s1, s2 := FormatCitation(c), |c.source|, Decimal(c.pageStart), Decimal(c.pageEnd);
    var e := n + 7 + |s1| + |s2|;
    CitationLayout(c);
    SliceAt(r, 0, c.source);
    SliceAt(r, n + 3, s1);
    SliceAt(r, n + 4 + |s1|, s2);
    SliceAt(r, e, c.sectionHint[..|r| - e]);
    assert r[0..n] == r[..n];
    assert r[e..e + (|r| - e)] == r[e..];
  }

  /**
   * A citation can be read back: it starts with the source, both page
   * numbers parse from their fields, and what follows the last separator is
   * at most 80 characters that begin the section hint.
   */
  lemma CitationFields(c: Chunk)
    ensures var r, n, d1, d2 := FormatCitation(c), |c.source|, |Decimal(c.pageStart)|, |Decimal(c.pageEnd)|;
      && r[..n] == c.source
      && IsDigits(r[n + 3..n + 3 + d1]) && ParseDecimal(r[n + 3..n + 3 + d1]) == c.pageStart
      && IsDigits(r[n + 4 + d1..n + 4 + d1 + d2]) && ParseDecimal(r[n + 4 + d1..n + 4 + d1 + d2]) == c.pageEnd
      && |r| - (n + 7 + d1 + d2) <= 80
      && r[n + 7 + d1 + d2..] == c.sectionHint[..|r| - (n + 7 + d1 + d2)]
  {
    CitationSlices(c);
    DecimalRoundTrip(c.pageStart);
    DecimalRoundTrip(c.pageEnd);
  }

  /** A string that matches `r` character by character from `k` on is the slice of `r` at `k`. */
  lemma SliceAt(r: string, k: nat, s: string)
    requires k + |s| <= |r|
    requires forall m :: 0 <= m < |s| ==> r[k + m] == s[m]
    ensures r[k..k + |s|] == s
  {
  }

  /** `[format_citation(ch) for ch in top]`. */
  function Citations(top: seq<Chunk>): (r: seq<string>)
    ensures |r| == |top|
  {
    if top == [] then [] else [FormatCitation(top[0])] + Citations(top[1..])
  }

  /** Citation `k` is the one of chunk `k`: one per chunk, in rank order. */
  lemma {:induction false} CitationsAt(top: seq<Chunk>, k: nat)
    requires k < |top|
    ensures Citations(top)[k] == FormatCitation(top[k])
  {
    if k > 0 {
      CitationsAt(top[1..], k - 1);
    }
  }

  // ---------------------------------------------------------------------------
  // Candidate fusion

  /** The fused ids: dense hits then lexical hits, every id once, where it first occurs. */
  function Fused(dense: seq<nat>, lex: seq<nat>): seq<nat> {
    DedupFrom(dense + lex, {})
  }

  /**
   * Every id of either list exactly once; the dense hits first, in dense
   * order, then the lexical hits the dense list did not have, in lexical
   * order; never more than both lists together.
   */
  lemma FusedFacts(dense: seq<nat>, lex: seq<nat>)
    ensures Distinct(Fused(dense, lex))
    ensures Elems(Fused(dense, lex)) == Elems(dense) + Elems(lex)
    ensures Fused(dense, lex) == DedupFrom(dense, {}) + DedupFrom(lex, Elems(dense))
    ensures |Fused(dense, lex)| <= |dense| + |lex|
  {
    DedupFromFacts(dense + lex, {});
    DedupAppend(dense, lex, {});
    assert {} + Elems(dense) == Elems(dense);
  }

  /** Every fused id is a dense or a lexical hit. */
  lemma FusedFrom(dense: seq<nat>, lex: seq<nat>, k: nat)
    requires k < |Fused(dense, lex)|
    ensures Fused(dense, lex)[k] in dense + lex
  {
    DedupFromFacts(dense + lex, {});
    assert Fused(dense, lex)[k] in Fused(dense, lex);
  }

  /** A dense list without repeats comes through whole, in its own order, ahead of everything else. */
  lemma DedupDistinct(s: seq<nat>, seen: set<nat>)
    requires Distinct(s) && Elems(s) !! seen
    ensures DedupFrom(s, seen) == s
    decreases |s|
  {
    if s != [] {
      assert s[0] !in Elems(s[1..]);
      DedupDistinct(s[1..], seen + {s[0]});
      assert s == [s[0]] + s[1..];
    }
  }

  /**
   * When neither search repeats an id (FAISS and the BM25 argsort both return
   * distinct ids), the fused list is the dense hits as they are, then the
   * lexical hits the dense list lacks, in lexical order.
   */
  lemma FusedDistinctLists(dense: seq<nat>, lex: seq<nat>)
    requires Distinct(dense) && Distinct(lex)
    ensures Fused(dense, lex) == dense + Unseen(lex, Elems(dense))
  {
    FusedFacts(dense, lex);
    DedupDistinct(dense, {});
    DedupDistinctUnseen(lex, Elems(dense));
  }

  /** One step of the fusion walk: an id already seen adds nothing, a new one is appended and remembered. */
  lemma FuseStep(ids: seq<nat>, i: nat, seen: set<nat>, kept: seq<nat>)
    requires i < |ids| && seen == Elems(ids[..i]) && kept == DedupFrom(ids[..i], {})
    ensures seen + {ids[i]} == Elems(ids[..i + 1])
    ensures ids[i] in seen ==> kept == DedupFrom(ids[..i + 1], {})
    ensures ids[i] !in seen ==> kept + [ids[i]] == DedupFrom(ids[..i + 1], {})
  {
    assert ids[..i + 1] == ids[..i] + [ids[i]];
    DedupSnoc(ids[..i], ids[i]);
  }

  /**
   * `hybrid_candidates` once both searches have run: walk the dense hits and
   * then the lexical hits, skip the ids already seen, and copy the chunk
   * record of each new id.
   */
  method HybridCandidates(meta: seq<Chunk>, dense: seq<nat>, lex: seq<nat>) returns (out: seq<Doc>)
    requires forall i :: i in dense + lex ==> i < |meta|
    ensures |out| == |Fused(dense, lex)|
    ensures forall k :: 0 <= k < |out| ==>
      Fused(dense, lex)[k] < |meta| && out[k].chunk == meta[Fused(dense, lex)[k]]
      && fresh(out[k]) && out[k].rerankScore == None
    ensures Distinct(out)
  {
    var ids := dense + lex;
    ghost var kept: seq<nat> := [];
    var seen: set<nat> := {};
    out := [];
    for i := 0 to |ids|
      invariant seen == Elems(ids[..i])
      invariant kept == DedupFrom(ids[..i], {})
      invariant |out| == |kept|
      invariant forall k :: 0 <= k < |out| ==>
        kept[k] < |meta| && out[k].chunk == meta[kept[k]] && fresh(out[k]) && out[k].rerankScore == None
      invariant Distinct(out)
    {
      var id := ids[i];
      assert id in dense + lex;
      FuseStep(ids, i, seen, kept);
      if id in seen {
        continue;
      }
      seen := seen + {id};
      var d := new Doc(meta[id]);
      kept := kept + [id];
      out := out + [d];
    }
    assert ids[..|ids|] == ids;
  }

  // ---------------------------------------------------------------------------
  // Answer pooling

  /** `float(ans.get("score", 0.0))`. */
  function ScoreOf(q: QaOutput): real {
    if q.score.Some? then q.score.value else 0.0
  }

  /** The test of the pooling loop: the score reaches the threshold (ties included) and the answer is non-empty. */
  predicate Confident(q: QaOutput, minScore: real) {
    ScoreOf(q) >= minScore && q.answer.Some? && q.answer.value != []
  }

  /** The pooled record for a confident answer over chunk `c`. */
  function Pooled(c: Chunk, q: QaOutput): (a: Answer)
    requires q.answer.Some?
    ensures a.answer == q.answer.value && a.score == ScoreOf(q)
  {
    Answer(q.answer.value, ScoreOf(q), FormatCitation(c))
  }

  /** The answers pooled over the reranked chunks: one per confident QA output, in rank order. */
  function Kept(top: seq<Chunk>, qa: seq<QaOutput>, minScore: real): seq<Answer>
    requires |qa| == |top|
  {
    if top == [] then []
    else
      var n := |top| - 1;
      Kept(top[..n], qa[..n], minScore) + (if Confident(qa[n], minScore) then [Pooled(top[n], qa[n])] else [])
  }

  /** Every pooled answer comes from a confident QA output over its chunk. */
  lemma {:induction false} KeptSound(top: seq<Chunk>, qa: seq<QaOutput>, minScore: real, a: Answer)
    requires |qa| == |top| && a in Kept(top, qa, minScore)
    ensures exists i :: 0 <= i < |qa| && Confident(qa[i], minScore) && a == Pooled(top[i], qa[i])
  {
    var n := |top| - 1;
    if a in Kept(top[..n], qa[..n], minScore) {
      KeptSound(top[..n], qa[..n], minScore, a);
      var i :| 0 <= i < n && Confident(qa[..n][i], minScore) && a == Pooled(top[..n][i], qa[..n][i]);
      assert qa[i] == qa[..n][i] && top[i] == top[..n][i];
    } else {
      assert Confident(qa[n], minScore) && a == Pooled(top[n], qa[n]);
    }
  }

  /** Every confident QA output is pooled, with its chunk's citation. */
  lemma {:induction false} KeptComplete(top: seq<Chunk>, qa: seq<QaOutput>, minScore: real, i: nat)
    requires |qa| == |top| && i < |qa| && Confident(qa[i], minScore)
    ensures Pooled(top[i], qa[i]) in Kept(top, qa, minScore)
  {
    var n := |top| - 1;
    if i < n {
      assert qa[..n][i] == qa[i] && top[..n][i] == top[i];
      KeptComplete(top[..n], qa[..n], minScore, i);
    }
  }

  /**
   * An answer is pooled exactly when it comes from a confident QA output: a
   * score at or above the threshold and a non-empty answer.
   */
  lemma KeptMembers(top: seq<Chunk>, qa: seq<QaOutput>, minScore: real)
    requires |qa| == |top|
    ensures forall a :: a in Kept(top, qa, minScore) <==>
      exists i :: 0 <= i < |qa| && Confident(qa[i], minScore) && a == Pooled(top[i], qa[i])
  {
    forall a | a in Kept(top, qa, minScore)
      ensures exists i :: 0 <= i < |qa| && Confident(qa[i], minScore) && a == Pooled(top[i], qa[i])
    {
      KeptSound(top, qa, minScore, a);
    }
    forall i | 0 <= i < |qa| && Confident(qa[i], minScore)
      ensures Pooled(top[i], qa[i]) in Kept(top, qa, minScore)
    {
      KeptComplete(top, qa, minScore, i);
    }
  }

  /** Nothing is pooled exactly when no QA output is confident. */
  lemma KeptEmpty(top: seq<Chunk>, qa: seq<QaOutput>, minScore: real)
    requires |qa| == |top|
    ensures Kept(top, qa, minScore) == [] <==> forall i :: 0 <= i < |qa| ==> !Confident(qa[i], minScore)
  {
    KeptMembers(top, qa, minScore);
    if Kept(top, qa, minScore) != [] {
      assert Kept(top, qa, minScore)[0] in Kept(top, qa, minScore);
    }
    if exists i :: 0 <= i < |qa| && Confident(qa[i], minScore) {
      var i :| 0 <= i < |qa| && Confident(qa[i], minScore);
      assert Pooled(top[i], qa[i]) in Kept(top, qa, minScore);
    }
  }

  /** The pooling loop of `ask`: ask each reranked chunk's QA output in turn and keep the confident ones. */
  method PoolAnswers(top: seq<Chunk>, qa: seq<QaOutput>, minScore: real) returns (answers: seq<Answer>)
    requires |qa| == |top|
    ensures answers == Kept(top, qa, minScore)
  {
    answers := [];
    for i := 0 to |top|
      invariant answers == Kept(top[..i], qa[..i], minScore)
    {
      assert top[..i + 1][..i] == top[..i] && qa[..i + 1][..i] == qa[..i];
      if Confident(qa[i], minScore) {
        answers := answers + [Pooled(top[i], qa[i])];
      }
    }
    assert top[..|top|] == top && qa[..|qa|] == qa;
  }

  // ---------------------------------------------------------------------------
  // Merging answers that agree once trimmed

  /** `a["answer"].strip()`: the key answers are merged under. */
  function Key(a: Answer): string {
    Strip(a.answer)
  }

  function KeysOf(answers: seq<Answer>): (ks: seq<string>) {
    seq(|answers|, i requires 0 <= i < |answers| => Key(answers[i]))
  }

  function AnswerScore(a: Answer): real {
    a.score
  }

  function ScoresOf(answers: seq<Answer>): (sc: seq<real>) {
    Scores(answers, AnswerScore)
  }


  /** `list(uniq.values())` after the merge loop: per trimmed text, the answer the loop kept. */
  function Merged(answers: seq<Answer>): (r: seq<Answer>)
    ensures |r| == |DedupFrom(KeysOf(answers), {})|
  {
    var w := Winners(KeysOf(answers), ScoresOf(answers));
    WinnersInRange(KeysOf(answers), ScoresOf(answers));
    seq(|w|, m requires 0 <= m < |w| => answers[w[m]])
  }

  /** Every merged entry is one of the pooled answers. */
  lemma MergedMember(answers: seq<Answer>, m: nat)
    requires m < |Merged(answers)|
    ensures Merged(answers)[m] in answers
  {
    WinnersAt(KeysOf(answers), ScoresOf(answers), m);
  }

  /** The merged entries have pairwise different trimmed texts. */
  lemma MergedDistinct(answers: seq<Answer>, m1: nat, m2: nat)
    requires m1 < m2 < |Merged(answers)|
    ensures Key(Merged(answers)[m1]) != Key(Merged(answers)[m2])
  {
    var ks, sc := KeysOf(answers), ScoresOf(answers);
    WinnersAt(ks, sc, m1);
    WinnersAt(ks, sc, m2);
    WinnersDistinct(ks, sc, m1, m2);
  }

  /** Every pooled answer's trimmed text is represented among the merged entries. */
  lemma MergedCover(answers: seq<Answer>, i: nat)
    requires i < |answers|
    ensures exists m :: 0 <= m < |Merged(answers)| && Key(Merged(answers)[m]) == Key(answers[i])
  {
    var ks, sc := KeysOf(answers), ScoresOf(answers);
    WinnersCover(ks, sc, i);
    var m :| 0 <= m < |Winners(ks, sc)| && ks[Winners(ks, sc)[m]] == ks[i];
    WinnersAt(ks, sc, m);
    assert Key(Merged(answers)[m]) == Key(answers[i]);
  }

  /**
   * A merged entry has the highest score among the answers with its trimmed
   * text, and an answer of the group that ties it does not come before it:
   * the first of the best is kept.
   */
  lemma MergedBest(answers: seq<Answer>, m: nat, i: nat)
    requires m < |Merged(answers)| && i < |answers|
    requires Key(answers[i]) == Key(Merged(answers)[m])
    ensures answers[i].score <= Merged(answers)[m].score
    ensures answers[i].score == Merged(answers)[m].score ==> Merged(answers)[m] in answers[..i + 1]
  {
    var ks, sc := KeysOf(answers), ScoresOf(answers);
    var w := Winners(ks, sc);
    WinnersAt(ks, sc, m);
    assert ks[i] == ks[w[m]];
    WinnersBest(ks, sc, m, i);
    assert sc[i] == AnswerScore(answers[i]) && sc[w[m]] == AnswerScore(answers[w[m]]);
    if answers[i].score == Merged(answers)[m].score {
      assert answers[..i + 1][w[m]] == answers[w[m]];
    }
  }

  /**
   * The merge loop of `ask`: keep one answer per trimmed text, replacing it
   * only with a strictly higher score, and list the kept answers in the order
   * their keys were first inserted.
   */
  method MergeUnique(answers: seq<Answer>) returns (merged: seq<Answer>)
    ensures merged == Merged(answers)
  {
    ghost var ks := KeysOf(answers);
    var keys: seq<string> := [];
    var uniq: map<string, Answer> := map[];
    for i := 0 to |answers|
      invariant (keys, uniq) == Walk(ks, answers, AnswerScore, i)
    {
      var a := answers[i];
      var key := Key(a);
      assert key == ks[i];
      if key !in uniq {
        keys := keys + [key];
      }
      if key !in uniq || a.score > uniq[key].score {
        uniq := uniq[key := a];
      }
    }
    WalkWinners(ks, answers, AnswerScore, |answers|);
    WalkDone(ks, ScoresOf(answers), answers, keys, uniq);
    merged := seq(|keys|, m requires 0 <= m < |keys| => uniq[keys[m]]);
  }

  // ---------------------------------------------------------------------------
  // Keeping the three best

  /** `sorted(merged, key=score, reverse=True)[:3]`: a stable sort, so ties keep their order. */
  function Select(merged: seq<Answer>): (r: seq<Answer>)
    ensures |r| == Min(3, |merged|)
  {
    var t := Top(ScoresOf(merged), 3);
    seq(|t|, k requires 0 <= k < |t| => merged[t[k]])
  }

  /** The quotes of an extractive answer: the three best merged answers. */
  function Final(answers: seq<Answer>): (r: seq<Answer>)
    ensures |r| == Min(3, |Merged(answers)|)
  {
    Select(Merged(answers))
  }

  /** The selection is best first, and each selected answer is one of the merged ones. */
  lemma SelectOrdered(merged: seq<Answer>, a: nat, b: nat)
    requires a < b < |Select(merged)|
    ensures Select(merged)[a].score >= Select(merged)[b].score
    ensures Select(merged)[a] in merged && Select(merged)[b] in merged
  {
    var sc := ScoresOf(merged);
    var t := Top(sc, 3);
    TopFacts(sc, 3);
    assert Before(sc, t[a], t[b]);
    assert sc[t[a]] == AnswerScore(merged[t[a]]) && sc[t[b]] == AnswerScore(merged[t[b]]);
  }

  /** An answer left out of the selection scores no higher than any answer selected. */
  lemma SelectDropped(merged: seq<Answer>, j: nat, a: nat)
    requires j < |merged| && merged[j] !in Select(merged) && a < |Select(merged)|
    ensures merged[j].score <= Select(merged)[a].score
  {
    var sc := ScoresOf(merged);
    var t := Top(sc, 3);
    TopFacts(sc, 3);
    forall k | 0 <= k < |t|
      ensures t[k] != j
    {
      assert Select(merged)[k] == merged[t[k]];
    }
    assert j !in t;
    assert Before(sc, t[a], j);
    assert sc[t[a]] == AnswerScore(merged[t[a]]) && sc[j] == AnswerScore(merged[j]);
  }

  /** Each quote is one of the pooled answers, and there is at least one when anything was pooled. */
  lemma FinalPooled(answers: seq<Answer>, k: nat)
    requires k < |Final(answers)|
    ensures Final(answers)[k] in answers
  {
    var v := Merged(answers);
    var t := Top(ScoresOf(v), 3);
    MergedMember(answers, t[k]);
  }

  /** Up to three quotes, and at least one when anything was pooled. */
  lemma FinalSize(answers: seq<Answer>)
    ensures |Final(answers)| <= 3
    ensures answers != [] ==> |Final(answers)| >= 1
  {
    if answers != [] {
      MergedCover(answers, 0);
    }
  }

  /** No two quotes agree once trimmed. */
  lemma FinalDistinct(answers: seq<Answer>, a: nat, b: nat)
    requires a < b < |Final(answers)|
    ensures Key(Final(answers)[a]) != Key(Final(answers)[b])
  {
    var v := Merged(answers);
    var t := Top(ScoresOf(v), 3);
    TopFacts(ScoresOf(v), 3);
    assert t[a] != t[b];
    if t[a] < t[b] {
      MergedDistinct(answers, t[a], t[b]);
    } else {
      MergedDistinct(answers, t[b], t[a]);
    }
  }

  // ---------------------------------------------------------------------------
  // Assembling the response

  /** `f'"{a["answer"]}" [{a["citation"]}]'`. */
  function Quote(a: Answer): (r: string)
    ensures |r| == |a.answer| + |a.citation| + 5
  {
    "\"" + a.answer + "\" [" + a.citation + "]"
  }

  /** A quote is the answer in double quotes, a space, and the citation in brackets. */
  lemma QuoteFields(a: Answer)
    ensures Quote(a)[0] == '"' && Quote(a)[1..|a.answer| + 1] == a.answer
    ensures Quote(a)[|a.answer| + 1..|a.answer| + 4] == "\" ["
    ensures Quote(a)[|a.answer| + 4..|Quote(a)| - 1] == a.citation && Quote(a)[|Quote(a)| - 1] == ']'
  {
    var r := Quote(a);
    var n := |a.answer|;
    SliceAt(r, 1, a.answer);
    SliceAt(r, n + 1, "\" [");
    SliceAt(r, n + 4, a.citation);
  }

  function Quotes(final: seq<Answer>): (r: seq<string>)
    ensures |r| == |final|
  {
    seq(|final|, k requires 0 <= k < |final| => Quote(final[k]))
  }

  /** `"; ".join(...)` of the quotes. */
  function Joined(final: seq<Answer>): string {
    Join("; ", Quotes(final))
  }

  /**
   * The joined quotes: the first quote, then each further one after "; ";
   * their length is every quote plus two characters between neighbours.
   */
  lemma JoinedQuotes(final: seq<Answer>)
    requires |final| > 0
    ensures |final| == 1 ==> Joined(final) == Quote(final[0])
    ensures |final| > 1 ==> Joined(final) == Quote(final[0]) + "; " + Joined(final[1..])
    ensures |Joined(final)| == TotalLength(Quotes(final)) + 2 * (|final| - 1)
  {
    JoinLength("; ", Quotes(final));
    if |final| > 1 {
      JoinFront("; ", Quotes(final));
      assert Quotes(final)[1..] == Quotes(final[1..]);
    }
  }

  /** `[t["text"] for t in top]`. */
  function Texts(top: seq<Chunk>): (r: seq<string>)
    ensures |r| == |top|
  {
    seq(|top|, k requires 0 <= k < |top| => top[k].text)
  }

  /**
   * `combined_ctx[:1200] + ("..." if len(combined_ctx) > 1200 else "")`: the
   * whole context when it has at most 1200 characters, and otherwise its
   * first 1200 characters followed by "...".
   */
  function Preview(ctx: string): (r: string)
    ensures |r| <= 1203
    ensures |ctx| <= 1200 ==> r == ctx
    ensures |ctx| > 1200 <==> |r| == 1203
    ensures |ctx| > 1200 ==> r[..1200] == ctx[..1200] && r[1200..] == "..."
  {
    Prefix(ctx, 1200) + (if |ctx| > 1200 then "..." else "")
  }

  /** The combined context of the abstractive mode: the reranked texts separated by blank lines. */
  function Context(top: seq<Chunk>): string {
    Join("\n\n", Texts(top))
  }

  /**
   * The combined context read from the front: the first chunk's text alone,
   * or followed by a blank line and the context of the rest; its length is
   * the texts' lengths plus two characters per gap.
   */
  lemma ContextFront(top: seq<Chunk>)
    requires |top| > 0
    ensures |top| == 1 ==> Context(top) == top[0].text
    ensures |top| > 1 ==> Context(top) == top[0].text + "\n\n" + Context(top[1..])
    ensures |Context(top)| == TotalLength(Texts(top)) + 2 * (|top| - 1)
  {
    JoinLength("\n\n", Texts(top));
    if |top| > 1 {
      JoinFront("\n\n", Texts(top));
      assert Texts(top)[1..] == Texts(top[1..]);
    }
  }

  // ---------------------------------------------------------------------------
  // The endpoint

  /** The (query, text) pairs of the fused candidates, in fused order: what the cross-encoder scores. */
  function CandidatePairs(query: string, meta: seq<Chunk>, dense: seq<nat>, lex: seq<nat>): (r: seq<(string, string)>)
    requires forall i :: i in dense + lex ==> i < |meta|
    ensures |r| == |Fused(dense, lex)|
  {
    var f := Fused(dense, lex);
    seq(|f|, k requires 0 <= k < |f| => FusedFrom(dense, lex, k); (query, meta[f[k]].text))
  }

  /**
   * The chunks `ask` works on: the fused candidates ranked by their
   * cross-encoder scores, the best `topK` of them.
   */
  function Retrieved(meta: seq<Chunk>, dense: seq<nat>, lex: seq<nat>, scores: seq<real>, topK: nat): (r: seq<Chunk>)
    requires forall i :: i in dense + lex ==> i < |meta|
    requires |scores| == |Fused(dense, lex)|
    ensures |r| == Min(topK, |Fused(dense, lex)|)
  {
    var f := Fused(dense, lex);
    var t := Top(scores, topK);
    seq(|t|, k requires 0 <= k < |t| => FusedFrom(dense, lex, t[k]); meta[f[t[k]]])
  }

  /** The response `ask` builds from the reranked chunks and the QA output over each of them. */
  function Respond(p: AskPayload, cfg: Config, top: seq<Chunk>, qa: seq<QaOutput>): Response
    requires |qa| == |top|
  {
    var answers := Kept(top, qa, cfg.minAnswerScore);
    if answers == [] then Abstain(p.query, p.mode, AbstainMessage, Citations(top))
    else if p.mode == "extractive" then Extractive(p.query, Final(answers), Joined(Final(answers)))
    else Abstractive(p.query, AbstractiveNote, Citations(top), Preview(Context(top)))
  }

  /** `ask` abstains exactly when no QA output is confident. */
  lemma RespondAbstains(p: AskPayload, cfg: Config, top: seq<Chunk>, qa: seq<QaOutput>)
    requires |qa| == |top|
    ensures Respond(p, cfg, top, qa).Abstain? <==> forall i :: 0 <= i < |qa| ==> !Confident(qa[i], cfg.minAnswerScore)
  {
    KeptEmpty(top, qa, cfg.minAnswerScore);
  }

  /** An abstention echoes the query and mode, gives the fixed message, and cites every reranked chunk in rank order. */
  lemma AbstainCites(p: AskPayload, cfg: Config, top: seq<Chunk>, qa: seq<QaOutput>, k: nat)
    requires |qa| == |top| && forall i :: 0 <= i < |qa| ==> !Confident(qa[i], cfg.minAnswerScore)
    ensures var r := Respond(p, cfg, top, qa);
      && r.Abstain?
      && r.query == p.query && r.mode == p.mode
      && r.message == AbstainMessage
      && |r.topCitations| == |top|
      && (k < |top| ==> r.topCitations[k] == FormatCitation(top[k]))
  {
    KeptEmpty(top, qa, cfg.minAnswerScore);
    if k < |top| {
      CitationsAt(top, k);
    }
  }

  /**
   * Once something is confident, the mode decides: exactly "extractive" gives
   * quotes, anything else gives the abstractive preview.
   */
  lemma RespondMode(p: AskPayload, cfg: Config, top: seq<Chunk>, qa: seq<QaOutput>, i: nat)
    requires |qa| == |top| && i < |qa| && Confident(qa[i], cfg.minAnswerScore)
    ensures Respond(p, cfg, top, qa).Extractive? <==> p.mode == "extractive"
    ensures Respond(p, cfg, top, qa).Abstractive? <==> p.mode != "extractive"
  {
    KeptComplete(top, qa, cfg.minAnswerScore, i);
  }

  /**
   * When something is confident and the mode is "extractive", the response
   * is extractive and quotes one to three pooled answers, best first,
   * no two alike once trimmed, and its joined text is their quotes.
   */
  lemma RespondQuotes(p: AskPayload, cfg: Config, top: seq<Chunk>, qa: seq<QaOutput>, i: nat, a: nat, b: nat)
    requires |qa| == |top| && i < |qa| && Confident(qa[i], cfg.minAnswerScore) && p.mode == "extractive"
    ensures var r := Respond(p, cfg, top, qa);
      && r.Extractive?
      && 1 <= |r.quotes| <= 3
      && r.joined == Join("; ", Quotes(r.quotes))
      && (a < b < |r.quotes| ==> r.quotes[a].score >= r.quotes[b].score && Key(r.quotes[a]) != Key(r.quotes[b]))
      && (a < |r.quotes| ==> r.quotes[a] in Kept(top, qa, cfg.minAnswerScore))
  {
    var answers := Kept(top, qa, cfg.minAnswerScore);
    KeptComplete(top, qa, cfg.minAnswerScore, i);
    FinalSize(answers);
    if a < b < |Final(answers)| {
      SelectOrdered(Merged(answers), a, b);
      FinalDistinct(answers, a, b);
    }
    if a < |Final(answers)| {
      FinalPooled(answers, a);
    }
  }

  /**
   * `ask`: fuse the dense and lexical hits, rerank the candidates by the
   * cross-encoder `scorer` applied to their (query, text) pairs, pool the QA
   * outputs over the reranked chunks, and answer. The dense hits, lexical
   * hits, the scorer (one score per pair) and the QA outputs (one per reranked
   * chunk) are inputs; the request's `topK` is not read.
   */
  method Ask(cfg: Config, p: AskPayload, meta: seq<Chunk>, dense: seq<nat>, lex: seq<nat>,
             scorer: seq<(string, string)> -> seq<real>, qa: seq<QaOutput>) returns (resp: Response)
    requires |meta| > 0
    requires forall i :: i in dense + lex ==> i < |meta|
    requires |scorer(CandidatePairs(p.query, meta, dense, lex))| == |Fused(dense, lex)|
    requires |qa| == Min(cfg.topKReranked, |Fused(dense, lex)|)
    ensures resp == Respond(p, cfg,
      Retrieved(meta, dense, lex, scorer(CandidatePairs(p.query, meta, dense, lex)), cfg.topKReranked), qa)
  {
    var cands := HybridCandidates(meta, dense, lex);
    forall k | 0 <= k < |cands|
      ensures Pairs(p.query, cands)[k] == CandidatePairs(p.query, meta, dense, lex)[k]
    {
      PairsAt(p.query, cands, k);
    }
    assert Pairs(p.query, cands) == CandidatePairs(p.query, meta, dense, lex);
    ghost var scores := scorer(CandidatePairs(p.query, meta, dense, lex));
    var ranked := Rerank.Rerank(p.query, cands, scorer, cfg.topKReranked);
    var top := seq(|ranked|, k requires 0 <= k < |ranked| => ranked[k].chunk);
    assert top == Retrieved(meta, dense, lex, scores, cfg.topKReranked);
    var answers := PoolAnswers(top, qa, cfg.minAnswerScore);
    if answers == [] {
      resp := Abstain(p.query, p.mode, AbstainMessage, Citations(top));
    } else {
      var merged := MergeUnique(answers);
      var final := Select(merged);
      if p.mode == "extractive" {
        resp := Extractive(p.query, final, Joined(final));
      } else {
        resp := Abstractive(p.query, AbstractiveNote, Citations(top), Preview(Context(top)));
      }
    }
  }
}
