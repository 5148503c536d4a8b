/**
 * Keeping one entry per key. The entries are walked in order; the first entry
 * with a key is kept, and it is replaced only by a later entry with the same
 * key and a strictly higher score. The kept entries are listed in the order
 * their keys first appeared, as a Python dict lists its values. Entries are
 * given by their keys and scores, and kept entries by their positions.
 */
module Merge {
  import opened Order

  /** The position the walk keeps under `key`. */
  function WinnerAt<K(==)>(keys: seq<K>, scores: seq<real>, key: K): (j: nat)
    requires |keys| == |scores| && key in keys
    ensures j < |keys| && keys[j] == key
  {
    var n := |keys| - 1;
    assert keys == keys[..n] + [keys[n]];
    if keys[n] != key then WinnerAt(keys[..n], scores[..n], key)
    else if key !in keys[..n] then n
    else
      var j := WinnerAt(keys[..n], scores[..n], key);
      if scores[n] > scores[j] then n else j
  }

  /**
   * The kept entry has the highest score of its key, and every earlier entry
   * with that key scores strictly less: on ties the first wins.
   */
  lemma {:induction false} WinnerBest<K>(keys: seq<K>, scores: seq<real>, key: K)
    requires |keys| == |scores| && key in keys
    ensures forall i :: 0 <= i < |keys| && keys[i] == key ==> scores[i] <= scores[WinnerAt(keys, scores, key)]
    ensures forall i :: 0 <= i < WinnerAt(keys, scores, key) && keys[i] == key ==>
      scores[i] < scores[WinnerAt(keys, scores, key)]
  {
    var n := |keys| - 1;
    var ki, si := keys[..n], scores[..n];
    assert keys == ki + [keys[n]];
    if key in ki {
      WinnerBest(ki, si, key);
      var j := WinnerAt(ki, si, key);
      assert forall i :: 0 <= i < n ==> keys[i] == ki[i] && scores[i] == si[i];
    } else {
      assert forall i :: 0 <= i < n ==> keys[i] == ki[i];
    }
  }

  /**
   * One step of the walk: entry `i` joins the keys seen so far, and only its
   * own key's kept position can change — to `i` when the key is new or entry
   * `i` scores strictly higher than the one kept.
   */
  lemma MergeStep<K>(keys: seq<K>, scores: seq<real>, i: nat)
    requires |keys| == |scores| && i < |keys|
    ensures keys[..i + 1] == keys[..i] + [keys[i]]
    ensures forall k :: k in keys[..i] && k != keys[i] ==>
      WinnerAt(keys[..i + 1], scores[..i + 1], k) == WinnerAt(keys[..i], scores[..i], k)
    ensures keys[i] !in keys[..i] ==> WinnerAt(keys[..i + 1], scores[..i + 1], keys[i]) == i
    ensures keys[i] in keys[..i] ==>
      var j := WinnerAt(keys[..i], scores[..i], keys[i]);
      WinnerAt(keys[..i + 1], scores[..i + 1], keys[i]) == if scores[i] > scores[j] then i else j
  {
    assert keys[..i + 1][..i] == keys[..i];
    assert scores[..i + 1][..i] == scores[..i];
  }

  /** The kept positions, one per key, in the order the keys first appear. */
  function Winners<K(==,!new)>(keys: seq<K>, scores: seq<real>): (w: seq<nat>)
    requires |keys| == |scores|
    ensures |w| == |DedupFrom(keys, {})|
  {
    var ks := DedupFrom(keys, {});
    DedupFromFacts(keys, {});
    seq(|ks|, m requires 0 <= m < |ks| => WinnerAt(keys, scores, ks[m]))
  }

  /** Kept position `m` holds the `m`-th distinct key, in order of first appearance. */
  lemma WinnersAt<K(!new)>(keys: seq<K>, scores: seq<real>, m: nat)
    requires |keys| == |scores| && m < |Winners(keys, scores)|
    ensures Winners(keys, scores)[m] < |keys| && keys[Winners(keys, scores)[m]] == DedupFrom(keys, {})[m]
  {
  }

  /** The kept positions are positions of the entries. */
  lemma WinnersInRange<K(!new)>(keys: seq<K>, scores: seq<real>)
    requires |keys| == |scores|
    ensures forall m :: 0 <= m < |Winners(keys, scores)| ==> Winners(keys, scores)[m] < |keys|
  {
  }

  /** Two kept positions hold different keys. */
  lemma WinnersDistinct<K(!new)>(keys: seq<K>, scores: seq<real>, m1: nat, m2: nat)
    requires |keys| == |scores| && m1 < m2 < |Winners(keys, scores)|
    ensures keys[Winners(keys, scores)[m1]] != keys[Winners(keys, scores)[m2]]
  {
    DedupFromFacts(keys, {});
  }

  /** Every key is kept somewhere. */
  lemma WinnersCover<K(!new)>(keys: seq<K>, scores: seq<real>, i: nat)
    requires |keys| == |scores| && i < |keys|
    ensures exists m :: 0 <= m < |Winners(keys, scores)| && keys[Winners(keys, scores)[m]] == keys[i]
  {
    var ks := DedupFrom(keys, {});
    DedupFromFacts(keys, {});
    assert keys[i] in ks;
    var m :| 0 <= m < |ks| && ks[m] == keys[i];
    WinnersAt(keys, scores, m);
  }

  /**
   * A kept position scores at least as high as every entry with its key, and
   * strictly higher than every earlier one.
   */
  lemma WinnersBest<K(!new)>(keys: seq<K>, scores: seq<real>, m: nat, i: nat)
    requires |keys| == |scores| && m < |Winners(keys, scores)| && i < |keys|
    requires keys[i] == keys[Winners(keys, scores)[m]]
    ensures scores[i] <= scores[Winners(keys, scores)[m]]
    ensures i < Winners(keys, scores)[m] ==> scores[i] < scores[Winners(keys, scores)[m]]
  {
    var ks := DedupFrom(keys, {});
    DedupFromFacts(keys, {});
    assert ks[m] in ks;
    WinnerBest(keys, scores, ks[m]);
  }

  /**
   * The state of the walk after the first `i` entries: `order` lists the keys
   * seen in order of first appearance, and `kept` maps each seen key to the
   * value of the entry kept for it.
   */
  ghost predicate Walked<K(!new), V>(keys: seq<K>, scores: seq<real>, vals: seq<V>, i: nat, order: seq<K>, kept: map<K, V>)
    requires |keys| == |scores| == |vals| && i <= |keys|
  {
    order == DedupFrom(keys[..i], {})
    && (forall k :: k in kept <==> k in keys[..i])
    && (forall k :: k in kept ==> kept[k] == vals[WinnerAt(keys[..i], scores[..i], k)])
  }

  /**
   * Entry `i` is appended to `order` when its key is new, and it replaces the
   * kept value when its key is new or it scores strictly higher than the
   * entry kept.
   */
  lemma WalkStep<K(!new), V>(keys: seq<K>, scores: seq<real>, vals: seq<V>, i: nat, order: seq<K>, kept: map<K, V>)
    requires |keys| == |scores| == |vals| && i < |keys|
    requires Walked(keys, scores, vals, i, order, kept)
    ensures keys[i] in kept ==>
      WinnerAt(keys[..i], scores[..i], keys[i]) < i && kept[keys[i]] == vals[WinnerAt(keys[..i], scores[..i], keys[i])]
    ensures Walked(keys, scores, vals, i + 1,
      if keys[i] in kept then order else order + [keys[i]],
      if keys[i] !in kept || scores[i] > scores[WinnerAt(keys[..i], scores[..i], keys[i])]
      then kept[keys[i] := vals[i]] else kept)
  {
    MergeStep(keys, scores, i);
    DedupSnoc(keys[..i], keys[i]);
    if keys[i] in kept {
      var j := WinnerAt(keys[..i], scores[..i], keys[i]);
      assert scores[..i][j] == scores[j];
    }
  }

  /** At the end of the walk, `order` and `kept` list the kept entries' values. */
  lemma WalkDone<K(!new), V>(keys: seq<K>, scores: seq<real>, vals: seq<V>, order: seq<K>, kept: map<K, V>)
    requires |keys| == |scores| == |vals|
    requires Walked(keys, scores, vals, |keys|, order, kept)
    ensures |order| == |Winners(keys, scores)|
    ensures forall m :: 0 <= m < |order| ==>
      order[m] in kept && Winners(keys, scores)[m] < |vals| && kept[order[m]] == vals[Winners(keys, scores)[m]]
  {
    assert keys[..|keys|] == keys && scores[..|keys|] == scores;
    DedupFromFacts(keys, {});
  }

  /** The score of every value, in order. */
  function Scores<V>(vals: seq<V>, score: V -> real): (r: seq<real>)
    ensures |r| == |vals|
  {
    seq(|vals|, j requires 0 <= j < |vals| => score(vals[j]))
  }

  /**
   * The walk itself over the first `i` entries, as a loop over a dict runs it:
   * a new key is inserted at the end, and a seen key's value is overwritten
   * only by a strictly higher score.
   */
  function Walk<K(==), V>(keys: seq<K>, vals: seq<V>, score: V -> real, i: nat): (r: (seq<K>, map<K, V>))
    requires |keys| == |vals| && i <= |keys|
  {
    if i == 0 then ([], map[])
    else
      var (order, kept) := Walk(keys, vals, score, i - 1);
      var key := keys[i - 1];
      if key !in kept then (order + [key], kept[key := vals[i - 1]])
      else if score(vals[i - 1]) > score(kept[key]) then (order, kept[key := vals[i - 1]])
      else (order, kept)
  }

  /** After `i` entries, the walk keeps the keys in order of first appearance and, per key, its winner. */
  lemma {:induction false} WalkWinners<K(!new), V>(keys: seq<K>, vals: seq<V>, score: V -> real, i: nat)
    requires |keys| == |vals| && i <= |keys|
    ensures Walked(keys, Scores(vals, score), vals, i, Walk(keys, vals, score, i).0, Walk(keys, vals, score, i).1)
  {
    var sc := Scores(vals, score);
    if i == 0 {
      assert keys[..0] == [];
    } else {
      WalkWinners(keys, vals, score, i - 1);
      var (order, kept) := Walk(keys, vals, score, i - 1);
      WalkStep(keys, sc, vals, i - 1, order, kept);
      if keys[i - 1] in kept {
        var j := WinnerAt(keys[..i - 1], sc[..i - 1], keys[i - 1]);
        assert sc[j] == score(vals[j]) && sc[i - 1] == score(vals[i - 1]);
      }
    }
  }
}
