/** The running hash over a list of blocks, given the bytes that are hashed for each of them. */
module MemFeatHash {
  import opened Bytes
  import opened DjbHash
  import opened MemImage

  // In this module the bytes of a list's blocks are the bytes that are hashed for them.

  /** The hash after i blocks: only feature blocks count, and a zero hash starts over. */
  function ListHash(ws: seq<Block>, i: nat): word
    requires i <= |ws|
  {
    if i == 0 then 0
    else if ws[i - 1].guid == FEATURE_GUID then Djb(ListHash(ws, i - 1), ws[i - 1].bytes)
    else ListHash(ws, i - 1)
  }

  /** The hashed bytes of blocks from .. i, in list order. */
  function Features(ws: seq<Block>, from: nat, i: nat): seq<byte>
    requires from <= i <= |ws|
  {
    if i == from then []
    else if ws[i - 1].guid == FEATURE_GUID then Features(ws, from, i - 1) + ws[i - 1].bytes
    else Features(ws, from, i - 1)
  }

  ghost predicate NoFeature(ws: seq<Block>, from: nat, i: nat)
    requires from <= i <= |ws|
  {
    forall k :: from <= k < i ==> ws[k].guid != FEATURE_GUID
  }

  /** The last position before i at which the running hash was zero. */
  function LastZero(ws: seq<Block>, i: nat): (from: nat)
    requires i <= |ws|
    ensures from <= i
  {
    if i == 0 then 0
    else if ListHash(ws, i - 1) == 0 then i - 1
    else LastZero(ws, i - 1)
  }

  /** The hash of the feature blocks among from .. i from a fresh start. */
  ghost function FreshHash(ws: seq<Block>, from: nat, i: nat): word
    requires from <= i <= |ws|
  {
    if NoFeature(ws, from, i) then 0 else Run(SEED, Features(ws, from, i))
  }

  /** The running hash is zero at from and not since. */
  ghost predicate ZeroLast(ws: seq<Block>, from: nat, i: nat)
    requires from <= i <= |ws|
  {
    ListHash(ws, from) == 0 && forall k :: from < k < i ==> ListHash(ws, k) != 0
  }

  /** The hash is that of the concatenated feature blocks since the running hash was last zero,
      seeded with 5381; without a feature block since then it is zero. */
  lemma {:induction false} FeatHashMeaning(ws: seq<Block>, i: nat)
    requires i <= |ws|
    ensures ZeroLast(ws, LastZero(ws, i), i)
    ensures ListHash(ws, i) == FreshHash(ws, LastZero(ws, i), i)
  {
    if i == 0 {
    } else {
      FeatHashMeaning(ws, i - 1);
      FreshStep(ws, LastZero(ws, i), i);
    }
  }

  /** One more block, after a zero at from and none since. */
  lemma FreshStep(ws: seq<Block>, from: nat, i: nat)
    requires from < i <= |ws| && ListHash(ws, from) == 0
    requires from < i - 1 ==> ListHash(ws, i - 1) != 0 && ListHash(ws, i - 1) == FreshHash(ws, from, i - 1)
    ensures ListHash(ws, i) == FreshHash(ws, from, i)
  {
    var feature := ws[i - 1].guid == FEATURE_GUID;
    if from == i - 1 {
      assert feature <==> !NoFeature(ws, from, i);
      assert feature ==> Features(ws, from, i) == ws[i - 1].bytes;
    } else {
      assert !NoFeature(ws, from, i - 1);
      assert !NoFeature(ws, from, i);
      RunAppend(SEED, Features(ws, from, i - 1), ws[i - 1].bytes);
    }
  }

  /** Without any feature block the hash is zero. */
  lemma {:induction false} NoFeatureNoHash(ws: seq<Block>, i: nat)
    requires i <= |ws| && NoFeature(ws, 0, i)
    ensures ListHash(ws, i) == 0
  {
    if i == 0 {
    } else {
      NoFeatureNoHash(ws, i - 1);
    }
  }

  // ----- two lists -----

  lemma {:induction false} SamePrefix(ws: seq<Block>, vs: seq<Block>, i: nat)
    requires i <= |ws| && i <= |vs| && forall k :: 0 <= k < i ==> ws[k] == vs[k]
    ensures ListHash(ws, i) == ListHash(vs, i)
  {
    if i == 0 {
    } else {
      SamePrefix(ws, vs, i - 1);
    }
  }

  /** Two hashes that the restart rule maps to the same starting value. */
  predicate Confused(g: word, h: word) {
    (g == 0 && h == SEED) || (g == SEED && h == 0)
  }

  /** Some feature block in j .. i starts from two confused hashes. */
  ghost predicate Merges(ws: seq<Block>, vs: seq<Block>, j: nat, i: nat)
    requires j <= i <= |ws| && i <= |vs|
  {
    exists k :: j <= k < i && ws[k].guid == FEATURE_GUID && Confused(ListHash(ws, k), ListHash(vs, k))
  }

  /** Two lists that agree from block j on, but whose hashes differ there, end with the same hash
      exactly when the hashes are 0 and 5381 where a later feature block begins. */
  lemma {:induction false} DifferenceSurvives(ws: seq<Block>, vs: seq<Block>, j: nat, i: nat)
    requires j <= i <= |ws| && i <= |vs|
    requires forall k :: j <= k < i ==> ws[k] == vs[k]
    requires ListHash(ws, j) != ListHash(vs, j)
    ensures ListHash(ws, i) == ListHash(vs, i) <==> Merges(ws, vs, j, i)
  {
    if i == j {
    } else {
      DifferenceSurvives(ws, vs, j, i - 1);
      var g, h := ListHash(ws, i - 1), ListHash(vs, i - 1);
      var feature := ws[i - 1].guid == FEATURE_GUID;
      assert Merges(ws, vs, j, i) <==> Merges(ws, vs, j, i - 1) || (feature && Confused(g, h));
      if feature {
        RunInjective(Restart(g), Restart(h), ws[i - 1].bytes);
      }
    }
  }

  /** Two lists that differ in block j only. */
  ghost predicate SameBut(ws: seq<Block>, vs: seq<Block>, j: nat) {
    && |ws| == |vs| && j < |ws| && ws[j].guid == vs[j].guid
    && forall k :: 0 <= k < |ws| && k != j ==> ws[k] == vs[k]
  }

  lemma DifferenceBegins(ws: seq<Block>, vs: seq<Block>, j: nat, g: word)
    requires SameBut(ws, vs, j) && ws[j].guid == FEATURE_GUID && g == ListHash(ws, j)
    requires Run(Restart(g), ws[j].bytes) != Run(Restart(g), vs[j].bytes)
    ensures ListHash(ws, j + 1) != ListHash(vs, j + 1)
  {
    SamePrefix(ws, vs, j);
  }

  /** If block j is a feature block whose hash differs, the final hashes agree exactly when the
      difference disappears later. */
  lemma DifferenceEnds(ws: seq<Block>, vs: seq<Block>, j: nat)
    requires SameBut(ws, vs, j) && ws[j].guid == FEATURE_GUID
    requires var h := Restart(ListHash(ws, j)); Run(h, ws[j].bytes) != Run(h, vs[j].bytes)
    ensures ListHash(ws, |ws|) == ListHash(vs, |ws|) <==> Merges(ws, vs, j + 1, |ws|)
  {
    DifferenceBegins(ws, vs, j, ListHash(ws, j));
    DifferenceSurvives(ws, vs, j + 1, |ws|);
  }
}
