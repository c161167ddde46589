/** The app's phonetic clustering pass, step by step as the script runs it:
    a working copy of the word list is consumed from the front, each popped
    word collects the remaining words that score close to it, and those
    words are then removed from the working list one by one, by value. */
module App {
  import opened ListOps
  import opened Vocabulary
  import opened Clustering
  import opened ClusteringProperties

  /** The whole pass: pop a base, collect the words close to it, remove
      them, record the cluster, until no word remains. The working list is
      a copy: `words` is a value and is left as it was. */
  method ClusterWords(words: seq<Word>, ratio: Scorer) returns (clusters: seq<seq<Word>>)
    ensures clusters == Clusters(ratio, words)
    ensures WellClustered(ratio, words, clusters)
  {
    clusters := [];
    var remaining := words;
    while remaining != []
      invariant clusters + Clusters(ratio, remaining) == Clusters(ratio, words)
      decreases |remaining|
    {
      ghost var before := remaining;
      var base := remaining[0];
      remaining := remaining[1..];
      var cluster, toRemove := CollectClose(ratio, base, remaining);
      remaining := RemoveEach(ratio, base, remaining, toRemove);
      assert Clusters(ratio, before) == [cluster] + Clusters(ratio, remaining);
      clusters := clusters + [cluster];
    }
    assert clusters == Clusters(ratio, words) by {
      assert Clusters(ratio, remaining) == [];
      assert clusters + [] == clusters;
    }
    ClustersWellClustered(ratio, words);
  }

  /** The scan of the remaining words against a base: each word that joins
      the base is appended, in scan order, both to the cluster (which starts
      as the base alone) and to the list of words to remove. */
  method CollectClose(ratio: Scorer, base: Word, remaining: seq<Word>)
    returns (cluster: seq<Word>, toRemove: seq<Word>)
    ensures toRemove == Joiners(ratio, base, remaining)
    ensures cluster == [base] + toRemove
  {
    cluster := [base];
    toRemove := [];
    for i := 0 to |remaining|
      invariant toRemove == Joiners(ratio, base, remaining[..i])
      invariant cluster == [base] + toRemove
    {
      var other := remaining[i];
      if Joins(ratio, base, other) {
        cluster := cluster + [other];
        toRemove := toRemove + [other];
      }
      JoinersStep(ratio, base, remaining, i);
    }
    assert remaining[..|remaining|] == remaining;
  }

  /** The removal of the collected words from the working list, one
      `remove` (first equal element) per collected word: it never raises,
      and it leaves exactly the words that do not join the base, in order. */
  method RemoveEach(ratio: Scorer, base: Word, scanned: seq<Word>, toRemove: seq<Word>)
    returns (remaining: seq<Word>)
    requires toRemove == Joiners(ratio, base, scanned)
    ensures remaining == Stayers(ratio, base, scanned)
    ensures RemoveAll(scanned, toRemove) == Some(remaining)
  {
    remaining := scanned;
    for k := 0 to |toRemove|
      invariant remaining == DropFirstJoiners(ratio, base, scanned, k)
    {
      ghost var next := DropFirstJoiners(ratio, base, scanned, k + 1);
      assert RemoveFirst(remaining, toRemove[k]) == Some(next) by {
        RemoveNextJoiner(ratio, base, scanned, k);
      }
      remaining := RemoveFirst(remaining, toRemove[k]).value;
    }
    assert remaining == Stayers(ratio, base, scanned) by {
      DropAllJoiners(ratio, base, scanned);
    }
    assert RemoveAll(scanned, toRemove) == Some(remaining) by {
      assert DropFirstJoiners(ratio, base, scanned, 0) == scanned;
      assert toRemove[0..] == toRemove;
      RemoveRestOfJoiners(ratio, base, scanned, 0);
    }
  }
}
