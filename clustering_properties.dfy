/** What the greedy clustering pass guarantees, proved of its specification
    `Clustering.Clusters` for every scorer and every word list. */
module ClusteringProperties {
  import opened ListOps
  import opened Vocabulary
  import opened Clustering

  /** c is a star around its first word: c is non-empty and every other
      member joins that first word (members need not join each other). */
  ghost predicate IsStar(ratio: Scorer, c: seq<Word>)
  {
    c != [] && forall j :: 0 < j < |c| ==> Joins(ratio, c[0], c[j])
  }

  /** The base of c (its first word) rejects every word of later. */
  ghost predicate SeparatedFrom(ratio: Scorer, c: seq<Word>, later: seq<Word>)
  {
    c != [] && forall m :: m in later ==> !Joins(ratio, c[0], m)
  }

  /** a and b are members of one and the same cluster of cs. */
  ghost predicate SameCluster(cs: seq<seq<Word>>, a: Word, b: Word)
  {
    exists k :: 0 <= k < |cs| && a in cs[k] && b in cs[k]
  }

  /** The bases of cs: the first word of each non-empty cluster, in order. */
  function Bases(cs: seq<seq<Word>>): seq<Word>
  {
    if cs == [] then []
    else (if cs[0] == [] then [] else [cs[0][0]]) + Bases(cs[1..])
  }

  /** Partition: the clusters, one after another, hold every input word
      exactly as often as the input does; nothing is dropped or duplicated. */
  lemma {:induction false} ClustersPartition(ratio: Scorer, words: seq<Word>)
    ensures multiset(Flatten(Clusters(ratio, words))) == multiset(words)
    decreases |words|
  {
    if words != [] {
      var base, rest := words[0], words[1..];
      var tail := Stayers(ratio, base, rest);
      var cs := Clusters(ratio, words);
      assert Flatten(cs) == [base] + Joiners(ratio, base, rest) + Flatten(Clusters(ratio, tail)) by {
        assert cs[0] == [base] + Joiners(ratio, base, rest);
        assert cs[1..] == Clusters(ratio, tail);
      }
      ClustersPartition(ratio, tail);
      SplitIsPartition(ratio, base, rest);
      assert words == [base] + rest;
    }
  }

  /** Base first and star shape: every cluster is non-empty, the first
      cluster starts with the first input word, and every other member of a
      cluster scored at least the threshold against that cluster's base. */
  lemma {:induction false} ClustersAreStars(ratio: Scorer, words: seq<Word>)
    ensures words != [] ==> Clusters(ratio, words)[0][0] == words[0]
    ensures forall i :: 0 <= i < |Clusters(ratio, words)| ==> IsStar(ratio, Clusters(ratio, words)[i])
    decreases |words|
  {
    if words != [] {
      var base, rest := words[0], words[1..];
      var tail := Stayers(ratio, base, rest);
      var cs := Clusters(ratio, words);
      ClustersAreStars(ratio, tail);
      assert cs[0] == [base] + Joiners(ratio, base, rest);
      assert IsStar(ratio, cs[0]) by {
        forall j | 0 < j < |cs[0]|
          ensures Joins(ratio, cs[0][0], cs[0][j])
        {
          assert cs[0][j] in Joiners(ratio, base, rest);
          SplitMembers(ratio, base, rest);
        }
      }
      forall i | 0 < i < |cs|
        ensures IsStar(ratio, cs[i])
      {
        assert cs[i] == Clusters(ratio, tail)[i - 1];
      }
    }
  }

  /** Separation from earlier bases: every member of a later cluster scored
      below the threshold against the base of every earlier cluster. */
  lemma {:induction false} ClustersSeparated(ratio: Scorer, words: seq<Word>)
    ensures forall i, j :: 0 <= i < j < |Clusters(ratio, words)| ==>
              SeparatedFrom(ratio, Clusters(ratio, words)[i], Clusters(ratio, words)[j])
    decreases |words|
  {
    if words != [] {
      var base, rest := words[0], words[1..];
      var tail := Stayers(ratio, base, rest);
      var cs := Clusters(ratio, words);
      var cs' := Clusters(ratio, tail);
      ClustersSeparated(ratio, tail);
      ClustersPartition(ratio, tail);
      assert cs[1..] == cs';
      forall i, j | 0 <= i < j < |cs|
        ensures SeparatedFrom(ratio, cs[i], cs[j])
      {
        if i == 0 {
          forall m | m in cs[j]
            ensures !Joins(ratio, base, m)
          {
            assert cs[j] == cs'[j - 1];
            FlattenMember(cs', j - 1, m);
            assert m in multiset(tail);
            SplitMembers(ratio, base, rest);
          }
        } else {
          assert cs[i] == cs'[i - 1] && cs[j] == cs'[j - 1];
        }
      }
    }
  }

  /** Order preservation: each cluster keeps the input's relative order,
      and the bases of successive clusters appear in input order. */
  lemma {:induction false} ClustersKeepOrder(ratio: Scorer, words: seq<Word>)
    ensures forall i :: 0 <= i < |Clusters(ratio, words)| ==> IsSubseq(Clusters(ratio, words)[i], words)
    ensures IsSubseq(Bases(Clusters(ratio, words)), words)
    decreases |words|
  {
    if words != [] {
      var base, rest := words[0], words[1..];
      var tail := Stayers(ratio, base, rest);
      var cs := Clusters(ratio, words);
      var cs' := Clusters(ratio, tail);
      ClustersKeepOrder(ratio, tail);
      SplitKeepsOrder(ratio, base, rest);
      assert words == [base] + rest;
      assert cs[1..] == cs';
      IsSubseqCons(base, Joiners(ratio, base, rest), rest);
      forall i | 0 < i < |cs|
        ensures IsSubseq(cs[i], words)
      {
        assert cs[i] == cs'[i - 1];
        IsSubseqTrans(cs[i], tail, rest);
        IsSubseqExtend(base, cs[i], rest);
      }
      assert Bases(cs) == [base] + Bases(cs');
      IsSubseqTrans(Bases(cs'), tail, rest);
      IsSubseqCons(base, Bases(cs'), rest);
    }
  }

  /** Homophones end up together: two words with the same romaji always
      share a cluster, provided a romaji string scores at least the
      threshold against itself (fuzz.ratio scores identical strings 100). */
  lemma {:induction false} HomophonesShareCluster(ratio: Scorer, words: seq<Word>, a: Word, b: Word)
    requires a in words && b in words && a.romaji == b.romaji
    requires ratio(a.romaji, a.romaji) >= Threshold
    ensures SameCluster(Clusters(ratio, words), a, b)
    decreases |words|
  {
    var base, rest := words[0], words[1..];
    var tail := Stayers(ratio, base, rest);
    var cs := Clusters(ratio, words);
    assert words == [base] + rest;
    assert cs[0] == [base] + Joiners(ratio, base, rest);
    SplitMembers(ratio, base, rest);
    if a == base || b == base || Joins(ratio, base, a) {
      assert a in cs[0] && b in cs[0];
    } else {
      assert a in tail && b in tail;
      HomophonesShareCluster(ratio, tail, a, b);
      var k :| 0 <= k < |Clusters(ratio, tail)| && a in Clusters(ratio, tail)[k] && b in Clusters(ratio, tail)[k];
      assert cs[k + 1] == Clusters(ratio, tail)[k];
    }
  }

  /** The sample catalog's two homophone pairs, "neko" and "hana", each
      land in a single cluster. */
  lemma CatalogHomophones(ratio: Scorer)
    requires ratio("neko", "neko") >= Threshold && ratio("hana", "hana") >= Threshold
    ensures SameCluster(Clusters(ratio, Catalog), Catalog[0], Catalog[1])
    ensures SameCluster(Clusters(ratio, Catalog), Catalog[6], Catalog[7])
  {
    HomophonesShareCluster(ratio, Catalog, Catalog[0], Catalog[1]);
    HomophonesShareCluster(ratio, Catalog, Catalog[6], Catalog[7]);
  }

  /** The threshold is inclusive: a pair scoring exactly 70 is grouped,
      a pair scoring below 70 is split into two singleton clusters. */
  lemma ThresholdBoundary(ratio: Scorer, b: Word, w: Word)
    ensures ratio(b.romaji, w.romaji) == 70.0 ==> Clusters(ratio, [b, w]) == [[b, w]]
    ensures ratio(b.romaji, w.romaji) < 70.0 ==> Clusters(ratio, [b, w]) == [[b], [w]]
  {
    assert [b, w][1..] == [w] && [w][1..] == [];
    assert Clusters(ratio, [b, w]) == [[b] + Joiners(ratio, b, [w])] + Clusters(ratio, Stayers(ratio, b, [w]));
    if Joins(ratio, b, w) {
      assert Joiners(ratio, b, [w]) == [w];
      assert Stayers(ratio, b, [w]) == [];
      assert [b] + [w] == [b, w];
    } else {
      assert Joiners(ratio, b, [w]) == [];
      assert Stayers(ratio, b, [w]) == [w];
      assert Clusters(ratio, [w]) == [[w] + Joiners(ratio, w, [])] + Clusters(ratio, Stayers(ratio, w, []));
      assert Clusters(ratio, [w]) == [[w]];
      assert [b] + [] == [b];
    }
  }

  /** Membership is not transitive: a cluster may hold two members that
      score below the threshold against each other. */
  lemma StarIsNotClique()
    ensures exists ratio: Scorer, words: seq<Word> ::
              |words| == 3 && Clusters(ratio, words) == [words] &&
              !Joins(ratio, words[1], words[2])
  {
    var ratio: Scorer := (x: string, y: string) => if x == "hana" || y == "hana" || x == y then 100.0 else 0.0;
    var words := [Word("はな", "flower", "hana"), Word("はま", "beach", "hama"), Word("なな", "seven", "nana")];
    assert words[1..] == [words[1], words[2]];
    assert "hama" != "nana" && "hama" != "hana" && "nana" != "hana";
    assert [words[2]][1..] == [];
    assert Joiners(ratio, words[0], [words[2]]) == [words[2]];
    assert Joiners(ratio, words[0], words[1..]) == words[1..];
    assert Stayers(ratio, words[0], [words[2]]) == [];
    assert Stayers(ratio, words[0], words[1..]) == [];
    assert Clusters(ratio, words) == [[words[0]] + words[1..]] + Clusters(ratio, []);
    assert [words[0]] + words[1..] == words;
    assert Clusters(ratio, words) == [words];
    assert !Joins(ratio, words[1], words[2]);
  }

  /** Splitting a two-word list against a base decides each word alone. */
  lemma SplitPair(ratio: Scorer, base: Word, x: Word, y: Word)
    ensures Joiners(ratio, base, [x, y]) ==
            (if Joins(ratio, base, x) then [x] else []) + (if Joins(ratio, base, y) then [y] else [])
    ensures Stayers(ratio, base, [x, y]) ==
            (if Joins(ratio, base, x) then [] else [x]) + (if Joins(ratio, base, y) then [] else [y])
  {
  }

  /** A close pair followed by two words that join neither the pair's base
      nor each other: one cluster of the pair, then two singletons. */
  lemma PairThenSingletons(ratio: Scorer, a: Word, b: Word, x: Word, y: Word)
    requires Joins(ratio, a, b) && !Joins(ratio, a, x) && !Joins(ratio, a, y)
    requires !Joins(ratio, x, y)
    ensures Clusters(ratio, [a, b, x, y]) == [[a, b], [x], [y]]
  {
    calc {
      Clusters(ratio, [a, b, x, y]);
    == { assert [a, b, x, y][1..] == [b, x, y]; }
      [[a] + Joiners(ratio, a, [b, x, y])] + Clusters(ratio, Stayers(ratio, a, [b, x, y]));
    == { SplitCons(ratio, a, b, [x, y]);
         assert [b] + [x, y] == [b, x, y]; }
      [[a] + ([b] + Joiners(ratio, a, [x, y]))] + Clusters(ratio, Stayers(ratio, a, [x, y]));
    == { SplitPair(ratio, a, x, y);
         assert Joiners(ratio, a, [x, y]) == [];
         assert Stayers(ratio, a, [x, y]) == [x, y]; }
      [[a] + ([b] + [])] + Clusters(ratio, [x, y]);
    == { assert [a] + ([b] + []) == [a, b]; }
      [[a, b]] + Clusters(ratio, [x, y]);
    == { ThresholdBoundary(ratio, x, y); }
      [[a, b], [x], [y]];
    }
  }

  /** The working list once the first i clusters of cs are built: the input
      with the words of those clusters removed one by one, by value. */
  function Leftover(words: seq<Word>, cs: seq<seq<Word>>, i: nat): (r: Option<seq<Word>>)
    requires i <= |cs|
    ensures r.Some? ==> |r.value| + |Flatten(cs[..i])| == |words|
    ensures r.Some? ==> multiset(r.value) + multiset(Flatten(cs[..i])) == multiset(words)
  {
    RemoveAll(words, Flatten(cs[..i]))
  }

  /** When removing the first cluster c leaves tail, the working list after
      i clusters of c followed by css is the one after i - 1 clusters of css,
      starting from tail. */
  lemma LeftoverCons(words: seq<Word>, c: seq<Word>, tail: seq<Word>, css: seq<seq<Word>>, i: nat)
    requires RemoveAll(words, c) == Some(tail)
    requires 0 < i <= |css| + 1
    ensures Leftover(words, [c] + css, i) == Leftover(tail, css, i - 1)
    ensures ([c] + css)[i..] == css[i - 1..]
  {
    FlattenPrefixCons(c, css, i);
    RemoveAllAppend(words, c, Flatten(css[..i - 1]));
  }

  /** Greedy choice of bases: each cluster starts with the first word still
      left once the earlier clusters' words are removed from the input. */
  ghost predicate GreedyBases(words: seq<Word>, cs: seq<seq<Word>>)
  {
    forall i :: 0 <= i < |cs| ==>
      && Leftover(words, cs, i).Some?
      && Leftover(words, cs, i).value != []
      && cs[i] != []
      && cs[i][0] == Leftover(words, cs, i).value[0]
  }

  /** After i rounds, removing the words of the first i clusters from the
      input succeeds, and clustering what is left gives the remaining
      clusters: the pass restarts from its working list. */
  lemma {:induction false} ClustersFromLeftover(ratio: Scorer, words: seq<Word>, i: nat)
    requires i <= |Clusters(ratio, words)|
    ensures Leftover(words, Clusters(ratio, words), i).Some?
    ensures Clusters(ratio, Leftover(words, Clusters(ratio, words), i).value)
            == Clusters(ratio, words)[i..]
    decreases |words|
  {
    if i == 0 {
      var cs := Clusters(ratio, words);
      assert cs[..0] == [];
      assert cs[0..] == cs;
    } else {
      var tail := Stayers(ratio, words[0], words[1..]);
      LeftoverStep(ratio, words, i);
      ClustersFromLeftover(ratio, tail, i - 1);
    }
  }

  /** One round further: after i > 0 clusters of words, the working list
      and the clusters still to come are those after i - 1 clusters of the
      words that stayed in the first round. */
  lemma LeftoverStep(ratio: Scorer, words: seq<Word>, i: nat)
    requires 0 < i <= |Clusters(ratio, words)|
    ensures i - 1 <= |Clusters(ratio, Stayers(ratio, words[0], words[1..]))|
    ensures Leftover(words, Clusters(ratio, words), i)
            == Leftover(Stayers(ratio, words[0], words[1..]), Clusters(ratio, Stayers(ratio, words[0], words[1..])), i - 1)
    ensures Clusters(ratio, words)[i..] == Clusters(ratio, Stayers(ratio, words[0], words[1..]))[i - 1..]
  {
    var base, rest := words[0], words[1..];
    var c0, tail := [base] + Joiners(ratio, base, rest), Stayers(ratio, base, rest);
    var ts := Clusters(ratio, tail);
    FirstCluster(ratio, words);
    LeftoverCons(words, c0, tail, ts, i);
  }

  /** The first round of the pass: the first cluster, and removing its words
      from the input leaves the words that stayed. */
  lemma FirstCluster(ratio: Scorer, words: seq<Word>)
    requires words != []
    ensures Clusters(ratio, words) ==
            [[words[0]] + Joiners(ratio, words[0], words[1..])] + Clusters(ratio, Stayers(ratio, words[0], words[1..]))
    ensures RemoveAll(words, [words[0]] + Joiners(ratio, words[0], words[1..]))
            == Some(Stayers(ratio, words[0], words[1..]))
  {
    assert words == [words[0]] + words[1..];
    RemoveClusterLeavesStayers(ratio, words[0], words[1..]);
  }

  /** The clusters choose their bases greedily, in the order of the input. */
  lemma ClustersGreedyBases(ratio: Scorer, words: seq<Word>)
    ensures GreedyBases(words, Clusters(ratio, words))
  {
    var cs := Clusters(ratio, words);
    forall i | 0 <= i < |cs|
      ensures Leftover(words, cs, i).Some?
      ensures Leftover(words, cs, i).value != []
      ensures cs[i] != []
      ensures cs[i][0] == Leftover(words, cs, i).value[0]
    {
      ClustersFromLeftover(ratio, words, i);
      var left := Leftover(words, cs, i).value;
      assert Clusters(ratio, left) == cs[i..];
      assert cs[i..][0] == cs[i];
    }
  }

  /** The working list keeps the input's relative order across all rounds:
      after any number of rounds it is a subsequence of the input. */
  lemma {:induction false} LeftoverKeepsOrder(ratio: Scorer, words: seq<Word>, i: nat)
    requires i <= |Clusters(ratio, words)|
    ensures Leftover(words, Clusters(ratio, words), i).Some?
    ensures IsSubseq(Leftover(words, Clusters(ratio, words), i).value, words)
    decreases i
  {
    if i == 0 {
      assert Clusters(ratio, words)[..0] == [];
      IsSubseqRefl(words);
    } else {
      var tail := Stayers(ratio, words[0], words[1..]);
      LeftoverStep(ratio, words, i);
      LeftoverKeepsOrder(ratio, tail, i - 1);
      FirstStayersKeepOrder(ratio, words);
      IsSubseqTrans(Leftover(tail, Clusters(ratio, tail), i - 1).value, tail, words);
    }
  }

  /** The words that stay in the first round keep the input's order. */
  lemma FirstStayersKeepOrder(ratio: Scorer, words: seq<Word>)
    requires words != []
    ensures IsSubseq(Stayers(ratio, words[0], words[1..]), words)
  {
    var rest := words[1..];
    SplitKeepsOrder(ratio, words[0], rest);
    IsSubseqRefl(rest);
    IsSubseqExtend(words[0], rest, rest);
    assert words == [words[0]] + rest;
    IsSubseqTrans(Stayers(ratio, words[0], rest), rest, words);
  }

  /** Everything the clustering pass promises of its output cs for the
      input words: partition, star shape around each base, separation of
      later clusters from earlier bases, order preservation, and the greedy
      choice of each base. */
  ghost predicate WellClustered(ratio: Scorer, words: seq<Word>, cs: seq<seq<Word>>)
  {
    && |cs| <= |words|
    && (words != [] ==> cs != [] && cs[0] != [] && cs[0][0] == words[0])
    && multiset(Flatten(cs)) == multiset(words)
    && (forall i :: 0 <= i < |cs| ==> IsStar(ratio, cs[i]))
    && (forall i, j :: 0 <= i < j < |cs| ==> SeparatedFrom(ratio, cs[i], cs[j]))
    && (forall i :: 0 <= i < |cs| ==> IsSubseq(cs[i], words))
    && IsSubseq(Bases(cs), words)
    && GreedyBases(words, cs)
  }

  /** The clusters of every word list, under every scorer, meet all of the
      promises above. */
  lemma ClustersWellClustered(ratio: Scorer, words: seq<Word>)
    ensures WellClustered(ratio, words, Clusters(ratio, words))
  {
    ClustersPartition(ratio, words);
    ClustersAreStars(ratio, words);
    ClustersSeparated(ratio, words);
    ClustersKeepOrder(ratio, words);
    ClustersGreedyBases(ratio, words);
  }

  /** The concrete scenario: two "neko" entries, then "inu" and "saru",
      with a scorer under which "neko" reaches the threshold against itself
      and every other pair stays below it, give three clusters in input
      order, the two "neko" entries together. */
  lemma NekoScenario(ratio: Scorer)
    requires ratio("neko", "neko") >= Threshold
    requires ratio("neko", "inu") < Threshold && ratio("neko", "saru") < Threshold
    requires ratio("inu", "saru") < Threshold
    ensures
      var neko1, neko2 := Word("ねこ", "cat", "neko"), Word("ねこ", "sleeping child", "neko");
      var inu, saru := Word("いぬ", "dog", "inu"), Word("さる", "monkey", "saru");
      Clusters(ratio, [neko1, neko2, inu, saru]) == [[neko1, neko2], [inu], [saru]]
  {
    PairThenSingletons(ratio, Word("ねこ", "cat", "neko"), Word("ねこ", "sleeping child", "neko"),
                       Word("いぬ", "dog", "inu"), Word("さる", "monkey", "saru"));
  }
}
