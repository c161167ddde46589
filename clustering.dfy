/** The greedy phonetic clustering pass as a specification: which words
    join a base, which stay behind, and the clusters the pass produces. */
module Clustering {
  import opened ListOps
  import opened Vocabulary

  /** The similarity scorer `fuzz.ratio`: a score on a 0..100 scale for two
      romaji strings. It comes from a library outside this model, so every
      definition here takes it as a parameter. */
  type Scorer = (string, string) -> real

  /** A candidate joins a base when its score reaches this value. */
  const Threshold: real := 70.0

  /** w joins the cluster of base: its romaji scores at least the threshold
      against the base's romaji (the bound is inclusive). */
  predicate Joins(ratio: Scorer, base: Word, w: Word)
  {
    ratio(base.romaji, w.romaji) >= Threshold
  }

  /** The words of s that join base, in the order of s. */
  function Joiners(ratio: Scorer, base: Word, s: seq<Word>): (r: seq<Word>)
    ensures |r| <= |s|
  {
    if s == [] then []
    else (if Joins(ratio, base, s[0]) then [s[0]] else []) + Joiners(ratio, base, s[1..])
  }

  /** The words of s that do not join base, in the order of s. */
  function Stayers(ratio: Scorer, base: Word, s: seq<Word>): (r: seq<Word>)
    ensures |r| <= |s|
  {
    if s == [] then []
    else (if Joins(ratio, base, s[0]) then [] else [s[0]]) + Stayers(ratio, base, s[1..])
  }

  /** The joiners are exactly the words of s that join base, and the
      stayers exactly those that do not. */
  lemma {:induction false} SplitMembers(ratio: Scorer, base: Word, s: seq<Word>)
    ensures forall w :: w in Joiners(ratio, base, s) <==> w in s && Joins(ratio, base, w)
    ensures forall w :: w in Stayers(ratio, base, s) <==> w in s && !Joins(ratio, base, w)
    decreases |s|
  {
    if s != [] {
      SplitMembers(ratio, base, s[1..]);
      assert s == [s[0]] + s[1..];
    }
  }

  /** Selecting the joiners of a concatenation selects from each part. */
  lemma {:induction false} JoinersAppend(ratio: Scorer, base: Word, a: seq<Word>, b: seq<Word>)
    ensures Joiners(ratio, base, a + b) == Joiners(ratio, base, a) + Joiners(ratio, base, b)
    decreases |a|
  {
    if a != [] {
      assert (a + b)[1..] == a[1..] + b;
      JoinersAppend(ratio, base, a[1..], b);
    } else {
      assert a + b == b;
    }
  }

  /** The first word of a list joins or stays; the rest is split alone. */
  lemma SplitCons(ratio: Scorer, base: Word, w: Word, s: seq<Word>)
    ensures Joiners(ratio, base, [w] + s) ==
            (if Joins(ratio, base, w) then [w] else []) + Joiners(ratio, base, s)
    ensures Stayers(ratio, base, [w] + s) ==
            (if Joins(ratio, base, w) then [] else [w]) + Stayers(ratio, base, s)
  {
  }

  /** Scanning one more word extends the joiners by that word exactly when
      it joins. */
  lemma JoinersStep(ratio: Scorer, base: Word, s: seq<Word>, i: nat)
    requires i < |s|
    ensures Joiners(ratio, base, s[..i + 1]) ==
            Joiners(ratio, base, s[..i]) + (if Joins(ratio, base, s[i]) then [s[i]] else [])
  {
    assert s[..i + 1] == s[..i] + [s[i]];
    assert [s[i]][1..] == [];
    JoinersAppend(ratio, base, s[..i], [s[i]]);
  }

  /** Joiners and stayers split s: together they hold each element of s
      exactly as often as s does. */
  lemma {:induction false} SplitIsPartition(ratio: Scorer, base: Word, s: seq<Word>)
    ensures multiset(Joiners(ratio, base, s)) + multiset(Stayers(ratio, base, s)) == multiset(s)
    decreases |s|
  {
    if s != [] {
      SplitIsPartition(ratio, base, s[1..]);
      assert s == [s[0]] + s[1..];
    }
  }

  /** Joiners and stayers both keep the order of s. */
  lemma {:induction false} SplitKeepsOrder(ratio: Scorer, base: Word, s: seq<Word>)
    ensures IsSubseq(Joiners(ratio, base, s), s)
    ensures IsSubseq(Stayers(ratio, base, s), s)
    decreases |s|
  {
    if s != [] {
      SplitKeepsOrder(ratio, base, s[1..]);
      assert s == [s[0]] + s[1..];
      if Joins(ratio, base, s[0]) {
        IsSubseqCons(s[0], Joiners(ratio, base, s[1..]), s[1..]);
        IsSubseqExtend(s[0], Stayers(ratio, base, s[1..]), s[1..]);
        assert Stayers(ratio, base, s) == Stayers(ratio, base, s[1..]);
      } else {
        assert Joiners(ratio, base, s) == Joiners(ratio, base, s[1..]);
        IsSubseqExtend(s[0], Joiners(ratio, base, s[1..]), s[1..]);
        IsSubseqCons(s[0], Stayers(ratio, base, s[1..]), s[1..]);
      }
    }
  }

  /** s with its first k joiners deleted: the working list part-way through
      the removal loop, once k of the matched words have been removed. */
  function DropFirstJoiners(ratio: Scorer, base: Word, s: seq<Word>, k: nat): (r: seq<Word>)
    ensures k <= |Joiners(ratio, base, s)| ==> |r| + k == |s|
    decreases |s|
  {
    if s == [] || k == 0 then s
    else if Joins(ratio, base, s[0]) then DropFirstJoiners(ratio, base, s[1..], k - 1)
    else [s[0]] + DropFirstJoiners(ratio, base, s[1..], k)
  }

  /** Removing by value the next matched word deletes exactly the next
      joiner: any earlier word equal to it would have the same romaji and so
      would have joined too. This is why `remove` never raises here. */
  lemma {:induction false} RemoveNextJoiner(ratio: Scorer, base: Word, s: seq<Word>, k: nat)
    requires k < |Joiners(ratio, base, s)|
    ensures RemoveFirst(DropFirstJoiners(ratio, base, s, k), Joiners(ratio, base, s)[k])
            == Some(DropFirstJoiners(ratio, base, s, k + 1))
    decreases |s|
  {
    var h, t := s[0], s[1..];
    var x := Joiners(ratio, base, s)[k];
    if Joins(ratio, base, h) {
      assert Joiners(ratio, base, s) == [h] + Joiners(ratio, base, t);
      if k == 0 {
        assert x == h;
        assert DropFirstJoiners(ratio, base, s, 1) == t;
        assert [h] + t == s;
        RemoveFirstHead(t, h);
      } else {
        assert x == Joiners(ratio, base, t)[k - 1];
        assert DropFirstJoiners(ratio, base, s, k) == DropFirstJoiners(ratio, base, t, k - 1);
        assert DropFirstJoiners(ratio, base, s, k + 1) == DropFirstJoiners(ratio, base, t, k);
        RemoveNextJoiner(ratio, base, t, k - 1);
      }
    } else {
      assert Joiners(ratio, base, s) == Joiners(ratio, base, t);
      assert Joins(ratio, base, x) by {
        assert x in Joiners(ratio, base, t);
        SplitMembers(ratio, base, t);
      }
      var d := DropFirstJoiners(ratio, base, t, k);
      assert DropFirstJoiners(ratio, base, s, k) == [h] + d by {
        if k == 0 {
          assert [h] + t == s;
        }
      }
      assert DropFirstJoiners(ratio, base, s, k + 1) == [h] + DropFirstJoiners(ratio, base, t, k + 1);
      RemoveNextJoiner(ratio, base, t, k);
      RemoveFirstCons(h, d, x);
    }
  }

  /** From the working list after k removals, removing the remaining
      joiners in turn leaves exactly the stayers. */
  lemma {:induction false} RemoveRestOfJoiners(ratio: Scorer, base: Word, s: seq<Word>, k: nat)
    requires k <= |Joiners(ratio, base, s)|
    ensures RemoveAll(DropFirstJoiners(ratio, base, s, k), Joiners(ratio, base, s)[k..])
            == Some(Stayers(ratio, base, s))
    decreases |Joiners(ratio, base, s)| - k
  {
    var j := Joiners(ratio, base, s);
    if k == |j| {
      assert j[k..] == [];
      DropAllJoiners(ratio, base, s);
    } else {
      RemoveJoinerStep(ratio, base, s, k);
      RemoveRestOfJoiners(ratio, base, s, k + 1);
    }
  }

  /** One more removal moves the working list from k to k + 1 removals. */
  lemma RemoveJoinerStep(ratio: Scorer, base: Word, s: seq<Word>, k: nat)
    requires k < |Joiners(ratio, base, s)|
    ensures RemoveAll(DropFirstJoiners(ratio, base, s, k), Joiners(ratio, base, s)[k..])
            == RemoveAll(DropFirstJoiners(ratio, base, s, k + 1), Joiners(ratio, base, s)[k + 1..])
  {
    var j := Joiners(ratio, base, s);
    RemoveNextJoiner(ratio, base, s, k);
    assert j[k..][0] == j[k];
    assert j[k..][1..] == j[k + 1..];
  }

  /** One round of the pass as list removals: popping the base and then
      removing each joiner by value, from the base followed by the rest,
      succeeds and leaves exactly the stayers of the rest. */
  lemma RemoveClusterLeavesStayers(ratio: Scorer, base: Word, rest: seq<Word>)
    ensures RemoveAll([base] + rest, [base] + Joiners(ratio, base, rest))
            == Some(Stayers(ratio, base, rest))
  {
    var j := Joiners(ratio, base, rest);
    RemoveFirstHead(rest, base);
    assert ([base] + j)[0] == base;
    assert ([base] + j)[1..] == j[0..];
    assert DropFirstJoiners(ratio, base, rest, 0) == rest;
    RemoveRestOfJoiners(ratio, base, rest, 0);
  }

  /** Once every joiner has been removed, what is left is the stayers. */
  lemma {:induction false} DropAllJoiners(ratio: Scorer, base: Word, s: seq<Word>)
    ensures DropFirstJoiners(ratio, base, s, |Joiners(ratio, base, s)|) == Stayers(ratio, base, s)
    decreases |s|
  {
    if s != [] {
      DropAllJoiners(ratio, base, s[1..]);
      if !Joins(ratio, base, s[0]) && |Joiners(ratio, base, s[1..])| == 0 {
        assert Joiners(ratio, base, s[1..]) == [];
        NoJoinersMeansStayers(ratio, base, s[1..]);
      }
    }
  }

  /** With no joiners in s, every word of s stays. */
  lemma {:induction false} NoJoinersMeansStayers(ratio: Scorer, base: Word, s: seq<Word>)
    requires Joiners(ratio, base, s) == []
    ensures Stayers(ratio, base, s) == s
    decreases |s|
  {
    if s != [] {
      assert !Joins(ratio, base, s[0]);
      NoJoinersMeansStayers(ratio, base, s[1..]);
      assert s == [s[0]] + s[1..];
    }
  }

  /** The clusters the greedy pass builds from the working list `remaining`:
      its first word is the base; the base followed by the other words that
      join it is the first cluster; the words that stay are clustered in
      turn. */
  function Clusters(ratio: Scorer, remaining: seq<Word>): (cs: seq<seq<Word>>)
    ensures |cs| <= |remaining|
    ensures cs == [] <==> remaining == []
    decreases |remaining|
  {
    if remaining == [] then []
    else
      var base, rest := remaining[0], remaining[1..];
      [[base] + Joiners(ratio, base, rest)] + Clusters(ratio, Stayers(ratio, base, rest))
  }
}
