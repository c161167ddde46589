# Phonetic clustering of a Japanese vocabulary list

The app is a Streamlit script. It imports openai, gTTS and rapidfuzz and
loads an OpenAI API key from Streamlit secrets. It defines a fixed list of
Japanese words (hiragana, English meaning, romaji), groups them into
clusters of words that sound alike, and lists six memory-palace rooms. It
then begins a function that asks a language model for a story about a
cluster; that definition breaks off unfinished. The only logic in the
script is the greedy clustering pass.
This project models that pass and proves what it guarantees.

The pass works on a copy of the word list, `remaining`:

1. It pops the first word. That word is the *base* of a new cluster.
2. It scans the other remaining words in order. Every word whose romaji
   scores at least 70 against the base's romaji (`fuzz.ratio`) is appended,
   in scan order, to the cluster and to a `to_remove` list.
3. It removes each word of `to_remove` from `remaining` with
   `list.remove`, which deletes the first element equal to the word.
4. It records the cluster. It repeats until `remaining` is empty.

Layout:

- `vocabulary.dfy` (`Vocabulary`): the `Word` record, the sample catalog
  and the list of palace rooms.
- `list_ops.dfy` (`ListOps`): the list operations the pass uses.
  `RemoveFirst` is `list.remove`, and `None` stands for its `ValueError`.
  `RemoveAll` is a run of such removals, one word at a time.
  `IsSubseq` means "keeps relative order". `Flatten` concatenates clusters.
- `clustering.dfy` (`Clustering`): the specification. `Joins` is the
  score test. `Joiners` and `Stayers` are the words that join a base and
  those that stay. `DropFirstJoiners` is the working list part-way
  through the removals. `Clusters` is the whole pass as a recursive
  function.
- `clustering_properties.dfy` (`ClusteringProperties`): the properties of
  `Clusters`, proved for every scorer and every word list, plus the
  concrete scenarios. `Leftover` is the working list after some rounds:
  the input with the earlier clusters' words removed one by one.
- `app.dfy` (`App`): the pass as a method, with one `while` loop and two
  `for` loops like the script. Each `for` loop is its own method. The
  result is proved equal to `Clusters`.

`fuzz.ratio` belongs to a library outside the model. Every definition
takes it as a parameter `ratio: (string, string) -> real`. A word joins a
base when `ratio(base.romaji, word.romaji) >= 70.0`. The bound is
inclusive, as in the script.

## Model

| member | source | states |
|---|---|---|
| `App.ClusterWords` | app.py:28-40 | The loop's result equals `Clusters(ratio, words)` and is `WellClustered`: a partition of the input, stars around their bases, separated from earlier bases, in input order, and each base is the first word left once the earlier clusters' words are removed. The outer loop terminates because the length of `remaining` decreases. |
| `App.CollectClose` | app.py:32-37 | The scan returns `to_remove` equal to the words of the list that score at least 70 against the base, in scan order. The cluster is the base followed by exactly those words. |
| `App.RemoveEach` | app.py:38-39 | Given the list the scan collected, removing each collected word by value, one `remove` at a time, never raises: the removals in turn (`RemoveAll`) succeed with the loop's result. It leaves exactly the words that do not join the base, in their original order. |
| `ListOps.RemoveFirst` | app.py:39 | `list.remove` fails (None, for ValueError) exactly when no element equals the word. Otherwise the list has one element fewer: one copy of the word is gone and every other element is kept as often as before. |
| `ListOps.RemoveFirstHead` | app.py:39 | When the list starts with the word, `remove` deletes that head and nothing else. |
| `ListOps.RemoveFirstCons` | app.py:39 | When the head differs from the word, `remove` keeps the head and removes from the tail, or fails when the tail has no copy. With `RemoveFirstHead`, this pins the deleted copy to the first occurrence. |
| `ListOps.FirstIndex` | app.py:39 | The index `remove` deletes at is the first one holding the word. It equals the list's length exactly when the word is absent, and no earlier index holds the word. |
| `ListOps.RemoveAll` | app.py:38-39 | Removing the words of a list one `remove` at a time, so the first failure (ValueError) ends it. On success the result is shorter by the number of words removed, and exactly one copy of each removed word is gone. |
| `ListOps.RemoveAllAppend` | app.py:38-39 | Removing the words of `a + b` in turn is removing those of `a`, then those of `b` from what is left. A failure in `a` is a failure of the whole. |
| `Clustering.Joins` | app.py:35 | The score test: a word joins a base when `fuzz.ratio` of their romaji is at least 70, bound included. `ThresholdBoundary` shows that a score of exactly 70 joins and a score below 70 does not. |
| `Clustering.Joiners` | app.py:34-37 | The words collected while scanning are never more than the words scanned. What they are exactly is stated by `SplitMembers`, `SplitIsPartition` and `SplitKeepsOrder`. |
| `Clustering.Stayers` | app.py:38-39 | The words left after the removals are never more than the words scanned. What they are exactly is stated by `SplitMembers`, `SplitIsPartition`, `SplitKeepsOrder` and `DropAllJoiners`. |
| `Clustering.SplitMembers` | app.py:34-37 | A word is collected into the cluster iff it is in the list and scores at least the threshold against the base. It stays iff it is in the list and scores below. |
| `Clustering.SplitIsPartition` | app.py:33-39 | One pass splits the remaining words into joiners and stayers. Together they hold every word exactly as often as the list did. |
| `Clustering.SplitKeepsOrder` | app.py:34-39 | Both the joiners and the surviving `remaining` keep the relative order of the scanned list. |
| `Clustering.JoinersStep` | app.py:34-37 | Scanning one more word appends it to `to_remove` exactly when it scores at least the threshold. |
| `Clustering.DropFirstJoiners` | app.py:38-39 | `remaining` part-way through the removal loop, after k removals: it is k words shorter than the scanned list. `RemoveNextJoiner` shows each removal deletes exactly the next joiner, and `DropAllJoiners` shows that after all of them only the stayers are left. |
| `Clustering.RemoveNextJoiner` | app.py:38-39 | Part-way through the removals, removing the next collected word by value deletes exactly the next joiner. A stayer equal to it cannot come first, since equal words have equal romaji. |
| `Clustering.DropAllJoiners` | app.py:38-39 | After every collected word is removed, the working list is exactly the in-order filter of the words that did not join. |
| `Clustering.RemoveRestOfJoiners` | app.py:38-39 | From the working list after any number k of removals, the remaining collected words can all be removed in turn, and what is left is exactly the stayers. |
| `Clustering.RemoveClusterLeavesStayers` | app.py:31-39 | Popping the base and then removing every collected word by value, from the base followed by the rest, never fails and leaves the stayers of the rest. |
| `Clustering.Clusters` | app.py:28-40 | There are never more clusters than words. There are no clusters exactly when the input is empty. |
| `ClusteringProperties.ClustersPartition` | app.py:28-40 | Flattened, the clusters are a permutation (multiset-equal) of the input. No word is dropped or duplicated. |
| `ClusteringProperties.ClustersAreStars` | app.py:31-37 | Every cluster is non-empty, and the first cluster starts with the first input word. Every non-base member scored at least 70 against its cluster's base. The base of every later cluster is stated by `ClustersGreedyBases`. |
| `ClusteringProperties.ClustersSeparated` | app.py:34-40 | Every word of a later cluster, its base included, scored below 70 against the base of every earlier cluster. |
| `ClusteringProperties.ClustersKeepOrder` | app.py:29-40 | Each cluster keeps the input's relative order. The bases of successive clusters appear in input order. |
| `ClusteringProperties.Leftover` | app.py:30-39 | `remaining` at the top of round i: the input with the words of the first i clusters removed one by one. When the removals succeed, it is shorter by exactly those words, multiset-wise. `ClustersFromLeftover` and `ClustersGreedyBases` show what the rest of the pass does with it. |
| `ClusteringProperties.ClustersFromLeftover` | app.py:29-40 | After any number i of rounds, removing the words of the first i clusters from the input succeeds. Clustering what is left gives exactly the clusters still to come, so the working list after i rounds determines the rest of the pass. |
| `ClusteringProperties.ClustersGreedyBases` | app.py:30-39 | The base of every cluster is the first word left once the words of all earlier clusters have been removed from the input, one `remove` at a time. |
| `ClusteringProperties.LeftoverKeepsOrder` | app.py:29-39 | Across all rounds, `remaining` keeps the input's relative order: after any number of rounds it is a subsequence of the input. |
| `ClusteringProperties.ClustersWellClustered` | app.py:28-40 | The clusters of every input under every scorer meet all of the promises above together, the greedy choice of every base included. |
| `ClusteringProperties.HomophonesShareCluster` | app.py:34-39 | Two words with the same romaji always end up in the same cluster, provided that romaji scores at least 70 against itself. |
| `ClusteringProperties.CatalogHomophones` | app.py:14-25 | In the sample catalog, the two "neko" entries share a cluster, and so do the two "hana" entries. |
| `ClusteringProperties.ThresholdBoundary` | app.py:35 | Two words scoring exactly 70 form one cluster. Two words scoring below 70 form two singleton clusters. |
| `ClusteringProperties.StarIsNotClique` | app.py:34-36 | Some scorer and three words produce one cluster whose two non-base members score below 70 against each other. Membership is tested only against the base. |
| `ClusteringProperties.NekoScenario` | app.py:15-18 | The input neko, neko, inu, saru gives the clusters [neko, neko], [inu], [saru], in that order. The scorer joins "neko" to itself and keeps every other pair below 70. |

## Left out

- `fuzz.ratio` itself (the rapidfuzz library, app.py:5 and app.py:35) is a parameter. The model does not compute Indel similarity. It treats the score as a real number, so float rounding near 70 is not modelled.
- The API key loaded from Streamlit secrets (app.py:11) is configuration with no logic.
- The story generator (app.py:46 onward) is a network call to a language model. Its definition in app.py ends unfinished at line 47.
- Speech output through gTTS and `BytesIO` (app.py:7-8) is external I/O.
- The palace assignment: only the room list (app.py:43) is part of the model, as `Vocabulary.Locations`. The text of app.py stops before any code that maps clusters to rooms.
- All Streamlit rendering is UI.
- Determinism needs no lemma: every definition is a function of the word list and the scorer.
- `words` being left untouched (app.py:29) needs no lemma: Dafny sequences are values, so the method cannot change its input.
- The script's two inner loops are not inline in the body of `ClusterWords`. They are the methods `CollectClose` and `RemoveEach`, run in the same order on the same values. This changes the proof structure only, not the behaviour.
