/** The recommendation engine (src/recommender.py): brand and category
    affinity over a user's history rows, candidate filtering with a
    fallback, and ranking of the candidates. */
module Recommender {
  import opened Wrappers
  import opened DataProcessor
  import opened Ranking

  /** One row of an affinity table: a brand or category of the history, how
      many history rows carry it, their mean sentiment, the affinity score,
      and the history position where it first appears (the tie-break). */
  datatype Affinity<K> = Affinity(key: K, count: nat, avgSentiment: real, score: real, firstSeen: nat)

  /** What `recommend` raises: an out-of-bounds history position, or a table
      that has no `sentiment_score` column. */
  datatype RecommendError = PositionOutOfRange | MissingColumn(name: string)

  function BrandOf(r: Row): string { r.brand }
  function CategoryOf(r: Row): Category { r.category }
  function AffinityKey<K>(e: Affinity<K>): K { e.key }
  function AffinityScore<K>(e: Affinity<K>): real { e.score }
  function AffinityPos<K>(e: Affinity<K>): int { e.firstSeen }
  function Position(i: nat): int { i }

  function Min(a: int, b: int): int { if a <= b then a else b }

  // ------------------------------------------------------------- affinity

  /** Every history position addresses a row of the table. */
  predicate InRange(t: Table, history: seq<nat>) {
    forall k :: 0 <= k < |history| ==> history[k] < |t.rows|
  }

  /** `df.iloc[history]`: the history rows in history order, repeats kept. */
  function HistoryRows(t: Table, history: seq<nat>): (rows: seq<Row>)
    requires InRange(t, history)
    ensures |rows| == |history| && forall k :: 0 <= k < |history| ==> rows[k] == t.rows[history[k]]
  {
    seq(|history|, k requires 0 <= k < |history| => t.rows[history[k]])
  }

  /** The `key` column of `rows`. */
  function Column<K>(rows: seq<Row>, key: Row -> K): seq<K> {
    seq(|rows|, i requires 0 <= i < |rows| => key(rows[i]))
  }

  /** How many of `rows` carry `v` (`value_counts`). */
  function CountOf<K(==)>(rows: seq<Row>, key: Row -> K, v: K): nat {
    multiset(Column(rows, key))[v]
  }

  /** The total sentiment of the rows that carry `v`. */
  function SentimentSum<K(==)>(rows: seq<Row>, key: Row -> K, v: K): real
    decreases |rows|
  {
    if rows == [] then
      0.0
    else
      var last := rows[|rows| - 1];
      SentimentSum(rows[..|rows| - 1], key, v) + (if key(last) == v then last.sentiment else 0.0)
  }

  /** The distinct values of `xs`, in order of first appearance. */
  function Distinct<K(==)>(xs: seq<K>): (ds: seq<K>)
    ensures forall i :: 0 <= i < |ds| ==> ds[i] in xs
    ensures forall i :: 0 <= i < |xs| ==> xs[i] in ds
    ensures forall i, j :: 0 <= i < j < |ds| ==> ds[i] != ds[j]
  {
    if xs == [] then
      []
    else
      var d := Distinct(xs[..|xs| - 1]);
      var x := xs[|xs| - 1];
      assert xs == xs[..|xs| - 1] + [x];
      if x in d then d else d + [x]
  }

  /** The position where `v` first occurs in `xs`. */
  function FirstIndex<K(==)>(xs: seq<K>, v: K): (i: nat)
    requires v in xs
    ensures i < |xs| && xs[i] == v
  {
    if xs[0] == v then 0 else 1 + FirstIndex(xs[1..], v)
  }

  /** The affinity of one value that occurs in the rows. */
  function Entry<K(==)>(rows: seq<Row>, key: Row -> K, v: K): (e: Affinity<K>)
    requires v in Column(rows, key)
  {
    var n := CountOf(rows, key, v);
    var avg := SentimentSum(rows, key, v) / n as real;
    Affinity(v, n, avg, n as real * (1.0 + avg), FirstIndex(Column(rows, key), v))
  }

  /** One affinity row correctly describes its value in `rows`: its count is
      the number of rows carrying it, its mean is their mean sentiment, and
      its score is `count * (1 + mean)`. */
  ghost predicate Describes<K>(rows: seq<Row>, key: Row -> K, e: Affinity<K>) {
    && e.key in Column(rows, key)
    && e.count == CountOf(rows, key, e.key) >= 1
    && e.avgSentiment == SentimentSum(rows, key, e.key) / e.count as real
    && e.score == e.count as real * (1.0 + e.avgSentiment)
  }

  /** The affinity row built for a value describes it. */
  lemma EntryDescribes<K>(rows: seq<Row>, key: Row -> K, v: K)
    requires v in Column(rows, key)
    ensures Describes(rows, key, Entry(rows, key, v))
  {
    assert v in multiset(Column(rows, key));
  }

  /** One affinity row per distinct value of the rows, in order of first
      appearance. */
  function Entries<K(==)>(rows: seq<Row>, key: Row -> K): (entries: seq<Affinity<K>>)
    ensures forall j :: 0 <= j < |entries| ==> Describes(rows, key, entries[j])
    ensures forall i :: 0 <= i < |rows| ==> exists j :: 0 <= j < |entries| && entries[j].key == key(rows[i])
    ensures DistinctBy(AffinityKey, entries)
  {
    var values := Distinct(Column(rows, key));
    var entries := seq(|values|, j requires 0 <= j < |values| => Entry(rows, key, values[j]));
    EntriesFacts(rows, key, values, entries);
    entries
  }

  lemma EntriesFacts<K>(rows: seq<Row>, key: Row -> K, values: seq<K>, entries: seq<Affinity<K>>)
    requires values == Distinct(Column(rows, key))
    requires |entries| == |values|
    requires forall j :: 0 <= j < |values| ==> entries[j] == Entry(rows, key, values[j])
    ensures forall j :: 0 <= j < |entries| ==> Describes(rows, key, entries[j])
    ensures forall i :: 0 <= i < |rows| ==> exists j :: 0 <= j < |entries| && entries[j].key == key(rows[i])
    ensures DistinctBy(AffinityKey, entries)
  {
    var col := Column(rows, key);
    forall j | 0 <= j < |entries| ensures Describes(rows, key, entries[j]) {
      EntryDescribes(rows, key, values[j]);
    }
    forall i | 0 <= i < |rows| ensures exists j :: 0 <= j < |entries| && entries[j].key == key(rows[i]) {
      assert col[i] == key(rows[i]);
      assert col[i] in values;
      var j :| 0 <= j < |values| && values[j] == col[i];
      assert entries[j].key == key(rows[i]);
    }
    assert forall j :: 0 <= j < |values| ==> entries[j].key == values[j];
  }

  /** Sorting keeps what each affinity row says, which values have a row,
      and that no value has two. */
  lemma SortKeepsAffinity<K>(rows: seq<Row>, key: Row -> K, entries: seq<Affinity<K>>, table: seq<Affinity<K>>)
    requires multiset(entries) == multiset(table)
    requires forall j :: 0 <= j < |entries| ==> Describes(rows, key, entries[j])
    requires forall i :: 0 <= i < |rows| ==> exists j :: 0 <= j < |entries| && entries[j].key == key(rows[i])
    requires DistinctBy(AffinityKey, entries)
    ensures forall k :: 0 <= k < |table| ==> Describes(rows, key, table[k])
    ensures forall i :: 0 <= i < |rows| ==> exists k :: 0 <= k < |table| && table[k].key == key(rows[i])
    ensures forall k, m :: 0 <= k < m < |table| ==> table[k].key != table[m].key
  {
    forall k | 0 <= k < |table| ensures Describes(rows, key, table[k]) {
      assert table[k] in multiset(entries);
    }
    forall i | 0 <= i < |rows| ensures exists k :: 0 <= k < |table| && table[k].key == key(rows[i]) {
      var j :| 0 <= j < |entries| && entries[j].key == key(rows[i]);
      assert entries[j] in multiset(table);
    }
    PermutationKeepsDistinct(AffinityKey, entries, table);
  }

  /** `get_brand_affinity` / `get_category_affinity` over the history rows:
      one row per distinct value, each describing its value, covering every
      value of the history, in non-increasing score order. */
  function AffinityTable<K(==)>(rows: seq<Row>, key: Row -> K): (table: seq<Affinity<K>>)
    ensures forall k :: 0 <= k < |table| ==> Describes(rows, key, table[k])
    ensures forall i :: 0 <= i < |rows| ==> exists k :: 0 <= k < |table| && table[k].key == key(rows[i])
    ensures forall k, m :: 0 <= k < m < |table| ==> table[k].key != table[m].key
    ensures forall k, m :: 0 <= k < m < |table| ==> table[k].score >= table[m].score
    ensures Ranked(AffinityScore, AffinityPos, table)
  {
    var entries := Entries(rows, key);
    var table := SortBy(AffinityScore, AffinityPos, entries);
    SortKeepsAffinity(rows, key, entries, table);
    RankedScores(AffinityScore, AffinityPos, table);
    table
  }

  function BrandAffinity(rows: seq<Row>): seq<Affinity<string>> {
    AffinityTable(rows, BrandOf)
  }

  function CategoryAffinity(rows: seq<Row>): seq<Affinity<Category>> {
    AffinityTable(rows, CategoryOf)
  }

  /** With sentiments in [-1, 1] the rows carrying `v` sum to no less than
      minus their number, and to no more than their number. */
  lemma {:induction false} SumWithinCount<K>(rows: seq<Row>, key: Row -> K, v: K)
    requires forall i :: 0 <= i < |rows| ==> -1.0 <= rows[i].sentiment <= 1.0
    ensures -(CountOf(rows, key, v) as real) <= SentimentSum(rows, key, v) <= CountOf(rows, key, v) as real
    decreases |rows|
  {
    if rows != [] {
      var init := rows[..|rows| - 1];
      assert Column(rows, key) == Column(init, key) + [key(rows[|rows| - 1])];
      SumWithinCount(init, key, v);
    }
  }

  /** The mean of a sum that lies within [-n, n] lies within [-1, 1], and
      `n * (1 + mean)` within [0, 2n]. */
  lemma MeanBounds(sum: real, n: real, avg: real, score: real)
    requires n >= 1.0 && -n <= sum <= n
    requires avg == sum / n && score == n * (1.0 + avg)
    ensures -1.0 <= avg <= 1.0
    ensures 0.0 <= score <= 2.0 * n
  {
    assert avg * n == sum;
    assert score == n + sum;
  }

  /** An affinity row over sentiments in [-1, 1] has its mean in [-1, 1]
      and its score in [0, 2 * count]. */
  lemma DescribedInRange<K>(rows: seq<Row>, key: Row -> K, e: Affinity<K>)
    requires forall i :: 0 <= i < |rows| ==> -1.0 <= rows[i].sentiment <= 1.0
    requires Describes(rows, key, e)
    ensures -1.0 <= e.avgSentiment <= 1.0 && 0.0 <= e.score <= 2.0 * e.count as real
  {
    var sum := SentimentSum(rows, key, e.key);
    SumWithinCount(rows, key, e.key);
    MeanBounds(sum, e.count as real, e.avgSentiment, e.score);
  }

  /** With sentiments in [-1, 1] every mean lies in [-1, 1], so no affinity
      score is negative and none exceeds twice its count. */
  lemma AffinityInRange<K>(rows: seq<Row>, key: Row -> K)
    requires forall i :: 0 <= i < |rows| ==> -1.0 <= rows[i].sentiment <= 1.0
    ensures forall k :: 0 <= k < |AffinityTable(rows, key)| ==>
      var e := AffinityTable(rows, key)[k];
      -1.0 <= e.avgSentiment <= 1.0 && 0.0 <= e.score <= 2.0 * e.count as real
  {
    var table := AffinityTable(rows, key);
    forall k | 0 <= k < |table|
      ensures -1.0 <= table[k].avgSentiment <= 1.0 && 0.0 <= table[k].score <= 2.0 * table[k].count as real
    {
      DescribedInRange(rows, key, table[k]);
    }
  }

  /** `head(3).index`: the values of the first three rows of an affinity
      table; in a table of non-increasing score none of the values left out
      scores above a kept one. */
  function Preferred<K>(table: seq<Affinity<K>>): (keys: seq<K>)
    ensures |keys| == Min(3, |table|) <= 3
    ensures forall k :: 0 <= k < |keys| ==> keys[k] == table[k].key
    ensures (forall k, m :: 0 <= k < m < |table| ==> table[k].score >= table[m].score) ==>
      forall k, m :: 0 <= k < |keys| <= m < |table| ==> table[m].score <= table[k].score
  {
    seq(Min(3, |table|), k requires 0 <= k < Min(3, |table|) => table[k].key)
  }

  function PreferredBrands(t: Table, history: seq<nat>): seq<string>
    requires InRange(t, history)
  {
    Preferred(BrandAffinity(HistoryRows(t, history)))
  }

  function PreferredCategories(t: Table, history: seq<nat>): seq<Category>
    requires InRange(t, history)
  {
    Preferred(CategoryAffinity(HistoryRows(t, history)))
  }

  // ----------------------------------------------------------- candidates

  /** The primary filter on one row, apart from the history test. */
  predicate Matches(row: Row, brands: seq<string>, categories: seq<Category>, threshold: real) {
    (row.brand in brands || row.category in categories) && row.sentiment >= threshold
  }

  /** Row `i` passes the primary filter: not in the history, of one of the
      given brands or categories, and with sentiment at least the threshold. */
  predicate PrimaryEligible(t: Table, history: seq<nat>, brands: seq<string>, categories: seq<Category>,
                            threshold: real, i: nat)
    requires i < |t.rows|
  {
    i !in history && Matches(t.rows[i], brands, categories, threshold)
  }

  /** The positions below `n` that satisfy `p`, in increasing order (a
      boolean mask over the table). */
  function Where(n: nat, p: nat -> bool): (r: seq<nat>)
    ensures forall i: nat :: i in r <==> i < n && p(i)
    ensures forall a :: 0 <= a < |r| ==> r[a] < n
    ensures forall a, b :: 0 <= a < b < |r| ==> r[a] < r[b]
  {
    if n == 0 then [] else Where(n - 1, p) + (if p(n - 1) then [n - 1] else [])
  }

  /** The rows passing the primary filter, in table order. */
  function PrimaryRows(t: Table, history: seq<nat>, brands: seq<string>, categories: seq<Category>,
                       threshold: real): (c: seq<nat>)
    ensures forall i :: i in c ==> i < |t.rows| && PrimaryEligible(t, history, brands, categories, threshold, i)
    ensures forall i :: 0 <= i < |t.rows| && PrimaryEligible(t, history, brands, categories, threshold, i) ==> i in c
    ensures forall a, b :: 0 <= a < b < |c| ==> c[a] < c[b]
  {
    Where(|t.rows|, (i: nat) => i < |t.rows| && PrimaryEligible(t, history, brands, categories, threshold, i))
  }

  /** The rows outside the history, in table order. */
  function NonHistoryRows(t: Table, history: seq<nat>): (c: seq<nat>)
    ensures forall i :: i in c ==> i < |t.rows| && i !in history
    ensures forall i :: 0 <= i < |t.rows| && i !in history ==> i in c
    ensures forall a, b :: 0 <= a < b < |c| ==> c[a] < c[b]
  {
    Where(|t.rows|, i => i < |t.rows| && i !in history)
  }

  /** The candidate rows for the preferred `brands` and `categories`: those
      passing the primary filter, or, when none does, every row outside the
      history. */
  function Candidates(t: Table, history: seq<nat>, brands: seq<string>, categories: seq<Category>,
                      threshold: real): (c: seq<nat>)
    ensures forall i :: i in c ==> i < |t.rows| && i !in history
    ensures forall a, b :: 0 <= a < b < |c| ==> c[a] < c[b]
    ensures (exists i :: 0 <= i < |t.rows| && PrimaryEligible(t, history, brands, categories, threshold, i)) ==>
      forall i :: 0 <= i < |t.rows| ==> (i in c <==> PrimaryEligible(t, history, brands, categories, threshold, i))
    ensures (forall i :: 0 <= i < |t.rows| ==> !PrimaryEligible(t, history, brands, categories, threshold, i)) ==>
      forall i :: 0 <= i < |t.rows| ==> (i in c <==> i !in history)
  {
    var primary := PrimaryRows(t, history, brands, categories, threshold);
    if primary != [] then
      assert primary[0] in primary;
      primary
    else
      NonHistoryRows(t, history)
  }

  // -------------------------------------------------------------- ranking

  /** The candidate score: sentiment alone, or half sentiment and half the
      rating over 5 when the table has a rating column. In such a table a
      row without a rating has a NaN score (`HasScore` is false), and the
      value here is never compared. */
  function CandidateScore(hasRating: bool, row: Row): real {
    if hasRating then row.sentiment * 0.5 + row.rating.GetOr(0.0) / 5.0 * 0.5 else row.sentiment
  }

  function ScoreAt(t: Table, i: nat): real {
    if i < |t.rows| then CandidateScore(t.hasRating, t.rows[i]) else 0.0
  }

  /** Row `i` has a score that is a number: the table has no rating column,
      or the row's rating parsed. */
  predicate HasScore(t: Table, i: nat) {
    !t.hasRating || (i < |t.rows| && t.rows[i].rating.Some?)
  }

  /** Row `x` comes before row `y` in the order `nlargest(keep='first')`
      returns: a number before NaN, a higher number first, equal numbers and
      NaNs in table order. */
  predicate AheadOf(t: Table, x: nat, y: nat) {
    if HasScore(t, y) then
      HasScore(t, x) && (ScoreAt(t, x) > ScoreAt(t, y) || (ScoreAt(t, x) == ScoreAt(t, y) && x < y))
    else
      !HasScore(t, x) ==> x < y
  }

  /** The candidates whose score is a number (`has`) or NaN (`!has`), in
      order. */
  function WithScore(t: Table, candidates: seq<nat>, has: bool): (s: seq<nat>)
    requires forall a, b :: 0 <= a < b < |candidates| ==> candidates[a] < candidates[b]
    ensures forall i :: i in s <==> i in candidates && HasScore(t, i) == has
    ensures forall a, b :: 0 <= a < b < |s| ==> s[a] < s[b]
  {
    if candidates == [] then
      []
    else
      var rest := WithScore(t, candidates[1..], has);
      if HasScore(t, candidates[0]) == has then
        AboveHead(candidates, rest);
        [candidates[0]] + rest
      else
        rest
  }

  /** Every candidate has a number or a NaN as its score, never both. */
  lemma {:induction false} ScoreSplit(t: Table, candidates: seq<nat>)
    requires forall a, b :: 0 <= a < b < |candidates| ==> candidates[a] < candidates[b]
    ensures |WithScore(t, candidates, true)| + |WithScore(t, candidates, false)| == |candidates|
  {
    if candidates != [] {
      ScoreSplit(t, candidates[1..]);
    }
  }

  /** Prepending the head of an increasing sequence to an increasing
      sequence drawn from its tail keeps it increasing. */
  lemma AboveHead(candidates: seq<nat>, rest: seq<nat>)
    requires candidates != []
    requires forall a, b :: 0 <= a < b < |candidates| ==> candidates[a] < candidates[b]
    requires forall i :: i in rest ==> i in candidates[1..]
    requires forall a, b :: 0 <= a < b < |rest| ==> rest[a] < rest[b]
    ensures forall a, b :: 0 <= a < b < |[candidates[0]] + rest| ==>
      ([candidates[0]] + rest)[a] < ([candidates[0]] + rest)[b]
  {
    var s := [candidates[0]] + rest;
    forall a, b | 0 <= a < b < |s| ensures s[a] < s[b] {
      assert s[b] == rest[b - 1] && rest[b - 1] in rest;
      var j :| 0 <= j < |candidates[1..]| && candidates[1..][j] == rest[b - 1];
      assert candidates[j + 1] == rest[b - 1];
      if a > 0 {
        assert s[a] == rest[a - 1];
      }
    }
  }

  /** The candidates with a number as score, in ranked order, hold exactly
      those candidates, each ahead of every later one. */
  lemma RankedScored(t: Table, scored: seq<nat>, sorted: seq<nat>, score: nat -> real)
    requires forall i :: score(i) == ScoreAt(t, i)
    requires multiset(sorted) == multiset(scored) && Ranked(score, Position, sorted)
    requires forall a, b :: 0 <= a < b < |scored| ==> scored[a] < scored[b]
    ensures forall i :: i in sorted <==> i in scored
    ensures forall a, b :: 0 <= a < b < |sorted| ==>
      ScoreAt(t, sorted[a]) > ScoreAt(t, sorted[b]) ||
      (ScoreAt(t, sorted[a]) == ScoreAt(t, sorted[b]) && sorted[a] < sorted[b])
  {
    assert DistinctBy(Position, scored);
    PermutationKeepsDistinct(Position, scored, sorted);
    forall i ensures i in sorted <==> i in scored {
      assert i in sorted <==> i in multiset(sorted);
      assert i in scored <==> i in multiset(scored);
    }
  }

  /** The ranked numbers followed by the NaNs in table order are in
      `nlargest`'s order. */
  lemma JoinInOrder(t: Table, sorted: seq<nat>, unscored: seq<nat>)
    requires forall i :: i in sorted ==> HasScore(t, i)
    requires forall i :: i in unscored ==> !HasScore(t, i)
    requires forall a, b :: 0 <= a < b < |sorted| ==>
      ScoreAt(t, sorted[a]) > ScoreAt(t, sorted[b]) ||
      (ScoreAt(t, sorted[a]) == ScoreAt(t, sorted[b]) && sorted[a] < sorted[b])
    requires forall a, b :: 0 <= a < b < |unscored| ==> unscored[a] < unscored[b]
    ensures forall a, b :: 0 <= a < b < |sorted + unscored| ==>
      AheadOf(t, (sorted + unscored)[a], (sorted + unscored)[b])
  {
    var all := sorted + unscored;
    forall a, b | 0 <= a < b < |all| ensures AheadOf(t, all[a], all[b]) {
      if b < |sorted| {
        assert all[a] == sorted[a] && all[b] == sorted[b] && sorted[b] in sorted;
      } else if a < |sorted| {
        assert all[a] == sorted[a] && all[b] == unscored[b - |sorted|] && unscored[b - |sorted|] in unscored;
      } else {
        assert all[a] == unscored[a - |sorted|] && all[b] == unscored[b - |sorted|];
        assert unscored[a - |sorted|] in unscored;
      }
    }
  }

  /** Nothing left out of the first `m` of a sequence in `nlargest`'s order
      comes ahead of any of them. */
  lemma PrefixAhead(t: Table, all: seq<nat>, m: nat, c: nat)
    requires forall a, b :: 0 <= a < b < |all| ==> AheadOf(t, all[a], all[b])
    requires m <= |all| && c in all && c !in all[..m]
    ensures forall k :: 0 <= k < m ==> AheadOf(t, all[..m][k], c)
  {
    var j :| 0 <= j < |all| && all[j] == c;
    assert m <= j;
  }

  /** `nlargest(n, 'score')` with `keep='first'`: the first `n` candidates in
      its order (numbers highest first, then NaNs, ties and NaNs in table
      order); no candidate left out comes ahead of a chosen one. */
  function TopN(t: Table, candidates: seq<nat>, n: int): (r: seq<nat>)
    requires forall a, b :: 0 <= a < b < |candidates| ==> candidates[a] < candidates[b]
    ensures |r| == if n <= 0 then 0 else Min(n, |candidates|)
    ensures forall i :: i in r ==> i in candidates
    ensures forall a, b :: 0 <= a < b < |r| ==> r[a] != r[b]
    ensures forall a, b :: 0 <= a < b < |r| ==> AheadOf(t, r[a], r[b])
    ensures forall c, k :: c in candidates && c !in r && 0 <= k < |r| ==> AheadOf(t, r[k], c)
  {
    var scored := WithScore(t, candidates, true);
    var unscored := WithScore(t, candidates, false);
    var score := (i: nat) => ScoreAt(t, i);
    var sorted := SortBy(score, Position, scored);
    RankedScored(t, scored, sorted, score);
    JoinInOrder(t, sorted, unscored);
    ScoreSplit(t, candidates);
    var all := sorted + unscored;
    assert |sorted| == |multiset(scored)|;
    var m := if n <= 0 then 0 else Min(n, |candidates|);
    forall c | c in candidates && c !in all[..m]
      ensures forall k :: 0 <= k < m ==> AheadOf(t, all[..m][k], c)
    {
      assert c in all;
      PrefixAhead(t, all, m, c);
    }
    all[..m]
  }

  /** With `n >= 1`, any candidate guarantees a result. */
  lemma TopNNonEmpty(t: Table, candidates: seq<nat>, n: int, c: nat)
    requires forall a, b :: 0 <= a < b < |candidates| ==> candidates[a] < candidates[b]
    requires n >= 1 && c in candidates
    ensures TopN(t, candidates, n) != []
  {
  }

  // ------------------------------------------------------------ recommend

  /** `recommend` against the engine's table, `None` before training. */
  function Recommendations(df: Option<Table>, history: seq<nat>, topN: int, threshold: real)
    : (r: Result<seq<nat>, RecommendError>)
    ensures df.None? ==> r == Ok([])
    ensures df.Some? ==> (r == Err(PositionOutOfRange) <==> !InRange(df.value, history))
    ensures df.Some? ==>
      (r == Err(MissingColumn("sentiment_score")) <==> InRange(df.value, history) && !df.value.hasSentiment)
    ensures r.Ok? ==> |r.value| <= (if topN <= 0 then 0 else topN)
    ensures r.Ok? ==> forall i :: i in r.value ==> i !in history
    ensures r.Ok? && df.Some? ==> forall i :: i in r.value ==> i < |df.value.rows|
  {
    match df
    case None => Ok([])
    case Some(t) =>
      if !InRange(t, history) then
        Err(PositionOutOfRange)
      else if !t.hasSentiment then
        Err(MissingColumn("sentiment_score"))
      else
        Ok(Recommended(t, history, topN, threshold))
  }

  /** The recommended rows of a trained table: the best `topN` candidates for
      the history's preferred brands and categories. */
  function Recommended(t: Table, history: seq<nat>, topN: int, threshold: real): (r: seq<nat>)
    requires InRange(t, history)
    ensures |r| <= (if topN <= 0 then 0 else topN)
    ensures forall i :: i in r ==> i < |t.rows| && i !in history
  {
    TopN(t, Candidates(t, history, PreferredBrands(t, history), PreferredCategories(t, history), threshold), topN)
  }

  /** A row outside the history guarantees a candidate. */
  lemma CandidateExists(t: Table, history: seq<nat>, brands: seq<string>, categories: seq<Category>,
                        threshold: real, i: nat)
    requires i < |t.rows| && i !in history
    ensures Candidates(t, history, brands, categories, threshold) != []
  {
    var c := Candidates(t, history, brands, categories, threshold);
    if exists j :: 0 <= j < |t.rows| && PrimaryEligible(t, history, brands, categories, threshold, j) {
      var j :| 0 <= j < |t.rows| && PrimaryEligible(t, history, brands, categories, threshold, j);
      assert j in c;
    } else {
      assert i in c;
    }
  }

  /** The fallback keeps the result from starving: with some row outside the
      history and `top_n >= 1`, a trained engine recommends something. */
  lemma FallbackNonEmpty(t: Table, history: seq<nat>, topN: int, threshold: real, i: nat)
    requires InRange(t, history) && t.hasSentiment
    requires topN >= 1 && i < |t.rows| && i !in history
    ensures var r := Recommendations(Some(t), history, topN, threshold);
      r.Ok? && r.value != []
  {
    RecommendedNonEmpty(t, history, topN, threshold, i);
  }

  lemma RecommendedNonEmpty(t: Table, history: seq<nat>, topN: int, threshold: real, i: nat)
    requires InRange(t, history)
    requires topN >= 1 && i < |t.rows| && i !in history
    ensures Recommended(t, history, topN, threshold) != []
  {
    var brands := PreferredBrands(t, history);
    var categories := PreferredCategories(t, history);
    var c := Candidates(t, history, brands, categories, threshold);
    CandidateExists(t, history, brands, categories, threshold, i);
    assert c[0] in c;
    TopNNonEmpty(t, c, topN, c[0]);
  }

  /** When some row passes the primary filter, every one of the best `topN`
      candidates passes it. */
  lemma BestArePrimary(t: Table, history: seq<nat>, brands: seq<string>, categories: seq<Category>,
                       topN: int, threshold: real, i: nat)
    requires i < |t.rows| && PrimaryEligible(t, history, brands, categories, threshold, i)
    ensures var r := TopN(t, Candidates(t, history, brands, categories, threshold), topN);
      forall j :: j in r ==> j < |t.rows| && PrimaryEligible(t, history, brands, categories, threshold, j)
  {
    var c := Candidates(t, history, brands, categories, threshold);
    assert forall j :: j in c ==> j < |t.rows| && PrimaryEligible(t, history, brands, categories, threshold, j);
  }

  /** When no row passes the primary filter, no row outside the history with
      a score that was left out scores above one of the best `topN`, and
      each of those has a score. */
  lemma BestOfFallback(t: Table, history: seq<nat>, brands: seq<string>, categories: seq<Category>,
                       topN: int, threshold: real)
    requires forall j :: 0 <= j < |t.rows| ==> !PrimaryEligible(t, history, brands, categories, threshold, j)
    ensures var r := TopN(t, Candidates(t, history, brands, categories, threshold), topN);
      forall i, k :: 0 <= i < |t.rows| && i !in history && HasScore(t, i) && i !in r && 0 <= k < |r| ==>
        HasScore(t, r[k]) && ScoreAt(t, i) <= ScoreAt(t, r[k])
  {
    var c := Candidates(t, history, brands, categories, threshold);
    assert forall i :: 0 <= i < |t.rows| && i !in history ==> i in c;
  }

  /** The best `topN` candidates for the preferred `brands` and
      `categories` (what `Recommended` returns for the history's own
      preferences) are the best rows: every one passes the primary filter
      when any row does, and otherwise every row outside the history that
      has a score and is left out scores no higher than each returned row. */
  lemma RecommendationsAreBest(t: Table, history: seq<nat>, brands: seq<string>, categories: seq<Category>,
                               topN: int, threshold: real)
    ensures var r := TopN(t, Candidates(t, history, brands, categories, threshold), topN);
      && ((exists i :: 0 <= i < |t.rows| && PrimaryEligible(t, history, brands, categories, threshold, i)) ==>
            forall i :: i in r ==> i < |t.rows| && PrimaryEligible(t, history, brands, categories, threshold, i))
      && ((forall j :: 0 <= j < |t.rows| ==> !PrimaryEligible(t, history, brands, categories, threshold, j)) ==>
            forall i, k :: 0 <= i < |t.rows| && i !in history && HasScore(t, i) && i !in r && 0 <= k < |r| ==>
              HasScore(t, r[k]) && ScoreAt(t, i) <= ScoreAt(t, r[k]))
  {
    if i :| 0 <= i < |t.rows| && PrimaryEligible(t, history, brands, categories, threshold, i) {
      BestArePrimary(t, history, brands, categories, topN, threshold, i);
    } else {
      BestOfFallback(t, history, brands, categories, topN, threshold);
    }
  }

  /** When every history row carries the same value, that value is the
      only preferred one. */
  lemma UniformPreferred<K>(rows: seq<Row>, key: Row -> K, v: K)
    requires rows != [] && forall i :: 0 <= i < |rows| ==> key(rows[i]) == v
    ensures Preferred(AffinityTable(rows, key)) == [v]
  {
    var table := AffinityTable(rows, key);
    var k :| 0 <= k < |table| && table[k].key == key(rows[0]);
    forall m | 0 <= m < |table| ensures table[m].key == v {
      assert Describes(rows, key, table[m]);
      var i :| 0 <= i < |rows| && Column(rows, key)[i] == table[m].key;
    }
    DistinctOfConstant(Column(rows, key), v);
    assert |Entries(rows, key)| == 1;
    var keys := Preferred(table);
    assert |keys| == 1 && keys[0] == v;
  }

  /** A column that carries one value throughout has that value as its
      only distinct value. */
  lemma {:induction false} DistinctOfConstant<K>(xs: seq<K>, v: K)
    requires xs != [] && forall i :: 0 <= i < |xs| ==> xs[i] == v
    ensures Distinct(xs) == [v]
  {
    if |xs| > 1 {
      DistinctOfConstant(xs[..|xs| - 1], v);
    }
  }

  /** The preferences of a one-row history are that row's brand and
      category. */
  lemma SingleHistoryPreferred(t: Table, a: nat)
    requires a < |t.rows|
    ensures PreferredBrands(t, [a]) == [t.rows[a].brand]
    ensures PreferredCategories(t, [a]) == [t.rows[a].category]
  {
    var rows := HistoryRows(t, [a]);
    UniformPreferred(rows, BrandOf, t.rows[a].brand);
    UniformPreferred(rows, CategoryOf, t.rows[a].category);
  }

  /** With the history's own brand and category as the only preferred ones,
      the primary filter keeps exactly the other row, so it is the only
      candidate. */
  lemma SingleCandidate(t: Table, a: nat, b: nat, brands: seq<string>, categories: seq<Category>, threshold: real)
    requires a < |t.rows| && b < |t.rows| && a != b
    requires brands == [t.rows[a].brand] && categories == [t.rows[a].category]
    requires t.rows[b].brand == t.rows[a].brand && t.rows[b].sentiment >= threshold
    requires forall i :: 0 <= i < |t.rows| && i != a && i != b ==>
      t.rows[i].brand != t.rows[a].brand && t.rows[i].category != t.rows[a].category
    ensures Candidates(t, [a], brands, categories, threshold) == [b]
  {
    var p := PrimaryRows(t, [a], brands, categories, threshold);
    assert b in p;
    forall i | i in p ensures i == b {
      assert i < |t.rows| && i != a && Matches(t.rows[i], brands, categories, threshold);
      assert t.rows[i].brand == t.rows[a].brand || t.rows[i].category == t.rows[a].category;
    }
    OnlyMember(p, b);
  }

  /** An increasing sequence holding `b` and nothing else is `[b]`. */
  lemma OnlyMember(p: seq<nat>, b: nat)
    requires b in p && forall i :: i in p ==> i == b
    requires forall x, y :: 0 <= x < y < |p| ==> p[x] < p[y]
    ensures p == [b]
  {
    var k :| 0 <= k < |p| && p[k] == b;
    assert k == 0 by { assert p[0] in p; }
    assert k == |p| - 1 by { assert p[|p| - 1] in p; }
  }

  /** A history of one row whose brand exactly one other row shares, and
      whose brand and category no further row has: with `top_n = 1` and that
      other row meeting the threshold, it is the recommendation. */
  lemma SharedBrandScenario(t: Table, a: nat, b: nat, threshold: real)
    requires a < |t.rows| && b < |t.rows| && a != b && t.hasSentiment
    requires t.rows[b].brand == t.rows[a].brand && t.rows[b].sentiment >= threshold
    requires forall i :: 0 <= i < |t.rows| && i != a && i != b ==>
      t.rows[i].brand != t.rows[a].brand && t.rows[i].category != t.rows[a].category
    ensures Recommendations(Some(t), [a], 1, threshold) == Ok([b])
  {
    assert InRange(t, [a]);
    RecommendedOne(t, a, b, threshold);
  }

  /** The scenario above, before the table checks: the best candidate is the
      row that shares the brand. */
  lemma RecommendedOne(t: Table, a: nat, b: nat, threshold: real)
    requires a < |t.rows| && b < |t.rows| && a != b
    requires t.rows[b].brand == t.rows[a].brand && t.rows[b].sentiment >= threshold
    requires forall i :: 0 <= i < |t.rows| && i != a && i != b ==>
      t.rows[i].brand != t.rows[a].brand && t.rows[i].category != t.rows[a].category
    ensures Recommended(t, [a], 1, threshold) == [b]
  {
    SingleHistoryPreferred(t, a);
    SingleCandidate(t, a, b, PreferredBrands(t, [a]), PreferredCategories(t, [a]), threshold);
    TopOfOne(t, b);
  }

  /** The best one of a single candidate is that candidate. */
  lemma TopOfOne(t: Table, b: nat)
    ensures TopN(t, [b], 1) == [b]
  {
    TopNNonEmpty(t, [b], 1, b);
    var r := TopN(t, [b], 1);
    assert r[0] in [b];
  }

  // --------------------------------------------------------------- engine

  /** The engine: `df` is `None` until `train` stores a copy of the table. */
  class RecommendationSystem {
    var df: Option<Table>

    constructor()
      ensures df == None
    {
      df := None;
    }

    /** `train`: replaces the stored table wholesale. */
    method Train(t: Table)
      modifies this
      ensures df == Some(t)
    {
      df := Some(t);
    }

    /** `recommend`: reads the stored table and changes nothing. */
    method Recommend(history: seq<nat>, topN: int, threshold: real) returns (r: Result<seq<nat>, RecommendError>)
      ensures r == Recommendations(df, history, topN, threshold)
      ensures df.None? ==> r == Ok([])
      ensures r.Ok? ==> |r.value| <= (if topN <= 0 then 0 else topN)
      ensures r.Ok? ==> forall i :: i in r.value ==> i !in history
    {
      r := Recommendations(df, history, topN, threshold);
    }
  }
}
