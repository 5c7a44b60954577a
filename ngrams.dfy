/**
 * `generateNGrams(tokens, n)`: count every lower-cased, space-joined window of
 * `n` consecutive tokens whose text is longer than one character, then return
 * the 20 most frequent grams as `[gram, count]` pairs, most frequent first,
 * grams with equal counts in the order in which they were first counted.
 *
 * `lower` stands for `String.prototype.toLowerCase`, which is runtime code
 * outside this model; nothing is assumed about it here.
 */
module NGrams {
  import opened Strings
  import opened Counter
  import opened StableSort

  /** `.slice(0, 20)`: how many ranked grams are returned. */
  const TopCount: nat := 20

  /** How many times the counting loop `for (i = 0; i <= tokens.length - n; i++)` runs. */
  function WindowCount(len: nat, n: nat): nat
  {
    if n <= len then len - n + 1 else 0
  }

  /** `tokens.slice(i, i + n).join(' ').toLowerCase()`. */
  function Window(tokens: seq<string>, n: nat, lower: string -> string, i: nat): string
    requires i + n <= |tokens|
  {
    lower(Join(tokens[i..i + n], " "))
  }

  /** The grams the loop counts at positions `0 .. m - 1`, in order: the windows whose text is
      longer than one character. */
  function GramsUpTo(tokens: seq<string>, n: nat, lower: string -> string, m: nat): seq<string>
    requires m <= WindowCount(|tokens|, n)
  {
    if m == 0 then []
    else
      var gram := Window(tokens, n, lower, m - 1);
      GramsUpTo(tokens, n, lower, m - 1) + (if |gram| > 1 then [gram] else [])
  }

  /** Every gram the loop counts, in order. */
  function Grams(tokens: seq<string>, n: nat, lower: string -> string): seq<string>
  {
    GramsUpTo(tokens, n, lower, WindowCount(|tokens|, n))
  }

  /** The window positions whose gram text is `g`. */
  function Positions(tokens: seq<string>, n: nat, lower: string -> string, g: string, m: nat): set<nat>
    requires m <= WindowCount(|tokens|, n)
  {
    set i: nat | i < m && Window(tokens, n, lower, i) == g
  }

  /** The sort key of `(a, b) => b[1] - a[1]`: the count. */
  function CountKey(e: Entry): real
  {
    e.count as real
  }

  /** `Object.entries(counter).sort((a, b) => b[1] - a[1]).slice(0, 20)`: the entries stably
      sorted by count, largest first, cut to the first `TopCount`. */
  function Ranking(es: seq<Entry>): seq<Entry>
  {
    var ranked := SortDesc(es, CountKey);
    if |ranked| <= TopCount then ranked else ranked[..TopCount]
  }

  /** The value of `generateNGrams(tokens, n)`. */
  function RankNGrams(tokens: seq<string>, n: nat, lower: string -> string): (r: seq<Entry>)
    ensures |r| <= TopCount
    ensures n > |tokens| ==> r == []
  {
    Ranking(Tally(Grams(tokens, n, lower)))
  }

  /** One more turn of the counting loop. */
  lemma GramsUpToStep(tokens: seq<string>, n: nat, lower: string -> string, m: nat)
    requires m < WindowCount(|tokens|, n)
    ensures var gram := Window(tokens, n, lower, m);
            Tally(GramsUpTo(tokens, n, lower, m + 1)) ==
              if |gram| > 1 then Bump(Tally(GramsUpTo(tokens, n, lower, m)), gram)
              else Tally(GramsUpTo(tokens, n, lower, m))
  {
    var before := GramsUpTo(tokens, n, lower, m);
    var gram := Window(tokens, n, lower, m);
    if |gram| > 1 {
      assert (before + [gram])[..|before|] == before;
    } else {
      assert before + [] == before;
    }
  }

  /** `generateNGrams(tokens, n)`: the counting loop fills the insertion-ordered counter
      `ngrams`, then its entries are sorted and cut. */
  method GenerateNGrams(tokens: seq<string>, n: nat, lower: string -> string) returns (top: seq<Entry>)
    ensures top == RankNGrams(tokens, n, lower)
  {
    var ngrams: seq<Entry> := [];
    var i := 0;
    while i <= |tokens| - n
      invariant 0 <= i <= WindowCount(|tokens|, n)
      invariant ngrams == Tally(GramsUpTo(tokens, n, lower, i))
    {
      var gram := lower(Join(tokens[i..i + n], " "));
      GramsUpToStep(tokens, n, lower, i);
      if |gram| > 1 {
        ngrams := Bump(ngrams, gram);
      }
      i := i + 1;
    }
    assert i == WindowCount(|tokens|, n);
    assert ngrams == Tally(Grams(tokens, n, lower));
    var ranked := SortDesc(ngrams, CountKey);
    top := if |ranked| <= TopCount then ranked else ranked[..TopCount];
    assert top == Ranking(ngrams);
  }

  /** Each counted gram is longer than one character, and a gram is counted once for every
      window position whose joined, lower-cased text equals it. */
  lemma {:induction false} GramsCountPositions(tokens: seq<string>, n: nat, lower: string -> string, g: string, m: nat)
    requires m <= WindowCount(|tokens|, n)
    ensures multiset(GramsUpTo(tokens, n, lower, m))[g] ==
              if |g| > 1 then |Positions(tokens, n, lower, g, m)| else 0
  {
    if m > 0 {
      GramsCountPositions(tokens, n, lower, g, m - 1);
      PositionsStep(tokens, n, lower, g, m);
      GramsUpToCountStep(tokens, n, lower, g, m);
    }
  }

  /** One more window position adds one occurrence of its own text, if that text is counted. */
  lemma GramsUpToCountStep(tokens: seq<string>, n: nat, lower: string -> string, g: string, m: nat)
    requires 0 < m <= WindowCount(|tokens|, n)
    ensures multiset(GramsUpTo(tokens, n, lower, m))[g] ==
              multiset(GramsUpTo(tokens, n, lower, m - 1))[g] +
              (if |g| > 1 && Window(tokens, n, lower, m - 1) == g then 1 else 0)
  {
    var before := GramsUpTo(tokens, n, lower, m - 1);
    var w := Window(tokens, n, lower, m - 1);
    assert GramsUpTo(tokens, n, lower, m) == before + (if |w| > 1 then [w] else []);
  }

  /** One more window position adds itself to the positions of its own text only. */
  lemma PositionsStep(tokens: seq<string>, n: nat, lower: string -> string, g: string, m: nat)
    requires 0 < m <= WindowCount(|tokens|, n)
    ensures |Positions(tokens, n, lower, g, m)| ==
              |Positions(tokens, n, lower, g, m - 1)| + (if Window(tokens, n, lower, m - 1) == g then 1 else 0)
  {
    var p := Positions(tokens, n, lower, g, m - 1);
    if Window(tokens, n, lower, m - 1) == g {
      assert Positions(tokens, n, lower, g, m) == p + {m - 1};
      assert m - 1 !in p;
    } else {
      assert Positions(tokens, n, lower, g, m) == p;
    }
  }

  /** The loop counts at most one gram per window position. */
  lemma {:induction false} GramsUpToLength(tokens: seq<string>, n: nat, lower: string -> string, m: nat)
    requires m <= WindowCount(|tokens|, n)
    ensures |GramsUpTo(tokens, n, lower, m)| <= m
  {
    if m > 0 {
      GramsUpToLength(tokens, n, lower, m - 1);
    }
  }

  /** With fewer tokens than the window size the loop never runs and the result is empty. */
  lemma RankNGramsShortInput(tokens: seq<string>, n: nat, lower: string -> string)
    requires n > |tokens|
    ensures RankNGrams(tokens, n, lower) == []
  {
    assert Grams(tokens, n, lower) == [];
  }

  /** The ranking is the first `min(|es|, TopCount)` entries of the sorted counter. */
  lemma RankingPrefix(es: seq<Entry>)
    ensures |Ranking(es)| <= TopCount && |Ranking(es)| <= |es|
    ensures |Ranking(es)| == TopCount || |Ranking(es)| == |es|
    ensures forall i :: 0 <= i < |Ranking(es)| ==> Ranking(es)[i] == SortDesc(es, CountKey)[i]
  {
  }

  /** The ranking lists counts from largest to smallest. */
  lemma RankingSorted(es: seq<Entry>)
    ensures forall i, j :: 0 <= i < j < |Ranking(es)| ==> Ranking(es)[i].count >= Ranking(es)[j].count
  {
    var ranked := SortDesc(es, CountKey);
    var r := Ranking(es);
    RankingPrefix(es);
    SortDescSorted(es, CountKey);
    forall i, j | 0 <= i < j < |r| ensures r[i].count >= r[j].count {
      assert CountKey(ranked[i]) >= CountKey(ranked[j]);
    }
  }

  /** A counter with no key twice gives a ranking with no key twice. */
  lemma RankingDistinct(es: seq<Entry>)
    requires forall i, j :: 0 <= i < j < |es| ==> es[i].key != es[j].key
    ensures forall i, j :: 0 <= i < j < |Ranking(es)| ==> Ranking(es)[i].key != Ranking(es)[j].key
  {
    var ranked := SortDesc(es, CountKey);
    var r := Ranking(es);
    RankingPrefix(es);
    SortDescDistinct(es, CountKey, (e: Entry) => e.key);
    forall i, j | 0 <= i < j < |r| ensures r[i].key != r[j].key {
      assert ((e: Entry) => e.key)(ranked[i]) != ((e: Entry) => e.key)(ranked[j]);
    }
  }

  /** Entries with equal counts keep the counter's order in the ranking. */
  lemma RankingStable(es: seq<Entry>, f: Entry -> int)
    requires StrictlyIncreasing(es, f)
    ensures forall i, j :: 0 <= i < j < |Ranking(es)| && Ranking(es)[i].count == Ranking(es)[j].count
              ==> f(Ranking(es)[i]) < f(Ranking(es)[j])
  {
    var ranked := SortDesc(es, CountKey);
    var r := Ranking(es);
    RankingPrefix(es);
    SortDescStable(es, CountKey, f);
    forall i, j | 0 <= i < j < |r| && r[i].count == r[j].count ensures f(r[i]) < f(r[j]) {
      assert CountKey(ranked[i]) == CountKey(ranked[j]);
    }
  }

  /** The ranking of the grams `xs` lists at most `TopCount` entries, by count from largest to
      smallest, and no gram twice. */
  lemma RankingShape(xs: seq<string>)
    ensures |Ranking(Tally(xs))| <= TopCount
    ensures forall i, j :: 0 <= i < j < |Ranking(Tally(xs))| ==>
              Ranking(Tally(xs))[i].count >= Ranking(Tally(xs))[j].count
    ensures forall i, j :: 0 <= i < j < |Ranking(Tally(xs))| ==>
              Ranking(Tally(xs))[i].key != Ranking(Tally(xs))[j].key
  {
    TallyKeysDistinct(xs);
    RankingPrefix(Tally(xs));
    RankingSorted(Tally(xs));
    RankingDistinct(Tally(xs));
  }

  /** Every listed entry is a gram of `xs` with the number of times it occurs in `xs`. */
  lemma RankingCounts(xs: seq<string>)
    ensures forall e :: e in Ranking(Tally(xs)) ==> e.key in xs && e.count == multiset(xs)[e.key] >= 1
  {
    var es := Tally(xs);
    var ranked := SortDesc(es, CountKey);
    TallyEntries(xs);
    forall e | e in Ranking(es) ensures e.key in xs && e.count == multiset(xs)[e.key] >= 1 {
      assert e in ranked;
      assert e in multiset(ranked);
      var i :| 0 <= i < |es| && es[i] == e;
    }
  }

  /** Every listed gram is longer than one character, and its count is the number of window
      positions whose lower-cased, space-joined tokens equal it. */
  lemma RankNGramsCounts(tokens: seq<string>, n: nat, lower: string -> string)
    ensures forall e :: e in RankNGrams(tokens, n, lower) ==>
              |e.key| > 1 && e.count == |Positions(tokens, n, lower, e.key, WindowCount(|tokens|, n))| >= 1
  {
    var xs := Grams(tokens, n, lower);
    RankingCounts(xs);
    forall e | e in RankNGrams(tokens, n, lower)
      ensures |e.key| > 1 && e.count == |Positions(tokens, n, lower, e.key, WindowCount(|tokens|, n))| >= 1
    {
      GramsCountPositions(tokens, n, lower, e.key, WindowCount(|tokens|, n));
    }
  }

  /** The sort key of first-seen order: where the gram was first counted. */
  function FirstCounted(xs: seq<string>): Entry -> int
  {
    (e: Entry) => FirstIndex(xs, e.key) as int
  }

  /** The counter's entries are in first-counted order. */
  lemma TallyInFirstCountedOrder(xs: seq<string>)
    ensures StrictlyIncreasing(Tally(xs), FirstCounted(xs))
  {
    TallyCounts(xs);
    FirstSeenOrder(xs);
    var es := Tally(xs);
    forall i, j | 0 <= i < j < |es| ensures FirstCounted(xs)(es[i]) < FirstCounted(xs)(es[j]) {
      assert es[i].key == Keys(es)[i] && es[j].key == Keys(es)[j];
    }
  }

  /** Grams with equal counts are listed in the order in which they were first counted. */
  lemma RankingTies(xs: seq<string>)
    ensures forall i, j :: 0 <= i < j < |Ranking(Tally(xs))| &&
              Ranking(Tally(xs))[i].count == Ranking(Tally(xs))[j].count
              ==> FirstIndex(xs, Ranking(Tally(xs))[i].key) < FirstIndex(xs, Ranking(Tally(xs))[j].key)
  {
    var r := Ranking(Tally(xs));
    TallyInFirstCountedOrder(xs);
    RankingStable(Tally(xs), FirstCounted(xs));
    forall i, j | 0 <= i < j < |r| && r[i].count == r[j].count
      ensures FirstIndex(xs, r[i].key) < FirstIndex(xs, r[j].key)
    {
      assert FirstCounted(xs)(r[i]) < FirstCounted(xs)(r[j]);
    }
  }

  /** Every gram of `xs` has an entry in the counter, holding its number of occurrences. */
  lemma TallyEntryOf(xs: seq<string>, g: string) returns (k: nat)
    requires g in xs
    ensures k < |Tally(xs)| && Tally(xs)[k] == Entry(g, multiset(xs)[g])
  {
    var es := Tally(xs);
    TallyCounts(xs);
    TallyEntries(xs);
    assert g in FirstSeen(xs);
    k :| 0 <= k < |es| && Keys(es)[k] == g;
  }

  /** The cut keeps the best grams: a gram of `xs` that is not listed means that `TopCount`
      grams are listed, each occurring more often than it, or as often and first counted earlier. */
  lemma RankingKeepsTheBest(xs: seq<string>, g: string)
    requires g in xs
    requires g !in Keys(Ranking(Tally(xs)))
    ensures |Ranking(Tally(xs))| == TopCount
    ensures forall e :: e in Ranking(Tally(xs)) ==>
              e.count > multiset(xs)[g] ||
              (e.count == multiset(xs)[g] && FirstIndex(xs, e.key) < FirstIndex(xs, g))
  {
    var es := Tally(xs);
    var ranked := SortDesc(es, CountKey);
    var r := Ranking(es);
    var k := TallyEntryOf(xs, g);
    var y := es[k];
    forall p | 0 <= p < |r| ensures r[p] != y {
      assert Keys(r)[p] == r[p].key;
    }
    assert y in multiset(ranked);
    assert |ranked| > TopCount;
    TallyInFirstCountedOrder(xs);
    assert ranked[..TopCount] == r;
    forall e | e in r
      ensures e.count > multiset(xs)[g] ||
              (e.count == multiset(xs)[g] && FirstIndex(xs, e.key) < FirstIndex(xs, g))
    {
      SortDescPrefixDominates(es, CountKey, FirstCounted(xs), TopCount, e, y);
    }
  }

  lemma {:induction false} SumCountsInsert(s: seq<Entry>, x: Entry, key: Entry -> real)
    ensures SumCounts(InsertDesc(s, x, key)) == SumCounts(s) + x.count
    decreases |s|
  {
    if |s| == 0 || key(s[|s| - 1]) >= key(x) {
      SumCountsAppend(s, [x]);
      assert [x][1..] == [];
    } else {
      var init := s[..|s| - 1];
      var last := s[|s| - 1];
      SumCountsInsert(init, x, key);
      SumCountsAppend(InsertDesc(init, x, key), [last]);
      SumCountsAppend(init, [last]);
      assert init + [last] == s;
      assert [last][1..] == [] && [x][1..] == [];
    }
  }

  lemma {:induction false} SumCountsSort(s: seq<Entry>, key: Entry -> real)
    ensures SumCounts(SortDesc(s, key)) == SumCounts(s)
  {
    if |s| > 0 {
      var init := s[..|s| - 1];
      var last := s[|s| - 1];
      SumCountsSort(init, key);
      SumCountsInsert(SortDesc(init, key), last, key);
      SumCountsAppend(init, [last]);
      assert init + [last] == s;
      assert [last][1..] == [];
    }
  }

  /** Each window position is counted at most once, so the listed counts add up to at most
      the number of positions. */
  lemma RankNGramsTotal(tokens: seq<string>, n: nat, lower: string -> string)
    ensures SumCounts(RankNGrams(tokens, n, lower)) <= WindowCount(|tokens|, n)
  {
    var xs := Grams(tokens, n, lower);
    var ranked := SortDesc(Tally(xs), CountKey);
    assert RankNGrams(tokens, n, lower) == Ranking(Tally(xs));
    SumCountsSort(Tally(xs), CountKey);
    SumCountsTally(xs);
    GramsUpToLength(tokens, n, lower, WindowCount(|tokens|, n));
    if |ranked| > TopCount {
      SumCountsAppend(ranked[..TopCount], ranked[TopCount..]);
      assert ranked[..TopCount] + ranked[TopCount..] == ranked;
    }
  }
}
