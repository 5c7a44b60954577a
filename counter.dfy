/**
 * The counters the engine builds in plain JavaScript objects (`ngrams` in
 * `generateNGrams`, `wordFreq` in `summarizeText`). The object is modelled as
 * an insertion-ordered list of entries, which is the order `Object.entries`
 * reports for string keys; prototype-inherited keys and the numeric-key
 * ordering rule of JavaScript objects are not part of this model.
 */
module Counter {

  /** One `[key, count]` pair of `Object.entries(counter)`. */
  datatype Entry = Entry(key: string, count: nat)

  function Keys(es: seq<Entry>): seq<string>
  {
    seq(|es|, i requires 0 <= i < |es| => es[i].key)
  }

  lemma KeysCons(e: Entry, es: seq<Entry>)
    ensures Keys([e] + es) == [e.key] + Keys(es)
  {
  }

  /** `counter[k] || 0`: the count stored under `k`, or 0 when `k` was never counted. */
  function Lookup(es: seq<Entry>, k: string): nat
  {
    if |es| == 0 then 0
    else if es[0].key == k then es[0].count
    else Lookup(es[1..], k)
  }

  /** `counter[k] = (counter[k] || 0) + 1`: a key seen before keeps its place and gains one;
      a new key is added at the end with count 1; every other key reads as before. */
  function Bump(es: seq<Entry>, k: string): (r: seq<Entry>)
    ensures Keys(r) == if k in Keys(es) then Keys(es) else Keys(es) + [k]
    ensures Lookup(r, k) == Lookup(es, k) + 1
    ensures forall k' :: k' != k ==> Lookup(r, k') == Lookup(es, k')
  {
    if |es| == 0 then
      assert Keys([Entry(k, 1)]) == [k];
      [Entry(k, 1)]
    else if es[0].key == k then
      var r := [Entry(k, es[0].count + 1)] + es[1..];
      assert r[1..] == es[1..];
      assert k in Keys(es) by { assert Keys(es)[0] == k; }
      assert Keys(r) == Keys(es);
      r
    else
      var rest := Bump(es[1..], k);
      var r := [es[0]] + rest;
      assert r[1..] == rest;
      assert es == [es[0]] + es[1..];
      KeysCons(es[0], es[1..]);
      KeysCons(es[0], rest);
      r
  }

  /** The distinct strings of `xs`, in the order of their first occurrence. */
  function FirstSeen(xs: seq<string>): (r: seq<string>)
    ensures forall x :: x in r <==> x in xs
    ensures forall i, j :: 0 <= i < j < |r| ==> r[i] != r[j]
  {
    if |xs| == 0 then []
    else
      var d := FirstSeen(xs[..|xs| - 1]);
      assert xs == xs[..|xs| - 1] + [xs[|xs| - 1]];
      if xs[|xs| - 1] in d then d else d + [xs[|xs| - 1]]
  }

  /** The counter after counting every string of `xs` in turn, starting from `{}`. */
  function Tally(xs: seq<string>): seq<Entry>
  {
    if |xs| == 0 then [] else Bump(Tally(xs[..|xs| - 1]), xs[|xs| - 1])
  }

  /** Counting one more string bumps the counter built so far. */
  lemma TallySnoc(xs: seq<string>, x: string)
    ensures Tally(xs + [x]) == Bump(Tally(xs), x)
  {
    assert (xs + [x])[..|xs|] == xs;
  }

  /** What the counter holds: its keys are the distinct strings of `xs` in first-seen order,
      and each key reads as the number of times it occurs in `xs`. */
  lemma {:induction false} TallyCounts(xs: seq<string>)
    ensures Keys(Tally(xs)) == FirstSeen(xs)
    ensures forall k :: Lookup(Tally(xs), k) == multiset(xs)[k]
  {
    if |xs| > 0 {
      var init := xs[..|xs| - 1];
      TallyCounts(init);
      assert xs == init + [xs[|xs| - 1]];
    }
  }

  /** With distinct keys, reading an entry's key gives that entry's count. */
  lemma {:induction false} LookupEntry(es: seq<Entry>, i: nat)
    requires i < |es|
    requires forall p, q :: 0 <= p < q < |es| ==> es[p].key != es[q].key
    ensures Lookup(es, es[i].key) == es[i].count
  {
    if i > 0 {
      LookupEntry(es[1..], i - 1);
    }
  }

  /** Every entry of the counter holds the number of occurrences of its key, at least one,
      and no key appears twice. */
  lemma TallyEntries(xs: seq<string>)
    ensures forall i :: 0 <= i < |Tally(xs)| ==>
              Tally(xs)[i].key in xs && Tally(xs)[i].count == multiset(xs)[Tally(xs)[i].key] >= 1
    ensures forall i, j :: 0 <= i < j < |Tally(xs)| ==> Tally(xs)[i].key != Tally(xs)[j].key
  {
    var es := Tally(xs);
    TallyCounts(xs);
    assert forall i :: 0 <= i < |es| ==> es[i].key == FirstSeen(xs)[i];
    forall i | 0 <= i < |es| ensures es[i].key in xs && es[i].count == multiset(xs)[es[i].key] >= 1 {
      LookupEntry(es, i);
      assert FirstSeen(xs)[i] in FirstSeen(xs);
    }
  }

  /** The counter never holds a key twice. */
  lemma TallyKeysDistinct(xs: seq<string>)
    ensures forall i, j :: 0 <= i < j < |Tally(xs)| ==> Tally(xs)[i].key != Tally(xs)[j].key
  {
    TallyEntries(xs);
  }

  /** Sum of the counts of a list of entries. */
  function SumCounts(es: seq<Entry>): nat
  {
    if |es| == 0 then 0 else es[0].count + SumCounts(es[1..])
  }

  lemma {:induction false} SumCountsBump(es: seq<Entry>, k: string)
    ensures SumCounts(Bump(es, k)) == SumCounts(es) + 1
  {
    if |es| > 0 && es[0].key != k {
      SumCountsBump(es[1..], k);
      assert ([es[0]] + Bump(es[1..], k))[1..] == Bump(es[1..], k);
    } else if |es| > 0 {
      assert ([Entry(k, es[0].count + 1)] + es[1..])[1..] == es[1..];
    }
  }

  /** Each counted string adds exactly one to the total. */
  lemma {:induction false} SumCountsTally(xs: seq<string>)
    ensures SumCounts(Tally(xs)) == |xs|
  {
    if |xs| > 0 {
      SumCountsTally(xs[..|xs| - 1]);
      SumCountsBump(Tally(xs[..|xs| - 1]), xs[|xs| - 1]);
    }
  }

  lemma {:induction false} SumCountsAppend(a: seq<Entry>, b: seq<Entry>)
    ensures SumCounts(a + b) == SumCounts(a) + SumCounts(b)
  {
    if |a| > 0 {
      SumCountsAppend(a[1..], b);
      assert (a + b)[1..] == a[1..] + b;
    } else {
      assert a + b == b;
    }
  }

  /** Position of the first occurrence of `x` in `xs` (`|xs|` when there is none). */
  function FirstIndex(xs: seq<string>, x: string): (i: nat)
    ensures i <= |xs|
    ensures i < |xs| <==> x in xs
    ensures i < |xs| ==> xs[i] == x && x !in xs[..i]
  {
    if |xs| == 0 then 0
    else if xs[0] == x then 0
    else
      var i := 1 + FirstIndex(xs[1..], x);
      assert i < |xs| ==> xs[..i] == [xs[0]] + xs[1..][..i - 1];
      i
  }

  lemma FirstIndexExtend(xs: seq<string>, y: string, x: string)
    requires x in xs
    ensures FirstIndex(xs + [y], x) == FirstIndex(xs, x)
  {
    var i := FirstIndex(xs, x);
    var j := FirstIndex(xs + [y], x);
    assert (xs + [y])[i] == x;
    assert (xs + [y])[..j] == xs[..j];
  }

  /** `FirstSeen` lists the strings in the order in which they first occur. */
  lemma {:induction false} FirstSeenOrder(xs: seq<string>)
    ensures forall i, j :: 0 <= i < j < |FirstSeen(xs)| ==>
              FirstIndex(xs, FirstSeen(xs)[i]) < FirstIndex(xs, FirstSeen(xs)[j])
  {
    if |xs| > 0 {
      var init := xs[..|xs| - 1];
      var x := xs[|xs| - 1];
      FirstSeenOrder(init);
      assert xs == init + [x];
      var d := FirstSeen(init);
      var r := FirstSeen(xs);
      forall i, j | 0 <= i < j < |r| ensures FirstIndex(xs, r[i]) < FirstIndex(xs, r[j]) {
        assert r[i] == d[i] && d[i] in d;
        FirstIndexExtend(init, x, r[i]);
        if j < |d| {
          assert r[j] == d[j] && d[j] in d;
          FirstIndexExtend(init, x, r[j]);
        } else {
          assert r[j] == x && x !in init;
          assert FirstIndex(xs, x) == |init|;
        }
      }
    }
  }
}
