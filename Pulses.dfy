/**
 * Per-event pulse handling: the mapping of a sensor address (string, om)
 * to a flat DOM index, the flattening of a pulse-series map into three
 * parallel arrays, the joint sort of those arrays by pulse time, and the
 * shift of pulse times to the event's mean time.
 */
module Pulses {

  const NumStrings: int := 86
  const DomsPerString: int := 60
  const NumDoms: int := NumStrings * DomsPerString

  /** A sensor address: string number and optical-module number on that string. */
  datatype OMKey = OMKey(stringNum: int, omNum: int)

  /** One sensor reading. Times and charges are exact reals here. */
  datatype Pulse = Pulse(time: real, charge: real)

  /** A pulse-series map as it is iterated: each key with its pulse series. */
  type PulseMap = seq<(OMKey, seq<Pulse>)>

  /** One emitted pulse: the triple stored at one position of the three feature arrays. */
  datatype Hit = Hit(dom: int, time: real, charge: real)

  /** Strings 1..86 are kept; pulses on any other string are dropped. */
  predicate OnDetectorString(k: OMKey) {
    1 <= k.stringNum <= NumStrings
  }

  /** Modules 1..60; any other module number is only reported, never filtered. */
  predicate ValidOM(k: OMKey) {
    1 <= k.omNum <= DomsPerString
  }

  /** The flat DOM index, starting at 0 for module 1 of string 1. */
  function DomIndex(k: OMKey): int {
    (k.stringNum - 1) * DomsPerString + (k.omNum - 1)
  }

  /** The address a flat index in 0..5159 stands for. */
  function DomKey(i: int): OMKey
    requires 0 <= i < NumDoms
  {
    OMKey(i / DomsPerString + 1, i % DomsPerString + 1)
  }

  /** Valid addresses map into 0..5159, and back to themselves. */
  lemma DomIndexRoundTrip(k: OMKey)
    requires OnDetectorString(k) && ValidOM(k)
    ensures 0 <= DomIndex(k) < NumDoms
    ensures DomKey(DomIndex(k)) == k
  {
    var i := DomIndex(k);
    assert i == (k.stringNum - 1) * 60 + (k.omNum - 1);
    assert i / 60 == k.stringNum - 1;
  }

  /** Every index in 0..5159 is the index of exactly the valid address `DomKey` gives. */
  lemma DomKeyRoundTrip(i: int)
    requires 0 <= i < NumDoms
    ensures OnDetectorString(DomKey(i)) && ValidOM(DomKey(i))
    ensures DomIndex(DomKey(i)) == i
  {
  }

  /** Distinct valid addresses get distinct indices. */
  lemma DomIndexInjective(a: OMKey, b: OMKey)
    requires OnDetectorString(a) && ValidOM(a) && OnDetectorString(b) && ValidOM(b)
    requires DomIndex(a) == DomIndex(b)
    ensures a == b
  {
    DomIndexRoundTrip(a);
    DomIndexRoundTrip(b);
  }

  /**
   * Because an out-of-range module number is not filtered, module 61 of one
   * string shares its index with module 1 of the next string, and module 0
   * of string 1 gets index -1.
   */
  lemma OutOfRangeOmAliases(s: int)
    requires 1 <= s < NumStrings
    ensures DomIndex(OMKey(s, DomsPerString + 1)) == DomIndex(OMKey(s + 1, 1))
    ensures DomIndex(OMKey(1, 0)) == -1
  {
  }

  /** The hit one pulse on sensor `k` produces. */
  function HitOf(k: OMKey, p: Pulse): Hit {
    Hit(DomIndex(k), p.time, p.charge)
  }

  /** The hits one map entry contributes: none off the detector strings, else one per pulse. */
  function EntryHits(k: OMKey, pulses: seq<Pulse>): (hs: seq<Hit>)
    ensures |hs| == if OnDetectorString(k) then |pulses| else 0
    ensures forall j :: 0 <= j < |hs| ==> hs[j] == HitOf(k, pulses[j])
  {
    if !OnDetectorString(k) then [] else seq(|pulses|, j requires 0 <= j < |pulses| => HitOf(k, pulses[j]))
  }

  /** All hits of a pulse-series map, in iteration order. */
  function Flat(pmap: PulseMap): seq<Hit> {
    if pmap == [] then []
    else Flat(pmap[..|pmap| - 1]) + EntryHits(pmap[|pmap| - 1].0, pmap[|pmap| - 1].1)
  }

  /** An independent count: the number of pulses on detector strings. */
  function DetectorPulseCount(pmap: PulseMap): nat {
    if pmap == [] then 0
    else (if OnDetectorString(pmap[0].0) then |pmap[0].1| else 0) + DetectorPulseCount(pmap[1..])
  }

  lemma {:induction false} DetectorPulseCountAppend(pmap: PulseMap, e: (OMKey, seq<Pulse>))
    ensures DetectorPulseCount(pmap + [e]) ==
            DetectorPulseCount(pmap) + (if OnDetectorString(e.0) then |e.1| else 0)
  {
    if pmap != [] {
      assert (pmap + [e])[1..] == pmap[1..] + [e];
      DetectorPulseCountAppend(pmap[1..], e);
    }
  }

  /** One hit is emitted per pulse on strings 1..86, and no other. */
  lemma {:induction false} FlatLength(pmap: PulseMap)
    ensures |Flat(pmap)| == DetectorPulseCount(pmap)
  {
    if pmap != [] {
      var init := pmap[..|pmap| - 1];
      FlatLength(init);
      DetectorPulseCountAppend(init, pmap[|pmap| - 1]);
      assert init + [pmap[|pmap| - 1]] == pmap;
    }
  }

  /** Every emitted hit comes from a pulse on a sensor whose string is in 1..86. */
  lemma {:induction false} FlatSound(pmap: PulseMap, n: int)
    requires 0 <= n < |Flat(pmap)|
    ensures exists i, j :: 0 <= i < |pmap| && OnDetectorString(pmap[i].0) &&
              0 <= j < |pmap[i].1| && Flat(pmap)[n] == HitOf(pmap[i].0, pmap[i].1[j])
  {
    var init := pmap[..|pmap| - 1];
    var last := pmap[|pmap| - 1];
    if n < |Flat(init)| {
      FlatSound(init, n);
      var i, j :| 0 <= i < |init| && OnDetectorString(init[i].0) &&
                 0 <= j < |init[i].1| && Flat(init)[n] == HitOf(init[i].0, init[i].1[j]);
      assert pmap[i] == init[i];
    } else {
      var j := n - |Flat(init)|;
      assert Flat(pmap)[n] == EntryHits(last.0, last.1)[j];
      assert pmap[|pmap| - 1] == last;
    }
  }

  /**
   * Every pulse on a string in 1..86 is emitted, whatever its module
   * number: an out-of-range module is reported, not dropped.
   */
  lemma {:induction false} FlatComplete(pmap: PulseMap, i: int, j: int)
    requires 0 <= i < |pmap| && OnDetectorString(pmap[i].0) && 0 <= j < |pmap[i].1|
    ensures HitOf(pmap[i].0, pmap[i].1[j]) in Flat(pmap)
  {
    var init := pmap[..|pmap| - 1];
    var last := pmap[|pmap| - 1];
    if i < |pmap| - 1 {
      assert init[i] == pmap[i];
      FlatComplete(init, i, j);
    } else {
      var hs := EntryHits(last.0, last.1);
      assert hs[j] == HitOf(pmap[i].0, pmap[i].1[j]);
      assert Flat(pmap)[|Flat(init)| + j] == hs[j];
    }
  }

  /** When every sensor on strings 1..86 has a module in 1..60, every index lies in 0..5159. */
  lemma FlatDomInRange(pmap: PulseMap, n: int)
    requires forall i :: 0 <= i < |pmap| && OnDetectorString(pmap[i].0) ==> ValidOM(pmap[i].0)
    requires 0 <= n < |Flat(pmap)|
    ensures 0 <= Flat(pmap)[n].dom < NumDoms
  {
    FlatSound(pmap, n);
    var i, j :| 0 <= i < |pmap| && OnDetectorString(pmap[i].0) &&
               0 <= j < |pmap[i].1| && Flat(pmap)[n] == HitOf(pmap[i].0, pmap[i].1[j]);
    DomIndexRoundTrip(pmap[i].0);
  }

  /** The triples formed by three parallel arrays. */
  function Zip(dom: seq<int>, time: seq<real>, charge: seq<real>): (hs: seq<Hit>)
    requires |dom| == |time| == |charge|
    ensures |hs| == |dom|
  {
    seq(|dom|, k requires 0 <= k < |dom| => Hit(dom[k], time[k], charge[k]))
  }

  lemma ZipAppend(dom: seq<int>, time: seq<real>, charge: seq<real>, h: Hit)
    requires |dom| == |time| == |charge|
    ensures Zip(dom + [h.dom], time + [h.time], charge + [h.charge]) == Zip(dom, time, charge) + [h]
  {
  }

  lemma EntryHitsAppend(k: OMKey, pulses: seq<Pulse>, j: int)
    requires OnDetectorString(k) && 0 <= j < |pulses|
    ensures EntryHits(k, pulses[..j + 1]) == EntryHits(k, pulses[..j]) + [HitOf(k, pulses[j])]
  {
  }

  /**
   * The loop over the map in `read_files`: keys off strings 1..86 are
   * skipped, and each pulse of every other key appends its index, time and
   * charge to the three arrays.
   */
  method FlattenPulses(pmap: PulseMap) returns (dom: seq<int>, time: seq<real>, charge: seq<real>)
    ensures |dom| == |time| == |charge|
    ensures Zip(dom, time, charge) == Flat(pmap)
  {
    dom, time, charge := [], [], [];
    var i := 0;
    while i < |pmap|
      invariant 0 <= i <= |pmap|
      invariant |dom| == |time| == |charge|
      invariant Zip(dom, time, charge) == Flat(pmap[..i])
    {
      var (key, pulses) := pmap[i];
      assert pmap[..i + 1][..i] == pmap[..i];
      if !OnDetectorString(key) {
        i := i + 1;
        continue;
      }
      var domInd := DomIndex(key);
      ghost var before := Zip(dom, time, charge);
      var j := 0;
      while j < |pulses|
        invariant 0 <= j <= |pulses|
        invariant |dom| == |time| == |charge| == |before| + j
        invariant Zip(dom, time, charge) == before + EntryHits(key, pulses[..j])
      {
        ZipAppend(dom, time, charge, HitOf(key, pulses[j]));
        EntryHitsAppend(key, pulses, j);
        dom, time, charge := dom + [domInd], time + [pulses[j].time], charge + [pulses[j].charge];
        j := j + 1;
      }
      assert pulses[..j] == pulses;
      i := i + 1;
    }
    assert pmap[..i] == pmap;
  }

  predicate Sorted(t: seq<real>) {
    forall a, b :: 0 <= a < b < |t| ==> t[a] <= t[b]
  }

  /** The indices 0..n-1 in order. */
  function Range(n: nat): (r: seq<nat>)
    ensures |r| == n && forall k :: 0 <= k < n ==> r[k] == k
  {
    seq(n, k => k)
  }

  /** `order` lists every index of a length-`n` array exactly once. */
  predicate IsIndexPermutation(order: seq<nat>, n: nat) {
    |order| == n && multiset(order) == multiset(Range(n))
  }

  lemma IndexPermutationBounded(order: seq<nat>, n: nat)
    requires IsIndexPermutation(order, n)
    ensures forall k :: 0 <= k < |order| ==> order[k] < n
  {
    forall k | 0 <= k < |order| ensures order[k] < n {
      assert order[k] in multiset(order);
      assert order[k] in Range(n);
    }
  }

  /** Fancy indexing `s[order]`: the elements of `s` at the listed indices. */
  function Gather<T>(s: seq<T>, order: seq<nat>): (g: seq<T>)
    requires forall k :: 0 <= k < |order| ==> order[k] < |s|
    ensures |g| == |order| && forall k :: 0 <= k < |order| ==> g[k] == s[order[k]]
  {
    seq(|order|, k requires 0 <= k < |order| => s[order[k]])
  }

  /** Exchanging two entries keeps the multiset of a sequence. */
  function Swap<T>(s: seq<T>, i: nat, j: nat): (r: seq<T>)
    requires i < |s| && j < |s|
    ensures |r| == |s| && r[i] == s[j] && r[j] == s[i]
    ensures forall k :: 0 <= k < |s| && k != i && k != j ==> r[k] == s[k]
    ensures multiset(r) == multiset(s)
  {
    s[i := s[j]][j := s[i]]
  }

  /**
   * `np.argsort` of the pulse times: a permutation of the indices under
   * which the times are non-decreasing. The order among equal times is
   * not specified, as for the default unstable sort.
   */
  method ArgSort(times: seq<real>) returns (order: seq<nat>)
    ensures IsIndexPermutation(order, |times|)
    ensures forall k :: 0 <= k < |order| ==> order[k] < |times|
    ensures forall a, b :: 0 <= a < b < |order| ==> times[order[a]] <= times[order[b]]
  {
    var n := |times|;
    order := Range(n);
    var i := 0;
    while i < n
      invariant 0 <= i <= n
      invariant IsIndexPermutation(order, n)
      invariant forall k :: 0 <= k < n ==> order[k] < n
      invariant forall a, b :: 0 <= a < b < i ==> times[order[a]] <= times[order[b]]
      invariant forall a, b :: 0 <= a < i <= b < n ==> times[order[a]] <= times[order[b]]
    {
      var m := MinFrom(times, order, i);
      order := Swap(order, i, m);
      i := i + 1;
    }
  }

  /** The position, from `i` on, of an index whose time is smallest. */
  method MinFrom(times: seq<real>, order: seq<nat>, i: nat) returns (m: nat)
    requires i < |order| && forall k :: 0 <= k < |order| ==> order[k] < |times|
    ensures i <= m < |order|
    ensures forall b :: i <= b < |order| ==> times[order[m]] <= times[order[b]]
  {
    m := i;
    var j := i + 1;
    while j < |order|
      invariant i <= m < |order| && i < j <= |order|
      invariant forall b :: i <= b < j ==> times[order[m]] <= times[order[b]]
    {
      if times[order[j]] < times[order[m]] {
        m := j;
      }
      j := j + 1;
    }
  }

  /** Applying an index permutation keeps the multiset of the elements. */
  lemma {:induction false} GatherPermutes<T>(s: seq<T>, order: seq<nat>)
    requires IsIndexPermutation(order, |s|)
    ensures forall k :: 0 <= k < |order| ==> order[k] < |s|
    ensures multiset(Gather(s, order)) == multiset(s)
    decreases |s|
  {
    IndexPermutationBounded(order, |s|);
    if |s| > 0 {
      var n := |s|;
      assert Range(n)[n - 1] == n - 1;
      assert n - 1 in multiset(order);
      var p :| 0 <= p < n && order[p] == n - 1;
      var rest := order[..p] + order[p + 1..];
      RemoveLastIndex(order, p, n);
      var init := s[..n - 1];
      GatherPermutes(init, rest);
      GatherSplit(s, order, p, init, rest);
      assert s == init + [s[n - 1]];
    }
  }

  /** Taking out the entry that holds n-1 leaves a permutation of 0..n-2. */
  lemma RemoveLastIndex(order: seq<nat>, p: nat, n: nat)
    requires IsIndexPermutation(order, n) && p < n && order[p] == n - 1
    ensures IsIndexPermutation(order[..p] + order[p + 1..], n - 1)
  {
    var rest := order[..p] + order[p + 1..];
    assert order == order[..p] + [order[p]] + order[p + 1..];
    assert multiset(order) == multiset(order[..p]) + multiset{order[p]} + multiset(order[p + 1..]);
    assert multiset(order) == multiset(rest) + multiset{(n - 1) as nat};
    assert Range(n) == Range(n - 1) + [(n - 1) as nat];
    assert multiset(Range(n)) == multiset(Range(n - 1)) + multiset{(n - 1) as nat};
    assert multiset(rest) == multiset(order) - multiset{(n - 1) as nat};
    assert multiset(Range(n - 1)) == multiset(Range(n)) - multiset{(n - 1) as nat};
  }

  /** Gathering with the full permutation is gathering with the rest plus the last element. */
  lemma GatherSplit<T>(s: seq<T>, order: seq<nat>, p: nat, init: seq<T>, rest: seq<nat>)
    requires |s| > 0 && |order| == |s| && p < |order| && order[p] == |s| - 1
    requires init == s[..|s| - 1] && rest == order[..p] + order[p + 1..]
    requires forall k :: 0 <= k < |order| ==> order[k] < |s|
    requires forall k :: 0 <= k < |rest| ==> rest[k] < |init|
    ensures multiset(Gather(s, order)) == multiset(Gather(init, rest)) + multiset{s[|s| - 1]}
  {
    var g, h := Gather(s, order), Gather(init, rest);
    assert g == h[..p] + [s[|s| - 1]] + h[p..];
    assert h == h[..p] + h[p..];
  }

  /**
   * The joint sort in `read_files`: one argsort of the times, applied to
   * all three arrays, so each (index, time, charge) triple stays together.
   */
  method SortByTime(dom: seq<int>, time: seq<real>, charge: seq<real>)
      returns (dom': seq<int>, time': seq<real>, charge': seq<real>)
    requires |dom| == |time| == |charge|
    ensures |dom'| == |time'| == |charge'| == |dom|
    ensures Sorted(time')
    ensures multiset(Zip(dom', time', charge')) == multiset(Zip(dom, time, charge))
  {
    var order := ArgSort(time);
    dom', time', charge' := Gather(dom, order), Gather(time, order), Gather(charge, order);
    assert Zip(dom', time', charge') == Gather(Zip(dom, time, charge), order);
    GatherPermutes(Zip(dom, time, charge), order);
  }

  function Sum(t: seq<real>): real {
    if t == [] then 0.0 else Sum(t[..|t| - 1]) + t[|t| - 1]
  }

  /** Every time moved by the same amount. */
  function Shift(t: seq<real>, c: real): (r: seq<real>)
    ensures |r| == |t| && forall k :: 0 <= k < |t| ==> r[k] == t[k] + c
  {
    seq(|t|, k requires 0 <= k < |t| => t[k] + c)
  }

  function Mean(t: seq<real>): real
    requires |t| > 0
  {
    Sum(t) / (|t| as real)
  }

  /** `pulse_time -= mean(pulse_time)`; an event without pulses keeps its empty array. */
  function Center(t: seq<real>): seq<real> {
    if |t| == 0 then [] else Shift(t, -Mean(t))
  }

  lemma {:induction false} SumShift(t: seq<real>, c: real)
    ensures Sum(Shift(t, c)) == Sum(t) + (|t| as real) * c
  {
    if t != [] {
      var init := t[..|t| - 1];
      SumShift(init, c);
      assert Shift(t, c)[..|t| - 1] == Shift(init, c);
    }
  }

  /**
   * Centering makes the times sum to zero, keeps their order, and loses
   * nothing: shifting back by the mean gives the original times.
   */
  lemma CenterProperties(t: seq<real>)
    ensures |Center(t)| == |t|
    ensures Sum(Center(t)) == 0.0
    ensures Sorted(t) ==> Sorted(Center(t))
    ensures |t| > 0 ==> Shift(Center(t), Mean(t)) == t
  {
    if |t| > 0 {
      var n := |t| as real;
      SumShift(t, -Mean(t));
      assert n * (Sum(t) / n) == Sum(t);
      assert Shift(Center(t), Mean(t)) == t;
    }
  }

  /**
   * What `read_files` stores for one event's pulses: three arrays of one
   * length (the number of pulses on strings 1..86), times non-decreasing
   * and summing to zero, and, with the mean shifted back, exactly the
   * (index, time, charge) triples of the map.
   */
  ghost predicate IsEventFeatures(pmap: PulseMap, dom: seq<int>, time: seq<real>, charge: seq<real>) {
    && |dom| == |time| == |charge| == DetectorPulseCount(pmap)
    && Sorted(time)
    && Sum(time) == 0.0
    && exists shift :: multiset(Zip(dom, Shift(time, shift), charge)) == multiset(Flat(pmap))
  }

  /** The pulse part of one event in `read_files`: flatten, sort jointly by time, center. */
  method EventFeatures(pmap: PulseMap) returns (dom: seq<int>, time: seq<real>, charge: seq<real>)
    ensures IsEventFeatures(pmap, dom, time, charge)
  {
    var d, t, c := FlattenPulses(pmap);
    FlatLength(pmap);
    dom, time, charge := SortByTime(d, t, c);
    CenterProperties(time);
    var sorted := time;
    time := Center(time);
    if |sorted| > 0 {
      assert Shift(time, Mean(sorted)) == sorted;
      assert multiset(Zip(dom, Shift(time, Mean(sorted)), charge)) == multiset(Flat(pmap));
    } else {
      assert Shift(time, 0.0) == sorted;
      assert multiset(Zip(dom, Shift(time, 0.0), charge)) == multiset(Flat(pmap));
    }
  }
}
