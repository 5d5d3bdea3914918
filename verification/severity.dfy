/** Severity ranking, the hotspot sort and the summary counts.

    The rank table maps "LOW", "MEDIUM" and "HIGH" to 0, 1 and 2; any other
    or absent probability has no rank. The sort comparator is
    `rank(b) - rank(a)`; when either side has no rank the difference is NaN,
    which `Array.prototype.sort` reads as 0 ("keep the order"). The
    ECMAScript sort is stable, so for inputs whose severities are all ranked
    its result is the stable descending order; the model computes it by a
    stable insertion sort driven by that same comparator. */
module Severity {
  import opened Wrappers
  import opened Records

  /** The rank table. */
  function Rank(p: Option<string>): (r: Option<nat>)
    ensures r.Some? <==> p == Some("LOW") || p == Some("MEDIUM") || p == Some("HIGH")
    ensures r.Some? ==> r.value <= 2
  {
    match p
    case Some("LOW") => Some(0)
    case Some("MEDIUM") => Some(1)
    case Some("HIGH") => Some(2)
    case _ => None
  }

  /** The table's three entries. */
  lemma RankTable()
    ensures Rank(Some("LOW")) == Some(0)
    ensures Rank(Some("MEDIUM")) == Some(1)
    ensures Rank(Some("HIGH")) == Some(2)
  {
  }

  /** Distinct ranked severities have distinct ranks. */
  lemma RankInjective(p: Option<string>, q: Option<string>)
    requires Rank(p).Some? && Rank(q).Some? && Rank(p) == Rank(q)
    ensures p == q
  {
  }

  predicate Ranked(h: Hotspot) {
    Rank(h.vulnerabilityProbability).Some?
  }

  function RankOf(h: Hotspot): nat
    requires Ranked(h)
  {
    Rank(h.vulnerabilityProbability).value
  }

  predicate AllRanked(s: seq<Hotspot>) {
    forall i :: 0 <= i < |s| ==> Ranked(s[i])
  }

  /** The comparator's result, with NaN read as 0: positive means `b` goes
      before `a`. */
  function Compare(a: Hotspot, b: Hotspot): int {
    if Ranked(a) && Ranked(b) then RankOf(b) - RankOf(a) else 0
  }

  /** `a` may stand directly before `b` in a sorted result. */
  predicate Ordered(a: Hotspot, b: Hotspot) {
    Ranked(a) && Ranked(b) && RankOf(a) >= RankOf(b)
  }

  /** Every adjacent pair is ranked and in non-increasing rank. */
  predicate Descending(s: seq<Hotspot>)
    decreases |s|
  {
    |s| <= 1 || (Ordered(s[0], s[1]) && Descending(s[1..]))
  }

  /** `hotspots.filter(h => h.vulnerabilityProbability === p)`. */
  function Keep(s: seq<Hotspot>, p: Option<string>): (r: seq<Hotspot>)
    ensures |r| <= |s|
    decreases |s|
  {
    if |s| == 0 then []
    else (if s[0].vulnerabilityProbability == p then [s[0]] else []) + Keep(s[1..], p)
  }

  /** Place `x`, which arrived before every element of `ys`, into `ys`:
      behind every element the comparator puts first, ahead of the rest. */
  function Insert(x: Hotspot, ys: seq<Hotspot>): (r: seq<Hotspot>)
    ensures |r| == |ys| + 1
    ensures multiset(r) == multiset(ys) + multiset{x}
    ensures |ys| == 0 ==> r == [x]
    ensures |ys| > 0 ==> r[0] == x || r[0] == ys[0]
    decreases |ys|
  {
    if |ys| == 0 then [x]
    else if Compare(x, ys[0]) > 0 then
      var rest := Insert(x, ys[1..]);
      assert ys == [ys[0]] + ys[1..];
      [ys[0]] + rest
    else
      assert ys == [ys[0]] + ys[1..];
      [x] + ys
  }

  /** Inserting a ranked hotspot into a ranked descending sequence keeps it
      descending. */
  lemma {:induction false} InsertDescending(x: Hotspot, ys: seq<Hotspot>)
    requires Ranked(x) && AllRanked(ys) && Descending(ys)
    ensures Descending(Insert(x, ys))
    decreases |ys|
  {
    if |ys| > 0 {
      var y, t := ys[0], ys[1..];
      if Compare(x, y) > 0 {
        assert AllRanked(t) by {
          forall i | 0 <= i < |t| ensures Ranked(t[i]) { assert t[i] == ys[i + 1]; }
        }
        InsertDescending(x, t);
        var rest := Insert(x, t);
        assert Insert(x, ys) == [y] + rest;
        assert ([y] + rest)[1..] == rest;
        if |t| > 0 {
          assert Ordered(y, t[0]);
        }
        assert Ordered(y, rest[0]);
      } else {
        assert Insert(x, ys) == [x] + ys;
        assert ([x] + ys)[1..] == ys;
        assert Ordered(x, y);
      }
    }
  }

  /** Rearranging keeps every hotspot ranked. */
  lemma AllRankedPermutation(a: seq<Hotspot>, b: seq<Hotspot>)
    requires multiset(a) == multiset(b) && AllRanked(a)
    ensures AllRanked(b)
  {
    forall i | 0 <= i < |b| ensures Ranked(b[i]) {
      assert b[i] in multiset(b);
      var j :| 0 <= j < |a| && a[j] == b[i];
    }
  }

  /** `data.hotspots.sort(...)`: a rearrangement of the hotspots. */
  function Sort(s: seq<Hotspot>): (r: seq<Hotspot>)
    ensures |r| == |s|
    ensures multiset(r) == multiset(s)
    decreases |s|
  {
    if |s| == 0 then []
    else
      assert s == [s[0]] + s[1..];
      Insert(s[0], Sort(s[1..]))
  }

  /** On ranked input the sort's result is ranked and descending. */
  lemma {:induction false} SortDescending(s: seq<Hotspot>)
    requires AllRanked(s)
    ensures AllRanked(Sort(s)) && Descending(Sort(s))
    decreases |s|
  {
    if |s| > 0 {
      var rest := s[1..];
      assert AllRanked(rest) by {
        forall i | 0 <= i < |rest| ensures Ranked(rest[i]) { assert rest[i] == s[i + 1]; }
      }
      SortDescending(rest);
      InsertDescending(s[0], Sort(rest));
      AllRankedPermutation(s, Sort(s));
    }
  }

  /** Filtering distributes over concatenation. */
  lemma {:induction false} KeepAppend(a: seq<Hotspot>, b: seq<Hotspot>, p: Option<string>)
    ensures Keep(a + b, p) == Keep(a, p) + Keep(b, p)
    decreases |a|
  {
    if |a| == 0 {
      assert a + b == b;
    } else {
      KeepAppend(a[1..], b, p);
      var head := if a[0].vulnerabilityProbability == p then [a[0]] else [];
      assert (a + b)[0] == a[0];
      assert (a + b)[1..] == a[1..] + b;
      assert Keep(a + b, p) == head + Keep(a[1..] + b, p);
      assert Keep(a, p) == head + Keep(a[1..], p);
    }
  }

  /** Inserting keeps, for every severity, the arrival order among the
      hotspots of that severity (the sort is stable). */
  lemma {:induction false} InsertStable(x: Hotspot, ys: seq<Hotspot>, p: Option<string>)
    requires Ranked(x) && AllRanked(ys) && Descending(ys)
    ensures Keep(Insert(x, ys), p) == Keep([x] + ys, p)
    decreases |ys|
  {
    if |ys| > 0 && Compare(x, ys[0]) > 0 {
      var y := ys[0];
      var t := ys[1..];
      assert ys == [y] + t;
      assert AllRanked(t) by {
        forall i | 0 <= i < |t| ensures Ranked(t[i]) { assert t[i] == ys[i + 1]; }
      }
      InsertStable(x, t, p);
      assert Insert(x, ys) == [y] + Insert(x, t);
      assert x.vulnerabilityProbability != y.vulnerabilityProbability;
      KeepPassOver(x, y, t, Insert(x, t), p);
    }
  }

  /** One step of the insertion: `x` passes a hotspot `y` of another
      severity, which leaves every filter unchanged. */
  lemma KeepPassOver(x: Hotspot, y: Hotspot, t: seq<Hotspot>, inserted: seq<Hotspot>, p: Option<string>)
    requires x.vulnerabilityProbability != y.vulnerabilityProbability
    requires Keep(inserted, p) == Keep([x] + t, p)
    ensures Keep([y] + inserted, p) == Keep([x] + ([y] + t), p)
  {
    var kx, ky, r := Keep([x], p), Keep([y], p), Keep(t, p);
    assert Keep([y] + inserted, p) == ky + Keep(inserted, p) by { KeepAppend([y], inserted, p); }
    assert Keep(inserted, p) == kx + r by { KeepAppend([x], t, p); }
    assert Keep([y] + t, p) == ky + r by { KeepAppend([y], t, p); }
    assert Keep([x] + ([y] + t), p) == kx + Keep([y] + t, p) by { KeepAppend([x], [y] + t, p); }
    KeepSwap(x, y, p);
    Commute(ky, kx, r);
  }

  /** Two pieces that commute can be swapped in front of any tail. */
  lemma Commute<T>(a: seq<T>, b: seq<T>, r: seq<T>)
    requires a + b == b + a
    ensures a + (b + r) == b + (a + r)
  {
    assert a + (b + r) == (a + b) + r;
    assert b + (a + r) == (b + a) + r;
  }

  /** Two hotspots of different severities commute under a filter. */
  lemma KeepSwap(x: Hotspot, y: Hotspot, p: Option<string>)
    requires x.vulnerabilityProbability != y.vulnerabilityProbability
    ensures Keep([y], p) + Keep([x], p) == Keep([x], p) + Keep([y], p)
  {
    if y.vulnerabilityProbability == p {
      assert Keep([x], p) == [];
    } else {
      assert Keep([y], p) == [];
    }
  }

  /** The sort is stable on ranked input: the hotspots of each severity
      keep their arrival order. */
  lemma {:induction false} SortStable(s: seq<Hotspot>, p: Option<string>)
    requires AllRanked(s)
    ensures Keep(Sort(s), p) == Keep(s, p)
    decreases |s|
  {
    if |s| > 0 {
      var rest := s[1..];
      assert AllRanked(rest) by {
        forall i | 0 <= i < |rest| ensures Ranked(rest[i]) { assert rest[i] == s[i + 1]; }
      }
      SortStable(rest, p);
      SortDescending(rest);
      InsertStable(s[0], Sort(rest), p);
      KeepAppend([s[0]], Sort(rest), p);
      KeepAppend([s[0]], rest, p);
      assert s == [s[0]] + rest;
    }
  }

  /** Inserting changes no severity's count, ranked or not. */
  lemma {:induction false} InsertCount(x: Hotspot, ys: seq<Hotspot>, p: Option<string>)
    ensures |Keep(Insert(x, ys), p)| == |Keep([x] + ys, p)|
    decreases |ys|
  {
    if |ys| > 0 && Compare(x, ys[0]) > 0 {
      var y := ys[0];
      var t := ys[1..];
      assert ys == [y] + t;
      InsertCount(x, t, p);
      assert Insert(x, ys) == [y] + Insert(x, t);
      KeepAppend([y], Insert(x, t), p);
      KeepAppend([x], t, p);
      KeepAppend([y], t, p);
      KeepAppend([x], ys, p);
    }
  }

  /** Sorting changes no severity's count, ranked or not. */
  lemma {:induction false} SortCount(s: seq<Hotspot>, p: Option<string>)
    ensures |Keep(Sort(s), p)| == |Keep(s, p)|
    decreases |s|
  {
    if |s| > 0 {
      var rest := s[1..];
      SortCount(rest, p);
      InsertCount(s[0], Sort(rest), p);
      KeepAppend([s[0]], Sort(rest), p);
      KeepAppend([s[0]], rest, p);
      assert s == [s[0]] + rest;
    }
  }

  /** In a descending sequence no element outranks the first. */
  lemma {:induction false} DescendingHead(t: seq<Hotspot>)
    requires |t| > 0 && Ranked(t[0]) && Descending(t)
    ensures forall i :: 0 <= i < |t| ==> Ranked(t[i]) && RankOf(t[i]) <= RankOf(t[0])
    decreases |t|
  {
    if |t| > 1 {
      var u := t[1..];
      DescendingHead(u);
      forall i | 1 <= i < |t| ensures Ranked(t[i]) && RankOf(t[i]) <= RankOf(t[0]) {
        assert t[i] == u[i - 1];
      }
    }
  }

  /** A descending sequence is ordered between any two positions, in
      particular between neighbours. */
  lemma {:induction false} DescendingPairwise(t: seq<Hotspot>)
    requires AllRanked(t) && Descending(t)
    ensures forall i, j :: 0 <= i < j < |t| ==> RankOf(t[i]) >= RankOf(t[j])
    decreases |t|
  {
    if |t| > 1 {
      var u := t[1..];
      assert AllRanked(u) by {
        forall i | 0 <= i < |u| ensures Ranked(u[i]) { assert u[i] == t[i + 1]; }
      }
      DescendingPairwise(u);
      DescendingHead(t);
      forall i, j | 0 <= i < j < |t| ensures RankOf(t[i]) >= RankOf(t[j]) {
        if i > 0 {
          assert t[i] == u[i - 1] && t[j] == u[j - 1];
        }
      }
    }
  }

  /** On ranked input the sorted hotspots never rise in rank: every pair,
      and so every adjacent pair, is in non-increasing order. */
  lemma SortIsDescending(s: seq<Hotspot>)
    requires AllRanked(s)
    ensures AllRanked(Sort(s))
    ensures forall i, j :: 0 <= i < j < |Sort(s)| ==> RankOf(Sort(s)[i]) >= RankOf(Sort(s)[j])
  {
    SortDescending(s);
    DescendingPairwise(Sort(s));
  }

  /** Filtering for a severity nobody has gives nothing. */
  lemma {:induction false} KeepNone(s: seq<Hotspot>, p: Option<string>)
    requires forall i :: 0 <= i < |s| ==> s[i].vulnerabilityProbability != p
    ensures Keep(s, p) == []
    decreases |s|
  {
    if |s| > 0 {
      KeepNone(s[1..], p);
    }
  }

  const High: Option<string> := Some("HIGH")
  const Medium: Option<string> := Some("MEDIUM")
  const Low: Option<string> := Some("LOW")

  /** What a rank no higher than another's says about the two severities. */
  lemma RankBelow(a: Hotspot, b: Hotspot)
    requires Ranked(a) && Ranked(b) && RankOf(a) <= RankOf(b)
    ensures b.vulnerabilityProbability == Medium ==> a.vulnerabilityProbability != High
    ensures b.vulnerabilityProbability == Low ==> a.vulnerabilityProbability == Low
  {
    RankTable();
  }

  /** A ranked, descending sequence is its HIGH, then MEDIUM, then LOW hotspots. */
  lemma {:induction false} DescendingIsGrouped(t: seq<Hotspot>)
    requires AllRanked(t) && Descending(t)
    ensures t == Keep(t, High) + Keep(t, Medium) + Keep(t, Low)
    decreases |t|
  {
    if |t| > 0 {
      var x, u := t[0], t[1..];
      assert t == [x] + u;
      assert AllRanked(u) by {
        forall i | 0 <= i < |u| ensures Ranked(u[i]) { assert u[i] == t[i + 1]; }
      }
      DescendingIsGrouped(u);
      DescendingHead(t);
      forall i | 0 <= i < |u|
        ensures x.vulnerabilityProbability == Medium ==> u[i].vulnerabilityProbability != High
        ensures x.vulnerabilityProbability == Low ==> u[i].vulnerabilityProbability == Low
      {
        assert u[i] == t[i + 1];
        RankBelow(u[i], x);
      }
      GroupedCons(x, u);
    }
  }

  /** Putting a hotspot in front of a sequence none of whose members
      belongs to an earlier group puts it in front of the groups. */
  lemma GroupedCons(x: Hotspot, u: seq<Hotspot>)
    requires x.vulnerabilityProbability in {High, Medium, Low}
    requires forall i :: 0 <= i < |u| ==>
               (x.vulnerabilityProbability == Medium ==> u[i].vulnerabilityProbability != High)
               && (x.vulnerabilityProbability == Low ==> u[i].vulnerabilityProbability == Low)
    ensures Keep([x] + u, High) + Keep([x] + u, Medium) + Keep([x] + u, Low)
              == [x] + (Keep(u, High) + Keep(u, Medium) + Keep(u, Low))
  {
    var p := x.vulnerabilityProbability;
    var h, m, l := Keep(u, High), Keep(u, Medium), Keep(u, Low);
    var kh, km, kl := Keep([x], High), Keep([x], Medium), Keep([x], Low);
    assert Keep([x] + u, High) == kh + h by { KeepAppend([x], u, High); }
    assert Keep([x] + u, Medium) == km + m by { KeepAppend([x], u, Medium); }
    assert Keep([x] + u, Low) == kl + l by { KeepAppend([x], u, Low); }
    KeepOne(x, High);
    KeepOne(x, Medium);
    KeepOne(x, Low);
    if p == Medium {
      KeepNone(u, High);
    } else if p == Low {
      KeepNone(u, High);
      KeepNone(u, Medium);
    }
    Regroup(x, kh, h, km, m, kl, l);
  }

  /** The list algebra behind `GroupedCons`: `x` lands in one of the three
      groups, and every group ahead of it is empty. */
  lemma Regroup<T>(x: T, kh: seq<T>, h: seq<T>, km: seq<T>, m: seq<T>, kl: seq<T>, l: seq<T>)
    requires || (kh == [x] && km == [] && kl == [])
             || (kh == [] && km == [x] && kl == [] && h == [])
             || (kh == [] && km == [] && kl == [x] && h == [] && m == [])
    ensures (kh + h) + (km + m) + (kl + l) == [x] + (h + m + l)
  {
    if kh == [x] {
      assert (kh + h) + m + l == [x] + (h + m + l);
    } else if km == [x] {
      assert h + (km + m) + l == [x] + (m + l);
    }
  }

  /** A single hotspot passes a filter exactly when its probability matches. */
  lemma KeepOne(x: Hotspot, p: Option<string>)
    ensures Keep([x], p) == if x.vulnerabilityProbability == p then [x] else []
  {
    assert [x][1..] == [];
  }

  /** On ranked input the sorted hotspots are exactly the HIGH ones, then the
      MEDIUM ones, then the LOW ones, each group in arrival order. */
  lemma SortGroupsBySeverity(s: seq<Hotspot>)
    requires AllRanked(s)
    ensures Sort(s) == Keep(s, High) + Keep(s, Medium) + Keep(s, Low)
  {
    SortDescending(s);
    DescendingIsGrouped(Sort(s));
    SortStable(s, High);
    SortStable(s, Medium);
    SortStable(s, Low);
  }

  /** `data.summary`. */
  datatype Summary = Summary(high: nat, medium: nat, low: nat)

  /** The three exact-string tallies. */
  function Summarize(s: seq<Hotspot>): (sum: Summary)
    ensures sum.high + sum.medium + sum.low <= |s|
  {
    CountsBounded(s);
    Summary(|Keep(s, High)|, |Keep(s, Medium)|, |Keep(s, Low)|)
  }

  /** The probabilities of the hotspots, in order. */
  function Probabilities(s: seq<Hotspot>): (r: seq<Option<string>>)
    ensures |r| == |s|
    ensures forall i :: 0 <= i < |s| ==> r[i] == s[i].vulnerabilityProbability
  {
    seq(|s|, i requires 0 <= i < |s| => s[i].vulnerabilityProbability)
  }

  /** A tally is the multiplicity of its severity among the probabilities. */
  lemma {:induction false} CountIsMultiplicity(s: seq<Hotspot>, p: Option<string>)
    ensures |Keep(s, p)| == multiset(Probabilities(s))[p]
    decreases |s|
  {
    if |s| > 0 {
      CountIsMultiplicity(s[1..], p);
      assert Probabilities(s) == [s[0].vulnerabilityProbability] + Probabilities(s[1..]);
    }
  }

  /** The three tallies never exceed the hotspot count, and reach it exactly
      when every severity is ranked. */
  lemma {:induction false} CountsBounded(s: seq<Hotspot>)
    ensures |Keep(s, High)| + |Keep(s, Medium)| + |Keep(s, Low)| <= |s|
    ensures |Keep(s, High)| + |Keep(s, Medium)| + |Keep(s, Low)| == |s| <==> AllRanked(s)
    decreases |s|
  {
    if |s| > 0 {
      var u := s[1..];
      CountsBounded(u);
      if AllRanked(s) {
        assert AllRanked(u) by {
          forall i | 0 <= i < |u| ensures Ranked(u[i]) { assert u[i] == s[i + 1]; }
        }
      }
      if AllRanked(u) && Ranked(s[0]) {
        assert AllRanked(s) by {
          forall i | 0 <= i < |s| ensures Ranked(s[i]) {
            if i > 0 { assert s[i] == u[i - 1]; }
          }
        }
      }
    }
  }

  /** The summary is the same before and after sorting. */
  lemma SummaryIgnoresOrder(s: seq<Hotspot>)
    ensures Summarize(Sort(s)) == Summarize(s)
  {
    SortCount(s, High);
    SortCount(s, Medium);
    SortCount(s, Low);
  }

  /** A LOW hotspot that arrived before a HIGH one ends up behind it. */
  lemma TwoHotspotsExample(l: Hotspot, h: Hotspot)
    requires l.vulnerabilityProbability == Some("LOW")
    requires h.vulnerabilityProbability == Some("HIGH")
    ensures Sort([l, h]) == [h, l]
    ensures Summarize([l, h]) == Summary(1, 0, 1)
  {
    RankTable();
    assert Compare(l, h) == 2;
    assert [l, h][1..] == [h];
    assert Sort([h]) == [h];
    assert Insert(l, [h]) == [h] + Insert(l, []);
    KeepAppend([l], [h], High);
    KeepAppend([l], [h], Medium);
    KeepAppend([l], [h], Low);
    assert [l] + [h] == [l, h];
  }
}
