/** The ranking step of `RankingSystem.generate_ranking_report`: the
    colonies of the rankings sorted by win rate, then total points, both
    descending, by Python's stable `sorted(..., reverse=True)`, cut to the
    first `top_n`, with the count of those left out. */
module Informe {
  import opened Py
  import opened Registro
  import opened Tabla

  /** One entry of `rankings.items()` once the averages are filled in: a
      colony, its counters, `avg_points` and `win_rate`. */
  datatype Fila = Fila(name: string, stats: Stats, avgPoints: real, winRate: real)

  /** `win_rate`: the percentage of contests won; left at 0.0 when there is
      no contest. */
  function WinRate(s: Stats): real
  {
    if s.contests > 0 then (s.wins as real / s.contests as real) * 100.0 else 0.0
  }

  /** `avg_points`: the points per contest; left at 0.0 when there is no
      contest. */
  function AvgPoints(s: Stats): real
  {
    if s.contests > 0 then s.totalPoints as real / s.contests as real else 0.0
  }

  /** The sort key `(win_rate, total_points)`. */
  function Key(e: Fila): (real, int)
  {
    (e.winRate, e.stats.totalPoints)
  }

  /** Key a is above key b in tuple order. */
  predicate Above(a: (real, int), b: (real, int))
  {
    a.0 > b.0 || (a.0 == b.0 && a.1 > b.1)
  }

  /** No entry has a key above that of an entry before it. */
  predicate Descending(s: seq<Fila>)
  {
    forall i, j :: 0 <= i < j < |s| ==> !Above(Key(s[j]), Key(s[i]))
  }

  /** The entry of colony n, averages filled in. */
  function Row(t: Tabla, n: string): Fila
  {
    var s := Get(t, n);
    Fila(n, s, AvgPoints(s), WinRate(s))
  }

  /** The entries of the rankings in the dictionary's order. */
  function Entries(t: Tabla): (r: seq<Fila>)
    ensures |r| == |t.order|
    ensures forall i :: 0 <= i < |r| ==> r[i] == Row(t, t.order[i])
  {
    Rows(t, t.order)
  }

  function Rows(t: Tabla, names: seq<string>): (r: seq<Fila>)
    ensures |r| == |names|
    ensures forall i :: 0 <= i < |r| ==> r[i] == Row(t, names[i])
  {
    if |names| == 0 then [] else Rows(t, names[..|names| - 1]) + [Row(t, names[|names| - 1])]
  }

  /** x placed into a descending s after every entry whose key is not below
      its own: the insertion step of a stable sort. */
  function Insert(x: Fila, s: seq<Fila>): seq<Fila>
  {
    if |s| == 0 || Above(Key(x), Key(s[0])) then [x] + s else [s[0]] + Insert(x, s[1..])
  }

  /** `sorted(items, key=Key, reverse=True)`. */
  function Sort(s: seq<Fila>): seq<Fila>
  {
    if |s| == 0 then [] else Insert(s[|s| - 1], Sort(s[..|s| - 1]))
  }

  /** The entries of s whose key is k, in their order. */
  function WithKey(s: seq<Fila>, k: (real, int)): seq<Fila>
  {
    if |s| == 0 then [] else WithKey(s[..|s| - 1], k) + (if Key(s[|s| - 1]) == k then [s[|s| - 1]] else [])
  }

  /** Inserting keeps the entries, adds x, and keeps the order descending. */
  lemma {:induction false} InsertSorted(x: Fila, s: seq<Fila>)
    requires Descending(s)
    ensures multiset(Insert(x, s)) == multiset(s) + multiset{x}
    ensures Descending(Insert(x, s))
    ensures |Insert(x, s)| == |s| + 1
  {
    if |s| == 0 || Above(Key(x), Key(s[0])) {
    } else {
      DescendingTail(s);
      InsertSorted(x, s[1..]);
      assert s == [s[0]] + s[1..];
      InsertHead(x, s);
    }
  }

  /** The head of s stays at the front of an insertion that passes it, and
      nothing after it rises above it. */
  lemma InsertHead(x: Fila, s: seq<Fila>)
    requires Descending(s) && |s| > 0 && !Above(Key(x), Key(s[0]))
    requires Descending(Insert(x, s[1..]))
    requires multiset(Insert(x, s[1..])) == multiset(s[1..]) + multiset{x}
    ensures Descending(Insert(x, s))
  {
    var r := Insert(x, s[1..]);
    forall e | e in r
      ensures !Above(Key(e), Key(s[0]))
    {
      assert e in multiset(r);
      if e != x {
        assert e in multiset(s[1..]);
        HeadNotBelow(s, e);
      }
    }
    DescendingCons(s[0], r);
  }

  /** No entry of a descending sequence is above its head. */
  lemma HeadNotBelow(s: seq<Fila>, e: Fila)
    requires Descending(s) && |s| > 0 && e in s[1..]
    ensures !Above(Key(e), Key(s[0]))
  {
    var j :| 0 <= j < |s[1..]| && s[1..][j] == e;
    assert s[j + 1] == e;
  }

  /** An entry not below any of a descending sequence can head it. */
  lemma DescendingCons(h: Fila, r: seq<Fila>)
    requires Descending(r)
    requires forall e | e in r :: !Above(Key(e), Key(h))
    ensures Descending([h] + r)
  {
    forall i, j | 0 <= i < j < |[h] + r|
      ensures !Above(Key(([h] + r)[j]), Key(([h] + r)[i]))
    {
      assert ([h] + r)[j] == r[j - 1];
      if i > 0 {
        assert ([h] + r)[i] == r[i - 1];
      } else {
        assert r[j - 1] in r;
      }
    }
  }

  /** The sort keeps the entries and orders them by descending key. */
  lemma {:induction false} SortSorted(s: seq<Fila>)
    ensures multiset(Sort(s)) == multiset(s)
    ensures Descending(Sort(s))
    ensures |Sort(s)| == |s|
  {
    if |s| > 0 {
      var s' := s[..|s| - 1];
      SortSorted(s');
      InsertSorted(s[|s| - 1], Sort(s'));
      assert s == s' + [s[|s| - 1]];
    }
  }

  /** Inserting x adds it after the entries with its key. */
  lemma {:induction false} InsertWithKey(x: Fila, s: seq<Fila>, k: (real, int))
    requires Descending(s)
    ensures WithKey(Insert(x, s), k) == WithKey(s, k) + (if Key(x) == k then [x] else [])
    decreases |s|
  {
    var fx := if Key(x) == k then [x] else [];
    if |s| == 0 || Above(Key(x), Key(s[0])) {
      InsertFront(x, s, k);
    } else {
      var f0 := if Key(s[0]) == k then [s[0]] else [];
      var r := Insert(x, s[1..]);
      DescendingTail(s);
      InsertWithKey(x, s[1..], k);
      WithKeyHead(s, k);
      WithKeyCons(s[0], r, k);
      calc {
        WithKey(Insert(x, s), k);
        WithKey([s[0]] + r, k);
        f0 + WithKey(r, k);
        f0 + (WithKey(s[1..], k) + fx);
        (f0 + WithKey(s[1..], k)) + fx;
        WithKey(s, k) + fx;
      }
    }
  }

  /** An entry above the head goes in front, after nothing of its key. */
  lemma InsertFront(x: Fila, s: seq<Fila>, k: (real, int))
    requires Descending(s) && (|s| == 0 || Above(Key(x), Key(s[0])))
    ensures WithKey(Insert(x, s), k) == WithKey(s, k) + (if Key(x) == k then [x] else [])
  {
    assert Insert(x, s) == [x] + s;
    WithKeyCons(x, s, k);
    if Key(x) == k {
      BelowHead(x, s);
      WithKeyNone(s, k);
      assert WithKey(Insert(x, s), k) == [x];
    } else {
      assert WithKey(Insert(x, s), k) == WithKey(s, k);
    }
  }

  /** The filter of a non-empty sequence, from its head. */
  lemma WithKeyHead(s: seq<Fila>, k: (real, int))
    requires |s| > 0
    ensures WithKey(s, k) == (if Key(s[0]) == k then [s[0]] else []) + WithKey(s[1..], k)
  {
    WithKeyCons(s[0], s[1..], k);
    assert s == [s[0]] + s[1..];
  }

  /** The tail of a descending sequence is descending. */
  lemma DescendingTail(s: seq<Fila>)
    requires Descending(s) && |s| > 0
    ensures Descending(s[1..])
  {
    forall i, j | 0 <= i < j < |s[1..]|
      ensures !Above(Key(s[1..][j]), Key(s[1..][i]))
    {
      assert s[1..][j] == s[j + 1] && s[1..][i] == s[i + 1];
    }
  }

  /** An entry above the head of a descending sequence shares its key with
      none of its entries. */
  lemma BelowHead(x: Fila, s: seq<Fila>)
    requires Descending(s) && (|s| == 0 || Above(Key(x), Key(s[0])))
    ensures forall e | e in s :: Key(e) != Key(x)
  {
    forall e | e in s
      ensures Key(e) != Key(x)
    {
      var j :| 0 <= j < |s| && s[j] == e;
      assert j == 0 || !Above(Key(s[j]), Key(s[0]));
    }
  }

  /** No entry has key k: nothing passes the filter. */
  lemma {:induction false} WithKeyNone(s: seq<Fila>, k: (real, int))
    requires forall e | e in s :: Key(e) != k
    ensures WithKey(s, k) == []
  {
    if |s| > 0 {
      assert forall e | e in s[..|s| - 1] :: e in s;
      WithKeyNone(s[..|s| - 1], k);
    }
  }

  /** The sort is stable: the entries of each key keep their order. */
  lemma {:induction false} SortStable(s: seq<Fila>, k: (real, int))
    ensures WithKey(Sort(s), k) == WithKey(s, k)
  {
    if |s| > 0 {
      var s' := s[..|s| - 1];
      SortStable(s', k);
      SortSorted(s');
      InsertWithKey(s[|s| - 1], Sort(s'), k);
    }
  }

  /** The filter of an entry put in front. */
  lemma {:induction false} WithKeyCons(x: Fila, s: seq<Fila>, k: (real, int))
    ensures WithKey([x] + s, k) == (if Key(x) == k then [x] else []) + WithKey(s, k)
    decreases |s|
  {
    if |s| > 0 {
      var s' := s[..|s| - 1];
      assert ([x] + s)[..|[x] + s| - 1] == [x] + s';
      assert ([x] + s)[|[x] + s| - 1] == s[|s| - 1];
      WithKeyCons(x, s', k);
    } else {
      assert [x] + s == [x];
      assert [x][..0] == [];
    }
  }

  /** `s[:n]` for a Python list: the first n entries, all of them when n
      exceeds the length, and all but the last -n when n is negative. */
  function Take(s: seq<Fila>, n: int): (r: seq<Fila>)
    ensures |r| == Count(|s|, n)
    ensures r == s[..|r|]
  {
    s[..Count(|s|, n)]
  }

  /** The length of `s[:n]` for a list of length len. */
  function Count(len: nat, n: int): (k: nat)
    ensures k <= len
    ensures 0 <= n ==> k == if n < len then n else len
    ensures n < 0 ==> k == if len + n > 0 then len + n else 0
  {
    if n >= 0 then (if n < len then n else len)
    else if len + n > 0 then len + n else 0
  }

  /** The report's content beyond its fixed text: nothing to rank, or the
      number of contests analysed, the number of colonies, the listed
      entries in rank order (rank i + 1 at index i), and the count of
      colonies not listed when the list was cut. */
  datatype Informe = NoData | Ranked(contests: nat, colonies: nat, rows: seq<Fila>, more: Option<int>)

  /** `generate_ranking_report(top_n)` on the rankings t of n contests. */
  function Report(t: Tabla, n: nat, topN: int): Informe
  {
    if |t.stats| == 0 then NoData
    else
      var sorted := Sort(Entries(t));
      Ranked(n, |t.stats|, Take(sorted, topN), if |sorted| > topN then Some(|sorted| - topN) else None)
  }

  /** There is nothing to rank exactly when no contest was loaded. */
  lemma ReportEmpty(cs: seq<Contest>, topN: int)
    ensures Report(Tally(cs), |cs|, topN).NoData? <==> |cs| == 0
  {
    TallyEmpty(cs);
  }

  /** The report of non-empty rankings counts the colonies, lists the first
      `top_n` (in Python's slice sense) of the colonies sorted, and gives
      the count of the rest exactly when the list was cut. */
  lemma ReportRanked(t: Tabla, n: nat, topN: int)
    requires Ordered(t) && |t.stats| > 0
    ensures var r := Report(t, n, topN);
      r.Ranked? && r.contests == n && r.colonies == |t.order| &&
      r.rows == Take(Sort(Entries(t)), topN) &&
      |r.rows| == Count(r.colonies, topN) &&
      (r.more.Some? <==> r.colonies > topN) &&
      (r.more.Some? ==> r.more.value == r.colonies - topN) &&
      (r.more.Some? && topN >= 0 ==> |r.rows| + r.more.value == r.colonies)
  {
    OrderedSize(t);
    SortSorted(Entries(t));
  }

  /** The listed entries are in descending order of (win rate, total
      points), and no colony left out is above a listed one. */
  lemma ReportOrder(t: Tabla, n: nat, topN: int)
    requires Ordered(t) && |t.stats| > 0
    ensures var rows := Report(t, n, topN).rows;
      var sorted := Sort(Entries(t));
      rows == sorted[..|rows|] && Descending(rows) &&
      (forall i, j :: 0 <= i < |rows| <= j < |sorted| ==> !Above(Key(sorted[j]), Key(rows[i])))
  {
    SortSorted(Entries(t));
  }

  /** The listed entries are colonies of the rankings with their own
      counters and averages. */
  lemma ReportMembers(t: Tabla, n: nat, topN: int)
    requires Ordered(t) && |t.stats| > 0
    ensures forall f | f in Report(t, n, topN).rows :: f.name in t.stats && f == Row(t, f.name)
  {
    var rows := Report(t, n, topN).rows;
    forall f | f in rows
      ensures f.name in t.stats && f == Row(t, f.name)
    {
      assert f in Sort(Entries(t));
      SortedEntry(t, f);
    }
  }

  /** Every entry of the sorted list is a colony of the rankings with its
      own counters. */
  lemma SortedEntry(t: Tabla, f: Fila)
    requires Ordered(t) && f in Sort(Entries(t))
    ensures f.name in t.stats && f == Row(t, f.name)
  {
    SortSorted(Entries(t));
    assert f in multiset(Sort(Entries(t)));
    assert f in multiset(Entries(t));
    var i :| 0 <= i < |Entries(t)| && Entries(t)[i] == f;
    assert t.order[i] in t.order;
  }

  /** A dictionary whose names are its keys, each once, has as many keys
      as names. */
  lemma OrderedSize(t: Tabla)
    requires Ordered(t)
    ensures |t.stats| == |t.order|
  {
    var keys := t.stats.Keys;
    var names := set n | n in t.order;
    assert keys == names;
    DistinctCard(t.order);
  }

  /** A sequence without repeats has as many elements as its set. */
  lemma {:induction false} DistinctCard(s: seq<string>)
    requires forall i, j :: 0 <= i < j < |s| ==> s[i] != s[j]
    ensures |set n | n in s| == |s|
  {
    if |s| > 0 {
      var s' := s[..|s| - 1];
      DistinctCard(s');
      var last := s[|s| - 1];
      forall i | 0 <= i < |s'|
        ensures s'[i] != last
      {
        assert s'[i] == s[i];
      }
      assert (set n | n in s) == (set n | n in s') + {last};
    }
  }
}
