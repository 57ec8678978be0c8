/** The aggregation of `RankingSystem.calculate_rankings`: every contest
    credits both colonies named in it with a contest and one of a win, a
    loss or a draw, and its points to the winner. The dictionary of
    statistics keeps the order in which names were first met, as a Python
    dict does. */
module Tabla {
  import opened Registro

  /** The counters of one colony. */
  datatype Stats = Stats(wins: nat, losses: nat, draws: nat, totalPoints: int, contests: nat)

  function Zero(): Stats { Stats(0, 0, 0, 0, 0) }

  /** The sum of two sets of counters, field by field. */
  function Plus(a: Stats, b: Stats): Stats
  {
    var Stats(w, l, d, p, c) := a;
    Stats(w + b.wins, l + b.losses, d + b.draws, p + b.totalPoints, c + b.contests)
  }

  /** The rankings dictionary: statistics by name, and the names in the
      order they were inserted. */
  datatype Tabla = Tabla(stats: map<string, Stats>, order: seq<string>)

  /** The dictionary's names are its keys, each once. */
  ghost predicate Ordered(t: Tabla)
  {
    (forall n :: n in t.stats <==> n in t.order) &&
    (forall i, j :: 0 <= i < j < |t.order| ==> t.order[i] != t.order[j])
  }

  /** A text field of the record, or the default `get` falls back to. */
  function TextOr(c: Contest, k: string, d: string): string
  {
    if k in c && c[k].Texto? then c[k].s else d
  }

  function Name1(c: Contest): string { TextOr(c, "col1_nombre", "Unknown1") }
  function Name2(c: Contest): string { TextOr(c, "col2_nombre", "Unknown2") }
  function Winner(c: Contest): string { TextOr(c, "ganador", "Empate") }

  function Points(c: Contest): int
  {
    if "puntos" in c && c["puntos"].Entero? then c["puntos"].i else 0
  }

  /** The statistics of n, zeros when n is not in the dictionary. */
  function Get(t: Tabla, n: string): Stats
  {
    if n in t.stats then t.stats[n] else Zero()
  }

  /** `self.rankings[n][field] += d` on the defaultdict, for the fields d
      counts: a name met for the first time is inserted with zeros at the
      end of the dictionary, then d is added to its statistics. */
  function Bump(t: Tabla, n: string, d: Stats): Tabla
  {
    Tabla(t.stats[n := Plus(Get(t, n), d)], if n in t.stats then t.order else t.order + [n])
  }

  function AddContest(): Stats { Stats(0, 0, 0, 0, 1) }
  function AddLoss(): Stats { Stats(0, 1, 0, 0, 0) }
  function AddDraw(): Stats { Stats(0, 0, 1, 0, 0) }
  function AddWin(p: int): Stats { Stats(1, 0, 0, p, 0) }

  /** The loop body of `calculate_rankings` for one contest. */
  function Apply(t: Tabla, c: Contest): Tabla
  {
    Step(t, Name1(c), Name2(c), Winner(c), Points(c))
  }

  /** One contest between n1 and n2 won by w (drawn when w is neither) for
      p points: both get a contest, then the winner a win and the points
      and the other a loss, or both a draw. */
  function Step(t: Tabla, n1: string, n2: string, w: string, p: int): Tabla
  {
    var t1 := Bump(Bump(t, n1, AddContest()), n2, AddContest());
    if w == n1 then Won(t1, n1, n2, p)
    else if w == n2 then Won(t1, n2, n1, p)
    else Bump(Bump(t1, n1, AddDraw()), n2, AddDraw())
  }

  /** Winner w takes a win and the points, loser l a loss. */
  function Won(t: Tabla, w: string, l: string, p: int): Tabla
  {
    Bump(Bump(t, w, AddWin(p)), l, AddLoss())
  }

  /** The rankings after the contests, taken in order. */
  function Tally(cs: seq<Contest>): Tabla
  {
    if |cs| == 0 then Tabla(map[], []) else Apply(Tally(cs[..|cs| - 1]), cs[|cs| - 1])
  }

  /** Bumping keeps the names in insertion order, each once. */
  lemma BumpOrdered(t: Tabla, n: string, d: Stats)
    requires Ordered(t)
    ensures Ordered(Bump(t, n, d))
  {
  }

  /** After any contests, the dictionary's names are its keys, each once,
      in the order they were first met. */
  lemma {:induction false} TallyOrdered(cs: seq<Contest>)
    ensures Ordered(Tally(cs))
  {
    if |cs| > 0 {
      var t := Tally(cs[..|cs| - 1]);
      var c := cs[|cs| - 1];
      var n1, n2, w, p := Name1(c), Name2(c), Winner(c), Points(c);
      TallyOrdered(cs[..|cs| - 1]);
      BumpOrdered(t, n1, AddContest());
      var t0 := Bump(t, n1, AddContest());
      BumpOrdered(t0, n2, AddContest());
      var t1 := Bump(t0, n2, AddContest());
      if w == n1 {
        BumpOrdered(t1, n1, AddWin(p));
        BumpOrdered(Bump(t1, n1, AddWin(p)), n2, AddLoss());
      } else if w == n2 {
        BumpOrdered(t1, n2, AddWin(p));
        BumpOrdered(Bump(t1, n2, AddWin(p)), n1, AddLoss());
      } else {
        BumpOrdered(t1, n1, AddDraw());
        BumpOrdered(Bump(t1, n1, AddDraw()), n2, AddDraw());
      }
    }
  }

  function One(b: bool): nat { if b then 1 else 0 }

  /** What one contest adds to colony n. */
  function Share(c: Contest, n: string): (s: Stats)
    ensures s.wins + s.losses + s.draws == s.contests
    ensures s.totalPoints == (if Winner(c) == n && (Name1(c) == n || Name2(c) == n) then Points(c) else 0)
  {
    Credit(n == Name1(c), n == Name2(c), Winner(c) == Name1(c), Winner(c) == Name2(c), Points(c))
  }

  /** The share of a colony that is the first name (in1) and/or the second
      (in2) of a contest that the first name won (won1), else the second
      name won (won2), else was drawn, for p points: a contest per
      appearance; a win and the points on the winner's side and a loss on
      the other side; a draw per appearance when nobody won. */
  function Credit(in1: bool, in2: bool, won1: bool, won2: bool, p: int): Stats
  {
    var k := One(in1) + One(in2);
    if won1 then Stats(One(in1), One(in2), 0, if in1 then p else 0, k)
    else if won2 then Stats(One(in2), One(in1), 0, if in2 then p else 0, k)
    else Stats(0, 0, k, 0, k)
  }

  /** The sum of the shares of n over the contests. */
  function Total(cs: seq<Contest>, n: string): Stats
  {
    if |cs| == 0 then Zero() else Plus(Total(cs[..|cs| - 1], n), Share(cs[|cs| - 1], n))
  }

  /** Whether n is named in some contest. */
  predicate Appears(cs: seq<Contest>, n: string)
  {
    exists i :: 0 <= i < |cs| && (Name1(cs[i]) == n || Name2(cs[i]) == n)
  }

  /** The points a colony earns: those of the contests it won and took part
      in. */
  function PointsOf(cs: seq<Contest>, n: string): int
  {
    if |cs| == 0 then 0
    else
      var c := cs[|cs| - 1];
      PointsOf(cs[..|cs| - 1], n) + (if Winner(c) == n && (Name1(c) == n || Name2(c) == n) then Points(c) else 0)
  }

  /** One contest moves n's statistics by n's share, and puts n in the
      dictionary exactly when it names n. */
  lemma ApplyShare(t: Tabla, c: Contest, n: string)
    ensures var r := Apply(t, c);
      (n in r.stats <==> n in t.stats || n == Name1(c) || n == Name2(c)) &&
      Get(r, n) == Plus(Get(t, n), Share(c, n))
  {
    var n1, n2, w, p := Name1(c), Name2(c), Winner(c), Points(c);
    if w == n1 {
      WonShare(t, n1, n2, p, n);
    } else if w == n2 {
      WonShare(t, n2, n1, p, n);
      CreditSwap(n == n1, n == n2, p);
    } else {
      DrawnShare(t, n1, n2, p, n);
    }
  }

  /** Winning as the second name is winning as the first with the names
      swapped. */
  lemma CreditSwap(in1: bool, in2: bool, p: int)
    ensures Credit(in2, in1, true, false, p) == Credit(in1, in2, false, true, p)
  {
  }

  /** A drawn contest between n1 and n2 moves n by its share. */
  lemma DrawnShare(t: Tabla, n1: string, n2: string, p: int, n: string)
    ensures var r := Bump(Bump(Bump(Bump(t, n1, AddContest()), n2, AddContest()), n1, AddDraw()), n2, AddDraw());
      (n in r.stats <==> n in t.stats || n == n1 || n == n2) &&
      Get(r, n) == Plus(Get(t, n), Credit(n == n1, n == n2, false, false, p))
  {
    BumpTwice(t, n1, AddContest(), n2, AddContest(), n);
    BumpTwice(Bump(Bump(t, n1, AddContest()), n2, AddContest()), n1, AddDraw(), n2, AddDraw(), n);
  }

  /** A contest won by w over l moves n by its share. */
  lemma WonShare(t: Tabla, w: string, l: string, p: int, n: string)
    ensures var r := Won(Bump(Bump(t, w, AddContest()), l, AddContest()), w, l, p);
      (n in r.stats <==> n in t.stats || n == w || n == l) &&
      Get(r, n) == Plus(Get(t, n), Credit(n == w, n == l, true, false, p))
  {
    BumpTwice(t, w, AddContest(), l, AddContest(), n);
    BumpTwice(Bump(Bump(t, w, AddContest()), l, AddContest()), w, AddWin(p), l, AddLoss(), n);
  }

  /** What two bumps do to the statistics of n. */
  lemma BumpTwice(t: Tabla, a: string, da: Stats, b: string, db: Stats, n: string)
    ensures var r := Bump(Bump(t, a, da), b, db);
      (n in r.stats <==> n in t.stats || n == a || n == b) &&
      (n != a && n != b ==> Get(r, n) == Get(t, n)) &&
      (n == a && n != b ==> Get(r, n) == Plus(Get(t, n), da)) &&
      (n != a && n == b ==> Get(r, n) == Plus(Get(t, n), db)) &&
      (n == a && n == b ==> Get(r, n) == Plus(Plus(Get(t, n), da), db))
  {
  }

  /** The rankings hold exactly the names of the contests, and each name's
      statistics are the sum of its shares. */
  lemma {:induction false} TallyIsTotal(cs: seq<Contest>, n: string)
    ensures n in Tally(cs).stats <==> Appears(cs, n)
    ensures Get(Tally(cs), n) == Total(cs, n)
  {
    if |cs| > 0 {
      var cs' := cs[..|cs| - 1];
      TallyIsTotal(cs', n);
      ApplyShare(Tally(cs'), cs[|cs| - 1], n);
      AppearsSnoc(cs, n);
    }
  }

  /** n is named in some contest iff it is named in one before the last or
      in the last. */
  lemma AppearsSnoc(cs: seq<Contest>, n: string)
    requires |cs| > 0
    ensures var c := cs[|cs| - 1];
      Appears(cs, n) <==> Appears(cs[..|cs| - 1], n) || Name1(c) == n || Name2(c) == n
  {
    var cs' := cs[..|cs| - 1];
    if Appears(cs', n) {
      var i :| 0 <= i < |cs'| && (Name1(cs'[i]) == n || Name2(cs'[i]) == n);
      assert cs[i] == cs'[i];
    }
    if Appears(cs, n) {
      var i :| 0 <= i < |cs| && (Name1(cs[i]) == n || Name2(cs[i]) == n);
      if i < |cs'| {
        assert cs[i] == cs'[i];
      }
    }
  }

  /** A colony named nowhere has nothing. */
  lemma {:induction false} TotalAbsent(cs: seq<Contest>, n: string)
    requires !Appears(cs, n)
    ensures Total(cs, n) == Zero()
  {
    if |cs| > 0 {
      var cs' := cs[..|cs| - 1];
      forall i | 0 <= i < |cs'|
        ensures Name1(cs'[i]) != n && Name2(cs'[i]) != n
      {
        assert cs'[i] == cs[i];
      }
      TotalAbsent(cs', n);
    }
  }

  /** Every contest of a colony is exactly one of a win, a loss or a draw. */
  lemma {:induction false} TotalBalanced(cs: seq<Contest>, n: string)
    ensures Total(cs, n).wins + Total(cs, n).losses + Total(cs, n).draws == Total(cs, n).contests
  {
    if |cs| > 0 {
      TotalBalanced(cs[..|cs| - 1], n);
    }
  }

  /** Points go only to winners: a colony's points are those of the
      contests it won. */
  lemma {:induction false} TotalPoints(cs: seq<Contest>, n: string)
    ensures Total(cs, n).totalPoints == PointsOf(cs, n)
  {
    if |cs| > 0 {
      TotalPoints(cs[..|cs| - 1], n);
    }
  }

  /** For every colony of the rankings, wins + losses + draws == contests,
      its points are those of the contests it won, and it took part in at
      least one contest. */
  lemma Balanced(cs: seq<Contest>, n: string)
    requires n in Tally(cs).stats
    ensures var s := Tally(cs).stats[n];
      s.wins + s.losses + s.draws == s.contests && s.totalPoints == PointsOf(cs, n) && s.contests > 0
  {
    TallyIsTotal(cs, n);
    TotalBalanced(cs, n);
    TotalPoints(cs, n);
    TotalAppears(cs, n);
  }

  /** A colony named somewhere has at least one contest. */
  lemma {:induction false} TotalAppears(cs: seq<Contest>, n: string)
    requires Appears(cs, n)
    ensures Total(cs, n).contests > 0
  {
    var cs' := cs[..|cs| - 1];
    if Share(cs[|cs| - 1], n).contests == 0 {
      assert Appears(cs', n) by {
        var i :| 0 <= i < |cs| && (Name1(cs[i]) == n || Name2(cs[i]) == n);
        assert cs'[i] == cs[i];
      }
      TotalAppears(cs', n);
    }
  }

  /** The rankings are empty exactly when there is no contest. */
  lemma TallyEmpty(cs: seq<Contest>)
    ensures |Tally(cs).stats| == 0 <==> |cs| == 0
  {
    if |cs| > 0 {
      TallyIsTotal(cs, Name1(cs[0]));
      assert Name1(cs[0]) in Tally(cs).stats;
    }
  }
}
