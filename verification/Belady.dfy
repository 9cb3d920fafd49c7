/** Belady's MIN is optimal (the policy of a2/starter/opt.c). */
module Belady {
  // The proof is an exchange argument on what a resident set can still serve, so it
  // speaks about whole traces and needs no assumption on the competing policy.

  import opened Paging

  /** How many references pass before p is used; |tr| when it never is. */
  ghost function NextUse(tr: seq<Page>, p: Page): (n: nat)
    ensures n <= |tr|
    ensures n < |tr| ==> tr[n] == p
    ensures p !in tr[..n]
  {
    if tr == [] || tr[0] == p then 0
    else
      var n := NextUse(tr[1..], p);
      assert tr[..n + 1] == [tr[0]] + tr[1..][..n];
      n + 1
  }

  /** v is a resident page whose next use lies furthest in the future. */
  ghost predicate Furthest(tr: seq<Page>, i: nat, r: set<Page>, v: Page)
    requires i <= |tr|
  {
    v in r && forall u :: u in r ==> NextUse(tr[i..], u) <= NextUse(tr[i..], v)
  }

  /** A run of k frames in which every eviction takes a page used furthest in the future. */
  ghost predicate BeladyRun(k: nat, tr: seq<Page>, rs: seq<set<Page>>) {
    && Run(k, tr, rs)
    && forall i :: 0 <= i < |tr| && tr[i] !in rs[i] && |rs[i]| >= k ==> BeladyStep(tr, rs, i)
  }

  ghost predicate BeladyStep(tr: seq<Page>, rs: seq<set<Page>>, i: nat)
    requires i < |tr| && i + 1 < |rs|
  {
    exists v :: Furthest(tr, i, rs[i], v) && rs[i + 1] == Swap(rs[i], v, tr[i])
  }

  /** With k frames and resident set s, some choice of victims serves tr with at most m misses. */
  ghost predicate CanServe(k: nat, s: set<Page>, tr: seq<Page>, m: nat)
    decreases |tr|, 0
  {
    tr == [] || exists s' :: ServesVia(k, s, s', tr, m)
  }

  /** One such choice leads to s' at the first reference. */
  ghost predicate ServesVia(k: nat, s: set<Page>, s': set<Page>, tr: seq<Page>, m: nat)
    requires tr != []
    decreases |tr| - 1, 1
  {
    && Step(k, s, tr[0], s')
    && if tr[0] in s then CanServe(k, s', tr[1..], m)
       else m > 0 && CanServe(k, s', tr[1..], m - 1)
  }

  lemma {:induction false} CanServeMore(k: nat, s: set<Page>, tr: seq<Page>, m: nat, m': nat)
    requires CanServe(k, s, tr, m) && m <= m'
    ensures CanServe(k, s, tr, m')
    decreases |tr|
  {
    if tr != [] {
      var s' :| ServesVia(k, s, s', tr, m);
      if tr[0] in s {
        CanServeMore(k, s', tr[1..], m, m');
      } else {
        CanServeMore(k, s', tr[1..], m - 1, m' - 1);
      }
      assert ServesVia(k, s, s', tr, m');
    }
  }

  /** A set that is not smaller than another one, and misses one of its elements, has one to spare. */
  lemma Spare(s: set<Page>, t: set<Page>) returns (u: Page)
    requires |s| > |t| || (|s| >= |t| && t - s != {})
    ensures u in s && u !in t
  {
    assert s == (s * t) + (s - t) && t == (s * t) + (t - s);
    assert s - t != {};
    u :| u in s && u !in t;
  }

  /** What t serves with m misses in h frames, s serves in k frames, if those are not fewer, with one
      more miss for each page of t it lacks. */
  lemma {:induction false} Lipschitz(k: nat, h: nat, s: set<Page>, t: set<Page>, tr: seq<Page>, m: nat)
    requires |s| <= k && |t| <= h <= k
    requires CanServe(h, t, tr, m)
    ensures CanServe(k, s, tr, m + |t - s|)
    decreases |tr|, 1
  {
    if tr == [] {
      return;
    }
    var p, rest := tr[0], tr[1..];
    var t' :| ServesVia(h, t, t', tr, m);
    if p !in t {
      FollowMiss(k, h, s, t, t', tr, m);
    } else if p in s {
      Lipschitz(k, h, s, t, rest, m);
      assert ServesVia(k, s, s, tr, m + |t - s|);
    } else {
      var s' := LoadSpare(k, s, t, p);
      Lipschitz(k, h, s', t, rest, m);
      assert t - s == (t - s') + {p};
      assert ServesVia(k, s, s', tr, m + |t - s|);
    }
  }

  /** p is needed but missing from s: put it in a free frame, or in place of a page t does not need. */
  lemma LoadSpare(k: nat, s: set<Page>, t: set<Page>, p: Page) returns (s': set<Page>)
    requires |s| <= k && |t| <= k && p in t && p !in s
    ensures Step(k, s, p, s') && |s'| <= k
    ensures t - s' == (t - s) - {p}
  {
    if |s| < k {
      s' := s + {p};
    } else {
      assert p in t - s;
      var u := Spare(s, t);
      s' := Swap(s, u, p);
    }
  }

  /** t misses tr[0] and moves to t'; s follows without falling further behind. */
  lemma {:induction false} FollowMiss(k: nat, h: nat, s: set<Page>, t: set<Page>, t': set<Page>, tr: seq<Page>, m: nat)
    requires |s| <= k && |t| <= h <= k && 0 < m
    requires tr != [] && tr[0] !in t && Step(h, t, tr[0], t')
    requires CanServe(h, t', tr[1..], m - 1)
    ensures CanServe(k, s, tr, m + |t - s|)
    decreases |tr|, 0
  {
    var p, rest := tr[0], tr[1..];
    var s' := FollowLoad(k, h, s, t, t', p);
    SubsetSize(t' - s', t - s);
    Lipschitz(k, h, s', t', rest, m - 1);
    CanServeMore(k, s', rest, m - 1 + |t' - s'|, m - 1 + |t - s|);
    if p in s {
      CanServeMore(k, s', rest, m - 1 + |t - s|, m + |t - s|);
    }
    assert ServesVia(k, s, s', tr, m + |t - s|);
  }

  /** A step never overfills the memory. */
  lemma StepSize(k: nat, s: set<Page>, p: Page, s': set<Page>)
    requires |s| <= k && Step(k, s, p, s')
    ensures |s'| <= k
  {
  }

  /** t misses p: s evicts what t evicts when it can, and a page t lacks otherwise. */
  lemma FollowLoad(k: nat, h: nat, s: set<Page>, t: set<Page>, t': set<Page>, p: Page) returns (s': set<Page>)
    requires |s| <= k && |t| <= h <= k && p !in t && Step(h, t, p, t')
    ensures Step(k, s, p, s') && |s'| <= k && |t'| <= h
    ensures t' - s' <= t - s
  {
    if p in s {
      s' := s;
    } else if |s| < k {
      s' := s + {p};
    } else {
      var u := FollowVictim(k, h, s, t, t', p);
      s' := Swap(s, u, p);
    }
    StepSize(k, s, p, s');
    StepSize(h, t, p, t');
  }

  lemma FollowVictim(k: nat, h: nat, s: set<Page>, t: set<Page>, t': set<Page>, p: Page) returns (u: Page)
    requires |s| == k && |t| <= h <= k && p !in s && p !in t && Step(h, t, p, t')
    ensures u in s && t' - Swap(s, u, p) <= t - s
  {
    if |t| < h {
      u := Spare(s, t);
    } else {
      var v :| v in t && t' == Swap(t, v, p);
      if v in s {
        u := v;
      } else {
        assert v in t - s;
        u := Spare(s, t);
      }
    }
  }

  /** Holding a instead of b never hurts when a is needed no later than b. */
  lemma {:induction false} Exchange(k: nat, x: set<Page>, a: Page, b: Page, tr: seq<Page>, m: nat)
    requires a !in x && b !in x && |x| < k
    requires NextUse(tr, a) <= NextUse(tr, b)
    requires CanServe(k, x + {b}, tr, m)
    ensures CanServe(k, x + {a}, tr, m)
    decreases |tr|, 1
  {
    if tr == [] || a == b {
      return;
    }
    var t' :| ServesVia(k, x + {b}, t', tr, m);
    if tr[0] == a {
      ExchangeUse(k, x, a, b, t', tr, m);
    } else if tr[0] in x {
      Exchange(k, x, a, b, tr[1..], m);
      assert ServesVia(k, x + {a}, x + {a}, tr, m);
    } else {
      ExchangeMiss(k, x, a, b, t', tr, m);
    }
  }

  /** The page held is needed now, and its absence costs a miss. */
  lemma ExchangeUse(k: nat, x: set<Page>, a: Page, b: Page, t': set<Page>, tr: seq<Page>, m: nat)
    requires a !in x && b !in x && |x| < k && a != b
    requires tr != [] && tr[0] == a && ServesVia(k, x + {b}, t', tr, m)
    ensures CanServe(k, x + {a}, tr, m)
  {
    var s := x + {a};
    StepSize(k, x + {b}, a, t');
    Lipschitz(k, k, s, t', tr[1..], m - 1);
    assert t' - s <= {b};
    SubsetSize(t' - s, {b});
    CanServeMore(k, s, tr[1..], m - 1 + |t' - s|, m);
    assert ServesVia(k, s, s, tr, m);
  }

  /** x turns into x' by loading p beside one further page. */
  ghost predicate StepBeside(k: nat, x: set<Page>, p: Page, x': set<Page>) {
    if |x| + 1 < k then x' == x + {p}
    else |x| + 1 == k && exists v {:trigger Swap(x, v, p)} :: v in x && x' == Swap(x, v, p)
  }

  /** A set with one further page b misses p: b goes, or it stays and the rest changes. */
  lemma MissBeside(k: nat, x: set<Page>, b: Page, p: Page, t': set<Page>) returns (x': set<Page>)
    requires b !in x && p !in x && p != b && |x| < k && Step(k, x + {b}, p, t')
    ensures (|x| + 1 == k && t' == x + {p}) || (t' == x' + {b} && StepBeside(k, x, p, x'))
  {
    x' := x + {p};
    assert |x + {b}| == |x| + 1;
    if |x| + 1 < k {
      assert t' == x' + {b};
    } else {
      var v :| v in x + {b} && t' == Swap(x + {b}, v, p);
      if v == b {
        assert t' == x + {p};
      } else {
        x' := Swap(x, v, p);
        assert t' == x' + {b};
      }
    }
  }

  lemma StepFromBeside(k: nat, x: set<Page>, a: Page, p: Page, x': set<Page>)
    requires a !in x && p !in x && p != a && StepBeside(k, x, p, x')
    ensures Step(k, x + {a}, p, x' + {a})
    ensures a !in x' && |x'| < k
  {
    if |x| + 1 < k {
      assert x' + {a} == x + {a} + {p};
    } else {
      var v :| v in x && x' == Swap(x, v, p);
      assert v in x + {a} && x' + {a} == Swap(x + {a}, v, p);
    }
  }

  lemma StepAway(k: nat, x: set<Page>, a: Page, p: Page)
    requires a !in x && |x| + 1 == k && p !in x && p != a
    ensures Step(k, x + {a}, p, x + {p})
  {
    assert a in x + {a} && x + {p} == Swap(x + {a}, a, p);
  }

  lemma ServesMiss(k: nat, s: set<Page>, s': set<Page>, tr: seq<Page>, m: nat)
    requires tr != [] && tr[0] !in s && 0 < m
    requires Step(k, s, tr[0], s') && CanServe(k, s', tr[1..], m - 1)
    ensures CanServe(k, s, tr, m)
  {
    assert ServesVia(k, s, s', tr, m);
  }

  /** Both sets miss: either the two pages change places, or the rest changes in the same way. */
  lemma {:induction false} ExchangeMiss(k: nat, x: set<Page>, a: Page, b: Page, t': set<Page>, tr: seq<Page>, m: nat)
    requires a !in x && b !in x && |x| < k && a != b && 0 < m
    requires NextUse(tr, a) <= NextUse(tr, b)
    requires tr != [] && tr[0] !in x && tr[0] != a && tr[0] != b
    requires Step(k, x + {b}, tr[0], t') && CanServe(k, t', tr[1..], m - 1)
    ensures CanServe(k, x + {a}, tr, m)
    decreases |tr|, 0
  {
    var x' := MissBeside(k, x, b, tr[0], t');
    if |x| + 1 == k && t' == x + {tr[0]} {
      StepAway(k, x, a, tr[0]);
      ServesMiss(k, x + {a}, t', tr, m);
    } else {
      StepFromBeside(k, x, a, tr[0], x');
      StepFromBeside(k, x, b, tr[0], x');
      NextUseTail(tr, 0, a, b);
      assert tr[0..] == tr;
      Exchange(k, x', a, b, tr[1..], m - 1);
      ServesMiss(k, x + {a}, x' + {a}, tr, m);
    }
  }

  /** Any run from rs[i] on is a way of serving the rest of the trace. */
  lemma {:induction false} RunServes(k: nat, tr: seq<Page>, rs: seq<set<Page>>, i: nat)
    requires Run(k, tr, rs) && i <= |tr|
    ensures CanServe(k, rs[i], tr[i..], MissesIn(tr, rs, i, |tr|))
    decreases |tr| - i
  {
    if i < |tr| {
      RunServes(k, tr, rs, i + 1);
      MissesHead(tr, rs, i, |tr|);
      assert tr[i..][0] == tr[i] && tr[i..][1..] == tr[i + 1..];
      assert Step(k, rs[i], tr[i], rs[i + 1]);
      assert ServesVia(k, rs[i], rs[i + 1], tr[i..], MissesIn(tr, rs, i, |tr|));
    }
  }

  /** From rs[i] on, a Belady run misses no more often than anything serving the rest from rs[i]. */
  lemma {:induction false} BeladyBest(k: nat, tr: seq<Page>, rs: seq<set<Page>>, i: nat, m: nat)
    requires 0 < k && BeladyRun(k, tr, rs) && i <= |tr|
    requires CanServe(k, rs[i], tr[i..], m)
    ensures MissesIn(tr, rs, i, |tr|) <= m
    decreases |tr| - i
  {
    if i == |tr| {
      return;
    }
    MissesHead(tr, rs, i, |tr|);
    assert tr[i..][0] == tr[i] && tr[i..][1..] == tr[i + 1..];
    assert Step(k, rs[i], tr[i], rs[i + 1]);
    BeladyServes(k, tr, rs, i, m);
    BeladyBest(k, tr, rs, i + 1, if tr[i] in rs[i] then m else m - 1);
  }

  lemma BeladyServes(k: nat, tr: seq<Page>, rs: seq<set<Page>>, i: nat, m: nat)
    requires 0 < k && BeladyRun(k, tr, rs) && i < |tr|
    requires CanServe(k, rs[i], tr[i..], m)
    ensures if tr[i] in rs[i] then CanServe(k, rs[i + 1], tr[i + 1..], m)
            else m > 0 && CanServe(k, rs[i + 1], tr[i + 1..], m - 1)
  {
    RunBounds(k, tr, rs, i);
    assert tr[i..][0] == tr[i] && tr[i..][1..] == tr[i + 1..];
    assert Step(k, rs[i], tr[i], rs[i + 1]);
    if tr[i] !in rs[i] && |rs[i]| >= k {
      assert BeladyStep(tr, rs, i);
      var f :| Furthest(tr, i, rs[i], f) && rs[i + 1] == Swap(rs[i], f, tr[i]);
      BeladyMiss(k, tr[i..], rs[i], f, m);
    } else {
      var s' :| ServesVia(k, rs[i], s', tr[i..], m);
    }
  }

  /** Belady's victim f leaves a set that serves the rest as well as any other victim would. */
  lemma BeladyMiss(k: nat, t: seq<Page>, r: set<Page>, f: Page, m: nat)
    requires |r| == k && t != [] && t[0] !in r
    requires f in r && forall u :: u in r ==> NextUse(t, u) <= NextUse(t, f)
    requires CanServe(k, r, t, m)
    ensures m > 0 && CanServe(k, Swap(r, f, t[0]), t[1..], m - 1)
  {
    var s' :| ServesVia(k, r, s', t, m);
    var v :| v in r && s' == Swap(r, v, t[0]);
    if v != f {
      BeladyExchange(k, t, r, f, v, m - 1);
    }
  }

  lemma BeladyExchange(k: nat, t: seq<Page>, r: set<Page>, f: Page, v: Page, m: nat)
    requires |r| == k && t != [] && t[0] !in r && f in r && v in r && v != f
    requires NextUse(t, v) <= NextUse(t, f)
    requires CanServe(k, Swap(r, v, t[0]), t[1..], m)
    ensures CanServe(k, Swap(r, f, t[0]), t[1..], m)
  {
    var y := r - {f} - {v};
    assert Swap(r, v, t[0]) == y + {t[0]} + {f} && Swap(r, f, t[0]) == y + {t[0]} + {v};
    Exchange(k, y + {t[0]}, v, f, t[1..], m);
  }

  /** The order of next uses does not change when a reference to a third page passes. */
  lemma NextUseTail(tr: seq<Page>, i: nat, v: Page, f: Page)
    requires i < |tr| && tr[i] != v && tr[i] != f
    requires NextUse(tr[i..], v) <= NextUse(tr[i..], f)
    ensures NextUse(tr[i + 1..], v) <= NextUse(tr[i + 1..], f)
  {
    assert tr[i..][0] == tr[i] && tr[i..][1..] == tr[i + 1..];
  }

  /** Belady's theorem: no run with as many frames, or fewer, misses less often. */
  lemma BeladyOptimal(k: nat, h: nat, tr: seq<Page>, opt: seq<set<Page>>, other: seq<set<Page>>)
    requires 0 < k && h <= k && BeladyRun(k, tr, opt) && Run(h, tr, other)
    ensures Misses(tr, opt) <= Misses(tr, other)
  {
    RunServes(h, tr, other, 0);
    assert tr[0..] == tr;
    Lipschitz(k, h, {}, {}, tr, Misses(tr, other));
    BeladyBest(k, tr, opt, 0, Misses(tr, other));
  }
}
