/**
 * Running a query in src/realm/query.cpp: find(), find_all() over a view or over
 * the clusters of a table, do_count() and average().
 *
 * A table is a sequence of clusters; a cluster holds the key array of its objects
 * and an offset added to each of them. When the query has conditions, a cluster
 * also carries, per condition of the root node, the rows of the cluster where it
 * holds (see QueryEngine). A view is a sequence of object keys together with what
 * eval_object() answers for each of them; how an object is evaluated is not part
 * of this model.
 */
module QueryExec {
  import opened Wrappers
  import QueryEngine

  /** A cluster: its key array, the offset of its keys, and its condition rows. */
  datatype Cluster = Cluster(offset: int, keyValues: seq<int>, conds: seq<seq<bool>>)

  /** The object keys of a cluster, in cluster order. */
  function ClusterKeys(c: Cluster): (keys: seq<int>)
    ensures |keys| == |c.keyValues|
    ensures forall i :: 0 <= i < |keys| ==> keys[i] == c.keyValues[i] + c.offset
  {
    seq(|c.keyValues|, i requires 0 <= i < |c.keyValues| => c.keyValues[i] + c.offset)
  }

  /** The object keys of a table, cluster after cluster: table position -> key. */
  function TableKeys(cs: seq<Cluster>): seq<int>
  {
    if |cs| == 0 then [] else ClusterKeys(cs[0]) + TableKeys(cs[1..])
  }

  /** The first `n` elements of `s`, or all of them when there are fewer. */
  function Take<T>(s: seq<T>, n: nat): (t: seq<T>)
    ensures |t| == if |s| <= n then |s| else n
    ensures t <= s
  {
    if |s| <= n then s else s[..n]
  }

  /** A cluster is well formed when each condition has one row per object. */
  ghost predicate ClusterOk(c: Cluster)
  {
    |c.conds| > 0 && QueryEngine.Sized(c.conds, |c.keyValues|)
  }

  /** The rows of a cluster where all of the root node's conditions hold. */
  ghost function Hits(c: Cluster): seq<bool>
    requires ClusterOk(c)
  {
    QueryEngine.Conjunction(c.conds, |c.keyValues|)
  }

  /** The key of the first object of the table that matches, in table order. */
  ghost function FirstHit(cs: seq<Cluster>): Option<int>
    requires forall i :: 0 <= i < |cs| ==> ClusterOk(cs[i])
  {
    if |cs| == 0 then None
    else
      var r := QueryEngine.FirstMatch(Hits(cs[0]), 0, |cs[0].keyValues|);
      if r != QueryEngine.NPOS then Some(ClusterKeys(cs[0])[r]) else FirstHit(cs[1..])
  }

  /** The keys of the view whose objects match, in view order. */
  function Matching(view: seq<int>, evals: seq<bool>): (keys: seq<int>)
    requires |evals| == |view|
    ensures |keys| <= |view|
  {
    if |view| == 0 then []
    else Matching(view[..|view| - 1], evals[..|evals| - 1])
         + (if evals[|evals| - 1] then [view[|view| - 1]] else [])
  }

  /**
   * Query::find for a query without conditions: the first key of the view, or of
   * the table, or null (None) when that is empty.
   */
  function FindWithoutConditions(hasView: bool, view: seq<int>, cs: seq<Cluster>): (k: Option<int>)
    ensures hasView ==> (k.None? <==> |view| == 0) && (k.Some? ==> k.value == view[0])
    ensures !hasView ==> (k.None? <==> |TableKeys(cs)| == 0)
                         && (k.Some? ==> k.value == TableKeys(cs)[0])
  {
    if hasView then (if |view| > 0 then Some(view[0]) else None)
    else if |TableKeys(cs)| == 0 then None
    else Some(TableKeys(cs)[0])
  }

  /** Query::find over a view: the key of the first object of the view that matches. */
  method FindInView(view: seq<int>, evals: seq<bool>) returns (k: Option<int>)
    requires |evals| == |view|
    ensures k.None? <==> Matching(view, evals) == []
    ensures k.Some? ==> k.value == Matching(view, evals)[0]
  {
    var i := 0;
    while i < |view|
      invariant 0 <= i <= |view|
      invariant Matching(view[..i], evals[..i]) == []
    {
      MatchingStep(view, evals, i);
      if evals[i] {
        MatchingPrefix(view, evals, i + 1);
        return Some(view[i]);
      }
      i := i + 1;
    }
    assert view[..i] == view && evals[..i] == evals;
    return None;
  }

  /** Matching grows by at most the next object of the view. */
  lemma MatchingStep(view: seq<int>, evals: seq<bool>, i: nat)
    requires |evals| == |view| && i < |view|
    ensures Matching(view[..i + 1], evals[..i + 1])
            == Matching(view[..i], evals[..i]) + (if evals[i] then [view[i]] else [])
  {
    assert view[..i + 1][..i] == view[..i];
    assert evals[..i + 1][..i] == evals[..i];
  }

  /** The matches of a prefix of the view come first among the matches of the view. */
  lemma {:induction false} MatchingPrefix(view: seq<int>, evals: seq<bool>, i: nat)
    requires |evals| == |view| && i <= |view|
    ensures Matching(view[..i], evals[..i]) <= Matching(view, evals)
    decreases |view| - i
  {
    if i < |view| {
      MatchingPrefix(view, evals, i + 1);
      MatchingStep(view, evals, i);
    } else {
      assert view[..i] == view && evals[..i] == evals;
    }
  }

  /**
   * Query::find over the clusters of the table: each cluster in turn asks the root
   * node for its first match, and the first one found is returned.
   */
  method FindInTable(cs: seq<Cluster>) returns (k: Option<int>)
    requires forall i :: 0 <= i < |cs| ==> ClusterOk(cs[i])
    ensures k == FirstHit(cs)
  {
    var ci := 0;
    while ci < |cs|
      invariant 0 <= ci <= |cs|
      invariant FirstHit(cs) == FirstHit(cs[ci..])
    {
      var c := cs[ci];
      var res := QueryEngine.FindFirst(c.conds, |c.keyValues|, 0, |c.keyValues|);
      if res != QueryEngine.NPOS {
        return Some(c.keyValues[res] + c.offset);
      }
      assert cs[ci..][1..] == cs[ci + 1..];
      ci := ci + 1;
    }
    return None;
  }

  /** No object of the cluster matches. */
  ghost predicate Miss(c: Cluster)
    requires ClusterOk(c)
  {
    forall q :: 0 <= q < |c.keyValues| ==> !Hits(c)[q]
  }

  /** Cluster `ci` is the first cluster of `cs` with a match. */
  ghost predicate FirstHitCluster(cs: seq<Cluster>, ci: int)
    requires forall i :: 0 <= i < |cs| ==> ClusterOk(cs[i])
  {
    0 <= ci < |cs| && !Miss(cs[ci]) && forall cj :: 0 <= cj < ci ==> Miss(cs[cj])
  }

  /** The key at the first match of a cluster. */
  ghost function FirstKey(c: Cluster): int
    requires ClusterOk(c) && !Miss(c)
  {
    var q :| 0 <= q < |c.keyValues| && Hits(c)[q];
    var r := QueryEngine.FirstMatch(Hits(c), 0, |c.keyValues|);
    assert r <= q;
    ClusterKeys(c)[r]
  }

  /**
   * The first matching key lies in the first cluster with a match, at that
   * cluster's first match; there is none exactly when no cluster has a match.
   */
  lemma {:induction false} FirstHitIsFirst(cs: seq<Cluster>)
    requires forall i :: 0 <= i < |cs| ==> ClusterOk(cs[i])
    ensures FirstHit(cs).None? <==> forall ci :: 0 <= ci < |cs| ==> Miss(cs[ci])
    ensures FirstHit(cs).Some? ==>
              exists ci :: FirstHitCluster(cs, ci) && FirstHit(cs).value == FirstKey(cs[ci])
  {
    if |cs| > 0 {
      var r := QueryEngine.FirstMatch(Hits(cs[0]), 0, |cs[0].keyValues|);
      if r != QueryEngine.NPOS {
        assert !Miss(cs[0]);
        assert FirstHitCluster(cs, 0);
      } else {
        assert Miss(cs[0]);
        FirstHitIsFirst(cs[1..]);
        forall ci | 0 < ci < |cs| ensures cs[ci] == cs[1..][ci - 1] { }
        if FirstHit(cs).Some? {
          var ci :| FirstHitCluster(cs[1..], ci) && FirstHit(cs[1..]).value == FirstKey(cs[1..][ci]);
          FirstHitShift(cs, ci);
        }
      }
    }
  }

  /** Behind a cluster with no match, the first cluster with a match moves up by one. */
  lemma FirstHitShift(cs: seq<Cluster>, ci: int)
    requires |cs| > 0 && forall i :: 0 <= i < |cs| ==> ClusterOk(cs[i])
    requires Miss(cs[0]) && FirstHitCluster(cs[1..], ci)
    ensures FirstHitCluster(cs, ci + 1) && cs[ci + 1] == cs[1..][ci]
  {
    forall cj | 0 < cj < ci + 1 ensures Miss(cs[cj]) {
      assert cs[cj] == cs[1..][cj - 1];
    }
  }

  /**
   * Query::find_all over a view: the first `limit` matching keys among view
   * positions [begin, end); an end of NPOS means the end of the view.
   */
  method FindAllInView(view: seq<int>, evals: seq<bool>, begin: nat, end: nat, limit: nat)
    returns (ret: seq<int>)
    requires |evals| == |view|
    requires end == QueryEngine.NPOS || end <= |view|
    ensures var e := if end == QueryEngine.NPOS then |view| else end;
            ret == if begin <= e then Take(Matching(view[begin..e], evals[begin..e]), limit) else []
  {
    ret := [];
    if limit == 0 {
      return;
    }
    var e := if end == QueryEngine.NPOS then |view| else end;
    if e < begin {
      return;
    }
    var t := begin;
    while t < e && |ret| < limit
      invariant begin <= t <= e
      invariant ret == Matching(view[begin..t], evals[begin..t]) && |ret| <= limit
    {
      MatchingWindowStep(view, evals, begin, t);
      if evals[t] {
        ret := ret + [view[t]];
      }
      t := t + 1;
    }
    MatchingWindowTake(view, evals, begin, t, e, limit);
  }

  /** The matches among view positions [b, t + 1) are those among [b, t) and then t's. */
  lemma MatchingWindowStep(view: seq<int>, evals: seq<bool>, b: nat, t: nat)
    requires |evals| == |view| && b <= t < |view|
    ensures Matching(view[b..t + 1], evals[b..t + 1])
            == Matching(view[b..t], evals[b..t]) + (if evals[t] then [view[t]] else [])
  {
    assert view[b..t + 1][..t - b] == view[b..t];
    assert evals[b..t + 1][..t - b] == evals[b..t];
  }

  /**
   * A scan of view positions [b, t) that stopped at the end of the window or at the
   * limit found the first `limit` matches among [b, e).
   */
  lemma MatchingWindowTake(view: seq<int>, evals: seq<bool>, b: nat, t: nat, e: nat, limit: nat)
    requires |evals| == |view| && b <= t <= e <= |view|
    requires |Matching(view[b..t], evals[b..t])| <= limit
    requires t == e || |Matching(view[b..t], evals[b..t])| == limit
    ensures Take(Matching(view[b..e], evals[b..e]), limit) == Matching(view[b..t], evals[b..t])
  {
    assert view[b..e][..t - b] == view[b..t];
    assert evals[b..e][..t - b] == evals[b..t];
    MatchingPrefix(view[b..e], evals[b..e], t - b);
    TakeOfPrefix(Matching(view[b..t], evals[b..t]), Matching(view[b..e], evals[b..e]), limit);
  }

  /** A prefix that is either all of `s` or `n` long is what taking `n` gives. */
  lemma TakeOfPrefix(p: seq<int>, s: seq<int>, n: nat)
    requires p <= s && (p == s || |p| == n) && |p| <= n
    ensures Take(s, n) == p
  {
  }

  /** What one visit of the cluster callback of find_all adds and leaves to the next cluster. */
  datatype Visit = Visit(added: seq<int>, begin: nat, end: nat)

  /**
   * The cluster callback of Query::find_all for a query without conditions. The
   * window [begin, end) is counted from the first position of this cluster; the
   * callback adds the keys of the window that fall in the cluster, at most `limit`
   * of them, and moves the window to the next cluster.
   */
  function VisitSpec(c: Cluster, begin: nat, end: nat, limit: nat): (v: Visit)
    requires begin <= end
    ensures v.begin <= v.end && |v.added| <= limit
  {
    var size := |c.keyValues|;
    if begin < size then
      var e := if size > end then end else size;
      Visit(Take(ClusterKeys(c)[begin..e], limit), 0, end - e)
    else
      Visit([], begin - size, end - size)
  }

  /**
   * What traverse_clusters collects with that callback from the clusters `cs`: it
   * stops once the window is used up or `limit` keys have been added.
   */
  function Traverse(cs: seq<Cluster>, begin: nat, end: nat, limit: nat): seq<int>
    requires begin <= end
    decreases |cs|
  {
    if |cs| == 0 then []
    else
      var v := VisitSpec(cs[0], begin, end, limit);
      if v.end == 0 || |v.added| == limit then v.added
      else v.added + Traverse(cs[1..], v.begin, v.end, limit - |v.added|)
  }

  /** The positions [b, e) of `s` that exist. */
  function Window(s: seq<int>, b: nat, e: nat): seq<int>
    requires b <= e
  {
    s[(if b < |s| then b else |s|)..(if e < |s| then e else |s|)]
  }

  /** Taking from two sequences in turn. */
  lemma TakeAppend(a: seq<int>, b: seq<int>, n: nat)
    ensures |a| < n ==> Take(a + b, n) == a + Take(b, n - |a|)
    ensures |a| >= n ==> Take(a + b, n) == Take(a, n)
  {
    if |a| >= n {
      assert (a + b)[..n] == a[..n];
    } else if |a + b| > n {
      assert (a + b)[..n] == a + b[..n - |a|];
    }
  }

  /** The window over the keys of one cluster followed by the keys of the next ones. */
  lemma WindowSplit(ck: seq<int>, rest: seq<int>, b: nat, e: nat)
    requires b <= e
    ensures b < |ck| && e <= |ck| ==> Window(ck + rest, b, e) == ck[b..e]
    ensures b < |ck| < e ==> Window(ck + rest, b, e) == ck[b..] + Window(rest, 0, e - |ck|)
    ensures |ck| <= b ==> Window(ck + rest, b, e) == Window(rest, b - |ck|, e - |ck|)
  {
    var s := ck + rest;
    if b < |ck| < e {
      var hi := if e < |s| then e else |s|;
      assert s[b..hi] == ck[b..] + rest[0..hi - |ck|];
    } else if |ck| <= b {
      var lo := if b < |s| then b else |s|;
      var hi := if e < |s| then e else |s|;
      assert s[lo..hi] == rest[lo - |ck|..hi - |ck|];
    }
  }

  /** One cluster of the walk: what its visit adds, then the walk over the clusters after it. */
  lemma TraverseStep(cs: seq<Cluster>, begin: nat, end: nat, limit: nat)
    requires begin <= end && |cs| > 0
    ensures var v := VisitSpec(cs[0], begin, end, limit);
            Traverse(cs, begin, end, limit)
            == if v.end == 0 || |v.added| == limit then v.added
               else v.added + Traverse(cs[1..], v.begin, v.end, limit - |v.added|)
  {
  }

  /**
   * The cluster walk of find_all collects the first `limit` keys at table
   * positions [begin, end).
   */
  /** The window lies inside the first cluster. */
  lemma WindowInFirst(cs: seq<Cluster>, begin: nat, end: nat, limit: nat)
    requires begin <= end && limit > 0 && |cs| > 0
    requires begin < |cs[0].keyValues| && end <= |cs[0].keyValues|
    ensures Traverse(cs, begin, end, limit) == Take(Window(TableKeys(cs), begin, end), limit)
  {
    var ck := ClusterKeys(cs[0]);
    assert TableKeys(cs) == ck + TableKeys(cs[1..]);
    WindowSplit(ck, TableKeys(cs[1..]), begin, end);
    TraverseStep(cs, begin, end, limit);
  }

  /** The window starts in the first cluster and goes on past it. */
  lemma WindowAcross(cs: seq<Cluster>, begin: nat, end: nat, limit: nat)
    requires begin <= end && limit > 0 && |cs| > 0
    requires begin < |cs[0].keyValues| < end
    requires var n := |cs[0].keyValues| - begin;
             n < limit ==> Traverse(cs[1..], 0, end - |cs[0].keyValues|, limit - n)
                           == Take(Window(TableKeys(cs[1..]), 0, end - |cs[0].keyValues|), limit - n)
    ensures Traverse(cs, begin, end, limit) == Take(Window(TableKeys(cs), begin, end), limit)
  {
    var ck := ClusterKeys(cs[0]);
    var rest := TableKeys(cs[1..]);
    assert TableKeys(cs) == ck + rest;
    WindowSplit(ck, rest, begin, end);
    TraverseStep(cs, begin, end, limit);
    VisitAcross(cs[0], begin, end, limit);
    TakeAppend(ck[begin..], Window(rest, 0, end - |ck|), limit);
  }

  /** The visit of a cluster that the window starts in and goes on past. */
  lemma VisitAcross(c: Cluster, begin: nat, end: nat, limit: nat)
    requires begin < |c.keyValues| < end
    ensures VisitSpec(c, begin, end, limit)
            == Visit(Take(ClusterKeys(c)[begin..], limit), 0, end - |c.keyValues|)
  {
    var ck := ClusterKeys(c);
    assert ck[begin..|ck|] == ck[begin..];
  }

  /** The window starts at or after the end of the first cluster. */
  lemma WindowAfterFirst(cs: seq<Cluster>, begin: nat, end: nat, limit: nat)
    requires begin <= end && limit > 0 && |cs| > 0
    requires |cs[0].keyValues| <= begin
    requires var size := |cs[0].keyValues|;
             size < end ==> Traverse(cs[1..], begin - size, end - size, limit)
                            == Take(Window(TableKeys(cs[1..]), begin - size, end - size), limit)
    ensures Traverse(cs, begin, end, limit) == Take(Window(TableKeys(cs), begin, end), limit)
  {
    var ck := ClusterKeys(cs[0]);
    var rest := TableKeys(cs[1..]);
    assert TableKeys(cs) == ck + rest;
    WindowSplit(ck, rest, begin, end);
    TraverseStep(cs, begin, end, limit);
  }

  lemma {:induction false} TraverseWindow(cs: seq<Cluster>, begin: nat, end: nat, limit: nat)
    requires begin <= end && limit > 0
    ensures Traverse(cs, begin, end, limit) == Take(Window(TableKeys(cs), begin, end), limit)
    decreases |cs|
  {
    if |cs| > 0 {
      var size := |cs[0].keyValues|;
      if begin < size && end <= size {
        WindowInFirst(cs, begin, end, limit);
      } else if begin < size {
        if size - begin < limit {
          TraverseWindow(cs[1..], 0, end - size, limit - (size - begin));
        }
        WindowAcross(cs, begin, end, limit);
      } else {
        if size < end {
          TraverseWindow(cs[1..], begin - size, end - size, limit);
        }
        WindowAfterFirst(cs, begin, end, limit);
      }
    }
  }


  /** The cluster callback of Query::find_all for a query without conditions. */
  method VisitCluster(c: Cluster, begin: nat, end: nat, limit: nat) returns (v: Visit, stop: bool)
    requires begin <= end
    ensures v == VisitSpec(c, begin, end, limit)
    ensures stop <==> v.end == 0 || |v.added| == limit
  {
    ghost var ck := ClusterKeys(c);
    var e: nat := |c.keyValues|;
    var added: seq<int> := [];
    var lim: nat := limit;
    var b: nat := begin;
    if b < e {
      if e > end {
        e := end;
      }
      var i := b;
      while i < e && lim > 0
        invariant b <= i <= e <= |ck|
        invariant added == ck[b..i] && lim == limit - |added|
      {
        assert ck[b..i + 1] == ck[b..i] + [ck[i]];
        added := added + [c.keyValues[i] + c.offset];
        lim := lim - 1;
        i := i + 1;
      }
      if i == e {
        assert added == ck[b..e];
      } else {
        assert ck[b..e][..limit] == ck[b..i];
      }
      assert Take(ck[b..e], limit) == added;
      b := 0;
    } else {
      b := b - e;
    }
    var end' := end - e;
    v := Visit(added, b, end');
    stop := end' == 0 || lim == 0;
  }

  /**
   * Query::find_all over the clusters of a table for a query without conditions:
   * the keys at table positions [begin, end), at most `limit` of them; an end of
   * NPOS means the size of the table, and so does an end past it.
   */
  method FindAllWithoutConditions(cs: seq<Cluster>, begin: nat, end: nat, limit: nat)
    returns (ret: seq<int>)
    requires begin <= |TableKeys(cs)|
    requires end == QueryEngine.NPOS || begin <= end
    ensures var keys := TableKeys(cs);
            var e := if end == QueryEngine.NPOS || end > |keys| then |keys| else end;
            ret == Take(keys[begin..e], limit)
  {
    ret := [];
    if limit == 0 {
      return;
    }
    var end: nat := if end == QueryEngine.NPOS then |TableKeys(cs)| else end;
    ghost var end0 := end;
    ghost var total := Traverse(cs, begin, end0, limit);
    var b: nat := begin;
    var lim: nat := limit;
    var ci := 0;
    var stop := false;
    while ci < |cs| && !stop
      invariant 0 <= ci <= |cs|
      invariant !stop ==> b <= end && lim > 0 && ret + Traverse(cs[ci..], b, end, lim) == total
      invariant stop ==> ret == total
      decreases |cs| - ci
    {
      var v;
      v, stop := VisitCluster(cs[ci], b, end, lim);
      TraverseFrom(cs, ci, b, end, lim);
      AppendAssoc(ret, v.added, if stop then [] else Traverse(cs[ci + 1..], v.begin, v.end, lim - |v.added|));
      ret := ret + v.added;
      lim := lim - |v.added|;
      b, end := v.begin, v.end;
      ci := ci + 1;
    }
    FindAllTotal(cs, begin, end0, limit);
  }

  /** The traversal from cluster ci: that cluster's visit, then the rest unless it stopped. */
  lemma TraverseFrom(cs: seq<Cluster>, ci: nat, b: nat, e: nat, lim: nat)
    requires ci < |cs| && b <= e
    ensures var v := VisitSpec(cs[ci], b, e, lim);
            Traverse(cs[ci..], b, e, lim)
            == if v.end == 0 || |v.added| == lim then v.added
               else v.added + Traverse(cs[ci + 1..], v.begin, v.end, lim - |v.added|)
  {
    TraverseStep(cs[ci..], b, e, lim);
    assert cs[ci..][0] == cs[ci];
    assert cs[ci..][1..] == cs[ci + 1..];
  }

  /** Concatenation is associative (stated for the loop above). */
  lemma AppendAssoc(a: seq<int>, b: seq<int>, c: seq<int>)
    ensures a + (b + c) == (a + b) + c
  {
  }

  /** The whole traversal is the limited slice of the table keys. */
  lemma FindAllTotal(cs: seq<Cluster>, begin: nat, end: nat, limit: nat)
    requires begin <= |TableKeys(cs)| && begin <= end && limit > 0
    ensures var keys := TableKeys(cs);
            Traverse(cs, begin, end, limit) == Take(keys[begin..if end > |keys| then |keys| else end], limit)
  {
    TraverseWindow(cs, begin, end, limit);
    WindowClamp(TableKeys(cs), begin, end);
  }

  /** A window that starts inside the sequence is the slice up to the clamped end. */
  lemma WindowClamp(s: seq<int>, b: nat, e: nat)
    requires b <= |s| && b <= e
    ensures Window(s, b, e) == s[b..if e > |s| then |s| else e]
  {
  }

  function Min(a: nat, b: nat): nat
  {
    if a < b then a else b
  }

  /** The number of objects of a cluster that match. */
  ghost function ClusterHits(c: Cluster): nat
    requires ClusterOk(c)
  {
    |QueryEngine.Matches(Hits(c), 0, |c.keyValues|)|
  }

  /** The number of objects of the table that match. */
  ghost function TableHits(cs: seq<Cluster>): nat
    requires forall i :: 0 <= i < |cs| ==> ClusterOk(cs[i])
  {
    if |cs| == 0 then 0 else ClusterHits(cs[0]) + TableHits(cs[1..])
  }

  /** Matches over a longer range has at least as many rows. */
  lemma {:induction false} MatchesGrow(rows: seq<bool>, s: nat, p: nat, q: nat)
    requires p <= q <= |rows|
    ensures |QueryEngine.Matches(rows, s, p)| <= |QueryEngine.Matches(rows, s, q)|
    decreases q
  {
    if p < q {
      MatchesGrow(rows, s, p, q - 1);
    }
  }

  /**
   * The count state of do_count over one cluster: the root node finds match after
   * match until the cluster ends or `limit` matches have been counted.
   */
  method CountInCluster(c: Cluster, limit: nat) returns (cnt: nat)
    requires ClusterOk(c)
    ensures cnt == Min(ClusterHits(c), limit)
  {
    var n := |c.keyValues|;
    ghost var all := Hits(c);
    var pos := 0;
    cnt := 0;
    while cnt < limit
      invariant pos <= n && cnt <= limit
      invariant cnt == |QueryEngine.Matches(all, 0, pos)|
      decreases n - pos
    {
      var r := QueryEngine.FindFirst(c.conds, n, pos, n);
      if r == QueryEngine.NPOS {
        QueryEngine.MatchesSkip(all, 0, pos, n);
        return;
      }
      QueryEngine.MatchesSkip(all, 0, pos, r);
      assert QueryEngine.Matches(all, 0, r + 1) == QueryEngine.Matches(all, 0, r) + [r];
      pos := r + 1;
      cnt := cnt + 1;
    }
    MatchesGrow(all, 0, pos, n);
  }

  /**
   * do_count over the clusters of the table: each cluster adds its matches to the
   * count state, and the walk stops once `limit` matches have been counted.
   */
  method CountInTable(cs: seq<Cluster>, limit: nat) returns (cnt: nat)
    requires forall i :: 0 <= i < |cs| ==> ClusterOk(cs[i])
    ensures cnt == Min(TableHits(cs), limit)
  {
    cnt := 0;
    var ci := 0;
    while ci < |cs| && cnt < limit
      invariant 0 <= ci <= |cs| && cnt <= limit
      invariant cnt + Min(TableHits(cs[ci..]), limit - cnt) == Min(TableHits(cs), limit)
      decreases |cs| - ci
    {
      assert cs[ci..][1..] == cs[ci + 1..];
      var k := CountInCluster(cs[ci], limit - cnt);
      cnt := cnt + k;
      ci := ci + 1;
    }
  }

  /** do_count over a view: the objects of the view are evaluated in turn. */
  method CountInView(view: seq<int>, evals: seq<bool>, limit: nat) returns (cnt: nat)
    requires |evals| == |view|
    ensures cnt == Min(|Matching(view, evals)|, limit)
  {
    cnt := 0;
    var t := 0;
    while t < |view| && cnt < limit
      invariant 0 <= t <= |view| && cnt <= limit
      invariant cnt == |Matching(view[..t], evals[..t])|
    {
      MatchingStep(view, evals, t);
      if evals[t] {
        cnt := cnt + 1;
      }
      t := t + 1;
    }
    if t == |view| {
      assert view[..t] == view && evals[..t] == evals;
    } else {
      MatchingPrefix(view, evals, t);
    }
  }

  /**
   * Query::do_count: 0 for a zero limit; without conditions the size of the view or
   * of the table, capped at `limit`; otherwise the number of matches, capped at
   * `limit`.
   */
  method DoCount(hasConditions: bool, hasView: bool, view: seq<int>, evals: seq<bool>,
                 cs: seq<Cluster>, limit: nat) returns (cnt: nat)
    requires |evals| == |view|
    requires hasConditions && !hasView ==> forall i :: 0 <= i < |cs| ==> ClusterOk(cs[i])
    ensures cnt <= limit
    ensures !hasConditions && hasView ==> cnt == Min(|view|, limit)
    ensures !hasConditions && !hasView ==> cnt == Min(|TableKeys(cs)|, limit)
    ensures hasConditions && hasView ==> cnt == Min(|Matching(view, evals)|, limit)
    ensures hasConditions && !hasView ==> cnt == Min(TableHits(cs), limit)
  {
    if limit == 0 {
      return 0;
    }
    if !hasConditions {
      if hasView {
        return Min(|view|, limit);
      }
      return Min(|TableKeys(cs)|, limit);
    }
    if hasView {
      cnt := CountInView(view, evals, limit);
    } else {
      cnt := CountInTable(cs, limit);
    }
  }

  /** Counting agrees with find_all over a view: both stop at the same `limit`. */
  lemma CountIsFindAllLength(view: seq<int>, evals: seq<bool>, limit: nat)
    requires |evals| == |view|
    ensures Min(|Matching(view, evals)|, limit) == |Take(Matching(view, evals), limit)|
  {
  }

  /**
   * Query::average: the sum divided by the number of matches, or 0 when nothing
   * matched. Sums and averages are taken as exact numbers here.
   */
  function Average(sum: int, count: nat): (avg: real)
    ensures count == 0 ==> avg == 0.0
    ensures count > 0 ==> avg * count as real == sum as real
  {
    if count == 0 then 0.0 else sum as real / count as real
  }
}
