/**
 * The condition-evaluation engine of src/realm/query_engine.cpp, for one cluster.
 *
 * A condition is known by the rows of the cluster where its own test holds: a
 * `seq<bool>` indexed by row. A node's `find_first_local(s, e)` is then the least
 * row in [s, e) where that sequence is true, or not_found (FirstMatch below).
 * Row numbers are `size_t` in the source; not_found is `size_t(-1)`, written NPOS
 * here, so that comparisons such as `first > end` behave as they do there.
 */
module QueryEngine {
  import opened Wrappers

  /** npos / not_found: size_t(-1). */
  const NPOS: nat := 0xFFFF_FFFF_FFFF_FFFF

  /** A cluster of `n` rows and a list of conditions, each known by its rows. */
  ghost predicate Sized(conds: seq<seq<bool>>, n: nat)
  {
    n < NPOS && forall c :: 0 <= c < |conds| ==> |conds[c]| == n
  }

  /** The least row in [s, e) where `rows` holds, or NPOS when there is none. */
  function FirstMatch(rows: seq<bool>, s: nat, e: nat): (r: nat)
    requires e <= |rows| < NPOS
    ensures r == NPOS || (s <= r < e && rows[r])
    ensures forall i :: s <= i < e && i < r ==> !rows[i]
    decreases e - s
  {
    if e <= s then NPOS
    else if rows[s] then s
    else FirstMatch(rows, s + 1, e)
  }

  /** FirstMatch is determined by the characterisation in its contract. */
  lemma FirstMatchUnique(rows: seq<bool>, s: nat, e: nat, r: nat)
    requires e <= |rows| < NPOS
    requires r == NPOS || (s <= r < e && rows[r])
    requires forall i :: s <= i < e && i < r ==> !rows[i]
    ensures FirstMatch(rows, s, e) == r
  {
  }

  /** Searching [a, c) is searching [a, b) and, when that finds nothing, [b, c). */
  lemma FirstMatchSplit(rows: seq<bool>, a: nat, b: nat, c: nat)
    requires a <= b <= c <= |rows| < NPOS
    ensures FirstMatch(rows, a, c)
            == (var x := FirstMatch(rows, a, b); if x != NPOS then x else FirstMatch(rows, b, c))
  {
    var x := FirstMatch(rows, a, b);
    var r := if x != NPOS then x else FirstMatch(rows, b, c);
    FirstMatchUnique(rows, a, c, r);
  }

  /** What the first match of a range says about the first match of a sub-range. */
  lemma FirstMatchWithin(rows: seq<bool>, a: nat, c: nat, s: nat, e: nat)
    requires a <= s <= e <= c <= |rows| < NPOS
    ensures var f := FirstMatch(rows, a, c);
            (s <= f < e ==> FirstMatch(rows, s, e) == f)
            && (e <= f ==> FirstMatch(rows, s, e) == NPOS)
  {
    var f := FirstMatch(rows, a, c);
    if s <= f < e {
      FirstMatchUnique(rows, s, e, f);
    } else if e <= f {
      FirstMatchUnique(rows, s, e, NPOS);
    }
  }

  /** The rows where every one of `conds` holds. */
  function Conjunction(conds: seq<seq<bool>>, n: nat): (rows: seq<bool>)
    requires Sized(conds, n)
    ensures |rows| == n
    ensures forall i :: 0 <= i < n ==> (rows[i] <==> forall c :: 0 <= c < |conds| ==> conds[c][i])
  {
    seq(n, i requires 0 <= i < n => forall c :: 0 <= c < |conds| ==> conds[c][i])
  }

  /**
   * Whether condition `c` is among the `w` conditions tested just before
   * `current`, cycling round-robin over `sz` conditions.
   */
  ghost predicate InWindow(c: int, current: int, w: int, sz: int)
  {
    current - w <= c < current || current - w + sz <= c
  }

  /**
   * ParentNode::find_first: the children of a conjunction agree, round-robin, on
   * the least row of [start, end) where all of them hold.
   */
  method FindFirst(conds: seq<seq<bool>>, n: nat, start: nat, end: nat) returns (r: nat)
    requires |conds| > 0 && Sized(conds, n) && end <= n
    ensures r == FirstMatch(Conjunction(conds, n), start, end)
  {
    ghost var all := Conjunction(conds, n);
    var sz := |conds|;
    var currentCond := 0;
    var nbCondToTest := sz;
    var s := start;
    while s < end
      invariant 0 <= currentCond < sz && 0 < nbCondToTest <= sz
      invariant start <= s
      invariant s < end ==> forall c :: 0 <= c < sz && InWindow(c, currentCond, sz - nbCondToTest, sz) ==> conds[c][s]
      invariant forall i :: start <= i < s && i < end ==> !all[i]
      decreases if s <= end then end - s else 0, nbCondToTest
    {
      var m := FirstMatch(conds[currentCond], s, end);
      assert forall i :: s <= i < end && i < m ==> !all[i];
      if m != s {
        // the candidate moved: every condition must agree again
        nbCondToTest := sz;
        s := m;
      }
      nbCondToTest := nbCondToTest - 1;
      if nbCondToTest == 0 {
        if s < end {
          forall c | 0 <= c < sz ensures conds[c][s] {
            if c != currentCond { assert InWindow(c, currentCond, sz - 1, sz); }
          }
        }
        FirstMatchUnique(all, start, end, m);
        return m;
      }
      currentCond := currentCond + 1;
      if currentCond == sz {
        currentCond := 0;
      }
    }
    FirstMatchUnique(all, start, end, NPOS);
    return NPOS;
  }

  /** ParentNode::match: an object matches when find_first(row, row + 1) finds a row. */
  method Match(conds: seq<seq<bool>>, n: nat, row: nat) returns (b: bool)
    requires |conds| > 0 && Sized(conds, n) && row < n
    ensures b <==> forall c :: 0 <= c < |conds| ==> conds[c][row]
  {
    var m := FindFirst(conds, n, row, row + 1);
    b := m != NPOS;
  }

  /** The rows of [s, e) where `rows` holds, in increasing order. */
  function Matches(rows: seq<bool>, s: nat, e: nat): (m: seq<nat>)
    requires e <= |rows|
    ensures forall k :: 0 <= k < |m| ==> s <= m[k] < e && rows[m[k]]
    decreases e
  {
    if e <= s then [] else Matches(rows, s, e - 1) + (if rows[e - 1] then [e - 1] else [])
  }

  /** Rows where `rows` fails add nothing to Matches. */
  lemma {:induction false} MatchesSkip(rows: seq<bool>, s: nat, p: nat, q: nat)
    requires s <= p <= q <= |rows|
    requires forall i :: p <= i < q ==> !rows[i]
    ensures Matches(rows, s, q) == Matches(rows, s, p)
    decreases q
  {
    if p < q {
      MatchesSkip(rows, s, p, q - 1);
    }
  }

  /**
   * A stretch where the node's own condition fails holds no own match and no
   * match of a conjunction that includes it.
   */
  lemma OwnSkip(own: seq<bool>, all: seq<bool>, s: nat, p: nat, q: nat)
    requires s <= p <= q <= |own| == |all|
    requires forall i :: 0 <= i < |all| && all[i] ==> own[i]
    requires forall i :: p <= i < q ==> !own[i]
    ensures Matches(all, s, q) == Matches(all, s, p)
    ensures Matches(own, s, q) == Matches(own, s, p)
  {
    MatchesSkip(own, s, p, q);
    MatchesSkip(all, s, p, q);
  }

  /**
   * Why aggregate_local stops inside its range: the node found its `limit`-th own
   * match at next - 1, or the range ran out with fewer own matches than that.
   */
  ghost predicate LocalStop(own: seq<bool>, start: nat, next: nat, end: nat, limit: nat)
    requires start <= next <= end <= |own|
  {
    (|Matches(own, start, next)| == limit && (limit > 0 ==> own[next - 1]))
    || (next == end && |Matches(own, start, end)| < limit)
  }

  /** size_t increment: (r + 1) modulo 2^64. */
  function Inc(r: nat): (r': nat)
    requires r <= NPOS
    ensures r' <= NPOS && (r < NPOS ==> r' == r + 1) && (r == NPOS ==> r' == 0)
  {
    if r == NPOS then 0 else r + 1
  }

  /**
   * What aggregate_local computes once it has scanned up to `pos`, has counted
   * `count` own matches and has delivered `delivered`: where the caller resumes
   * (NPOS when the callback said stop) and every row passed to the callback.
   * `own` holds the node's own condition, `all` the conjunction of all conditions.
   */
  function AggregateFrom(own: seq<bool>, all: seq<bool>, pos: nat, end: nat, count: nat,
                         limit: nat, delivered: seq<nat>, accepts: nat): (nat, seq<nat>)
    requires pos <= end <= |own| == |all| < NPOS
    decreases end - pos
  {
    if count == limit then (pos, delivered)
    else
      var r := FirstMatch(own, pos, end);
      if r == NPOS then (end, delivered)
      else
        var d := if all[r] then delivered + [r] else delivered;
        if |d| > accepts then (NPOS, d)
        else AggregateFrom(own, all, r + 1, end, count + 1, limit, d, accepts)
  }

  /**
   * The promises of aggregate_local about its result (next, d): it resumes inside
   * its range after the `limit`-th own match or at the end of the range, having
   * delivered exactly the rows where all conditions hold, in order; or, when the
   * callback refused its (accepts + 1)-th row, it has delivered exactly the
   * matches up to that row, within the node's own budget.
   */
  ghost predicate AggregateOk(own: seq<bool>, all: seq<bool>, start: nat, end: nat, limit: nat, accepts: nat,
                              next: nat, d: seq<nat>)
    requires start <= end <= |own| == |all|
  {
    (forall k :: 0 <= k < |d| ==> start <= d[k] < end)
    && (next != NPOS ==>
          start <= next <= end
          && d == Matches(all, start, next) && |d| <= accepts
          && LocalStop(own, start, next, end, limit))
    && (next == NPOS ==>
          |d| == accepts + 1
          && d == Matches(all, start, d[|d| - 1] + 1)
          && |Matches(own, start, d[|d| - 1] + 1)| <= limit)
  }

  /**
   * The state of aggregate_local after scanning [start, pos): `count` own matches,
   * the last of them at pos - 1, and `delivered` the rows of [start, pos) where all
   * conditions hold, no more than the callback accepts.
   */
  ghost predicate ScanState(own: seq<bool>, all: seq<bool>, start: nat, pos: nat, end: nat,
                            count: nat, limit: nat, delivered: seq<nat>, accepts: nat)
  {
    start <= pos <= end <= |own| == |all| < NPOS
    && (forall i :: 0 <= i < |all| && all[i] ==> own[i])
    && count == |Matches(own, start, pos)| <= limit
    && (count > 0 ==> own[pos - 1])
    && delivered == Matches(all, start, pos) && |delivered| <= accepts
  }

  /** AggregateFrom keeps the promises from any state reachable from `start`. */
  lemma {:induction false} AggregateFromSpec(own: seq<bool>, all: seq<bool>, start: nat, pos: nat, end: nat,
                                             count: nat, limit: nat, delivered: seq<nat>, accepts: nat,
                                             next: nat, d: seq<nat>)
    requires ScanState(own, all, start, pos, end, count, limit, delivered, accepts)
    requires (next, d) == AggregateFrom(own, all, pos, end, count, limit, delivered, accepts)
    ensures AggregateOk(own, all, start, end, limit, accepts, next, d)
    decreases end - pos
  {
    if count == limit {
      AggregateAtLimit(own, all, start, pos, end, count, limit, delivered, accepts);
      return;
    }
    var r := FirstMatch(own, pos, end);
    if r == NPOS {
      AggregateAtEnd(own, all, start, pos, end, count, limit, delivered, accepts);
      return;
    }
    var d' := if all[r] then delivered + [r] else delivered;
    AggregateUnfold(own, all, pos, end, count, limit, delivered, accepts, r, d');
    AggregateStep(own, all, start, pos, end, count, limit, delivered, accepts, r, d');
    if |d'| > accepts {
      AggregateRefused(own, all, start, r, end, limit, d', accepts);
    } else {
      AggregateFromSpec(own, all, start, r + 1, end, count + 1, limit, d', accepts, next, d);
    }
  }

  /** aggregate_local stops after its `limit`-th own match. */
  lemma AggregateAtLimit(own: seq<bool>, all: seq<bool>, start: nat, pos: nat, end: nat,
                         count: nat, limit: nat, delivered: seq<nat>, accepts: nat)
    requires ScanState(own, all, start, pos, end, count, limit, delivered, accepts) && count == limit
    ensures AggregateOk(own, all, start, end, limit, accepts, pos, delivered)
  {
  }

  /** aggregate_local runs out of own matches before its limit. */
  lemma AggregateAtEnd(own: seq<bool>, all: seq<bool>, start: nat, pos: nat, end: nat,
                       count: nat, limit: nat, delivered: seq<nat>, accepts: nat)
    requires ScanState(own, all, start, pos, end, count, limit, delivered, accepts) && count != limit
    requires FirstMatch(own, pos, end) == NPOS
    ensures AggregateOk(own, all, start, end, limit, accepts, end, delivered)
  {
    OwnSkip(own, all, start, pos, end);
  }

  /** The state of aggregate_local after its next own match r. */
  lemma AggregateStep(own: seq<bool>, all: seq<bool>, start: nat, pos: nat, end: nat, count: nat,
                      limit: nat, delivered: seq<nat>, accepts: nat, r: nat, d: seq<nat>)
    requires ScanState(own, all, start, pos, end, count, limit, delivered, accepts) && count != limit
    requires r == FirstMatch(own, pos, end) && r != NPOS
    requires d == if all[r] then delivered + [r] else delivered
    ensures pos <= r < end
    ensures |d| <= accepts ==> ScanState(own, all, start, r + 1, end, count + 1, limit, d, accepts)
    ensures |d| > accepts ==> d == Matches(all, start, r + 1) && |d| == accepts + 1 && d[|d| - 1] == r
                              && |Matches(own, start, r + 1)| <= limit
  {
    OwnStep(own, all, start, pos, r);
  }

  /** The callback refuses the row r, the (accepts + 1)-th row delivered. */
  lemma AggregateRefused(own: seq<bool>, all: seq<bool>, start: nat, r: nat, end: nat,
                         limit: nat, d: seq<nat>, accepts: nat)
    requires start <= r < end <= |own| == |all|
    requires d == Matches(all, start, r + 1) && |d| == accepts + 1 && d[|d| - 1] == r
    requires |Matches(own, start, r + 1)| <= limit
    ensures AggregateOk(own, all, start, end, limit, accepts, NPOS, d)
  {
  }

  /** One step of AggregateFrom past an own match at r. */
  lemma AggregateUnfold(own: seq<bool>, all: seq<bool>, pos: nat, end: nat, count: nat,
                        limit: nat, delivered: seq<nat>, accepts: nat, r: nat, d: seq<nat>)
    requires pos <= end <= |own| == |all| < NPOS
    requires count != limit && r == FirstMatch(own, pos, end) && r != NPOS
    requires d == if all[r] then delivered + [r] else delivered
    ensures AggregateFrom(own, all, pos, end, count, limit, delivered, accepts)
            == if |d| > accepts then (NPOS, d) else AggregateFrom(own, all, r + 1, end, count + 1, limit, d, accepts)
  {
  }

  /** What aggregate_local returns for a node and its siblings keeps the promises of AggregateOk. */
  lemma AggregateLocalOk(conds: seq<seq<bool>>, n: nat, start: nat, end: nat, limit: nat, accepts: nat)
    requires |conds| > 0 && Sized(conds, n) && start <= end <= n
    ensures var all := Conjunction(conds, n);
            var res := AggregateFrom(conds[0], all, start, end, 0, limit, [], accepts);
            AggregateOk(conds[0], all, start, end, limit, accepts, res.0, res.1)
  {
    var all := Conjunction(conds, n);
    var res := AggregateFrom(conds[0], all, start, end, 0, limit, [], accepts);
    ConjunctionImpliesOwn(conds, n);
    AggregateFromSpec(conds[0], all, start, start, end, 0, limit, [], accepts, res.0, res.1);
  }

  /** The conjunction of a node's conditions implies the node's own condition. */
  lemma ConjunctionImpliesOwn(conds: seq<seq<bool>>, n: nat)
    requires |conds| > 0 && Sized(conds, n)
    ensures var all := Conjunction(conds, n);
            forall i :: 0 <= i < |all| && all[i] ==> conds[0][i]
  {
  }

  /**
   * ParentNode::aggregate_local. conds[0] is the node's own condition (a node is
   * the first of its own m_children); conds[1..] are its siblings. The query
   * state's match callback is summed up by `accepts`: it returns true for its
   * first `accepts` calls and false on the next. `delivered` lists the rows passed
   * to it. The result is where the caller resumes: one past the `localLimit`-th
   * own match, `end` when the range is exhausted, or NPOS when the callback said
   * stop; AggregateFromSpec states what that means.
   */
  method AggregateLocal(conds: seq<seq<bool>>, n: nat, start: nat, end: nat, localLimit: nat, accepts: nat)
    returns (next: nat, delivered: seq<nat>)
    requires |conds| > 0 && Sized(conds, n) && start <= end <= n
    ensures (next, delivered) == AggregateFrom(conds[0], Conjunction(conds, n), start, end, 0, localLimit, [], accepts)
  {
    ghost var all := Conjunction(conds, n);
    var localMatches := 0;
    var r: nat := if start == 0 then NPOS else start - 1;
    ghost var pos: nat := start;  // r + 1, modulo 2^64
    delivered := [];
    while true
      invariant r <= NPOS && pos == Inc(r) && start <= pos <= end
      invariant |delivered| <= accepts
      invariant AggregateFrom(conds[0], all, pos, end, localMatches, localLimit, delivered, accepts)
                == AggregateFrom(conds[0], all, start, end, 0, localLimit, [], accepts)
      decreases end - pos
    {
      if localMatches == localLimit {
        return Inc(r), delivered;
      }
      // find the first match of this node's own condition
      r := FirstMatch(conds[0], Inc(r), end);
      if r == NPOS {
        return end, delivered;
      }
      // and whether all remaining conditions agree on it
      var m := FirstOfRemaining(conds, n, r);
      SiblingsAgree(conds, n, r);
      AggregateUnfold(conds[0], all, pos, end, localMatches, localLimit, delivered, accepts, r,
                      if m == r then delivered + [r] else delivered);
      pos := r + 1;
      localMatches := localMatches + 1;
      if m == r {
        delivered := delivered + [r];
        if |delivered| > accepts {
          return NPOS, delivered;
        }
      }
    }
  }

  /** At a row where the node's own condition holds, the conjunction is the siblings' agreement. */
  lemma SiblingsAgree(conds: seq<seq<bool>>, n: nat, r: nat)
    requires |conds| > 0 && Sized(conds, n) && r < n && conds[0][r]
    ensures Conjunction(conds, n)[r] <==> forall c :: 1 <= c < |conds| ==> conds[c][r]
  {
  }

  /** One own match at r after a stretch of rows where the own condition fails. */
  lemma OwnStep(own: seq<bool>, all: seq<bool>, s: nat, p: nat, r: nat)
    requires s <= p <= r < |own| == |all|
    requires forall i :: 0 <= i < |all| && all[i] ==> own[i]
    requires forall i :: p <= i < r ==> !own[i]
    requires own[r]
    ensures Matches(own, s, r + 1) == Matches(own, s, p) + [r]
    ensures Matches(all, s, r + 1) == Matches(all, s, p) + (if all[r] then [r] else [])
  {
    OwnSkip(own, all, s, p, r);
  }

  /**
   * The inner loop of aggregate_local: the siblings conds[1..] are asked in turn
   * whether row r matches, stopping at the first that disagrees.
   */
  method FirstOfRemaining(conds: seq<seq<bool>>, n: nat, r: nat) returns (m: nat)
    requires |conds| > 0 && Sized(conds, n) && r < n
    ensures m == r <==> forall c :: 1 <= c < |conds| ==> conds[c][r]
  {
    m := r;
    var c := 1;
    while c < |conds|
      invariant 1 <= c <= |conds|
      invariant m == r && forall c' :: 1 <= c' < c ==> conds[c'][r]
    {
      assert |conds[c]| == n;
      m := FirstMatch(conds[c], r, r + 1);
      if m != r {
        return;
      }
      c := c + 1;
    }
  }

  /** The rows of `inner` negated: where a NotNode's evaluate_at holds. */
  function Complement(inner: seq<bool>): (rows: seq<bool>)
    ensures |rows| == |inner| && forall i :: 0 <= i < |inner| ==> rows[i] == !inner[i]
  {
    seq(|inner|, i requires 0 <= i < |inner| => !inner[i])
  }

  /**
   * NotNode::find_first_covered_by_known as the source has it: the cached first
   * match is used when it is not greater than `end`, so a cached match equal to
   * `end`, which lies outside [start, end), is returned.
   */
  function CoveredByKnownAsWritten(negated: seq<bool>, firstInKnown: nat, start: nat, end: nat): (r: nat)
    requires start <= end <= |negated| < NPOS
    ensures firstInKnown != NPOS && start <= firstInKnown <= end ==> r == firstInKnown
  {
    if firstInKnown != NPOS && firstInKnown > end then NPOS
    else if firstInKnown != NPOS && firstInKnown >= start then firstInKnown
    else FirstMatch(negated, start, end)
  }

  /**
   * With the known range [0, 2) whose first non-matching row is 1, asking the
   * NotNode about [0, 1) yields 1: the end of the range, not not_found.
   */
  lemma CoveredByKnownReturnsEnd()
    ensures var negated := Complement([true, false]);
            FirstMatch(negated, 0, 2) == 1
            && CoveredByKnownAsWritten(negated, 1, 0, 1) == 1
            && FirstMatch(negated, 0, 1) == NPOS
  {
    var negated := Complement([true, false]);
    assert negated == [false, true];
  }

  /** Which of NotNode::find_first_local's five cases a call falls in. */
  datatype Overlap = CoversKnown | CoveredByKnown | OverlapLower | OverlapUpper | NoOverlap

  /** The dispatch of NotNode::find_first_local, in the source's order. */
  function Classify(start: nat, end: nat, knownStart: nat, knownEnd: nat): (o: Overlap)
    requires start <= end && knownStart <= knownEnd
    ensures o == CoversKnown ==> start <= knownStart && knownEnd <= end
    ensures o == CoveredByKnown ==> knownStart <= start && end <= knownEnd
    ensures o == OverlapLower ==> start < knownStart <= end < knownEnd
    ensures o == OverlapUpper ==> knownStart < start <= knownEnd < end
    ensures o == NoOverlap ==> end < knownStart || knownEnd < start
  {
    if start <= knownStart && end >= knownEnd then CoversKnown
    else if start >= knownStart && end <= knownEnd then CoveredByKnown
    else if start < knownStart && end >= knownStart then OverlapLower
    else if start <= knownEnd && end > knownEnd then OverlapUpper
    else NoOverlap
  }

  /**
   * A NotNode over a wrapped condition. The condition is known by the rows where
   * its own find_first(i, i + 1) finds i; evaluate_at(i) holds where it does not.
   * The node caches a known range and the first row of it where evaluate_at holds.
   */
  class NotNode {
    const inner: seq<bool>
    var knownStart: nat
    var knownEnd: nat
    var firstInKnown: nat

    /** The cache invariant: firstInKnown is the first evaluate_at row of the known range. */
    ghost predicate Valid()
      reads this
    {
      knownStart <= knownEnd <= |inner| < NPOS
      && firstInKnown == FirstMatch(Complement(inner), knownStart, knownEnd)
    }

    constructor (condition: seq<bool>)
      requires |condition| < NPOS
      ensures Valid() && inner == condition
      ensures knownStart == 0 && knownEnd == 0 && firstInKnown == NPOS
    {
      inner := condition;
      knownStart, knownEnd, firstInKnown := 0, 0, NPOS;
    }

    /** NotNode::evaluate_at: the wrapped condition finds nothing in [row, row + 1). */
    function EvaluateAt(row: nat): (b: bool)
      requires row < |inner| < NPOS
      ensures b <==> !inner[row]
    {
      FirstMatch(inner, row, row + 1) == NPOS
    }

    /** NotNode::find_first_loop: a plain scan. */
    method FindFirstLoop(start: nat, end: nat) returns (r: nat)
      requires end <= |inner| < NPOS
      ensures r == FirstMatch(Complement(inner), start, end)
    {
      var i := start;
      while i < end
        invariant start <= i
        invariant forall j :: start <= j < i && j < end ==> inner[j]
      {
        if EvaluateAt(i) {
          FirstMatchUnique(Complement(inner), start, end, i);
          return i;
        }
        i := i + 1;
      }
      FirstMatchUnique(Complement(inner), start, end, NPOS);
      return NPOS;
    }

    method UpdateKnown(start: nat, end: nat, first: nat)
      modifies this
      ensures knownStart == start && knownEnd == end && firstInKnown == first
    {
      knownStart, knownEnd, firstInKnown := start, end, first;
    }

    /** Case [    ######    ]: the range covers the known range. */
    method FindFirstCoversKnown(start: nat, end: nat) returns (r: nat)
      requires Valid() && start <= knownStart && knownEnd <= end <= |inner|
      modifies this
      ensures Valid() && r == FirstMatch(Complement(inner), start, end)
    {
      ghost var neg := Complement(inner);
      ghost var ks, ke := knownStart, knownEnd;
      FirstMatchSplit(neg, start, ks, ke);
      FirstMatchSplit(neg, start, ke, end);
      r := FindFirstLoop(start, knownStart);
      if r != NPOS {
        UpdateKnown(start, knownEnd, r);
      } else {
        if firstInKnown != NPOS {
          UpdateKnown(start, knownEnd, firstInKnown);
          r := firstInKnown;
        } else {
          r := FindFirstLoop(knownEnd, end);
          UpdateKnown(start, end, r);
        }
      }
    }

    /**
     * Case ###[#####]###: the known range covers the range. This is the corrected
     * comparison: a cached match at or beyond `end` is outside the range.
     */
    method FindFirstCoveredByKnown(start: nat, end: nat) returns (r: nat)
      requires Valid() && knownStart <= start <= end <= knownEnd
      ensures r == FirstMatch(Complement(inner), start, end)
    {
      FirstMatchWithin(Complement(inner), knownStart, knownEnd, start, end);
      if firstInKnown != NPOS {
        if firstInKnown >= end {
          return NPOS;
        } else if firstInKnown >= start {
          return firstInKnown;
        }
      }
      r := FindFirstLoop(start, end);
    }

    /** Case [   ###]#####: the range overlaps the lower end of the known range. */
    method FindFirstOverlapLower(start: nat, end: nat) returns (r: nat)
      requires Valid() && start < knownStart <= end <= knownEnd
      modifies this
      ensures Valid() && r == FirstMatch(Complement(inner), start, end)
    {
      ghost var neg := Complement(inner);
      FirstMatchSplit(neg, start, knownStart, knownEnd);
      FirstMatchWithin(neg, start, knownEnd, start, end);
      var result := FindFirstLoop(start, knownStart);
      if result == NPOS {
        result := firstInKnown;
      }
      UpdateKnown(start, knownEnd, result);
      r := if result < end then result else NPOS;
    }

    /** Case ####[###    ]: the range overlaps the upper end of the known range. */
    method FindFirstOverlapUpper(start: nat, end: nat) returns (r: nat)
      requires Valid() && knownStart <= start <= knownEnd < end <= |inner|
      modifies this
      ensures Valid() && r == FirstMatch(Complement(inner), start, end)
    {
      ghost var neg := Complement(inner);
      FirstMatchSplit(neg, knownStart, knownEnd, end);
      FirstMatchSplit(neg, start, knownEnd, end);
      FirstMatchWithin(neg, knownStart, knownEnd, start, knownEnd);
      if firstInKnown != NPOS {
        if firstInKnown >= start {
          r := firstInKnown;
          UpdateKnown(knownStart, end, r);
        } else {
          r := FindFirstLoop(start, end);
          UpdateKnown(knownStart, end, firstInKnown);
        }
      } else {
        r := FindFirstLoop(knownEnd, end);
        UpdateKnown(knownStart, end, r);
      }
    }

    /** Case ### [    ] or [    ] ###: no overlap; a wider range replaces the cache. */
    method FindFirstNoOverlap(start: nat, end: nat) returns (r: nat)
      requires Valid() && start <= end <= |inner|
      modifies this
      ensures Valid() && r == FirstMatch(Complement(inner), start, end)
    {
      r := FindFirstLoop(start, end);
      if end - start > knownEnd - knownStart {
        UpdateKnown(start, end, r);
      }
    }

    /**
     * NotNode::find_first_local: each of the five cases keeps the cache invariant,
     * and the answer is the first row of [start, end) where evaluate_at holds.
     */
    method FindFirstLocal(start: nat, end: nat) returns (r: nat)
      requires Valid() && start <= end <= |inner|
      modifies this
      ensures Valid() && r == FirstMatch(Complement(inner), start, end)
    {
      match Classify(start, end, knownStart, knownEnd)
      case CoversKnown => r := FindFirstCoversKnown(start, end);
      case CoveredByKnown => r := FindFirstCoveredByKnown(start, end);
      case OverlapLower => r := FindFirstOverlapLower(start, end);
      case OverlapUpper => r := FindFirstOverlapUpper(start, end);
      case NoOverlap => r := FindFirstNoOverlap(start, end);
    }
  }

  /** A string cell of a leaf: None is the null string. */
  type Str = Option<string>

  /** The rows of a string leaf whose value is one of the needles. */
  function InNeedles(leaf: seq<Str>, needles: set<Str>): (rows: seq<bool>)
    ensures |rows| == |leaf| && forall i :: 0 <= i < |leaf| ==> (rows[i] <==> leaf[i] in needles)
  {
    seq(|leaf|, i requires 0 <= i < |leaf| => leaf[i] in needles)
  }

  /** The linear branch: each row is compared with every needle in turn. */
  method FindFirstLinear(leaf: seq<Str>, needles: set<Str>, start: nat, end: nat) returns (r: nat)
    requires start <= end <= |leaf| < NPOS
    ensures r == FirstMatch(InNeedles(leaf, needles), start, end)
  {
    var i := start;
    while i < end
      invariant start <= i <= end
      invariant forall j :: start <= j < i ==> leaf[j] !in needles
    {
      var value := leaf[i];
      var rest := needles;
      while rest != {}
        invariant rest <= needles
        invariant value !in needles - rest
        decreases |rest|
      {
        var needle :| needle in rest;
        if needle == value {
          FirstMatchUnique(InNeedles(leaf, needles), start, end, i);
          return i;
        }
        rest := rest - {needle};
      }
      i := i + 1;
    }
    FirstMatchUnique(InNeedles(leaf, needles), start, end, NPOS);
    return NPOS;
  }

  /** The hashed branch: each row is looked up in the needle set. */
  method FindFirstHashed(leaf: seq<Str>, needles: set<Str>, start: nat, end: nat) returns (r: nat)
    requires start <= end <= |leaf| < NPOS
    ensures r == FirstMatch(InNeedles(leaf, needles), start, end)
  {
    var i := start;
    while i < end
      invariant start <= i <= end
      invariant forall j :: start <= j < i ==> leaf[j] !in needles
    {
      if leaf[i] in needles {
        FirstMatchUnique(InNeedles(leaf, needles), start, end, i);
        return i;
      }
      i := i + 1;
    }
    FirstMatchUnique(InNeedles(leaf, needles), start, end, NPOS);
    return NPOS;
  }

  /** The first row of [start, end) holding `value`; a leaf's own find_first. */
  function LeafFindFirst(leaf: seq<Str>, value: Str, start: nat, end: nat): (r: nat)
    requires end <= |leaf| < NPOS
    ensures r == NPOS || (start <= r < end && leaf[r] == value)
    ensures forall i :: start <= i < end && i < r ==> leaf[i] != value
  {
    FirstMatch(InNeedles(leaf, {value}), start, end)
  }

  /** Cost estimates set by StringNodeEqualBase::init (m_dD, m_dT). */
  datatype Costs = Costs(dD: nat, dT: nat)

  /**
   * StringNodeEqualBase::init: m_dD is 10; m_dT is 1 for an enumerated column,
   * otherwise 0 with a search index and 10 without, so the enumeration wins.
   */
  function InitCosts(isStringEnum: bool, hasSearchIndex: bool): (c: Costs)
    ensures c.dD == 10 && c.dT <= c.dD
    ensures c.dT == 0 <==> hasSearchIndex && !isStringEnum
    ensures isStringEnum ==> c.dT == 1
    ensures !isStringEnum && !hasSearchIndex ==> c.dT == 10
  {
    var dT := if isStringEnum then 1 else if hasSearchIndex then 0 else 10;
    Costs(10, dT)
  }

  /** `parts` joined with `sep` between consecutive parts. */
  function Join(parts: seq<string>, sep: string): string
  {
    if |parts| == 0 then "" else if |parts| == 1 then parts[0] else Join(parts[..|parts| - 1], sep) + sep + parts[|parts| - 1]
  }

  /**
   * StringNode<Equal>: an equality test on a string column, which can absorb
   * further equality tests on the same column into a set of needles.
   */
  class StringEqualNode {
    const column: nat
    const value: Str
    var needles: set<Str>

    constructor (col: nat, v: Str)
      ensures column == col && value == v && needles == {}
    {
      column := col;
      value := v;
      needles := {};
    }

    /**
     * StringNode<Equal>::consume_condition: the first absorption seeds the set
     * with this node's own value (or the null string); then the other node's value
     * (or the null string) is added.
     */
    method ConsumeCondition(other: StringEqualNode)
      requires other != this && column == other.column && other.needles == {}
      modifies this`needles
      ensures needles == (if old(needles) == {} then {value} else old(needles)) + {other.value}
      ensures other.value in needles && old(needles) <= needles
    {
      if needles == {} {
        needles := {value};
      }
      needles := needles + {other.value};
    }

    /**
     * StringNode<Equal>::_find_first_local: without needles the leaf is searched
     * for the node's value; with fewer than 20 needles each row is compared with
     * each needle, otherwise each row is looked up in the set. An end of npos
     * means the leaf's size.
     */
    method FindFirstLocal(leaf: seq<Str>, start: nat, end: nat) returns (r: nat)
      requires |leaf| < NPOS && start <= |leaf| && (end == NPOS || start <= end <= |leaf|)
      ensures needles == {} ==> r == FirstMatch(InNeedles(leaf, {value}), start, if end == NPOS then |leaf| else end)
      ensures needles != {} ==> r == FirstMatch(InNeedles(leaf, needles), start, if end == NPOS then |leaf| else end)
    {
      var e := if end == NPOS then |leaf| else end;
      if needles == {} {
        return LeafFindFirst(leaf, value, start, e);
      }
      if |needles| < 20 {
        r := FindFirstLinear(leaf, needles, start, e);
      } else {
        r := FindFirstHashed(leaf, needles, start, e);
      }
    }

    /**
     * StringNode<Equal>::describe with needles: "(c == v1 or c == v2 ...)", one
     * term per needle. `order` is the set's iteration order, each needle once;
     * `show` prints a needle as a value; `baseDescription` is what the node says
     * without needles.
     */
    method Describe(columnName: string, order: seq<Str>, show: Str -> string, baseDescription: string)
      returns (desc: string)
      requires forall x :: x in needles <==> x in order
      requires forall i, j :: 0 <= i < j < |order| ==> order[i] != order[j]
      ensures needles == {} ==> desc == baseDescription
      ensures needles != {} ==> desc == "(" + Join(Terms(columnName, Shown(order, show)), " or ") + ")"
      ensures |Shown(order, show)| == |needles|
    {
      DistinctCount(order, needles);
      if needles == {} {
        return baseDescription;
      }
      ghost var rendered := Shown(order, show);
      desc := "";
      var isFirst := true;
      var i := 0;
      while i < |order|
        invariant 0 <= i <= |order|
        invariant isFirst <==> i == 0
        invariant desc == Join(Terms(columnName, rendered[..i]), " or ")
      {
        DescribeStep(columnName, rendered, i);
        desc := desc + (if isFirst then "" else " or ") + columnName + " " + "==" + " " + show(order[i]);
        isFirst := false;
        i := i + 1;
      }
      assert rendered[..i] == rendered;
      desc := "(" + desc + ")";
    }
  }

  /** One more term of the description: a separator unless it is the first, then "column == value". */
  lemma DescribeStep(columnName: string, rendered: seq<string>, i: nat)
    requires i < |rendered|
    ensures Join(Terms(columnName, rendered[..i + 1]), " or ")
            == Join(Terms(columnName, rendered[..i]), " or ") + (if i == 0 then "" else " or ")
               + columnName + " " + "==" + " " + rendered[i]
  {
    var t := Terms(columnName, rendered[..i + 1]);
    assert t[..i] == Terms(columnName, rendered[..i]);
    assert t[i] == columnName + " == " + rendered[i];
  }

  /** Each entry of `order` printed by `show`, in order. */
  function Shown(order: seq<Str>, show: Str -> string): (rendered: seq<string>)
    ensures |rendered| == |order| && forall k :: 0 <= k < |order| ==> rendered[k] == show(order[k])
  {
    seq(|order|, k requires 0 <= k < |order| => show(order[k]))
  }

  /** A sequence without repeats that holds exactly the elements of a set is as long as the set. */
  lemma {:induction false} DistinctCount<T>(order: seq<T>, s: set<T>)
    requires forall x :: x in s <==> x in order
    requires forall i, j :: 0 <= i < j < |order| ==> order[i] != order[j]
    ensures |order| == |s|
    decreases |order|
  {
    if |order| == 0 {
      assert forall x :: x !in s;
      assert s == {};
    } else {
      var last := order[|order| - 1];
      var init := order[..|order| - 1];
      forall x ensures x in s - {last} <==> x in init {
        if x in init {
          var k :| 0 <= k < |init| && init[k] == x;
          assert order[k] == x && k < |order| - 1;
        }
        if x in s - {last} {
          var k :| 0 <= k < |order| && order[k] == x;
          assert k != |order| - 1;
          assert init[k] == x;
        }
      }
      DistinctCount(init, s - {last});
    }
  }

  /** One "column == value" term per rendered needle. */
  function Terms(columnName: string, rendered: seq<string>): (t: seq<string>)
    ensures |t| == |rendered|
    ensures forall k :: 0 <= k < |t| ==> t[k] == columnName + " == " + rendered[k]
  {
    seq(|rendered|, k requires 0 <= k < |rendered| => columnName + " == " + rendered[k])
  }
}
