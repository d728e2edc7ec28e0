/**
 * Object keys of a table with hashed global keys, src/realm/table.cpp.
 *
 * A global key (hi, lo) is turned into a local object key by masking `lo`
 * ("optimistic" id). When two global keys collide on that id, the table records
 * the newcomer under a tagged id made from the table's sequence number, in a
 * collision map of three parallel arrays hi / lo / local_id ordered by
 * (hi as a signed 64-bit value, lo as an unsigned one).
 */
module ObjectKeys {
  import opened Wrappers

  /** An unsigned 64-bit word. */
  type u64 = x: int | 0 <= x < 0x1_0000_0000_0000_0000

  /** 2^62: the bit that tags a local id, and the bound of the optimistic ids. */
  const TAG_BIT: int := 0x4000_0000_0000_0000

  /**
   * get_optimistic_local_id_hashed: `lo & 0x3fffffffffffffff`, i.e. the low 62
   * bits of `lo`, so bits 62 and 63 of the id are clear.
   */
  function OptimisticId(lo: u64): (k: int)
    ensures 0 <= k < TAG_BIT
    ensures (lo - k) % TAG_BIT == 0
  {
    lo % TAG_BIT
  }

  /**
   * make_tagged_local_id_after_hash_collision: `0x4000000000000000 | sn`, for a
   * sequence number below 2^62 (asserted by the source), i.e. bit 62 set over it.
   */
  function TaggedId(sn: nat): (k: int)
    requires sn < TAG_BIT
    ensures TAG_BIT <= k < 2 * TAG_BIT
    ensures k % TAG_BIT == sn
  {
    TAG_BIT + sn
  }

  /** A tagged id never equals an optimistic one. */
  lemma TaggedIsNotOptimistic(sn: nat, lo: u64)
    requires sn < TAG_BIT
    ensures TaggedId(sn) != OptimisticId(lo)
  {
  }

  /** Distinct sequence numbers give distinct tagged ids. */
  lemma TaggedIdInjective(sn1: nat, sn2: nat)
    requires sn1 < TAG_BIT && sn2 < TAG_BIT
    ensures TaggedId(sn1) == TaggedId(sn2) ==> sn1 == sn2
  {
  }

  /** A word read as a two's-complement int64, as the hi array stores it. */
  function Signed(x: u64): (v: int)
    ensures -0x8000_0000_0000_0000 <= v < 0x8000_0000_0000_0000
    ensures v % 0x1_0000_0000_0000_0000 == x
  {
    if x < 0x8000_0000_0000_0000 then x else x - 0x1_0000_0000_0000_0000
  }

  /** The collision-map order: (h, l) comes strictly before (h2, l2). */
  predicate Before(h: u64, l: u64, h2: u64, l2: u64)
  {
    Signed(h) < Signed(h2) || (h == h2 && l < l2)
  }

  /** Entries strictly increasing in the collision-map order (so no key twice). */
  ghost predicate SortedKeys(hs: seq<u64>, ls: seq<u64>)
    requires |hs| == |ls|
  {
    forall i, j :: 0 <= i < j < |hs| ==> Before(hs[i], ls[i], hs[j], ls[j])
  }

  /** Array::find_first from `from`: the first index holding `v`, or |s| for npos. */
  function FindFrom<T(==)>(s: seq<T>, v: T, from: nat): (r: nat)
    ensures r == |s| || (from <= r < |s| && s[r] == v)
    ensures forall j :: from <= j < r && j < |s| ==> s[j] != v
    decreases |s| - from
  {
    if from >= |s| then |s|
    else if s[from] == v then from
    else FindFrom(s, v, from + 1)
  }

  /** Inserting `x` at position `i`. */
  function InsertAt<T>(s: seq<T>, i: nat, x: T): (r: seq<T>)
    requires i <= |s|
    ensures |r| == |s| + 1 && r[i] == x
    ensures forall j :: 0 <= j < i ==> r[j] == s[j]
    ensures forall j :: i < j < |r| ==> r[j] == s[j - 1]
  {
    s[..i] + [x] + s[i..]
  }

  /** `s` with `x` inserted at `i` when `b` holds, else `s` itself. */
  function InsertIf<T>(s: seq<T>, b: bool, i: nat, x: T): (r: seq<T>)
    requires b ==> i <= |s|
    ensures |r| == |s| + (if b then 1 else 0)
  {
    if b then InsertAt(s, i, x) else s
  }

  /** A sorted map holds each key at one position only. */
  lemma KeyOnce(hs: seq<u64>, ls: seq<u64>, i: nat, j: nat)
    requires |hs| == |ls| && SortedKeys(hs, ls) && i < |hs| && j < |hs|
    requires hs[i] == hs[j] && ls[i] == ls[j]
    ensures i == j
  {
  }

  /** The sequence number the counter slot hands out next: its value, or 0 while untagged. */
  function NextSequence(counter: Option<nat>): nat
  {
    if counter.Some? then counter.value else 0
  }

  /** The map records (h, l) with a local id other than `id`. */
  predicate Conflicts(hi: seq<u64>, lo: seq<u64>, ids: seq<int>, h: u64, l: u64, id: int)
    requires |hi| == |lo| == |ids|
  {
    exists j :: 0 <= j < |hi| && hi[j] == h && lo[j] == l && ids[j] != id
  }

  /** The map whose key columns are `hi` and `lo` holds no entry for (h, l). */
  predicate Absent(hi: seq<u64>, lo: seq<u64>, h: u64, l: u64)
    requires |hi| == |lo|
  {
    forall j :: 0 <= j < |hi| ==> hi[j] != h || lo[j] != l
  }

  /** After an insertion at `i`, the element that was at `p` is one further on when `i <= p`. */
  lemma InsertMoves<T>(s: seq<T>, i: nat, x: T, p: nat)
    requires i <= |s| && p < |s|
    ensures InsertAt(s, i, x)[if i <= p then p + 1 else p] == s[p]
  {
  }

  /** Removing position `i`. */
  function RemoveAt<T>(s: seq<T>, i: nat): (r: seq<T>)
    requires i < |s|
    ensures |r| == |s| - 1
    ensures forall j :: 0 <= j < i ==> r[j] == s[j]
    ensures forall j :: i <= j < |r| ==> r[j] == s[j + 1]
  {
    s[..i] + s[i + 1..]
  }

  /** Past the first entry not before (h, l), no entry is before it. */
  lemma NotBeforeAfter(hs: seq<u64>, ls: seq<u64>, i: nat, h: u64, l: u64)
    requires |hs| == |ls| && SortedKeys(hs, ls)
    requires i < |hs| && !Before(hs[i], ls[i], h, l)
    ensures forall j :: i <= j < |hs| ==> !Before(hs[j], ls[j], h, l)
  {
    forall j | i < j < |hs| ensures !Before(hs[j], ls[j], h, l) {
      assert Before(hs[i], ls[i], hs[j], ls[j]);
    }
  }

  /** Inserting a new key at its lower bound keeps the map sorted. */
  lemma {:induction false} InsertKeepsSorted(hs: seq<u64>, ls: seq<u64>, i: nat, h: u64, l: u64)
    requires |hs| == |ls| && SortedKeys(hs, ls) && i <= |hs|
    requires forall j :: 0 <= j < i ==> Before(hs[j], ls[j], h, l)
    requires forall j :: i <= j < |hs| ==> !Before(hs[j], ls[j], h, l)
    requires i < |hs| ==> hs[i] != h || ls[i] != l
    ensures SortedKeys(InsertAt(hs, i, h), InsertAt(ls, i, l))
  {
    var hs', ls' := InsertAt(hs, i, h), InsertAt(ls, i, l);
    forall a, b | 0 <= a < b < |hs'| ensures Before(hs'[a], ls'[a], hs'[b], ls'[b]) {
      if b == i {
      } else if a == i {
        assert !Before(hs[b - 1], ls[b - 1], h, l);
        if b - 1 > i {
          assert Before(hs[i], ls[i], hs[b - 1], ls[b - 1]);
        }
      } else if a < i < b {
        assert Before(hs[a], ls[a], h, l);
        assert !Before(hs[b - 1], ls[b - 1], h, l);
      }
    }
  }

  /** Removing an entry keeps the map sorted. */
  lemma RemoveKeepsSorted(hs: seq<u64>, ls: seq<u64>, i: nat)
    requires |hs| == |ls| && SortedKeys(hs, ls) && i < |hs|
    ensures SortedKeys(RemoveAt(hs, i), RemoveAt(ls, i))
  {
    var hs', ls' := RemoveAt(hs, i), RemoveAt(ls, i);
    forall a, b | 0 <= a < b < |hs'| ensures Before(hs'[a], ls'[a], hs'[b], ls'[b]) {
      var a', b' := if a < i then a else a + 1, if b < i then b else b + 1;
      assert hs'[a] == hs[a'] && ls'[a] == ls[a'] && hs'[b] == hs[b'] && ls'[b] == ls[b'];
    }
  }

  /**
   * In a sorted map, a recorded key is reached by the two find_first calls of the
   * lookup: the first entry with that hi, then the first entry from there with
   * that lo, which still has that hi and is at or before the key's position.
   */
  lemma RecordedFound(hs: seq<u64>, ls: seq<u64>, h: u64, l: u64)
    requires |hs| == |ls|
    ensures SortedKeys(hs, ls) ==> forall p :: 0 <= p < |hs| && hs[p] == h && ls[p] == l ==>
              var found := FindFrom(hs, h, 0);
              found <= p && FindFrom(ls, l, found) <= p && hs[FindFrom(ls, l, found)] == h
  {
    forall p | SortedKeys(hs, ls) && 0 <= p < |hs| && hs[p] == h && ls[p] == l
      ensures var found := FindFrom(hs, h, 0);
              found <= p && FindFrom(ls, l, found) <= p && hs[FindFrom(ls, l, found)] == h
    {
      var found := FindFrom(hs, h, 0);
      assert found <= p;
      forall m | found <= m <= p ensures hs[m] == h {
        if found < m {
          assert Before(hs[found], ls[found], hs[m], ls[m]);
        }
        if m < p {
          assert Before(hs[m], ls[m], hs[p], ls[p]);
        }
      }
      var candidate := FindFrom(ls, l, found);
      assert candidate <= p;
    }
  }

  /**
   * The part of a table that derives local object keys: the sequence-number slot
   * of the top array and the collision map.
   */
  class KeyTable {
    /** The tagged value of the sequence-number slot; None while the slot is untagged. */
    var sequenceNumber: Option<nat>
    /** The collision map; it exists exactly while it has entries. */
    var hi: seq<u64>
    var lo: seq<u64>
    var localId: seq<int>

    ghost predicate Valid()
      reads this
    {
      |hi| == |lo| == |localId| && SortedKeys(hi, lo)
    }

    constructor ()
      ensures Valid() && sequenceNumber == None && hi == [] && lo == [] && localId == []
    {
      sequenceNumber := None;
      hi, lo, localId := [], [], [];
    }

    /** Table::allocate_sequence_number: the stored counter (0 when untagged), then counter + 1. */
    method AllocateSequenceNumber() returns (sn: nat)
      modifies this`sequenceNumber
      ensures sn == NextSequence(old(sequenceNumber))
      ensures sequenceNumber == Some(sn + 1)
    {
      sn := if sequenceNumber.Some? then sequenceNumber.value else 0;
      sequenceNumber := Some(sn + 1);
    }

    /**
     * Table::global_to_local_object_id_hashed: the local id recorded for (h, l) in
     * the collision map, else the optimistic id.
     */
    function GlobalToLocal(h: u64, l: u64): (k: int)
      reads this
      requires |hi| == |lo| == |localId|
      ensures Valid() ==>
                (exists p :: 0 <= p < |hi| && hi[p] == h && lo[p] == l && k == localId[p])
                || (Absent(hi, lo, h, l) && k == OptimisticId(l))
    {
      RecordedFound(hi, lo, h, l);
      var found := FindFrom(hi, h, 0);
      if found < |hi| && hi[found] == h then
        var candidate := FindFrom(lo, l, found);
        if candidate < |hi| && hi[candidate] == h then localId[candidate] else OptimisticId(l)
      else OptimisticId(l)
    }

    /** A key recorded in the collision map is looked up to its local id. */
    lemma LookupRecorded(h: u64, l: u64, p: nat)
      requires Valid() && p < |hi| && hi[p] == h && lo[p] == l
      ensures GlobalToLocal(h, l) == localId[p]
    {
      RecordedFound(hi, lo, h, l);
    }

    /** A key absent from the collision map is looked up to its optimistic id. */
    lemma LookupAbsent(h: u64, l: u64)
      requires Valid()
      requires forall j :: 0 <= j < |hi| ==> hi[j] != h || lo[j] != l
      ensures GlobalToLocal(h, l) == OptimisticId(l)
    {
    }

    /**
     * The lower_bound_object_id step of allocate_local_id_after_hash_collision:
     * Array::lower_bound_int on `hi` (signed), then forward over the entries with
     * that hi whose lo is smaller.
     */
    method LowerBound(h: u64, l: u64) returns (i: nat)
      requires Valid()
      ensures i <= |hi|
      ensures forall j :: 0 <= j < i ==> Before(hi[j], lo[j], h, l)
      ensures forall j :: i <= j < |hi| ==> !Before(hi[j], lo[j], h, l)
    {
      var n := |hi|;
      i := 0;
      while i < n && Signed(hi[i]) < Signed(h)
        invariant i <= n
        invariant forall j :: 0 <= j < i ==> Before(hi[j], lo[j], h, l)
      {
        i := i + 1;
      }
      while i < n && hi[i] == h && lo[i] < l
        invariant i <= n
        invariant forall j :: 0 <= j < i ==> Before(hi[j], lo[j], h, l)
        invariant i < n ==> Signed(hi[i]) >= Signed(h)
      {
        if i + 1 < n {
          assert Before(hi[i], lo[i], hi[i + 1], lo[i + 1]);
        }
        i := i + 1;
      }
      if i < n {
        NotBeforeAfter(hi, lo, i, h, l);
      }
    }

    /**
     * The insert_collision step: nothing when (h, l) is already recorded (the
     * recorded id must then be `id`, else the assertion fails: ok is false);
     * otherwise (h, l, id) goes in at its place in the order.
     */
    method InsertCollision(h: u64, l: u64, id: int) returns (ok: bool, ghost pos: nat, ghost added: bool)
      requires Valid()
      modifies this`hi, this`lo, this`localId
      ensures Valid()
      ensures pos < |hi| && hi[pos] == h && lo[pos] == l && (ok <==> localId[pos] == id)
      ensures added <==> Absent(old(hi), old(lo), h, l)
      ensures ok <==> !Conflicts(old(hi), old(lo), old(localId), h, l, id)
      ensures added ==> ok && pos <= |old(hi)| && hi == InsertAt(old(hi), pos, h) && lo == InsertAt(old(lo), pos, l)
                        && localId == InsertAt(old(localId), pos, id)
      ensures !added ==> hi == old(hi) && lo == old(lo) && localId == old(localId)
    {
      var i := LowerBound(h, l);
      pos := i;
      if i != |hi| && hi[i] == h && lo[i] == l {
        forall j | 0 <= j < |hi| && hi[j] == h && lo[j] == l ensures j == i {
          KeyOnce(hi, lo, i, j);
        }
        return localId[i] == id, i, false;
      }
      forall j | 0 <= j < |hi| ensures hi[j] != h || lo[j] != l {
        if j < i {
          assert Before(hi[j], lo[j], h, l);
        } else if j > i {
          assert Before(hi[i], lo[i], hi[j], lo[j]);
          assert !Before(hi[i], lo[i], h, l);
        }
      }
      InsertKeepsSorted(hi, lo, i, h, l);
      hi := InsertAt(hi, i, h);
      lo := InsertAt(lo, i, l);
      localId := InsertAt(localId, i, id);
      ok, added := true, true;
    }

    /**
     * Table::allocate_local_id_after_hash_collision: a new tagged id from the
     * sequence number for `incoming`, recorded together with `colliding` and its
     * existing local id. None when an assertion of the source fails: the sequence
     * number does not fit in 62 bits, or a key is already recorded with another id.
     */
    method AllocateAfterCollision(inHi: u64, inLo: u64, colHi: u64, colLo: u64, colLocal: int)
      returns (r: Option<int>, ghost p: nat, ghost addedIn: bool, ghost q: nat, ghost addedCol: bool)
      requires Valid()
      modifies this
      ensures Valid()
      ensures old(sequenceNumber).Some? ==> sequenceNumber == Some(old(sequenceNumber).value + 1)
      ensures old(sequenceNumber).None? ==> sequenceNumber == Some(1)
      ensures r.Some? ==> TAG_BIT <= r.value < 2 * TAG_BIT
      ensures r.Some? ==> GlobalToLocal(inHi, inLo) == r.value
      ensures r.Some? ==> GlobalToLocal(colHi, colLo) == colLocal
      ensures addedIn ==> p <= |old(hi)|
      ensures addedCol ==> q <= |old(hi)| + (if addedIn then 1 else 0)
      ensures var sn := NextSequence(old(sequenceNumber));
              addedIn <==> sn < TAG_BIT && Absent(old(hi), old(lo), inHi, inLo)
      ensures var sn := NextSequence(old(sequenceNumber));
              r.None? <==> sn >= TAG_BIT
                           || Conflicts(old(hi), old(lo), old(localId), inHi, inLo, TaggedId(sn))
                           || Conflicts(InsertIf(old(hi), addedIn, p, inHi), InsertIf(old(lo), addedIn, p, inLo),
                                        InsertIf(old(localId), addedIn, p, TaggedId(sn)), colHi, colLo, colLocal)
      ensures addedCol <==> r.Some? && Absent(InsertIf(old(hi), addedIn, p, inHi), InsertIf(old(lo), addedIn, p, inLo),
                                              colHi, colLo)
      ensures hi == InsertIf(InsertIf(old(hi), addedIn, p, inHi), addedCol, q, colHi)
      ensures lo == InsertIf(InsertIf(old(lo), addedIn, p, inLo), addedCol, q, colLo)
      ensures var sn := NextSequence(old(sequenceNumber));
              (r.Some? ==> sn < TAG_BIT && r.value == TaggedId(sn))
              && (addedIn ==> localId == InsertIf(InsertAt(old(localId), p, TaggedId(sn)), addedCol, q, colLocal))
      ensures !addedIn ==> localId == InsertIf(old(localId), addedCol, q, colLocal)
    {
      p, addedIn, q, addedCol := 0, false, 0, false;
      var sn := AllocateSequenceNumber();
      if sn >= TAG_BIT {
        return None, p, addedIn, q, addedCol;
      }
      var newId := TaggedId(sn);
      var ok;
      ok, p, addedIn, q, addedCol := RecordCollision(inHi, inLo, newId, colHi, colLo, colLocal);
      r := if ok then Some(newId) else None;
    }

    /**
     * The two insertions of allocate_local_id_after_hash_collision: `incoming` with
     * its new id, then `colliding` with its existing one; false when either key is
     * already recorded with another id. The map is the old one with at most those
     * two insertions, each made only for a key the map did not hold.
     */
    method RecordCollision(inHi: u64, inLo: u64, newId: int, colHi: u64, colLo: u64, colLocal: int)
      returns (ok: bool, ghost p: nat, ghost addedIn: bool, ghost q: nat, ghost addedCol: bool)
      requires Valid()
      modifies this`hi, this`lo, this`localId
      ensures Valid()
      ensures ok ==> GlobalToLocal(inHi, inLo) == newId && GlobalToLocal(colHi, colLo) == colLocal
      ensures addedIn ==> p <= |old(hi)|
      ensures addedCol ==> q <= |old(hi)| + (if addedIn then 1 else 0)
      ensures addedIn <==> Absent(old(hi), old(lo), inHi, inLo)
      ensures ok <==> !Conflicts(old(hi), old(lo), old(localId), inHi, inLo, newId)
                      && !Conflicts(InsertIf(old(hi), addedIn, p, inHi), InsertIf(old(lo), addedIn, p, inLo),
                                    InsertIf(old(localId), addedIn, p, newId), colHi, colLo, colLocal)
      ensures addedCol <==> ok && Absent(InsertIf(old(hi), addedIn, p, inHi), InsertIf(old(lo), addedIn, p, inLo),
                                         colHi, colLo)
      ensures hi == InsertIf(InsertIf(old(hi), addedIn, p, inHi), addedCol, q, colHi)
      ensures lo == InsertIf(InsertIf(old(lo), addedIn, p, inLo), addedCol, q, colLo)
      ensures localId == InsertIf(InsertIf(old(localId), addedIn, p, newId), addedCol, q, colLocal)
    {
      q, addedCol := 0, false;
      ok, p, addedIn := InsertCollision(inHi, inLo, newId);
      if !ok {
        return;
      }
      label mid:
      ok, q, addedCol := InsertCollision(colHi, colLo, colLocal);
      if !ok {
        return;
      }
      if addedCol {
        InsertMoves(old@mid(hi), q, colHi, p);
        InsertMoves(old@mid(lo), q, colLo, p);
        InsertMoves(old@mid(localId), q, colLocal, p);
      }
      LookupRecorded(inHi, inLo, if addedCol && q <= p then p + 1 else p);
      LookupRecorded(colHi, colLo, q);
    }

    /**
     * Table::free_local_id_after_hash_collision: the first entry whose local id is
     * `key` is removed from all three arrays, the others keep their order; an empty
     * map is freed.
     */
    method FreeAfterCollision(key: int)
      requires Valid()
      modifies this`hi, this`lo, this`localId
      ensures Valid()
      ensures var ndx := FindFrom(old(localId), key, 0);
              if ndx < |old(localId)| then
                hi == RemoveAt(old(hi), ndx) && lo == RemoveAt(old(lo), ndx)
                && localId == RemoveAt(old(localId), ndx)
              else hi == old(hi) && lo == old(lo) && localId == old(localId)
    {
      var ndx := FindFrom(localId, key, 0);
      if ndx < |localId| {
        RemoveKeepsSorted(hi, lo, ndx);
        hi := RemoveAt(hi, ndx);
        lo := RemoveAt(lo, ndx);
        localId := RemoveAt(localId, ndx);
      }
    }
  }
}
