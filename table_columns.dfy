/**
 * Column and flag bookkeeping of a table, src/realm/table.cpp: column keys and the
 * spec <-> leaf index mapping, the embedded flag in the top array, the key list of
 * batch_erase_rows and the equality of TableVersions.
 */
module TableColumns {
  import opened Wrappers

  /** Column attributes; indexed and unique are never encoded into a column key. */
  datatype ColumnAttr = Indexed | Unique | Nullable | List

  /**
   * A column key: leaf index, column type, attributes and a 32-bit tag; NullKey is
   * ColKey(), the key of an unused leaf slot.
   */
  datatype ColKey = NullKey | ColKey(index: nat, colType: nat, attrs: set<ColumnAttr>, tag: bv32)

  /** The tag of a new column key: the low 32 bits of column-key counter ^ table key. */
  function ColumnTag(counter: bv64, tableKey: bv64): bv32
  {
    ((counter ^ tableKey) & 0xffff_ffff) as bv32
  }

  /** The leaf width the spec columns need: one past the largest leaf index. */
  function Width(spec: seq<ColKey>): (w: nat)
    requires forall s :: 0 <= s < |spec| ==> spec[s].ColKey?
    ensures forall s :: 0 <= s < |spec| ==> spec[s].index < w
  {
    if |spec| == 0 then 0
    else
      var w := Width(spec[..|spec| - 1]);
      var last := spec[|spec| - 1].index + 1;
      if last > w then last else w
  }

  /** The last spec column whose leaf index is `leaf`, or -1 when there is none. */
  function LastWithIndex(spec: seq<ColKey>, leaf: nat): (r: int)
    requires forall s :: 0 <= s < |spec| ==> spec[s].ColKey?
    ensures -1 <= r < |spec|
    ensures r == -1 ==> forall s :: 0 <= s < |spec| ==> spec[s].index != leaf
    ensures r >= 0 ==> spec[r].index == leaf && forall s :: r < s < |spec| ==> spec[s].index != leaf
  {
    if |spec| == 0 then -1
    else if spec[|spec| - 1].index == leaf then |spec| - 1
    else LastWithIndex(spec[..|spec| - 1], leaf)
  }

  /** The column key a leaf slot is mapped to: the last spec column there, or NullKey. */
  function KeyOfLeaf(spec: seq<ColKey>, leaf: nat): ColKey
    requires forall s :: 0 <= s < |spec| ==> spec[s].ColKey?
  {
    var r := LastWithIndex(spec, leaf);
    if r < 0 then NullKey else spec[r]
  }

  /**
   * With distinct leaf indices (as the spec of a table has) the two index maps are
   * mutually inverse on the used slots.
   */
  lemma ColumnMappingInverse(spec: seq<ColKey>)
    requires forall s :: 0 <= s < |spec| ==> spec[s].ColKey?
    requires forall s, t :: 0 <= s < t < |spec| ==> spec[s].index != spec[t].index
    ensures forall s :: 0 <= s < |spec| ==> LastWithIndex(spec, spec[s].index) == s
    ensures forall l :: 0 <= l < Width(spec) && LastWithIndex(spec, l) >= 0 ==>
              spec[LastWithIndex(spec, l)].index == l
  {
    forall s | 0 <= s < |spec| ensures LastWithIndex(spec, spec[s].index) == s {
      assert LastWithIndex(spec, spec[s].index) >= s;
    }
  }

  /** `s` extended with `fill` up to length `n` (std::vector::resize when it grows). */
  function Grow<T>(s: seq<T>, n: nat, fill: T): (r: seq<T>)
    ensures |r| == if n <= |s| then |s| else n
    ensures forall l :: 0 <= l < |r| ==> r[l] == if l < |s| then s[l] else fill
  {
    if n <= |s| then s else s + seq(n - |s|, _ => fill)
  }

  /** The leaf -> spec map of build_column_mapping. */
  function LeafToSpecOf(spec: seq<ColKey>): (m: seq<int>)
    requires forall s :: 0 <= s < |spec| ==> spec[s].ColKey?
    ensures |m| == Width(spec)
  {
    seq(Width(spec), l requires 0 <= l => LastWithIndex(spec, l))
  }

  /** The leaf -> column key map of build_column_mapping. */
  function LeafKeysOf(spec: seq<ColKey>): (m: seq<ColKey>)
    requires forall s :: 0 <= s < |spec| ==> spec[s].ColKey?
    ensures |m| == Width(spec)
  {
    seq(Width(spec), l requires 0 <= l => KeyOfLeaf(spec, l))
  }

  /** One more spec column: the width and the last column of each leaf index. */
  lemma PrefixStep(spec: seq<ColKey>, i: nat)
    requires forall s :: 0 <= s < |spec| ==> spec[s].ColKey?
    requires i < |spec|
    ensures var w, leaf := Width(spec[..i]), spec[i].index;
            Width(spec[..i + 1]) == if leaf + 1 > w then leaf + 1 else w
    ensures forall l :: LastWithIndex(spec[..i + 1], l)
                        == if l == spec[i].index then i else LastWithIndex(spec[..i], l)
  {
    var p, q := spec[..i], spec[..i + 1];
    assert q[..i] == p;
    forall l ensures LastWithIndex(q, l) == if l == spec[i].index then i else LastWithIndex(p, l) {
    }
  }

  /** No spec column sits at or beyond the width. */
  lemma LastBeyondWidth(spec: seq<ColKey>, l: nat)
    requires forall s :: 0 <= s < |spec| ==> spec[s].ColKey?
    requires l >= Width(spec)
    ensures LastWithIndex(spec, l) == -1
  {
  }

  /** One more spec column: grow the leaf -> spec map to its leaf index, then point that slot at it. */
  lemma LeafToSpecStep(spec: seq<ColKey>, i: nat)
    requires forall s :: 0 <= s < |spec| ==> spec[s].ColKey?
    requires i < |spec|
    ensures LeafToSpecOf(spec[..i + 1]) == Grow(LeafToSpecOf(spec[..i]), spec[i].index + 1, -1)[spec[i].index := i]
  {
    PrefixStep(spec, i);
    var p, q := spec[..i], spec[..i + 1];
    var a, b := LeafToSpecOf(q), Grow(LeafToSpecOf(p), spec[i].index + 1, -1)[spec[i].index := i];
    forall l | 0 <= l < |a| ensures a[l] == b[l] {
      if l >= Width(p) {
        LastBeyondWidth(p, l);
      }
    }
  }

  /** One more spec column: the same for the leaf -> column key map. */
  lemma LeafKeysStep(spec: seq<ColKey>, i: nat)
    requires forall s :: 0 <= s < |spec| ==> spec[s].ColKey?
    requires i < |spec|
    ensures LeafKeysOf(spec[..i + 1]) == Grow(LeafKeysOf(spec[..i]), spec[i].index + 1, NullKey)[spec[i].index := spec[i]]
  {
    PrefixStep(spec, i);
    var p, q := spec[..i], spec[..i + 1];
    var a, b := LeafKeysOf(q), Grow(LeafKeysOf(p), spec[i].index + 1, NullKey)[spec[i].index := spec[i]];
    forall l | 0 <= l < |a| ensures a[l] == b[l] {
      if l >= Width(p) {
        LastBeyondWidth(p, l);
      } else if l != spec[i].index && LastWithIndex(p, l) >= 0 {
        assert q[LastWithIndex(p, l)] == p[LastWithIndex(p, l)];
      }
    }
  }

  /** Strictly increasing: sorted and without duplicates. */
  predicate Increasing(s: seq<int>)
  {
    forall i, j :: 0 <= i < j < |s| ==> s[i] < s[j]
  }

  /** Adding `k` to an increasing sequence at its place, unless it is already there. */
  function InsertUnique(s: seq<int>, k: int): (r: seq<int>)
    requires Increasing(s)
    ensures Increasing(r)
    ensures forall x :: x in r <==> x in s || x == k
    ensures |r| > 0 && r[0] == if |s| > 0 && s[0] < k then s[0] else k
  {
    if |s| == 0 then [k]
    else if k < s[0] then [k] + s
    else if k == s[0] then s
    else [s[0]] + InsertUnique(s[1..], k)
  }

  /** std::sort followed by std::unique and erase: the increasing list of the same keys. */
  function SortUnique(s: seq<int>): (r: seq<int>)
    ensures Increasing(r)
    ensures forall x :: x in r <==> x in s
  {
    if |s| == 0 then [] else InsertUnique(SortUnique(s[..|s| - 1]), s[|s| - 1])
  }

  /**
   * The key list Table::batch_erase_rows works on: the non-null valid keys of the
   * input, each once, in increasing order.
   */
  method BatchEraseKeys(keys: seq<int>, valid: set<int>) returns (vec: seq<int>)
    ensures Increasing(vec)
    ensures forall k :: k in vec <==> k in keys && k != -1 && k in valid
  {
    vec := [];
    var i := 0;
    while i < |keys|
      invariant 0 <= i <= |keys|
      invariant forall k :: k in vec <==> k in keys[..i] && k != -1 && k in valid
    {
      var key := keys[i];
      assert keys[..i + 1] == keys[..i] + [key];
      if key != -1 && key in valid {
        vec := vec + [key];
      }
      i := i + 1;
    }
    assert keys[..i] == keys;
    vec := SortUnique(vec);
  }

  /** The (table key, version) pairs of a TableVersions. */
  datatype TableVersion = TableVersion(tableKey: nat, version: nat)

  /**
   * TableVersions::operator==: same length and pairwise equal versions (the table
   * keys are only compared by a debug assertion).
   */
  method VersionsEqual(a: seq<TableVersion>, b: seq<TableVersion>) returns (eq: bool)
    ensures eq <==> |a| == |b| && forall i :: 0 <= i < |a| ==> a[i].version == b[i].version
  {
    if |a| != |b| {
      return false;
    }
    var i := 0;
    while i < |a|
      invariant 0 <= i <= |a|
      invariant forall j :: 0 <= j < i ==> a[j].version == b[j].version
    {
      if a[i].version != b[i].version {
        return false;
      }
      i := i + 1;
    }
    return true;
  }

  /** The first index of `s` that is free (NullKey), or |s| when there is none. */
  function FirstFree(s: seq<ColKey>): (r: nat)
    ensures r <= |s|
    ensures r < |s| ==> s[r] == NullKey
    ensures forall j :: 0 <= j < r ==> s[j] != NullKey
  {
    if |s| == 0 then 0
    else if s[0] == NullKey then 0
    else 1 + FirstFree(s[1..])
  }

  /**
   * The column bookkeeping of a table: the top array (raw words; a tagged value v
   * is stored as 2v + 1), the embedded flag and the index maps between the spec
   * and the leaves.
   */
  class Table {
    /** The position of the flags word in the top array. */
    const flagsSlot: nat
    var top: seq<nat>
    var isEmbedded: bool
    var specToLeaf: seq<nat>
    var leafToSpec: seq<int>
    var leafToColKey: seq<ColKey>

    constructor (flagsSlot: nat, top: seq<nat>, isEmbedded: bool, leafToColKey: seq<ColKey>)
      ensures this.flagsSlot == flagsSlot && this.top == top && this.isEmbedded == isEmbedded
      ensures this.leafToColKey == leafToColKey && specToLeaf == [] && leafToSpec == []
    {
      this.flagsSlot := flagsSlot;
      this.top := top;
      this.isEmbedded := isEmbedded;
      this.leafToColKey := leafToColKey;
      specToLeaf := [];
      leafToSpec := [];
    }

    /** The value of the flags word, once the top array reaches it. */
    function Flags(): nat
      reads this
      requires flagsSlot < |top|
    {
      top[flagsSlot] / 2
    }

    /**
     * Table::generate_col_key: the lowest unused leaf slot (else one past the last)
     * and the tag from the column-key counter and the table key.
     */
    method GenerateColKey(colType: nat, attrs: set<ColumnAttr>, counter: bv64, tableKey: bv64)
      returns (key: ColKey)
      requires Indexed !in attrs && Unique !in attrs
      ensures key.ColKey? && key.colType == colType && key.attrs == attrs
      ensures key.tag == ColumnTag(counter, tableKey)
      ensures key.index == FirstFree(leafToColKey)
      ensures key.index <= |leafToColKey|
      ensures key.index < |leafToColKey| ==> leafToColKey[key.index] == NullKey
      ensures forall j :: 0 <= j < key.index ==> leafToColKey[j] != NullKey
    {
      var upper := ColumnTag(counter, tableKey);
      var lower := |leafToColKey|;
      var idx := 0;
      while idx < lower
        invariant 0 <= idx <= |leafToColKey| && lower == |leafToColKey|
        invariant forall j :: 0 <= j < idx ==> leafToColKey[j] != NullKey
      {
        if leafToColKey[idx] == NullKey {
          lower := idx;
          break;
        }
        idx := idx + 1;
      }
      FirstFreeIs(leafToColKey, lower);
      key := ColKey(lower, colType, attrs, upper);
    }

    /**
     * Table::build_column_mapping: spec column s goes to its leaf index; each leaf
     * slot goes back to the last spec column there, or to -1 and ColKey() when no
     * column uses it.
     */
    method BuildColumnMapping(spec: seq<ColKey>)
      requires forall s :: 0 <= s < |spec| ==> spec[s].ColKey?
      modifies this`specToLeaf, this`leafToSpec, this`leafToColKey
      ensures |specToLeaf| == |spec| && forall s :: 0 <= s < |spec| ==> specToLeaf[s] == spec[s].index
      ensures leafToSpec == LeafToSpecOf(spec) && leafToColKey == LeafKeysOf(spec)
    {
      var specNdx2Leaf: seq<nat> := seq(|spec|, _ => 0);
      var leafNdx2Spec: seq<int> := [];
      var leafNdx2ColKey: seq<ColKey> := [];
      var specNdx := 0;
      while specNdx < |spec|
        invariant 0 <= specNdx <= |spec|
        invariant |specNdx2Leaf| == |spec|
        invariant forall s :: 0 <= s < specNdx ==> specNdx2Leaf[s] == spec[s].index
        invariant leafNdx2Spec == LeafToSpecOf(spec[..specNdx])
        invariant leafNdx2ColKey == LeafKeysOf(spec[..specNdx])
      {
        var colKey := spec[specNdx];
        var leafNdx := colKey.index;
        LeafToSpecStep(spec, specNdx);
        LeafKeysStep(spec, specNdx);
        // the resize to leafNdx + 1 when leafNdx is past the end
        leafNdx2ColKey := Grow(leafNdx2ColKey, leafNdx + 1, NullKey);
        leafNdx2Spec := Grow(leafNdx2Spec, leafNdx + 1, -1);
        specNdx2Leaf := specNdx2Leaf[specNdx := leafNdx];
        leafNdx2Spec := leafNdx2Spec[leafNdx := specNdx];
        leafNdx2ColKey := leafNdx2ColKey[leafNdx := colKey];
        specNdx := specNdx + 1;
      }
      assert spec[..specNdx] == spec;
      specToLeaf, leafToSpec, leafToColKey := specNdx2Leaf, leafNdx2Spec, leafNdx2ColKey;
    }

    /**
     * The top array after do_set_embedded on `before`: padded with zero words up to
     * the flags slot, the flags word still tagged, bit 0 of the flags equal to
     * `embedded` and its other bits kept, every other slot kept.
     */
    ghost predicate EmbeddedStored(before: seq<nat>, embedded: bool)
      reads this
    {
      |top| == (if |before| > flagsSlot then |before| else flagsSlot + 1)
      && (forall i :: 0 <= i < |top| && i != flagsSlot ==> top[i] == if i < |before| then before[i] else 0)
      && top[flagsSlot] % 2 == 1
      && Flags() / 2 == (if flagsSlot < |before| then before[flagsSlot] / 2 else 0) / 2
      && Flags() % 2 == (if embedded then 1 else 0)
    }

    /**
     * Table::do_set_embedded: pads the top array with zero words up to the flags
     * slot, then sets or clears bit 0 of the flags and nothing else.
     */
    method DoSetEmbedded(embedded: bool)
      modifies this`top, this`isEmbedded
      ensures EmbeddedStored(old(top), embedded)
      ensures isEmbedded == embedded
    {
      while |top| <= flagsSlot
        invariant |old(top)| <= |top| <= if |old(top)| > flagsSlot then |old(top)| else flagsSlot + 1
        invariant forall i :: 0 <= i < |top| ==> top[i] == if i < |old(top)| then old(top)[i] else 0
        decreases flagsSlot - |top|
      {
        top := top + [0];
      }
      var flags := top[flagsSlot] / 2;
      if embedded {
        flags := if flags % 2 == 0 then flags + 1 else flags;
      } else {
        flags := flags - flags % 2;
      }
      top := top[flagsSlot := 2 * flags + 1];
      isEmbedded := embedded;
    }

    /**
     * Table::set_embedded. Nothing to do when the table already is in the requested
     * state; an error in a sync client; false with a primary key column, or when a
     * non-empty table with backlink columns has an object without exactly one
     * parent; otherwise the flag is set.
     */
    method SetEmbedded(embedded: bool, syncClient: bool, hasPrimaryKey: bool,
                       hasBacklinkColumns: bool, backlinkCounts: seq<nat>)
      returns (r: Result<bool>)
      modifies this`top, this`isEmbedded
      ensures embedded == old(isEmbedded) ==> r == Ok(true) && top == old(top) && isEmbedded == old(isEmbedded)
      ensures embedded != old(isEmbedded) && syncClient ==> r.Err?
      ensures r == Ok(true) <==>
                (embedded == old(isEmbedded)
                 || (!syncClient && !hasPrimaryKey
                     && (hasBacklinkColumns ==> forall i :: 0 <= i < |backlinkCounts| ==> backlinkCounts[i] == 1)))
      ensures r != Ok(true) ==> top == old(top) && isEmbedded == old(isEmbedded)
      ensures r == Ok(true) ==> isEmbedded == embedded
      ensures embedded != old(isEmbedded) && !syncClient ==> r.Ok?
      ensures embedded != old(isEmbedded) && r == Ok(true) ==> EmbeddedStored(old(top), embedded)
    {
      if embedded == isEmbedded {
        return Ok(true);
      }
      if syncClient {
        return Err("Cannot change embedded property in sync client");
      }
      if hasPrimaryKey {
        return Ok(false);
      }
      if |backlinkCounts| > 0 && hasBacklinkColumns {
        var i := 0;
        while i < |backlinkCounts|
          invariant 0 <= i <= |backlinkCounts|
          invariant forall j :: 0 <= j < i ==> backlinkCounts[j] == 1
        {
          if backlinkCounts[i] != 1 {
            return Ok(false);
          }
          i := i + 1;
        }
      }
      DoSetEmbedded(embedded);
      return Ok(true);
    }
  }

  /** FirstFree is the index the search loop of generate_col_key stops at. */
  lemma FirstFreeIs(s: seq<ColKey>, r: nat)
    requires r <= |s| && (r < |s| ==> s[r] == NullKey)
    requires forall j :: 0 <= j < r ==> s[j] != NullKey
    ensures FirstFree(s) == r
  {
    if |s| > 0 && r > 0 {
      FirstFreeIs(s[1..], r - 1);
    }
  }
}
