/**
 * The sparse-set component container (`Component<T>` and `DenseIndex` in
 * src/ecdb_core/src/component.rs).
 *
 * `toDense` is indexed by entity id and holds, for each registered entity,
 * either nothing or the position of its value in `denseElements`. Positions
 * are non-zero, so `denseElements[0]` is never used. Only the layout and its
 * documented invariant exist; there are no operations on it.
 */
module Component {
  import opened Wrappers
  import opened Entity

  type NonZero = n: nat | n > 0 witness 1

  /** A position in the dense array (`DenseIndex(NonZeroUsize)`). */
  datatype DenseIndex = DenseIndex(get: NonZero)

  /** The identifiers `0`, ..., `n - 1`: the entities registered in a `toDense` of length `n`. */
  function IdsBelow(n: nat): (ids: set<EntityID>)
    ensures forall e :: e in ids <==> e.id < n
  {
    if n == 0 then {} else IdsBelow(n - 1) + {New(n - 1)}
  }

  datatype Component<T> = Component(toDense: seq<Option<DenseIndex>>, denseElements: seq<T>)
  {
    /**
     * The layout's invariant: every recorded position exists in the dense
     * array, and no two entities share a position. Then slot 0 is never
     * referenced and every referenced slot exists.
     */
    predicate Valid()
      ensures Valid() ==> forall k :: k in ReferencedSlots() ==> 1 <= k < |denseElements|
    {
      && (forall e :: 0 <= e < |toDense| && toDense[e].Some? ==> toDense[e].value.get < |denseElements|)
      && (forall e, f :: 0 <= e < f < |toDense| && toDense[e].Some? && toDense[f].Some? ==> toDense[e] != toDense[f])
    }

    /**
     * The abstract value: each entity with a position is mapped to the value
     * stored there; an entity whose entry is missing or `None` has no value.
     */
    function Contents(): (m: map<EntityID, T>)
      requires Valid()
      ensures forall e :: e in m <==> e.id < |toDense| && toDense[e.id].Some?
    {
      map e | e in IdsBelow(|toDense|) && toDense[e.id].Some? :: denseElements[toDense[e.id].value.get]
    }

    /** The dense positions some entity refers to. */
    function ReferencedSlots(): set<nat>
    {
      set e | 0 <= e < |toDense| && toDense[e].Some? :: toDense[e].value.get
    }
  }

  /**
   * An entity with a value finds it at the position its `toDense` entry
   * records, which is never slot 0.
   */
  lemma ContentsLookup<T>(c: Component<T>, e: EntityID)
    requires c.Valid()
    ensures e in c.Contents() ==>
      && 1 <= c.toDense[e.id].value.get < |c.denseElements|
      && c.Contents()[e] == c.denseElements[c.toDense[e.id].value.get]
  {
  }

  /** The layout restricted to all but its last `toDense` entry (a proof device, not a source operation). */
  function DropLast<T>(c: Component<T>): (d: Component<T>)
    requires |c.toDense| > 0
  {
    Component(c.toDense[..|c.toDense| - 1], c.denseElements)
  }

  /**
   * Induction step for `OneSlotPerEntity`, over prefixes of a layout: the
   * prefix without the last entry is valid and lacks at most that entity's value.
   */
  lemma ContentsDropLast<T>(c: Component<T>)
    requires c.Valid() && |c.toDense| > 0
    ensures DropLast(c).Valid()
    ensures var n := |c.toDense| - 1;
      && New(n) !in DropLast(c).Contents()
      && c.Contents() == match c.toDense[n]
                         case None => DropLast(c).Contents()
                         case Some(k) => DropLast(c).Contents()[New(n) := c.denseElements[k.get]]
  {
    var n, d := |c.toDense| - 1, DropLast(c);
    assert d.Valid();
    forall e ensures e in c.Contents() <==> e in d.Contents() || (e == New(n) && c.toDense[n].Some?) {
      ContentsLookup(c, e);
      ContentsLookup(d, e);
    }
    forall e | e in d.Contents() ensures c.Contents()[e] == d.Contents()[e] {
      ContentsLookup(c, e);
      ContentsLookup(d, e);
    }
    ContentsLookup(d, New(n));
  }

  /**
   * Induction step for `OneSlotPerEntity`, over prefixes of a layout: the
   * prefix lacks at most the last entity's slot, which no earlier entity uses.
   */
  lemma SlotsDropLast<T>(c: Component<T>)
    requires c.Valid() && |c.toDense| > 0
    ensures var n := |c.toDense| - 1;
      c.ReferencedSlots() == match c.toDense[n]
                             case None => DropLast(c).ReferencedSlots()
                             case Some(k) => DropLast(c).ReferencedSlots() + {k.get}
    ensures var n := |c.toDense| - 1;
      c.toDense[n].Some? ==> c.toDense[n].value.get !in DropLast(c).ReferencedSlots()
  {
    var n, d := |c.toDense| - 1, DropLast(c);
    forall e | 0 <= e < n && d.toDense[e].Some? && c.toDense[n].Some?
      ensures d.toDense[e].value.get != c.toDense[n].value.get
    {
      assert c.toDense[e] != c.toDense[n];
    }
  }

  /** Distinct entities use distinct slots: there are as many values as referenced slots. */
  lemma {:induction false} OneSlotPerEntity<T>(c: Component<T>)
    requires c.Valid()
    ensures |c.Contents()| == |c.ReferencedSlots()|
    decreases |c.toDense|
  {
    if |c.toDense| > 0 {
      ContentsDropLast(c);
      SlotsDropLast(c);
      OneSlotPerEntity(DropLast(c));
    }
  }

  /** The positions `lo`, ..., `hi - 1`. */
  function Range(lo: nat, hi: nat): (r: set<nat>)
    decreases hi
  {
    if hi <= lo then {} else Range(lo, hi - 1) + {hi - 1}
  }

  lemma {:induction false} RangeFacts(lo: nat, hi: nat)
    ensures forall k :: k in Range(lo, hi) <==> lo <= k < hi
    ensures lo <= hi ==> |Range(lo, hi)| == hi - lo
    decreases hi
  {
    if lo < hi {
      RangeFacts(lo, hi - 1);
    }
  }

  lemma SubsetSize(a: set<nat>, b: set<nat>)
    requires a <= b
    ensures |a| <= |b|
  {
    assert b == a + (b - a);
  }

  /**
   * Because slot 0 stays unused and no slot is shared, a container whose dense
   * array has `n > 0` entries holds at most `n - 1` values.
   */
  lemma ValueCountBound<T>(c: Component<T>)
    requires c.Valid()
    ensures |c.denseElements| == 0 ==> c.Contents() == map[]
    ensures |c.denseElements| > 0 ==> |c.Contents()| <= |c.denseElements| - 1
  {
    OneSlotPerEntity(c);
    if |c.denseElements| == 0 {
      assert c.ReferencedSlots() == {};
    } else {
      RangeFacts(1, |c.denseElements|);
      SubsetSize(c.ReferencedSlots(), Range(1, |c.denseElements|));
    }
  }

  /**
   * The documented picture: entities 0, 1 and 3 use slots 1, 2 and 3, entity 2
   * has no value, and slot 0 holds a placeholder.
   */
  lemma DocumentedExample<T>(unused: T, a: T, b: T, d: T)
    ensures
      var c := Component([Some(DenseIndex(1)), Some(DenseIndex(2)), None, Some(DenseIndex(3))], [unused, a, b, d]);
      && c.Valid()
      && c.Contents() == map[New(0) := a, New(1) := b, New(3) := d]
      && c.ReferencedSlots() == {1, 2, 3}
  {
    var c := Component([Some(DenseIndex(1)), Some(DenseIndex(2)), None, Some(DenseIndex(3))], [unused, a, b, d]);
    assert c.Valid();
    var cm, m := c.Contents(), map[New(0) := a, New(1) := b, New(3) := d];
    assert c.toDense[0].Some? && c.toDense[1].Some? && c.toDense[3].Some?;
    forall e | e in cm ensures e in m {
      assert e.id < 4 && c.toDense[e.id].Some?;
    }
    assert cm.Keys == m.Keys;
    assert cm == m;
  }
}
