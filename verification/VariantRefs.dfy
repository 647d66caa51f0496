/**
 Wrappers around reference-counted variants. A variant starts with one floating
 reference; its count is at all times the number of references held by others
 plus the number of wrappers that point at it, whatever is done with the wrappers.
 */
module VariantRefs {

  /** The foreign object: a count, the floating flag, and whether it has been freed. */
  class GVariant {
    var refCount: nat
    var floating: bool
    var freed: bool

    constructor ()
      ensures refCount == 1 && floating && !freed
    {
      refCount, floating, freed := 1, true, false;
    }

    /** Turns the floating reference into a full one, or adds one. */
    method RefSink()
      requires !freed
      modifies this
      ensures !freed && !floating
      ensures refCount == old(refCount) + if old(floating) then 0 else 1
    {
      if floating {
        floating := false;
      } else {
        refCount := refCount + 1;
      }
    }

    method Ref()
      requires !freed
      modifies this
      ensures !freed && floating == old(floating) && refCount == old(refCount) + 1
    {
      refCount := refCount + 1;
    }

    method Unref()
      requires !freed && refCount > 0
      modifies this
      ensures floating == old(floating) && refCount == old(refCount) - 1 && (freed <==> refCount == 0)
    {
      refCount := refCount - 1;
      freed := refCount == 0;
    }
  }

  /** All live wrappers, and for every variant the number of references held elsewhere. */
  datatype Ledger = Ledger(wrappers: set<GVariantWrapper>, outside: map<GVariant, nat>)

  function OneMore(outside: map<GVariant, nat>, v: GVariant): map<GVariant, nat> {
    map x | x in outside :: if x == v then outside[x] + 1 else outside[x]
  }

  function OneLess(outside: map<GVariant, nat>, v: GVariant): map<GVariant, nat>
    requires v in outside ==> outside[v] > 0
  {
    map x | x in outside :: if x == v then outside[x] - 1 else outside[x]
  }

  type Pointers = map<GVariantWrapper, GVariant?>

  ghost function PointersOf(wrappers: set<GVariantWrapper>): Pointers
    reads wrappers
  {
    map w | w in wrappers :: w.variant
  }

  ghost function Holders(p: Pointers, v: GVariant): set<GVariantWrapper> {
    set w | w in p && p[w] == v
  }

  /** How many of the wrappers point at `v`. */
  ghost function Held(p: Pointers, v: GVariant): nat {
    |Holders(p, v)|
  }

  lemma HeldAfter(p: Pointers, w: GVariantWrapper, x: GVariant?, v: GVariant)
    ensures Held(p[w := x], v) ==
            Held(p, v) - (if w in p && p[w] == v then 1 else 0) + (if x == v then 1 else 0)
  {
    if x == v {
      assert Holders(p[w := x], v) == Holders(p, v) + {w};
    } else {
      assert Holders(p[w := x], v) == Holders(p, v) - {w};
    }
  }

  /** A pointer changes hands: the count of its variant does not change. */
  ghost function Moved(p: Pointers, src: GVariantWrapper, dst: GVariantWrapper): Pointers
    requires src in p
  {
    var q: Pointers := p[dst := p[src]];
    q[src := null]
  }

  lemma HeldAfterMoved(p: Pointers, src: GVariantWrapper, dst: GVariantWrapper, v: GVariant)
    requires src in p && src != dst && (dst in p ==> p[dst] == null)
    ensures Held(Moved(p, src, dst), v) == Held(p, v)
  {
    var q: Pointers := p[dst := p[src]];
    HeldAfter(p, dst, p[src], v);
    HeldAfter(q, src, null, v);
  }

  lemma HeldWithout(p: Pointers, w: GVariantWrapper, v: GVariant)
    requires w in p && p[w] != v
    ensures Held(p - {w}, v) == Held(p, v)
  {
    assert Holders(p - {w}, v) == Holders(p, v);
  }

  lemma HeldByNone(p: Pointers, v: GVariant)
    ensures Held(p, v) == 0 <==> forall w :: w in p ==> p[w] != v
  {
    if w :| w in p && p[w] == v {
      assert w in Holders(p, v);
    } else {
      assert Holders(p, v) == {};
    }
  }

  ghost predicate PointsInto(p: Pointers, variants: set<GVariant>) {
    forall w :: w in p && p[w] != null ==> p[w] in variants
  }

  /** Conservation of references. */
  ghost predicate Counted(l: Ledger, v: GVariant)
    requires v in l.outside
    reads l.wrappers, v
  {
    && v.refCount == l.outside[v] + Held(PointersOf(l.wrappers), v)
    && (v.freed <==> v.refCount == 0)
    && (v.floating ==> Held(PointersOf(l.wrappers), v) == 0)
  }

  ghost predicate Balanced(l: Ledger)
    reads l.wrappers, l.outside.Keys
  {
    && PointsInto(PointersOf(l.wrappers), l.outside.Keys)
    && (forall v :: v in l.outside ==> Counted(l, v))
  }

  /** A variant is freed exactly when nobody refers to it any more. */
  lemma FreedExactly(l: Ledger, v: GVariant)
    requires Balanced(l) && v in l.outside
    ensures v.freed <==> l.outside[v] == 0 && forall w :: w in l.wrappers ==> w.variant != v
  {
    assert Counted(l, v);
    var p := PointersOf(l.wrappers);
    HeldByNone(p, v);
    assert forall w :: w in l.wrappers ==> p[w] == w.variant;
  }

  /** No wrapper points at a variant that is gone, or that nobody has taken ownership of yet. */
  lemma NeverDangling(l: Ledger, w: GVariantWrapper)
    requires Balanced(l) && w in l.wrappers && w.variant != null
    ensures w.variant in l.outside && !w.variant.freed && w.variant.refCount > 0 && !w.variant.floating
  {
    var p := PointersOf(l.wrappers);
    assert p[w] == w.variant;
    assert Counted(l, w.variant);
    FreedExactly(l, w.variant);
    HeldByNone(p, w.variant);
  }

  // ----- references held by others

  /** Another part of the program takes one more reference. */
  method OutsideRef(v: GVariant, ghost l: Ledger)
    requires Balanced(l) && v in l.outside && !v.freed
    modifies v
    ensures v.floating == old(v.floating) && Balanced(l.(outside := OneMore(l.outside, v)))
  {
    assert Counted(l, v);
    v.Ref();
    ghost var m := l.(outside := OneMore(l.outside, v));
    hide Held, PointersOf;
    forall x | x in m.outside ensures Counted(m, x) {
      assert old(Counted(l, x));
    }
  }

  /** Another part of the program turns its floating reference into a full one, or takes one more. */
  method OutsideSink(v: GVariant, ghost l: Ledger)
    requires Balanced(l) && v in l.outside && !v.freed
    modifies v
    ensures !v.floating
    ensures Balanced(if old(v.floating) then l else l.(outside := OneMore(l.outside, v)))
  {
    assert Counted(l, v);
    v.RefSink();
    ghost var m := if old(v.floating) then l else l.(outside := OneMore(l.outside, v));
    hide Held, PointersOf;
    forall x | x in m.outside ensures Counted(m, x) {
      assert old(Counted(l, x));
    }
  }

  /** Another part of the program drops one of its references; it may be the last one there is. */
  method OutsideUnref(v: GVariant, ghost l: Ledger)
    requires Balanced(l) && v in l.outside && l.outside[v] > 0
    modifies v
    ensures v.floating == old(v.floating) && Balanced(l.(outside := OneLess(l.outside, v)))
    ensures v.freed <==> l.outside[v] == 1 && forall w :: w in l.wrappers ==> w.variant != v
  {
    assert Counted(l, v);
    v.Unref();
    ghost var m := l.(outside := OneLess(l.outside, v));
    forall x | x in m.outside ensures Counted(m, x) {
      assert old(Counted(l, x));
    }
    FreedExactly(m, v);
  }

  class GVariantWrapper {
    var variant: GVariant?

    constructor (ghost l: Ledger)
      requires Balanced(l)
      ensures variant == null
      ensures Balanced(l.(wrappers := l.wrappers + {this}))
    {
      variant := null;
      new;
      ghost var m := l.(wrappers := l.wrappers + {this});
      ghost var p := PointersOf(l.wrappers);
      hide Held;
      assert PointersOf(m.wrappers) == p[this := null];
      forall x | x in m.outside ensures Counted(m, x) {
        assert Counted(l, x);
        HeldAfter(p, this, null, x);
      }
    }

    /** A floating reference becomes the wrapper's, otherwise the wrapper adds its own. */
    constructor TakeOwnership(v: GVariant?, ghost l: Ledger)
      requires Balanced(l) && (v != null ==> v in l.outside && !v.freed)
      modifies v
      ensures variant == v && (v != null ==> !v.floating)
      ensures Balanced(Ledger(l.wrappers + {this},
                              if v != null && old(v.floating) then OneLess(l.outside, v) else l.outside))
    {
      variant := v;
      new;
      ghost var p := PointersOf(l.wrappers);
      if v != null {
        assert Counted(l, v);
        v.RefSink();
      }
      ghost var m := Ledger(l.wrappers + {this},
                            if v != null && old(v.floating) then OneLess(l.outside, v) else l.outside);
      assert PointersOf(m.wrappers) == p[this := v];
      assert PointsInto(p[this := v], m.outside.Keys);
      hide Held, PointsInto, PointersOf;
      forall x | x in m.outside ensures Counted(m, x) {
        assert old(Counted(l, x));
        HeldAfter(p, this, v, x);
      }
    }

    /** The caller's full reference becomes the wrapper's. */
    constructor JustMove(v: GVariant?, ghost l: Ledger)
      requires Balanced(l) && (v != null ==> v in l.outside && l.outside[v] > 0 && !v.floating)
      ensures variant == v
      ensures Balanced(Ledger(l.wrappers + {this}, if v != null then OneLess(l.outside, v) else l.outside))
    {
      variant := v;
      new;
      ghost var m := Ledger(l.wrappers + {this}, if v != null then OneLess(l.outside, v) else l.outside);
      ghost var p := PointersOf(l.wrappers);
      hide Held;
      assert PointersOf(m.wrappers) == p[this := v];
      forall x | x in m.outside ensures Counted(m, x) {
        assert Counted(l, x);
        HeldAfter(p, this, v, x);
      }
    }

    constructor Copy(src: GVariantWrapper, ghost l: Ledger)
      requires Balanced(l) && src in l.wrappers
      modifies src.variant
      ensures variant == src.variant == old(src.variant)
      ensures Balanced(l.(wrappers := l.wrappers + {this}))
      ensures forall v :: v in l.outside ==> v.floating == old(v.floating)
    {
      variant := src.variant;
      new;
      ghost var p := PointersOf(l.wrappers);
      if variant != null {
        NeverDangling(l, src);
        variant.Ref();
      }
      ghost var m := l.(wrappers := l.wrappers + {this});
      hide Held;
      assert PointersOf(m.wrappers) == p[this := variant];
      forall x | x in m.outside ensures Counted(m, x) {
        assert old(Counted(l, x));
        HeldAfter(p, this, variant, x);
      }
    }

    constructor Move(src: GVariantWrapper, ghost l: Ledger)
      requires Balanced(l) && src in l.wrappers
      modifies src
      ensures variant == old(src.variant) && src.variant == null
      ensures Balanced(l.(wrappers := l.wrappers + {this}))
    {
      variant := src.variant;
      new;
      ghost var p := PointersOf(l.wrappers);
      assert p[src] == variant;
      src.variant := null;
      ghost var m := l.(wrappers := l.wrappers + {this});
      assert PointersOf(m.wrappers) == Moved(p, src, this);
      assert PointsInto(Moved(p, src, this), m.outside.Keys);
      hide Held, Moved, PointsInto;
      forall x | x in m.outside ensures Counted(m, x) {
        assert old(Counted(l, x));
        HeldAfterMoved(p, src, this, x);
      }
    }

    /** `unref` in the wrapper's terms: the reference goes, and the pointer to it. */
    method Release(ghost l: Ledger)
      requires Balanced(l) && this in l.wrappers
      modifies this, variant
      ensures variant == null && Balanced(l)
      ensures forall v :: v in l.outside ==> v.floating == old(v.floating)
      ensures PointersOf(l.wrappers) == old(PointersOf(l.wrappers))[this := null]
    {
      ghost var p := PointersOf(l.wrappers);
      if variant != null {
        NeverDangling(l, this);
        variant.Unref();
        variant := null;
      }
      hide Held;
      assert PointersOf(l.wrappers) == p[this := null];
      forall x | x in l.outside ensures Counted(l, x) {
        assert old(Counted(l, x));
        HeldAfter(p, this, null, x);
      }
    }

    /** The destructor. */
    method Destroy(ghost l: Ledger)
      requires Balanced(l) && this in l.wrappers
      modifies this, variant
      ensures Balanced(l.(wrappers := l.wrappers - {this}))
      ensures forall v :: v in l.outside ==> v.floating == old(v.floating)
    {
      Release(l);
      ghost var p := PointersOf(l.wrappers);
      ghost var m := l.(wrappers := l.wrappers - {this});
      hide Held;
      assert PointersOf(m.wrappers) == p - {this};
      forall x | x in m.outside ensures Counted(m, x) {
        assert Counted(l, x);
        HeldWithout(p, this, x);
      }
    }

    method CopyAssign(src: GVariantWrapper, ghost l: Ledger)
      requires Balanced(l) && this in l.wrappers && src in l.wrappers
      modifies this, variant, src.variant
      ensures variant == src.variant == old(src.variant) && Balanced(l)
      ensures forall v :: v in l.outside ==> v.floating == old(v.floating)
    {
      hide Balanced;
      if variant != src.variant {
        Release(l);
        Share(src, l);
      }
    }

    /** An empty wrapper takes over the pointer and adds a reference to it. */
    method Share(src: GVariantWrapper, ghost l: Ledger)
      requires Balanced(l) && this in l.wrappers && src in l.wrappers && variant == null
      modifies this, src.variant
      ensures variant == src.variant == old(src.variant) && Balanced(l)
      ensures forall v :: v in l.outside ==> v.floating == old(v.floating)
    {
      ghost var p := PointersOf(l.wrappers);
      assert p[src] == src.variant && p[this] == null;
      if src.variant != null {
        NeverDangling(l, src);
      }
      variant := src.variant;
      if variant != null {
        variant.Ref();
      }
      ghost var q: Pointers := p[this := variant];
      assert PointersOf(l.wrappers) == q;
      assert PointsInto(q, l.outside.Keys);
      hide Held, PointsInto, PointersOf;
      forall x | x in l.outside ensures Counted(l, x) {
        assert old(Counted(l, x));
        HeldAfter(p, this, variant, x);
      }
    }

    method MoveAssign(src: GVariantWrapper, ghost l: Ledger)
      requires Balanced(l) && this in l.wrappers && src in l.wrappers
      modifies this, variant, src
      ensures variant == old(src.variant) && Balanced(l)
      ensures forall v :: v in l.outside ==> v.floating == old(v.floating)
      ensures src != this ==> src.variant == null
    {
      hide Balanced;
      if this != src {
        Release(l);
        TakeOver(src, l);
      }
    }

    /** An empty wrapper takes over the pointer together with its reference. */
    method TakeOver(src: GVariantWrapper, ghost l: Ledger)
      requires Balanced(l) && this in l.wrappers && src in l.wrappers && variant == null && this != src
      modifies this, src
      ensures variant == old(src.variant) && src.variant == null && Balanced(l)
    {
      ghost var p := PointersOf(l.wrappers);
      assert p[src] == src.variant && p[this] == null;
      variant := src.variant;
      src.variant := null;
      assert PointersOf(l.wrappers) == Moved(p, src, this);
      assert PointsInto(Moved(p, src, this), l.outside.Keys);
      hide Held, Moved, PointsInto;
      forall x | x in l.outside ensures Counted(l, x) {
        assert old(Counted(l, x));
        HeldAfterMoved(p, src, this, x);
      }
    }

    /** `move`: the wrapper's reference becomes the caller's. */
    static method MoveOut(w: GVariantWrapper, ghost l: Ledger) returns (v: GVariant?)
      requires Balanced(l) && w in l.wrappers
      modifies w
      ensures v == old(w.variant) && w.variant == null
      ensures Balanced(if v == null then l else l.(outside := OneMore(l.outside, v)))
    {
      ghost var p := PointersOf(l.wrappers);
      v := w.variant;
      assert p[w] == v;
      w.variant := null;
      ghost var m := if v == null then l else l.(outside := OneMore(l.outside, v));
      hide Held;
      assert PointersOf(m.wrappers) == p[w := null];
      forall x | x in m.outside ensures Counted(m, x) {
        assert old(Counted(l, x));
        HeldAfter(p, w, null, x);
      }
    }
  }
}
