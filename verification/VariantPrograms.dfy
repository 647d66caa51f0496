/**
 Whole programs over wrapped variants: any sequence of operations on wrappers, and of
 references that are taken and dropped elsewhere.
 */
module VariantPrograms {
  import opened Wrappers
  import opened VariantRefs

  /** What a program can do next, naming wrappers and variants by their numbers. */
  datatype Operation =
    | NewVariant
    | Ref(v: nat)
    | Sink(v: nat)
    | Unref(v: nat)
    | NewWrapper
    | Take(v: nat)
    | Adopt(v: nat)
    | CopyOf(w: nat)
    | MoveOf(w: nat)
    | AssignCopy(to: nat, from: nat)
    | AssignMove(to: nat, from: nat)
    | Let(w: nat)
    | HandOut(w: nat)
    | DestroyLast

  /** Who refers to what: where each wrapper points, and the references to each variant from elsewhere. */
  datatype Picture = Picture(pointers: seq<Option<nat>>, outside: seq<nat>, floating: seq<bool>)

  predicate Referred(s: Picture, v: nat) {
    v < |s.outside| && (s.outside[v] > 0 || Some(v) in s.pointers)
  }

  function Plus(counts: seq<nat>, v: nat): seq<nat>
    requires v < |counts|
  {
    counts[v := counts[v] + 1]
  }

  function Minus(counts: seq<nat>, v: nat): seq<nat>
    requires v < |counts| && counts[v] > 0
  {
    counts[v := counts[v] - 1]
  }

  /** What each operation is for, without any counting; what is not possible has no effect. */
  function Apply(s: Picture, op: Operation): Picture
    requires |s.floating| == |s.outside|
  {
    match op
    case NewVariant => Picture(s.pointers, s.outside + [1], s.floating + [true])
    case Ref(v) => if Referred(s, v) then s.(outside := Plus(s.outside, v)) else s
    case Sink(v) =>
      if !Referred(s, v) then s
      else if s.floating[v] then s.(floating := s.floating[v := false])
      else s.(outside := Plus(s.outside, v))
    case Unref(v) => if v < |s.outside| && s.outside[v] > 0 then s.(outside := Minus(s.outside, v)) else s
    case NewWrapper => s.(pointers := s.pointers + [None])
    case Take(v) =>
      if !Referred(s, v) then s
      else if s.floating[v] && s.outside[v] > 0 then
        Picture(s.pointers + [Some(v)], Minus(s.outside, v), s.floating[v := false])
      else s.(pointers := s.pointers + [Some(v)])
    case Adopt(v) =>
      if v < |s.outside| && s.outside[v] > 0 && !s.floating[v] then
        s.(pointers := s.pointers + [Some(v)], outside := Minus(s.outside, v))
      else s
    case CopyOf(w) => if w < |s.pointers| then s.(pointers := s.pointers + [s.pointers[w]]) else s
    case MoveOf(w) => if w < |s.pointers| then s.(pointers := s.pointers[w := None] + [s.pointers[w]]) else s
    case AssignCopy(to, from) =>
      if to < |s.pointers| && from < |s.pointers| then s.(pointers := s.pointers[to := s.pointers[from]]) else s
    case AssignMove(to, from) =>
      if to < |s.pointers| && from < |s.pointers| && to != from then
        s.(pointers := s.pointers[to := s.pointers[from]][from := None])
      else s
    case Let(w) => if w < |s.pointers| then s.(pointers := s.pointers[w := None]) else s
    case HandOut(w) =>
      if w < |s.pointers| && s.pointers[w].Some? && s.pointers[w].value < |s.outside| then
        s.(pointers := s.pointers[w := None], outside := Plus(s.outside, s.pointers[w].value))
      else s
    case DestroyLast => if s.pointers != [] then s.(pointers := s.pointers[..|s.pointers| - 1]) else s
  }

  lemma FloatingIsOutside(v: GVariant, l: Ledger)
    requires Balanced(l) && v in l.outside && !v.freed
    ensures v.floating ==> l.outside[v] > 0
  {
    assert Counted(l, v);
  }

  /** All wrappers, all variants, and how many references others have; variants are not forgotten when they are freed. */
  class Program {
    var wrappers: seq<GVariantWrapper>
    var variants: seq<GVariant>
    var outside: map<GVariant, nat>

    ghost function Live(): set<GVariantWrapper>
      reads this
    {
      set i | 0 <= i < |wrappers| :: wrappers[i]
    }

    ghost function Books(): Ledger
      reads this
    {
      Ledger(Live(), outside)
    }

    ghost predicate Named()
      reads this
    {
      && outside.Keys == (set i | 0 <= i < |variants| :: variants[i])
      && (forall i, j :: 0 <= i < j < |variants| ==> variants[i] != variants[j])
      && (forall i, j :: 0 <= i < j < |wrappers| ==> wrappers[i] != wrappers[j])
    }

    ghost predicate Valid()
      reads this, wrappers, variants
    {
      Named() && Balanced(Books())
    }

    /** The variant that a pointer of a picture stands for. */
    ghost function Pointed(pointer: Option<nat>): GVariant?
      reads this
    {
      if pointer.Some? && pointer.value < |variants| then variants[pointer.value] else null
    }

    ghost predicate Shows(s: Picture)
      reads this, wrappers, variants
    {
      && |s.pointers| == |wrappers| && |s.outside| == |s.floating| == |variants|
      && (forall i :: 0 <= i < |wrappers| ==> s.pointers[i].Some? ==> s.pointers[i].value < |variants|)
      && (forall i :: 0 <= i < |wrappers| ==> wrappers[i].variant == Pointed(s.pointers[i]))
      && (forall k :: 0 <= k < |variants| ==> variants[k] in outside && outside[variants[k]] == s.outside[k])
      && (forall k :: 0 <= k < |variants| ==> variants[k].floating == s.floating[k])
    }

    constructor ()
      ensures Valid() && Shows(Picture([], [], [])) && wrappers == [] && variants == []
    {
      wrappers, variants, outside := [], [], map[];
    }

    /** A variant is freed exactly if nothing refers to it in the picture. */
    lemma FreedInPicture(s: Picture, k: nat)
      requires Valid() && Shows(s) && k < |variants|
      ensures variants[k].freed <==> !Referred(s, k)
    {
      var v := variants[k];
      FreedExactly(Books(), v);
      if Some(k) in s.pointers {
        var i :| 0 <= i < |s.pointers| && s.pointers[i] == Some(k);
        assert wrappers[i].variant == v && wrappers[i] in Live();
      }
      if w :| w in Live() && w.variant == v {
        var i :| 0 <= i < |wrappers| && wrappers[i] == w;
        assert s.pointers[i] == Some(k);
      }
    }

    /** A wrapper has come into being, and with it perhaps another distribution of references. */
    method Added(w: GVariantWrapper, after: map<GVariant, nat>)
      requires Named() && after.Keys == outside.Keys && Balanced(Ledger(Live() + {w}, after)) && w !in wrappers
      modifies this`wrappers, this`outside
      ensures Valid() && wrappers == old(wrappers) + [w] && outside == after
    {
      hide Balanced;
      ghost var before, n := Live(), |wrappers|;
      wrappers := wrappers + [w];
      outside := after;
      assert wrappers[n] == w && forall i :: 0 <= i < n ==> wrappers[i] == old(wrappers)[i];
      assert Live() == before + {w};
    }

    method DoNewWrapper(ghost s: Picture) returns (w: GVariantWrapper?)
      requires Valid() && Shows(s)
      modifies this`wrappers, this`outside, wrappers, variants
      ensures Valid() && Shows(Apply(s, NewWrapper)) && variants == old(variants)
      ensures if w == null then wrappers == old(wrappers) else fresh(w) && wrappers == old(wrappers) + [w]
    {
      hide Balanced;
      ghost var l := Books();
      w := new GVariantWrapper(l);
      Added(w, outside);
    }

    method DoTake(k: nat, ghost s: Picture) returns (w: GVariantWrapper?)
      requires Valid() && Shows(s)
      modifies this`wrappers, this`outside, wrappers, variants
      ensures Valid() && Shows(Apply(s, Take(k))) && variants == old(variants)
      ensures if w == null then wrappers == old(wrappers) else fresh(w) && wrappers == old(wrappers) + [w]
    {
      hide Balanced;
      ghost var l := Books();
      w := null;
      if k < |variants| {
        FreedInPicture(s, k);
        var v := variants[k];
        if !v.freed {
          FloatingIsOutside(v, l);
          var after := if v.floating then OneLess(outside, v) else outside;
          w := new GVariantWrapper.TakeOwnership(v, l);
          Added(w, after);
        }
      }
    }

    method DoAdopt(k: nat, ghost s: Picture) returns (w: GVariantWrapper?)
      requires Valid() && Shows(s)
      modifies this`wrappers, this`outside, wrappers, variants
      ensures Valid() && Shows(Apply(s, Adopt(k))) && variants == old(variants)
      ensures if w == null then wrappers == old(wrappers) else fresh(w) && wrappers == old(wrappers) + [w]
    {
      hide Balanced;
      ghost var l := Books();
      w := null;
      if k < |variants| && outside[variants[k]] > 0 && !variants[k].floating {
        w := new GVariantWrapper.JustMove(variants[k], l);
        Added(w, OneLess(outside, variants[k]));
      }
    }

    method DoCopyOf(k: nat, ghost s: Picture) returns (w: GVariantWrapper?)
      requires Valid() && Shows(s)
      modifies this`wrappers, this`outside, wrappers, variants
      ensures Valid() && Shows(Apply(s, CopyOf(k))) && variants == old(variants)
      ensures if w == null then wrappers == old(wrappers) else fresh(w) && wrappers == old(wrappers) + [w]
    {
      hide Balanced;
      ghost var l := Books();
      w := null;
      if k < |wrappers| {
        w := new GVariantWrapper.Copy(wrappers[k], l);
        Added(w, outside);
      }
    }

    method DoMoveOf(k: nat, ghost s: Picture) returns (w: GVariantWrapper?)
      requires Valid() && Shows(s)
      modifies this`wrappers, this`outside, wrappers, variants
      ensures Valid() && Shows(Apply(s, MoveOf(k))) && variants == old(variants)
      ensures if w == null then wrappers == old(wrappers) else fresh(w) && wrappers == old(wrappers) + [w]
    {
      hide Balanced;
      ghost var l := Books();
      w := null;
      if k < |wrappers| {
        w := new GVariantWrapper.Move(wrappers[k], l);
        Added(w, outside);
      }
    }

    method DoAssignCopy(to: nat, from: nat, ghost s: Picture)
      requires Valid() && Shows(s)
      modifies this`wrappers, this`outside, wrappers, variants
      ensures Valid() && Shows(Apply(s, AssignCopy(to, from))) && variants == old(variants)
      ensures wrappers == old(wrappers)
    {
      hide Balanced;
      ghost var l := Books();
      if to < |wrappers| && from < |wrappers| {
        wrappers[to].CopyAssign(wrappers[from], l);
      }
    }

    method DoAssignMove(to: nat, from: nat, ghost s: Picture)
      requires Valid() && Shows(s)
      modifies this`wrappers, this`outside, wrappers, variants
      ensures Valid() && Shows(Apply(s, AssignMove(to, from))) && variants == old(variants)
      ensures wrappers == old(wrappers)
    {
      hide Balanced;
      ghost var l := Books();
      if to < |wrappers| && from < |wrappers| {
        wrappers[to].MoveAssign(wrappers[from], l);
      }
    }

    method DoLet(k: nat, ghost s: Picture)
      requires Valid() && Shows(s)
      modifies this`wrappers, this`outside, wrappers, variants
      ensures Valid() && Shows(Apply(s, Let(k))) && variants == old(variants)
      ensures wrappers == old(wrappers)
    {
      hide Balanced;
      ghost var l := Books();
      if k < |wrappers| {
        wrappers[k].Release(l);
      }
    }

    method DoHandOut(k: nat, ghost s: Picture)
      requires Valid() && Shows(s)
      modifies this`wrappers, this`outside, wrappers, variants
      ensures Valid() && Shows(Apply(s, HandOut(k))) && variants == old(variants)
      ensures wrappers == old(wrappers)
    {
      hide Balanced;
      ghost var l := Books();
      if k < |wrappers| {
        var v := GVariantWrapper.MoveOut(wrappers[k], l);
        assert v == Pointed(s.pointers[k]);
        if v != null {
          assert v == variants[s.pointers[k].value];
          outside := OneMore(outside, v);
        }
      }
    }

    method DoDestroyLast(ghost s: Picture)
      requires Valid() && Shows(s)
      modifies this`wrappers, this`outside, wrappers, variants
      ensures Valid() && Shows(Apply(s, DestroyLast)) && variants == old(variants)
      ensures |wrappers| <= |old(wrappers)| && forall i :: 0 <= i < |wrappers| ==> wrappers[i] == old(wrappers)[i]
    {
      hide Balanced;
      ghost var l := Books();
      if wrappers != [] {
        var n := |wrappers| - 1;
        var w := wrappers[n];
        w.Destroy(l);
        wrappers := wrappers[..n];
        LiveWithout(old(wrappers), wrappers, n);
        assert Live() == l.wrappers - {w};
      }
    }

    method DoRef(k: nat, ghost s: Picture)
      requires Valid() && Shows(s)
      modifies this`outside, variants
      ensures Valid() && Shows(Apply(s, Ref(k)))
    {
      hide Balanced;
      ghost var l := Books();
      if k < |variants| {
        FreedInPicture(s, k);
        if !variants[k].freed {
          OutsideRef(variants[k], l);
          outside := OneMore(outside, variants[k]);
        }
      }
    }

    method DoSink(k: nat, ghost s: Picture)
      requires Valid() && Shows(s)
      modifies this`outside, variants
      ensures Valid() && Shows(Apply(s, Sink(k)))
    {
      hide Balanced;
      ghost var l := Books();
      if k < |variants| {
        FreedInPicture(s, k);
        if !variants[k].freed {
          var floating := variants[k].floating;
          OutsideSink(variants[k], l);
          outside := if floating then outside else OneMore(outside, variants[k]);
        }
      }
    }

    method DoUnref(k: nat, ghost s: Picture)
      requires Valid() && Shows(s)
      modifies this`outside, variants
      ensures Valid() && Shows(Apply(s, Unref(k)))
    {
      hide Balanced;
      ghost var l := Books();
      if k < |variants| && outside[variants[k]] > 0 {
        OutsideUnref(variants[k], l);
        outside := OneLess(outside, variants[k]);
      }
    }

    method DoNewVariant(ghost s: Picture) returns (v: GVariant)
      requires Valid() && Shows(s)
      modifies this`variants, this`outside
      ensures Valid() && Shows(Apply(s, NewVariant))
      ensures fresh(v) && variants == old(variants) + [v]
    {
      hide Balanced;
      v := new GVariant();
      NewIsBalanced(Books(), v);
      variants := variants + [v];
      outside := outside[v := 1];
      AddedName(old(variants), v);
    }
  }

  lemma AddedName(variants: seq<GVariant>, v: GVariant)
    ensures var all := variants + [v];
      (set i | 0 <= i < |all| :: all[i]) == (set i | 0 <= i < |variants| :: variants[i]) + {v}
  {
    var all := variants + [v];
    assert all[|variants|] == v && forall i :: 0 <= i < |variants| ==> all[i] == variants[i];
  }

  lemma LiveWithout(before: seq<GVariantWrapper>, after: seq<GVariantWrapper>, n: nat)
    requires |before| == n + 1 && after == before[..n]
    requires forall i, j :: 0 <= i < j < |before| ==> before[i] != before[j]
    ensures (set i | 0 <= i < |after| :: after[i]) == (set i | 0 <= i < |before| :: before[i]) - {before[n]}
  {
    assert forall i :: 0 <= i < n ==> after[i] == before[i];
  }

  lemma NewIsBalanced(l: Ledger, v: GVariant)
    requires Balanced(l) && v !in l.outside && v.refCount == 1 && v.floating && !v.freed
    ensures Balanced(l.(outside := l.outside[v := 1]))
  {
    var m := l.(outside := l.outside[v := 1]);
    HeldByNone(PointersOf(l.wrappers), v);
    hide Held, PointersOf;
    forall x | x in m.outside ensures Counted(m, x) {
      if x != v {
        assert Counted(l, x);
      }
    }
  }

  /** Where a sequence of operations leads. */
  function ApplyAll(operations: seq<Operation>, n: nat): (s: Picture)
    requires n <= |operations|
    ensures |s.floating| == |s.outside|
  {
    if n == 0 then Picture([], [], []) else Apply(ApplyAll(operations, n - 1), operations[n - 1])
  }

  // ----- references in the picture

  /** All references to a variant: those from elsewhere, and one for each wrapper that points at it. */
  function References(s: Picture, v: nat): nat
    requires v < |s.outside|
  {
    s.outside[v] + multiset(s.pointers)[Some(v)]
  }

  function At(s: Picture, w: nat, v: nat): int {
    if w < |s.pointers| && s.pointers[w] == Some(v) then 1 else 0
  }

  /**
   References come from `ref`, from sinking and taking what does not float, and from copies;
   they go with `unref`, and with wrappers that point elsewhere afterwards.  Everything else
   only hands them on.
   */
  function Change(s: Picture, op: Operation, v: nat): int
    requires |s.floating| == |s.outside| && v < |s.outside|
  {
    match op
    case Ref(k) => if k == v && References(s, v) > 0 then 1 else 0
    case Sink(k) => if k == v && References(s, v) > 0 && !s.floating[v] then 1 else 0
    case Unref(k) => if k == v && s.outside[v] > 0 then -1 else 0
    case Take(k) => if k == v && References(s, v) > 0 && !(s.floating[v] && s.outside[v] > 0) then 1 else 0
    case CopyOf(w) => At(s, w, v)
    case AssignCopy(to, from) => if to < |s.pointers| && from < |s.pointers| then At(s, from, v) - At(s, to, v) else 0
    case AssignMove(to, from) => if to != from && from < |s.pointers| then -At(s, to, v) else 0
    case Let(w) => -At(s, w, v)
    case DestroyLast => if s.pointers != [] then -At(s, |s.pointers| - 1, v) else 0
    case _ => 0
  }

  lemma ReferencesChange(s: Picture, op: Operation, v: nat)
    requires |s.floating| == |s.outside| && v < |s.outside|
    ensures |s.outside| <= |Apply(s, op).outside| == |Apply(s, op).floating|
    ensures References(Apply(s, op), v) == References(s, v) + Change(s, op, v)
  {
    if op.AssignCopy? || op.AssignMove? {
      AssigningChanges(s, op, v);
    } else if op.Let? || op.HandOut? || op.DestroyLast? {
      LosingChanges(s, op, v);
    } else if op.NewWrapper? || op.Take? || op.Adopt? || op.CopyOf? || op.MoveOf? {
      MakingChanges(s, op, v);
    } else {
      PointedAt(s, v);
    }
  }

  lemma PointedAt(s: Picture, v: nat)
    ensures Some(v) in s.pointers <==> multiset(s.pointers)[Some(v)] > 0
  {
  }

  lemma AssigningChanges(s: Picture, op: Operation, v: nat)
    requires |s.floating| == |s.outside| && v < |s.outside| && (op.AssignCopy? || op.AssignMove?)
    ensures |s.outside| <= |Apply(s, op).outside| == |Apply(s, op).floating|
    ensures References(Apply(s, op), v) == References(s, v) + Change(s, op, v)
  {
  }

  lemma LosingChanges(s: Picture, op: Operation, v: nat)
    requires |s.floating| == |s.outside| && v < |s.outside| && (op.Let? || op.HandOut? || op.DestroyLast?)
    ensures |s.outside| <= |Apply(s, op).outside| == |Apply(s, op).floating|
    ensures References(Apply(s, op), v) == References(s, v) + Change(s, op, v)
  {
    if s.pointers != [] {
      assert s.pointers == s.pointers[..|s.pointers| - 1] + [s.pointers[|s.pointers| - 1]];
    }
  }

  lemma MakingChanges(s: Picture, op: Operation, v: nat)
    requires |s.floating| == |s.outside| && v < |s.outside|
    requires op.NewWrapper? || op.Take? || op.Adopt? || op.CopyOf? || op.MoveOf?
    ensures |s.outside| <= |Apply(s, op).outside| == |Apply(s, op).floating|
    ensures References(Apply(s, op), v) == References(s, v) + Change(s, op, v)
  {
    PointedAt(s, v);
  }

  // ----- a program in which every operation has an effect

  const OPERATIONS := [NewVariant, Take(0), CopyOf(0), Ref(0), MoveOf(1), NewWrapper, AssignCopy(1, 0), AssignMove(3, 2),
                       HandOut(3), Adopt(0), Unref(0), Sink(0), Let(0), DestroyLast]

  /** The pictures that its operations lead through. */
  const PICTURES := [
    Picture([], [], []),
    Picture([], [1], [true]),
    Picture([Some(0)], [0], [false]),
    Picture([Some(0), Some(0)], [0], [false]),
    Picture([Some(0), Some(0)], [1], [false]),
    Picture([Some(0), None, Some(0)], [1], [false]),
    Picture([Some(0), None, Some(0), None], [1], [false]),
    Picture([Some(0), Some(0), Some(0), None], [1], [false]),
    Picture([Some(0), Some(0), None, Some(0)], [1], [false]),
    Picture([Some(0), Some(0), None, None], [2], [false]),
    Picture([Some(0), Some(0), None, None, Some(0)], [1], [false]),
    Picture([Some(0), Some(0), None, None, Some(0)], [0], [false]),
    Picture([Some(0), Some(0), None, None, Some(0)], [1], [false]),
    Picture([None, Some(0), None, None, Some(0)], [1], [false]),
    Picture([None, Some(0), None, None], [1], [false])
  ]

  lemma EveryOperationWorks(n: nat)
    requires n < 14
    ensures |OPERATIONS| == 14 && |PICTURES| == 15 && |PICTURES[n].outside| == |PICTURES[n].floating|
    ensures Apply(PICTURES[n], OPERATIONS[n]) == PICTURES[n + 1]
  {
  }

  lemma {:induction false} ThroughAllPictures(n: nat)
    requires n <= 14
    ensures ApplyAll(OPERATIONS, n) == PICTURES[n]
  {
    hide Apply;
    if n > 0 {
      EveryOperationWorks(n - 1);
      ThroughAllPictures(n - 1);
    }
  }

  /**
   After any program, pointers and outside references are what its operations are
   for; each variant has a count of the references from elsewhere and the wrappers
   that point at it, and it is freed if and only if nothing refers to it.
   */
  method Run(operations: seq<Operation>) returns (p: Program)
    ensures fresh(p) && p.Valid() && p.Shows(ApplyAll(operations, |operations|))
    ensures forall k :: 0 <= k < |p.variants| ==>
      && p.variants[k] in p.outside
      && p.variants[k].refCount == p.outside[p.variants[k]] + Held(PointersOf(p.Live()), p.variants[k])
      && (p.variants[k].freed <==> !Referred(ApplyAll(operations, |operations|), k))
  {
    hide Program.Valid, Program.Shows, Apply;
    p := new Program();
    for i := 0 to |operations|
      invariant fresh(p) && p.Valid() && p.Shows(ApplyAll(operations, i))
      invariant forall k :: 0 <= k < |p.wrappers| ==> fresh(p.wrappers[k])
      invariant forall k :: 0 <= k < |p.variants| ==> fresh(p.variants[k])
    {
      Perform(p, operations[i], ApplyAll(operations, i));
    }
    forall k | 0 <= k < |p.variants|
      ensures p.variants[k] in p.outside
      ensures p.variants[k].refCount == p.outside[p.variants[k]] + Held(PointersOf(p.Live()), p.variants[k])
      ensures p.variants[k].freed <==> !Referred(ApplyAll(operations, |operations|), k)
    {
      Accounted(p, k);
      p.FreedInPicture(ApplyAll(operations, |operations|), k);
    }
  }

  lemma Accounted(p: Program, k: nat)
    requires p.Valid() && k < |p.variants|
    ensures p.variants[k] in p.outside
    ensures p.variants[k].refCount == p.outside[p.variants[k]] + Held(PointersOf(p.Live()), p.variants[k])
  {
    assert p.variants[k] in p.outside;
    assert Counted(p.Books(), p.variants[k]);
  }

  method Perform(p: Program, op: Operation, ghost s: Picture)
    requires p.Valid() && p.Shows(s) && |s.floating| == |s.outside|
    modifies p, p.wrappers, p.variants
    ensures p.Valid() && p.Shows(Apply(s, op))
    ensures forall k :: 0 <= k < |p.wrappers| ==> p.wrappers[k] in old(p.wrappers) || fresh(p.wrappers[k])
    ensures forall k :: 0 <= k < |p.variants| ==> p.variants[k] in old(p.variants) || fresh(p.variants[k])
  {
    hide Program.Valid, Program.Shows, Apply;
    match op {
      case NewVariant => var _ := p.DoNewVariant(s);
      case Ref(v) => p.DoRef(v, s);
      case Sink(v) => p.DoSink(v, s);
      case Unref(v) => p.DoUnref(v, s);
      case NewWrapper => var _ := p.DoNewWrapper(s);
      case Take(v) => var _ := p.DoTake(v, s);
      case Adopt(v) => var _ := p.DoAdopt(v, s);
      case CopyOf(w) => var _ := p.DoCopyOf(w, s);
      case MoveOf(w) => var _ := p.DoMoveOf(w, s);
      case AssignCopy(to, from) => p.DoAssignCopy(to, from, s);
      case AssignMove(to, from) => p.DoAssignMove(to, from, s);
      case Let(w) => p.DoLet(w, s);
      case HandOut(w) => p.DoHandOut(w, s);
      case DestroyLast => p.DoDestroyLast(s);
    }
  }
}
