/**
 The sequence of expectations shared by several mocks: a list whose element at
 position i carries serial number i, a range move and a swap that keep it so, and
 a check that goes through the serial numbers in order.
 */
module ExpectationSequence {
  import opened Wrappers

  // ----- moving a block of a list

  /** Take `count` elements out at `src`, put them back in at `dest`. */
  function MoveBlock<T>(s: seq<T>, src: nat, count: nat, dest: nat): (r: seq<T>)
    requires src + count <= |s| && dest + count <= |s|
    ensures |r| == |s|
  {
    var rest := s[..src] + s[src + count..];
    rest[..dest] + s[src..src + count] + rest[dest..]
  }

  /** Where the element at position `k` was before the block was moved. */
  function MovedFrom(src: nat, count: nat, dest: nat, k: nat): nat {
    if dest <= k < dest + count then src + (k - dest)
    else
      var r := if k < dest then k else k - count;
      if r < src then r else r + count
  }

  lemma MoveBlockAt<T>(s: seq<T>, src: nat, count: nat, dest: nat, k: nat)
    requires src + count <= |s| && dest + count <= |s| && k < |s|
    ensures MovedFrom(src, count, dest, k) < |s|
    ensures MoveBlock(s, src, count, dest)[k] == s[MovedFrom(src, count, dest, k)]
  {
    var rest := s[..src] + s[src + count..];
    if k < dest {
      assert MoveBlock(s, src, count, dest)[k] == rest[k];
    } else if k < dest + count {
      assert MoveBlock(s, src, count, dest)[k] == s[src..src + count][k - dest];
    } else {
      assert MoveBlock(s, src, count, dest)[k] == rest[dest..][k - dest - count] == rest[k - count];
    }
  }

  /** The block arrives in its order, the rest keeps its order, and nothing else has both properties. */
  lemma MoveBlockExactly<T>(s: seq<T>, src: nat, count: nat, dest: nat, r: seq<T>)
    requires src + count <= |s| && dest + count <= |s|
    ensures r == MoveBlock(s, src, count, dest) <==>
            && |r| == |s|
            && r[dest..dest + count] == s[src..src + count]
            && r[..dest] + r[dest + count..] == s[..src] + s[src + count..]
  {
    var rest := s[..src] + s[src + count..];
    var m := MoveBlock(s, src, count, dest);
    assert m[..dest] == rest[..dest];
    assert m[dest..dest + count] == s[src..src + count];
    assert m[dest + count..] == rest[dest..];
    assert rest == rest[..dest] + rest[dest..];
    if |r| == |s| && r[..dest] + r[dest + count..] == rest {
      assert rest[..dest] == r[..dest] && rest[dest..] == r[dest + count..];
      assert r == r[..dest] + r[dest..dest + count] + r[dest + count..];
    }
  }

  /** Moving the block back undoes the move. */
  lemma MoveBlockBack<T>(s: seq<T>, src: nat, count: nat, dest: nat)
    requires src + count <= |s| && dest + count <= |s|
    ensures MoveBlock(MoveBlock(s, src, count, dest), dest, count, src) == s
  {
    var m := MoveBlock(s, src, count, dest);
    MoveBlockExactly(s, src, count, dest, m);
    MoveBlockExactly(m, dest, count, src, s);
  }

  /** Only the range between the two positions is affected. */
  lemma MoveBlockKeeps<T>(s: seq<T>, src: nat, count: nat, dest: nat)
    requires src + count <= |s| && dest + count <= |s|
    ensures var m := MoveBlock(s, src, count, dest);
      var left, right := if src < dest then src else dest, (if src < dest then dest else src) + count;
      m[..left] == s[..left] && m[right..] == s[right..]
  {
    var m := MoveBlock(s, src, count, dest);
    var left, right := if src < dest then src else dest, (if src < dest then dest else src) + count;
    forall k | 0 <= k < |s| && (k < left || right <= k) ensures m[k] == s[k] {
      MoveBlockAt(s, src, count, dest, k);
    }
    hide MoveBlock;
    assert m[..left] == s[..left];
    assert m[right..] == s[right..];
  }

  lemma TakenOut<T>(s: seq<T>, src: nat, count: nat)
    requires src + count <= |s|
    ensures multiset(s) == multiset(s[..src] + s[src + count..]) + multiset(s[src..src + count])
  {
    assert s == s[..src] + s[src..src + count] + s[src + count..];
  }

  /** Nothing is lost or doubled. */
  lemma MoveBlockPermutes<T>(s: seq<T>, src: nat, count: nat, dest: nat)
    requires src + count <= |s| && dest + count <= |s|
    ensures multiset(MoveBlock(s, src, count, dest)) == multiset(s)
  {
    var m := MoveBlock(s, src, count, dest);
    MoveBlockExactly(s, src, count, dest, m);
    hide MoveBlock;
    TakenOut(s, src, count);
    TakenOut(m, dest, count);
  }

  /** Every move to the right is a move to the left of the elements that were passed. */
  lemma RightIsLeft<T>(s: seq<T>, src: nat, count: nat, dest: nat)
    requires src <= dest && dest + count <= |s|
    ensures MoveBlock(s, src, count, dest) == MoveBlock(s, src + count, dest - src, src)
  {
    var m := MoveBlock(s, src + count, dest - src, src);
    hide MoveBlock;
    var r := MoveBlock(s, src, count, dest);
    forall k | 0 <= k < |s| ensures m[k] == r[k] {
      MoveBlockAt(s, src, count, dest, k);
      MoveBlockAt(s, src + count, dest - src, src, k);
    }
  }

  /** A move to where the block is always fits; otherwise both ends have to be in the list. */
  predicate MoveFits(src: nat, count: nat, dest: nat, size: nat) {
    src == dest || (src + count <= size && dest + count <= size)
  }

  function Swapped<T>(s: seq<T>, a: nat, b: nat): seq<T>
    requires a < |s| && b < |s|
  {
    s[a := s[b]][b := s[a]]
  }

  /** Two elements change places, all others keep theirs, and doing it twice undoes it. */
  lemma SwappedIs<T>(s: seq<T>, a: nat, b: nat)
    requires a < |s| && b < |s|
    ensures var r := Swapped(s, a, b);
      && |r| == |s| && r[a] == s[b] && r[b] == s[a]
      && (forall k :: 0 <= k < |s| && k != a && k != b ==> r[k] == s[k])
      && Swapped(r, a, b) == s && r == Swapped(s, b, a)
      && multiset(r) == multiset(s)
  {
  }

  /** Swapping neighbours and moving one over the other are the same. */
  lemma SwapIsMove<T>(s: seq<T>, a: nat)
    requires a + 1 < |s|
    ensures Swapped(s, a, a + 1) == MoveBlock(s, a + 1, 1, a)
  {
    var m := MoveBlock(s, a + 1, 1, a);
    forall k | 0 <= k < |s| ensures Swapped(s, a, a + 1)[k] == m[k] {
      MoveBlockAt(s, a + 1, 1, a, k);
    }
  }

  // ----- positions as the caller names them

  /** Negative positions count from the end, -1 is the last element. */
  function Position(a: int, size: nat): int {
    if a >= 0 then a else size + a
  }

  /** `compute_move_indices`; None where one of its requirements fails. */
  function MoveIndices(a: int, b: int, size: nat, checked: nat): Option<(nat, nat)> {
    var apos := if a >= 0 then a else -(a + 1);
    var bpos := if b >= 0 then b else -(b + 1);
    if apos >= size || bpos >= size then None
    else
      var aidx := if a >= 0 then a else size + a;
      var bidx := if b >= 0 then b else size + b;
      if aidx < checked || bidx < checked then None else Some((aidx, bidx))
  }

  /** Exactly the elements that are not checked yet can be named, each by two numbers. */
  lemma MoveIndicesExactly(a: int, b: int, size: nat, checked: nat, x: nat, y: nat)
    ensures MoveIndices(a, b, size, checked) == Some((x, y)) <==>
            checked <= x < size && checked <= y < size && a in {x, x - size} && b in {y, y - size}
    ensures MoveIndices(a, b, size, checked).None? <==>
            !(checked <= Position(a, size) < size && checked <= Position(b, size) < size)
  {
  }

  // ----- checking

  /** Whether a run of checks accepts every one of the serial numbers. */
  predicate AllChecked(serials: seq<nat>, next: nat) {
    serials == [] || (serials[0] == next && AllChecked(serials[1..], next + 1))
  }

  lemma {:induction false} AllCheckedExactly(serials: seq<nat>, next: nat)
    ensures AllChecked(serials, next) <==> forall i :: 0 <= i < |serials| ==> serials[i] == next + i
  {
    if serials != [] {
      AllCheckedExactly(serials[1..], next + 1);
      if forall i :: 0 <= i < |serials| ==> serials[i] == next + i {
        forall i | 0 <= i < |serials[1..]| ensures serials[1..][i] == next + 1 + i {
          assert serials[1..][i] == serials[i + 1];
        }
      } else if AllChecked(serials, next) {
        forall i | 0 <= i < |serials| ensures serials[i] == next + i {
          if i > 0 {
            assert serials[i] == serials[1..][i - 1];
          }
        }
      }
    }
  }

  /** What a check reports: it may also be cut off by a requirement of its diagnostics. */
  datatype Verdict = Expected | OutOfSync | Aborted

  // ----- the objects

  class MockExpectation {
    var serial: nat

    constructor () {
      serial := 0xFFFF_FFFF;
    }
  }

  datatype Entry = Entry(expectation: MockExpectation, name: string)

  ghost predicate AllDifferent(e: seq<Entry>) {
    forall i, j :: 0 <= i < j < |e| ==> e[i].expectation != e[j].expectation
  }

  lemma MoveKeepsAllDifferent(e: seq<Entry>, src: nat, count: nat, dest: nat)
    requires AllDifferent(e) && src + count <= |e| && dest + count <= |e|
    ensures AllDifferent(MoveBlock(e, src, count, dest))
  {
    var m := MoveBlock(e, src, count, dest);
    forall i, j | 0 <= i < j < |m| ensures m[i].expectation != m[j].expectation {
      MoveBlockAt(e, src, count, dest, i);
      MoveBlockAt(e, src, count, dest, j);
    }
  }

  class MockExpectationSequence {
    var nextAssignedSerial: nat
    var nextCheckedSerial: nat
    var e: seq<Entry>

    ghost function Expectations(): set<MockExpectation>
      reads this
    {
      set i | 0 <= i < |e| :: e[i].expectation
    }

    /** Every element carries its position as its serial number. */
    ghost predicate Valid()
      reads this, Expectations()
    {
      && nextAssignedSerial == |e|
      && forall i :: 0 <= i < |e| ==> e[i].expectation.serial == i
    }

    constructor ()
      ensures Valid() && e == [] && nextCheckedSerial == 0
    {
      nextAssignedSerial, nextCheckedSerial, e := 0, 0, [];
    }

    method Reset()
      modifies this
      ensures Valid() && e == [] && nextCheckedSerial == 0
    {
      nextAssignedSerial, nextCheckedSerial, e := 0, 0, [];
    }

    /** The sequence was used up exactly; otherwise this is reported, and all is forgotten as well. */
    method Done() returns (ok: bool)
      requires Valid()
      modifies this
      ensures Valid()
      ensures ok <==> old(nextCheckedSerial) == old(|e|)
      ensures old(nextCheckedSerial) <= old(|e|) ==> e == [] && nextCheckedSerial == 0
      ensures old(nextCheckedSerial) > old(|e|) ==> e == old(e) && nextCheckedSerial == old(nextCheckedSerial)
    {
      ok := nextCheckedSerial == |e|;
      if ok || nextCheckedSerial < nextAssignedSerial {
        Reset();
      }
    }

    /** Registering keeps the numbering exactly if the expectation was not registered before. */
    method RegisterExpectation(expectation: MockExpectation, name: string)
      requires Valid()
      modifies this, expectation
      ensures e == old(e) + [Entry(expectation, name)] && nextCheckedSerial == old(nextCheckedSerial)
      ensures Valid() <==> expectation !in old(Expectations())
    {
      expectation.serial := nextAssignedSerial;
      nextAssignedSerial := nextAssignedSerial + 1;
      e := e + [Entry(expectation, name)];
      ghost var n := old(|e|);
      if expectation in old(Expectations()) {
        ghost var i :| 0 <= i < n && old(e)[i].expectation == expectation;
        assert e[i].expectation.serial == n;
      } else {
        forall i | 0 <= i < |e| ensures e[i].expectation.serial == i {
          if i < n {
            assert e[i] == old(e)[i];
          }
        }
      }
    }

    /** Only the next serial number is accepted, and only then does the sequence move on. */
    method Check(serial: nat) returns (verdict: Verdict)
      requires Valid()
      modifies `nextCheckedSerial
      ensures Valid()
      ensures verdict.Expected? <==> serial == old(nextCheckedSerial)
      ensures nextCheckedSerial == old(nextCheckedSerial) + if verdict.Expected? then 1 else 0
      ensures verdict.Aborted? <==>
              old(nextCheckedSerial) < |e| && (serial < old(nextCheckedSerial) || serial > |e|)
    {
      if serial == nextCheckedSerial {
        nextCheckedSerial := nextCheckedSerial + 1;
        return Expected;
      }
      if nextCheckedSerial < |e| && !(nextCheckedSerial < serial <= nextAssignedSerial) {
        return Aborted;
      }
      return OutOfSync;
    }

    ghost predicate IsListed(x: MockExpectation, position: nat)
      reads this
    {
      position < |e| && e[position].expectation == x
    }

    static ghost function Serials(xs: seq<MockExpectation>): (r: seq<nat>)
      reads xs
      ensures |r| == |xs| && forall i :: 0 <= i < |r| ==> r[i] == xs[i].serial
    {
      if xs == [] then [] else [xs[0].serial] + Serials(xs[1..])
    }

    /** The registered expectations are all accepted exactly in the order of the list. */
    lemma CheckedInListOrder(xs: seq<MockExpectation>)
      requires Valid() && forall x :: x in xs ==> x in Expectations()
      ensures AllChecked(Serials(xs), nextCheckedSerial) <==>
              forall i :: 0 <= i < |xs| ==> IsListed(xs[i], nextCheckedSerial + i)
    {
      var serials := Serials(xs);
      AllCheckedExactly(serials, nextCheckedSerial);
      hide AllChecked, Serials;
      forall i | 0 <= i < |xs|
        ensures serials[i] == nextCheckedSerial + i <==> IsListed(xs[i], nextCheckedSerial + i)
      {
        assert xs[i] in xs;
        var j :| 0 <= j < |e| && e[j].expectation == xs[i];
        assert serials[i] == j;
      }
    }

    /** A range move; it is refused, and then changes nothing, where one of its requirements fails. */
    method MoveRange(src: int, count: nat, dest: int) returns (ok: bool)
      requires Valid()
      modifies this, Expectations()
      ensures Valid() && nextCheckedSerial == old(nextCheckedSerial)
      ensures var i := MoveIndices(src, dest, old(|e|), nextCheckedSerial);
        && (ok <==> count > 0 && i.Some? && MoveFits(i.value.0, count, i.value.1, old(|e|)))
        && e == (if ok && i.value.0 != i.value.1 then MoveBlock(old(e), i.value.0, count, i.value.1) else old(e))
      ensures nextCheckedSerial <= |e| ==> e[..nextCheckedSerial] == old(e)[..nextCheckedSerial]
    {
      var indices := MoveIndices(src, dest, nextAssignedSerial, nextCheckedSerial);
      if count == 0 || indices.None? {
        return false;
      }
      var (srcidx, destidx) := indices.value;
      if srcidx == destidx {
        return true;
      }
      if (if srcidx < destidx then destidx else srcidx) + count > nextAssignedSerial {
        return false;
      }
      assert nextCheckedSerial <= srcidx && nextCheckedSerial <= destidx;
      hide MoveBlock, MoveIndices;
      MoveKeepsAllDifferent(e, srcidx, count, destidx);
      MoveBlockKeeps(e, srcidx, count, destidx);
      MovedSameExpectations(e, srcidx, count, destidx);
      ghost var was := e;
      MoveElements(srcidx, count, destidx);
      var left := if srcidx < destidx then srcidx else destidx;
      var right := (if srcidx < destidx then destidx else srcidx) + count;
      assert forall i :: 0 <= i < left ==> e[i] == was[..left][i];
      assert forall i :: right <= i < |e| ==> e[i] == was[right..][i - right];
      Renumber(left, right);
      assert e[..nextCheckedSerial] == e[..left][..nextCheckedSerial];
      return true;
    }

    /** The block is cut out of the list, and spliced in again where its destination then is. */
    method MoveElements(srcidx: nat, count: nat, destidx: nat)
      requires srcidx + count <= |e| && destidx + count <= |e|
      modifies `e
      ensures e == MoveBlock(old(e), srcidx, count, destidx)
    {
      var leftToRight := srcidx < destidx;
      var itSrc, itDest := srcidx, destidx;
      if !leftToRight {
        itSrc := itDest + (srcidx - destidx);
      }
      var temp := e[itSrc..itSrc + count];
      e := e[..itSrc] + e[itSrc + count..];
      if leftToRight {
        itSrc := srcidx;
        itDest := itSrc + (destidx - srcidx);
      }
      e := e[..itDest] + temp + e[itDest..];
    }

    /** Both the old and the new list are made of the same expectations. */
    static lemma MovedSameExpectations(s: seq<Entry>, src: nat, count: nat, dest: nat)
      requires src + count <= |s| && dest + count <= |s|
      ensures var m := MoveBlock(s, src, count, dest);
        (set i | 0 <= i < |m| :: m[i].expectation) == (set i | 0 <= i < |s| :: s[i].expectation)
    {
      var m := MoveBlock(s, src, count, dest);
      forall i | 0 <= i < |s|
        ensures exists j :: 0 <= j < |s| && s[j] == m[i]
        ensures exists j :: 0 <= j < |m| && m[j] == s[i]
      {
        MoveBlockAt(s, src, count, dest, i);
        MoveBlockBack(s, src, count, dest);
        MoveBlockAt(m, dest, count, src, i);
      }
    }

    /** New serial numbers for the elements at positions from `left` up to `right`. */
    method Renumber(left: nat, right: nat)
      requires nextAssignedSerial == |e| && left <= right <= |e| && AllDifferent(e)
      requires forall i :: 0 <= i < |e| && (i < left || right <= i) ==> e[i].expectation.serial == i
      modifies Expectations()
      ensures Valid()
    {
      var it := left;
      while it != right
        invariant left <= it <= right
        invariant forall i :: 0 <= i < |e| && (i < it || right <= i) ==> e[i].expectation.serial == i
        modifies Expectations()
        decreases right - it
      {
        e[it].expectation.serial := it;
        it := it + 1;
      }
    }

    /** A swap of two elements; it is refused, and then changes nothing, where a position is not allowed. */
    method SwapSlots(a: int, b: int) returns (ok: bool)
      requires Valid()
      modifies this, Expectations()
      ensures Valid() && nextCheckedSerial == old(nextCheckedSerial)
      ensures var i := MoveIndices(a, b, old(|e|), nextCheckedSerial);
        && (ok <==> i.Some?)
        && e == if ok then Swapped(old(e), i.value.0, i.value.1) else old(e)
      ensures nextCheckedSerial <= |e| ==> e[..nextCheckedSerial] == old(e)[..nextCheckedSerial]
    {
      var indices := MoveIndices(a, b, nextAssignedSerial, nextCheckedSerial);
      if indices.None? {
        return false;
      }
      var (aidx, bidx) := indices.value;
      if aidx == bidx {
        return true;
      }
      if aidx > bidx {
        aidx, bidx := bidx, aidx;
      }
      var first, second := e[aidx], e[bidx];
      assert first.expectation.serial != second.expectation.serial;
      first.expectation.serial := bidx;
      second.expectation.serial := aidx;
      e := e[aidx := second][bidx := first];
      return true;
    }

    /** The last two elements trade places. */
    method ReverseLastSlots() returns (ok: bool)
      requires Valid()
      modifies this, Expectations()
      ensures Valid() && nextCheckedSerial == old(nextCheckedSerial)
      ensures ok <==> old(|e|) >= 2 && nextCheckedSerial + 2 <= old(|e|)
      ensures e == if ok then MoveBlock(old(e), old(|e|) - 1, 1, old(|e|) - 2) else old(e)
    {
      ghost var was := e;
      ok := SwapSlots(-1, -2);
      if ok {
        SwapIsMove(was, |was| - 2);
      }
    }
  }
}
