/**
 * The generation-checked slot manager ob::t::Manager<T> with its handles
 * (Random/testingOBParticleSystem.cpp). The two std::vectors become the
 * sequence fields atoms and marks; Handle::isAlive, get and destroy take
 * the manager as the object they are called on.
 */
module SlotArena {
  import opened Wrappers
  import opened SlotSpec

  /** growIfNeeded's batch size. */
  const GrowAmount: nat := 10

  class Manager<T> {
    var atoms: seq<Atom<T>>
    var marks: seq<Mark>
    var size: nat
    var sizeNext: nat
    /** The inverse of the permutation atoms[_].markIdx: mark m's atom
        stands at slot slotOf[m]. */
    ghost var slotOf: seq<nat>

    /** Marks and atoms come in equal numbers, and slotOf inverts the
        atoms' markIdx permutation. */
    ghost predicate MarkPermutation()
      reads this
    {
      |marks| == |atoms| && IsInverse(atoms, slotOf)
    }

    /** Mark m currently designates a created slot. */
    ghost predicate InUse(m: nat)
      reads this
      requires MarkPermutation() && m < |marks|
    {
      slotOf[m] < sizeNext
    }

    ghost predicate Valid()
      reads this
    {
      Wellformed(atoms, marks, slotOf, size, sizeNext)
    }

    constructor ()
      ensures Valid()
      ensures atoms == [] && marks == [] && size == 0 && sizeNext == 0
    {
      atoms, marks, size, sizeNext := [], [], 0, 0;
      slotOf := [];
    }

    function GetCapacity(): nat
      reads this
    {
      |atoms|
    }

    function GetSize(): nat
      reads this
    {
      size
    }

    function GetSizeNext(): nat
      reads this
    {
      sizeNext
    }

    /** Handle::isAlive: the handle's counter still equals its mark's. An
        alive handle carrying an odd counter (every handle Create returns
        does) reaches a created slot owned by its mark. */
    predicate IsAlive(h: Handle)
      reads this
      requires Valid() && h.markIdx < |marks|
      ensures IsAlive(h) && h.ctr % 2 == 1 ==>
        marks[h.markIdx].idx < sizeNext && atoms[marks[h.markIdx].idx].markIdx == h.markIdx
    {
      marks[h.markIdx].ctr == h.ctr
    }

    /** Handle::get: the element of the slot the handle's mark designates. */
    function Get(h: Handle): (r: T)
      reads this
      requires Valid() && h.markIdx < |marks| && IsAlive(h)
      requires atoms[marks[h.markIdx].idx].alive
      ensures atoms[marks[h.markIdx].idx].data == Some(r)
    {
      atoms[marks[h.markIdx].idx].data.value
    }

    /** getAtomAt: checked against the capacity, not the size. */
    function GetAtomAt(i: nat): (a: Atom<T>)
      reads this
      requires Valid() && i < |atoms|
      ensures a.markIdx < |marks| && (i < sizeNext ==> a.data.Some?)
    {
      atoms[i]
    }

    /** getDataAt: the element of slot i, which must be alive. */
    function GetDataAt(i: nat): (r: T)
      reads this
      requires Valid() && i < |atoms| && atoms[i].alive
      ensures i < sizeNext && atoms[i].data == Some(r)
    {
      atoms[i].data.value
    }

    /** growCapacity: both vectors grow by amount; each new position i gets
        a dead, empty atom owned by mark i, and mark i designates slot i
        with generation 0. */
    method GrowCapacity(amount: nat)
      requires Valid()
      modifies this
      ensures Valid()
      ensures |atoms| == old(|atoms|) + amount
      ensures atoms[..old(|atoms|)] == old(atoms) && marks[..old(|marks|)] == old(marks)
      ensures forall i :: old(|atoms|) <= i < |atoms| ==> atoms[i] == Atom(i, false, None) && marks[i] == Mark(i, 0)
      ensures size == old(size) && sizeNext == old(sizeNext)
    {
      var oldSize := |atoms|;
      var newSize := oldSize + amount;
      // resize: default atoms and value-initialised marks
      atoms := atoms + seq(amount, _ => Atom(0, false, None));
      marks := marks + seq(amount, _ => Mark(0, 0));
      var i := oldSize;
      while i < newSize
        invariant oldSize <= i <= newSize
        invariant |atoms| == newSize && |marks| == newSize
        invariant atoms[..oldSize] == old(atoms) && marks[..oldSize] == old(marks)
        invariant forall j :: oldSize <= j < i ==> atoms[j] == Atom(j, false, None) && marks[j] == Mark(j, 0)
        invariant forall j :: i <= j < newSize ==> atoms[j] == Atom(0, false, None) && marks[j] == Mark(0, 0)
        invariant size == old(size) && sizeNext == old(sizeNext) && slotOf == old(slotOf)
      {
        atoms := atoms[i := atoms[i].(markIdx := i)];
        marks := marks[i := marks[i].(idx := i)];
        i := i + 1;
      }
      slotOf := slotOf + seq(amount, j => oldSize + j);
      GrownIsValid(old(atoms), old(marks), old(slotOf));
    }

    /** The state growCapacity leaves behind is valid: the new positions
        extend the identity permutation with free, even-generation marks. */
    lemma GrownIsValid(atoms0: seq<Atom<T>>, marks0: seq<Mark>, slotOf0: seq<nat>)
      requires |marks0| == |atoms0| && |slotOf0| == |atoms0|
      requires |atoms| == |marks| == |slotOf| >= |atoms0|
      requires size <= sizeNext <= |atoms0|
      requires forall i :: 0 <= i < |atoms0| ==> atoms0[i].markIdx < |atoms0| && slotOf0[atoms0[i].markIdx] == i
      requires forall m :: 0 <= m < |slotOf0| ==> slotOf0[m] < |atoms0| && atoms0[slotOf0[m]].markIdx == m
      requires forall m :: 0 <= m < |marks0| ==> marks0[m].idx < |atoms0|
      requires forall m :: 0 <= m < |marks0| && slotOf0[m] < sizeNext ==> marks0[m].idx == slotOf0[m]
      requires forall m :: 0 <= m < |marks0| ==> (marks0[m].ctr % 2 == 1 <==> slotOf0[m] < sizeNext)
      requires forall i :: 0 <= i < sizeNext ==> atoms0[i].data.Some?
      requires forall i :: sizeNext <= i < |atoms0| ==> !atoms0[i].alive && atoms0[i].data.None?
      requires forall i :: 0 <= i < |atoms0| ==> atoms[i] == atoms0[i] && marks[i] == marks0[i] && slotOf[i] == slotOf0[i]
      requires forall i :: |atoms0| <= i < |atoms| ==> atoms[i] == Atom(i, false, None) && marks[i] == Mark(i, 0) && slotOf[i] == i
      ensures Valid()
    {
    }

    /** growIfNeeded: grows by GrowAmount exactly when the storage is full,
        so that afterwards slot sizeNext exists. */
    method GrowIfNeeded()
      requires Valid()
      modifies this
      ensures Valid()
      ensures sizeNext < |atoms|
      ensures |atoms| == if old(|atoms|) <= old(sizeNext) then old(|atoms|) + GrowAmount else old(|atoms|)
      ensures atoms[..old(|atoms|)] == old(atoms) && marks[..old(|marks|)] == old(marks)
      ensures forall i :: old(|atoms|) <= i < |atoms| ==> atoms[i] == Atom(i, false, None) && marks[i] == Mark(i, 0)
      ensures size == old(size) && sizeNext == old(sizeNext)
    {
      if |atoms| <= sizeNext {
        GrowCapacity(GrowAmount);
      }
    }

    /** reserve(n): grows BY n (not to n) when the capacity is below n;
        otherwise nothing changes. The capacity never shrinks. */
    method Reserve(n: nat)
      requires Valid()
      modifies this
      ensures Valid()
      ensures |atoms| == if old(|atoms|) < n then old(|atoms|) + n else old(|atoms|)
      ensures n <= |atoms|
      ensures atoms[..old(|atoms|)] == old(atoms) && marks[..old(|marks|)] == old(marks)
      ensures forall i :: old(|atoms|) <= i < |atoms| ==> atoms[i] == Atom(i, false, None) && marks[i] == Mark(i, 0)
      ensures size == old(size) && sizeNext == old(sizeNext)
    {
      if |atoms| < n {
        GrowCapacity(n);
      }
    }

    /** create: constructs x in slot sizeNext, marks it alive, points its mark
        at it, bumps the mark's generation by one and returns a handle that
        is alive and reaches x. */
    method Create(x: T) returns (h: Handle)
      requires Valid()
      modifies this
      ensures Valid()
      ensures h.markIdx < |marks| && IsAlive(h) && h.ctr % 2 == 1
      ensures old(sizeNext) < |atoms|
      ensures atoms[old(sizeNext)] == Atom(h.markIdx, true, Some(x))
      ensures marks[h.markIdx].idx == old(sizeNext) && Get(h) == x
      ensures h.ctr == (if h.markIdx < old(|marks|) then old(marks[h.markIdx].ctr) else 0) + 1
      ensures sizeNext == old(sizeNext) + 1 && size == old(size)
      ensures |atoms| == if old(|atoms|) <= old(sizeNext) then old(|atoms|) + GrowAmount else old(|atoms|)
      ensures forall i :: 0 <= i < |atoms| && i != old(sizeNext) ==>
        atoms[i] == if i < old(|atoms|) then old(atoms[i]) else Atom(i, false, None)
      ensures forall m :: 0 <= m < |marks| && m != h.markIdx ==>
        marks[m] == if m < old(|marks|) then old(marks[m]) else Mark(m, 0)
    {
      GrowIfNeeded();
      // initData: the slot must not be alive yet, and holds nothing
      assert !atoms[sizeNext].alive && atoms[sizeNext].data.None?;
      atoms := atoms[sizeNext := atoms[sizeNext].(alive := true, data := Some(x))];
      var cIdx := atoms[sizeNext].markIdx;
      ghost var marks0 := marks;
      marks := marks[cIdx := Mark(sizeNext, marks[cIdx].ctr + 1)];
      sizeNext := sizeNext + 1;
      h := Handle(cIdx, marks[cIdx].ctr);
      CreatedIsValid(marks0);
    }

    /** The state create leaves behind is valid: the slot at the old
        sizeNext became created and its mark's generation turned odd. */
    lemma CreatedIsValid(marks0: seq<Mark>)
      requires MarkPermutation() && 0 < sizeNext <= |atoms| && size < sizeNext && |marks0| == |marks|
      requires forall m :: 0 <= m < |marks0| ==> marks0[m].idx < |atoms|
      requires forall m :: 0 <= m < |marks0| && slotOf[m] < sizeNext - 1 ==> marks0[m].idx == slotOf[m]
      requires forall m :: 0 <= m < |marks0| ==> (marks0[m].ctr % 2 == 1 <==> slotOf[m] < sizeNext - 1)
      requires forall i :: 0 <= i < sizeNext ==> atoms[i].data.Some?
      requires forall i :: sizeNext <= i < |atoms| ==> !atoms[i].alive && atoms[i].data.None?
      requires var c := atoms[sizeNext - 1].markIdx;
        marks == marks0[c := Mark(sizeNext - 1, marks0[c].ctr + 1)]
      ensures Valid()
    {
      var c := atoms[sizeNext - 1].markIdx;
      assert slotOf[c] == sizeNext - 1;
    }

    /** The private destroy(markIdx): clears the alive flag of the atom the
        mark designates, and nothing else. */
    method DestroyMark(markIdx: nat)
      requires Valid() && markIdx < |marks|
      modifies this
      ensures Valid()
      ensures atoms == old(atoms[marks[markIdx].idx := atoms[marks[markIdx].idx].(alive := false)])
      ensures marks == old(marks) && size == old(size) && sizeNext == old(sizeNext)
    {
      var i := marks[markIdx].idx;
      atoms := atoms[i := atoms[i].(alive := false)];
    }

    /** Handle::destroy, on an alive handle: only the alive flag of its atom
        changes; generations do not, so the handle still reports alive until
        the next refresh, and destroying twice changes nothing more. Every
        handle create returns carries an odd generation; for those, the
        atoms of all other marks are untouched. */
    method Destroy(h: Handle)
      requires Valid() && h.markIdx < |marks| && IsAlive(h)
      modifies this
      ensures Valid()
      ensures atoms == old(atoms[marks[h.markIdx].idx := atoms[marks[h.markIdx].idx].(alive := false)])
      ensures old(!atoms[marks[h.markIdx].idx].alive) ==> atoms == old(atoms)
      ensures marks == old(marks) && size == old(size) && sizeNext == old(sizeNext)
      ensures IsAlive(h)
      ensures h.ctr % 2 == 1 ==>
        forall m :: 0 <= m < |marks| && m != h.markIdx ==> atoms[slotOf[m]] == old(atoms[slotOf[m]])
    {
      DestroyMark(h.markIdx);
    }

    /** Mark m designates a created slot whose atom is alive: refresh keeps it. */
    ghost predicate Survives(m: nat)
      reads this
      requires MarkPermutation() && m < |marks|
    {
      slotOf[m] < sizeNext && atoms[slotOf[m]].alive
    }

    /** Mark m designates a created slot whose atom was set dead: refresh
        destroys the element and bumps the generation. */
    ghost predicate Doomed(m: nat)
      reads this
      requires MarkPermutation() && m < |marks|
    {
      slotOf[m] < sizeNext && !atoms[slotOf[m]].alive
    }

    /** refresh: compacts the created slots into an alive prefix, in three
        loops over the storage (Scan, ReleaseDead, Resync) whose results are
        written back. Afterwards size == sizeNext == the number of atoms that
        were alive; the prefix holds exactly those atoms; every doomed mark's
        generation went up by one (its handles die), surviving marks keep
        their generation and designate their atom at its new slot; free
        marks are untouched. */
    method Refresh()
      requires Valid()
      modifies this
      ensures Valid()
      ensures size == sizeNext && |atoms| == old(|atoms|) && |marks| == old(|marks|)
      ensures size == |Survivors(old(atoms[..sizeNext]))|
      ensures multiset(atoms[..size]) == multiset(Survivors(old(atoms[..sizeNext])))
      ensures forall i :: 0 <= i < size ==> atoms[i].alive
      ensures forall i :: size <= i < old(sizeNext) ==> !atoms[i].alive && atoms[i].data == None
      ensures forall i :: old(sizeNext) <= i < |atoms| ==> atoms[i] == old(atoms[i])
      ensures forall m :: 0 <= m < |marks| ==>
        marks[m].ctr == old(marks[m].ctr) + if old(Doomed(m)) then 1 else 0
      ensures forall m :: 0 <= m < |marks| && old(Survives(m)) ==>
        marks[m].idx < size && atoms[marks[m].idx] == old(atoms[marks[m].idx])
      ensures forall m :: 0 <= m < |marks| && !old(Survives(m)) ==> marks[m].idx == old(marks[m].idx)
      ensures forall m :: 0 <= m < |marks| && !old(InUse(m)) ==> marks[m] == old(marks[m])
    {
      atoms, marks, slotOf, size, sizeNext := Compact(atoms, marks, slotOf, size, sizeNext);
    }

    /** cleanUpMemory: refresh, then destroy every remaining element. Each
        of them is alive and holds its element when it is reached, so every
        element is destroyed exactly once; afterwards no slot holds one.
        The marks keep the generations refresh gave them. The manager is left with created slots but no elements; only clear
        and the destructor call it. */
    method CleanUpMemory()
      requires Valid()
      modifies this
      ensures |atoms| == old(|atoms|) && |marks| == old(|marks|)
      ensures size == sizeNext == |Survivors(old(atoms[..sizeNext]))|
      ensures forall i :: 0 <= i < |atoms| ==> !atoms[i].alive && atoms[i].data == None
      ensures forall m :: 0 <= m < |marks| ==>
        marks[m].ctr == old(marks[m].ctr) + if old(Doomed(m)) then 1 else 0
    {
      Refresh();
      ghost var refreshed := marks;
      var i := 0;
      while i < size
        invariant marks == refreshed
        invariant i <= size == sizeNext <= |atoms| && |atoms| == old(|atoms|) && |marks| == old(|marks|)
        invariant size == |Survivors(old(atoms[..sizeNext]))|
        invariant forall p :: 0 <= p < i ==> !atoms[p].alive && atoms[p].data == None
        invariant forall p :: i <= p < size ==> atoms[p].alive && atoms[p].data.Some?
        invariant forall p :: size <= p < |atoms| ==> !atoms[p].alive && atoms[p].data == None
      {
        assert atoms[i].alive;
        atoms := atoms[i := atoms[i].(alive := false)];
        // deinitData: dead now, and still holding its element
        assert atoms[i].data.Some?;
        atoms := atoms[i := atoms[i].(data := None)];
        i := i + 1;
      }
    }

    /** clear: destroys every element, then empties both vectors; the
        manager is valid and empty again. */
    method Clear()
      requires Valid()
      modifies this
      ensures Valid()
      ensures atoms == [] && marks == [] && size == 0 && sizeNext == 0
    {
      CleanUpMemory();
      atoms, marks := [], [];
      slotOf := [];
      size, sizeNext := 0, 0;
    }

    /** forEach: applies f to the element of every slot in [0, size), in
        order, and returns the elements visited. Slots created since the
        last refresh (from size to sizeNext) are not visited. getData
        requires every visited atom to be alive. */
    method ForEach(f: T -> T) returns (visited: seq<T>)
      requires Valid() && forall i :: 0 <= i < size ==> atoms[i].alive
      modifies this
      ensures Valid()
      ensures marks == old(marks) && size == old(size) && sizeNext == old(sizeNext) && |atoms| == old(|atoms|)
      ensures |visited| == size && forall i :: 0 <= i < size ==> old(atoms[i].data) == Some(visited[i])
      ensures forall i :: 0 <= i < |atoms| ==>
        atoms[i] == if i < size then old(atoms[i]).(data := Some(f(visited[i]))) else old(atoms[i])
    {
      visited := [];
      var i := 0;
      while i < size
        invariant i <= size <= sizeNext <= |atoms| == old(|atoms|)
        invariant marks == old(marks) && size == old(size) && sizeNext == old(sizeNext) && slotOf == old(slotOf)
        invariant |visited| == i && forall p :: 0 <= p < i ==> old(atoms[p].data) == Some(visited[p])
        invariant forall p :: 0 <= p < |atoms| ==>
          atoms[p] == if p < i then old(atoms[p]).(data := Some(f(visited[p]))) else old(atoms[p])
      {
        var x := atoms[i].data.value;
        visited := visited + [x];
        atoms := atoms[i := atoms[i].(data := Some(f(x)))];
        i := i + 1;
      }
    }

    /** forEachAtom: calls f on every atom in [0, size), in order. The
        callback reaches the element through getData, which asserts that the
        atom is alive, and may rewrite it and set the atom dead; f returns
        the new element and whether to set the atom dead. The particle
        system's callback is f(x) = (x, x.life <= 0). */
    method ForEachAtom(f: T -> (T, bool))
      requires Valid() && forall i :: 0 <= i < size ==> atoms[i].alive
      modifies this
      ensures Valid()
      ensures marks == old(marks) && size == old(size) && sizeNext == old(sizeNext) && |atoms| == old(|atoms|)
      ensures forall i :: 0 <= i < |atoms| ==>
        atoms[i] == if i < size then Visited(old(atoms[i]), f) else old(atoms[i])
    {
      var i := 0;
      while i < size
        invariant i <= size <= sizeNext <= |atoms| == old(|atoms|)
        invariant marks == old(marks) && size == old(size) && sizeNext == old(sizeNext) && slotOf == old(slotOf)
        invariant forall p :: 0 <= p < |atoms| ==>
          atoms[p] == if p < i then Visited(old(atoms[p]), f) else old(atoms[p])
      {
        var (x, dies) := f(atoms[i].data.value);
        atoms := atoms[i := atoms[i].(data := Some(x), alive := !dies)];
        i := i + 1;
      }
    }
  }

  /** The body of refresh on the manager's fields: the scan, the clean-up
      and the resync in turn. */
  method Compact<T>(a0: seq<Atom<T>>, marks0: seq<Mark>, ghost s0: seq<nat>, size0: nat, n0: nat)
    returns (a2: seq<Atom<T>>, marks2: seq<Mark>, ghost s1: seq<nat>, n: nat, n': nat)
    requires Wellformed(a0, marks0, s0, size0, n0)
    ensures n' == n && Wellformed(a2, marks2, s1, n, n)
    ensures |a2| == |a0| && |marks2| == |marks0|
    ensures n == |Survivors(a0[..n0])|
    ensures multiset(a2[..n]) == multiset(Survivors(a0[..n0]))
    ensures forall i :: 0 <= i < n ==> a2[i].alive
    ensures forall i :: n <= i < n0 ==> !a2[i].alive && a2[i].data == None
    ensures forall i :: n0 <= i < |a2| ==> a2[i] == a0[i]
    ensures forall m :: 0 <= m < |marks2| ==>
      marks2[m].ctr == marks0[m].ctr + if s0[m] < n0 && !a0[s0[m]].alive then 1 else 0
    ensures forall m :: 0 <= m < |marks2| && s0[m] < n0 && a0[s0[m]].alive ==>
      marks2[m].idx < n && a2[marks2[m].idx] == a0[marks0[m].idx]
    ensures forall m :: 0 <= m < |marks2| && !(s0[m] < n0 && a0[s0[m]].alive) ==> marks2[m].idx == marks0[m].idx
    ensures forall m :: 0 <= m < |marks2| && !(s0[m] < n0) ==> marks2[m] == marks0[m]
  {
    var scanned, so, count := Scan(a0, s0, n0);
    PermutedKeepsData(scanned, a0, n0);
    var iAlive := count as int - 1;
    var released, bumped := ReleaseDead(scanned, marks0, so, iAlive + 1, n0);
    var synced, resynced := Resync(released, bumped, so, iAlive);
    RefreshOutcome(a0, s0, marks0, size0, n0, scanned, so, resynced, released, bumped, synced);
    a2, marks2, s1, n, n' := released, synced, so, resynced, resynced;
  }

  /** The state of refresh's scan over a0[..end]: [0, i) alive, [i, iDead]
      dead (iDead == end only once the scan is over), slotOf still the
      inverse, every atom still the atom of its mark, [0, end) permuted and
      the rest untouched. */
  ghost predicate ScanInv<T>(a0: seq<Atom<T>>, s0: seq<nat>, end: nat,
                             a: seq<Atom<T>>, so: seq<nat>, i: nat, iDead: nat)
    requires IsInverse(a0, s0)
  {
    && i <= iDead <= end <= |a| == |a0|
    && (iDead == end ==> i == end)
    && (forall p :: 0 <= p < i ==> a[p].alive)
    && (forall p :: i <= p <= iDead && p < end ==> !a[p].alive)
    && IsInverse(a, so)
    && (forall p :: end <= p < |a| ==> a[p] == a0[p])
    && (forall p :: 0 <= p < |a| ==> a[p] == a0[s0[a[p].markIdx]])
    && multiset(a[..end]) == multiset(a0[..end])
  }

  /** One swap of the scan: the dead atom at i trades places with the first
      alive atom k after iDead. */
  lemma ScanSwap<T>(a0: seq<Atom<T>>, s0: seq<nat>, end: nat,
                    a: seq<Atom<T>>, so: seq<nat>, i: nat, iDead: nat, k: nat)
    requires IsInverse(a0, s0) && ScanInv(a0, s0, end, a, so, i, iDead)
    requires i < end && iDead < k < end && a[k].alive
    requires forall p :: iDead < p < k ==> !a[p].alive
    ensures ScanInv(a0, s0, end, a[i := a[k]][k := a[i]],
                    so[a[i].markIdx := k][a[k].markIdx := i], i + 1, k)
  {
    SwapKeepsInverse(a, so, i, k);
    SwapKeepsPrefix(a, i, k, end);
  }

  /** The two-index scan of refresh on a local copy of the storage:
      alive atoms of [0, end) are swapped down over dead ones (slotOf follows
      every swap) until [0, n) is alive and [n, end) dead. Every atom stays
      the atom of its mark, [0, end) is permuted and the rest is untouched. */
  method Scan<T>(a0: seq<Atom<T>>, ghost s0: seq<nat>, end: nat)
    returns (a: seq<Atom<T>>, ghost so: seq<nat>, n: nat)
    requires IsInverse(a0, s0) && end <= |a0|
    ensures IsInverse(a, so) && |a| == |a0|
    ensures n <= end
    ensures forall p :: 0 <= p < n ==> a[p].alive
    ensures forall p :: n <= p < end ==> !a[p].alive
    ensures forall p :: end <= p < |a| ==> a[p] == a0[p]
    ensures forall p :: 0 <= p < |a| ==> a[p] == a0[s0[a[p].markIdx]]
    ensures multiset(a[..end]) == multiset(a0[..end])
  {
    a, so := a0, s0;
    var iDead := FindDead(a, end);
    var i := iDead;
    while i < end
      invariant ScanInv(a0, s0, end, a, so, i, iDead)
    {
      if !a[i].alive {
        var k := FindAlive(a, iDead + 1, end);
        if k == end {
          // no alive atom after the dead ones: the scan is over
          break;
        }
        ScanSwap(a0, s0, end, a, so, i, iDead, k);
        so := so[a[i].markIdx := k][a[k].markIdx := i];
        a := a[i := a[k]][k := a[i]];
        iDead := k;
      }
      i := i + 1;
    }
    n := i;
  }

  /** The clean-up loop of refresh: every atom in [first, end) is dead and
      still holds its element; destroy it (exactly once) and bump the
      generation of its mark. */
  method ReleaseDead<T>(a: seq<Atom<T>>, marks: seq<Mark>, ghost so: seq<nat>, first: nat, end: nat)
    returns (released: seq<Atom<T>>, bumped: seq<Mark>)
    requires IsInverse(a, so) && |marks| == |a| && first <= end <= |a|
    requires forall i :: first <= i < end ==> !a[i].alive && a[i].data.Some?
    ensures IsInverse(released, so)
    ensures |released| == |a| && forall i :: 0 <= i < |a| ==>
      released[i] == if first <= i < end then a[i].(data := None) else a[i]
    ensures |bumped| == |marks| && forall m :: 0 <= m < |marks| ==>
      bumped[m] == marks[m].(ctr := marks[m].ctr + if first <= so[m] < end then 1 else 0)
  {
    released, bumped := a, marks;
    var j := first;
    while j < end
      invariant first <= j <= end
      invariant |released| == |a| && forall i :: 0 <= i < |a| ==>
        released[i] == if first <= i < j then a[i].(data := None) else a[i]
      invariant |bumped| == |marks| && forall m :: 0 <= m < |marks| ==>
        bumped[m] == marks[m].(ctr := marks[m].ctr + if first <= so[m] < j then 1 else 0)
    {
      // deinitData: the atom is dead and its element is still constructed
      assert !released[j].alive && released[j].data.Some?;
      released := released[j := released[j].(data := None)];
      var m := released[j].markIdx;
      bumped := bumped[m := bumped[m].(ctr := bumped[m].ctr + 1)];
      j := j + 1;
    }
  }

  /** The final loop of refresh: the mark of every atom in [0, iAlive] is
      pointed at that atom's slot. Returns n == iAlive + 1. */
  method Resync<T>(a: seq<Atom<T>>, marks: seq<Mark>, ghost so: seq<nat>, iAlive: int)
    returns (synced: seq<Mark>, n: nat)
    requires IsInverse(a, so) && |marks| == |a| && -1 <= iAlive < |a|
    ensures n == iAlive + 1
    ensures |synced| == |marks| && forall m :: 0 <= m < |marks| ==>
      synced[m] == if so[m] < n then marks[m].(idx := so[m]) else marks[m]
  {
    synced := marks;
    n := 0;
    while n <= iAlive
      invariant 0 <= n <= iAlive + 1
      invariant |synced| == |marks| && forall m :: 0 <= m < |marks| ==>
        synced[m] == if so[m] < n then marks[m].(idx := so[m]) else marks[m]
    {
      var m := a[n].markIdx;
      synced := synced[m := synced[m].(idx := n)];
      n := n + 1;
    }
  }

  /** The first scan of refresh: the first dead slot below end, or end. */
  method FindDead<T>(a: seq<Atom<T>>, end: nat) returns (k: nat)
    requires end <= |a|
    ensures k <= end
    ensures forall p :: 0 <= p < k ==> a[p].alive
    ensures k < end ==> !a[k].alive
  {
    k := 0;
    while k < end && a[k].alive
      invariant k <= end
      invariant forall p :: 0 <= p < k ==> a[p].alive
    {
      k := k + 1;
    }
  }

  /** The inner search of refresh: the first alive slot in [from, end), or
      end. The end test comes BEFORE the slot is read (the source reads
      first, past the end of a full storage). */
  method FindAlive<T>(a: seq<Atom<T>>, from: nat, end: nat) returns (k: nat)
    requires from <= end <= |a|
    ensures from <= k <= end
    ensures forall p :: from <= p < k ==> !a[p].alive
    ensures k < end ==> a[k].alive
    ensures SearchAlive(AliveFlags(a), from, end) == if k == end then Exhausted else Found(k)
  {
    k := from;
    while true
      invariant from <= k <= end
      invariant forall p :: from <= p < k ==> !a[p].alive
      invariant SearchAlive(AliveFlags(a), from, end) == SearchAlive(AliveFlags(a), k, end)
      decreases end - k
    {
      if k == end || a[k].alive {
        return;
      }
      k := k + 1;
    }
  }

  /** Handle::destroy as written calls the private destroy(markIdx) without
      asking isAlive. Create x and y, destroy x's handle, refresh: x's
      handle is now dead, but its mark still designates slot 0, where y now
      lives. Destroying through the stale handle sets y dead although y's
      handle was never destroyed and still reports alive. */
  method StaleHandleScenario<T>(x: T, y: T) returns (m: Manager<T>, hx: Handle, hy: Handle)
    ensures m.Valid() && hx.markIdx < |m.marks| && hy.markIdx < |m.marks|
    ensures !m.IsAlive(hx)
    ensures m.IsAlive(hy) && hy.ctr % 2 == 1
    ensures m.marks[hx.markIdx].idx == m.marks[hy.markIdx].idx
    ensures !m.atoms[m.marks[hy.markIdx].idx].alive
  {
    m := new Manager<T>();
    hx := m.Create(x);
    hy := m.Create(y);
    assert m.slotOf[hx.markIdx] == 0 && m.slotOf[hy.markIdx] == 1;
    m.Destroy(hx);
    assert m.atoms[..2] == [m.atoms[0], m.atoms[1]];
    assert Survivors(m.atoms[..2]) == [m.atoms[1]];
    m.Refresh();
    m.DestroyMark(hx.markIdx);
  }

  /** The storage state of the first finding: reserve(10), ten creates and
      the destruction of the last one. Every slot is created, so sizeNext
      equals the capacity; the first scan of refresh stops at the dead slot
      9, and the inner search then starts at 10. As written it reads slot
      10, one past the end; the corrected search reports no alive slot. */
  method FullStorageScenario<T>(x: T) returns (m: Manager<T>)
    ensures m.Valid() && |m.atoms| == 10 && m.sizeNext == 10
    ensures forall p :: 0 <= p < 9 ==> m.atoms[p].alive
    ensures !m.atoms[9].alive
    ensures SearchAliveAsWritten(AliveFlags(m.atoms), 10, m.sizeNext) == ReadsPastEnd
    ensures SearchAlive(AliveFlags(m.atoms), 10, m.sizeNext) == Exhausted
  {
    m := new Manager<T>();
    m.Reserve(10);
    var h := m.Create(x);
    var i := 1;
    while i < 10
      invariant 1 <= i <= 10
      invariant m.Valid() && |m.atoms| == 10 && m.sizeNext == i
      invariant forall p :: 0 <= p < i ==> m.atoms[p].alive
      invariant h.markIdx < |m.marks| && m.IsAlive(h) && m.marks[h.markIdx].idx == i - 1
    {
      h := m.Create(x);
      i := i + 1;
    }
    m.Destroy(h);
  }
}
