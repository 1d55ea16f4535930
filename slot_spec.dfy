/**
 * Value-level vocabulary of the generation-checked slot manager
 * (ob::t::Manager, Random/testingOBParticleSystem.cpp): slots ("atoms"),
 * marks, handles, and the pure facts the manager's proofs rest on.
 */
module SlotSpec {
  import opened Wrappers

  /** A slot of the backing store: the mark that currently owns it, the
      liveness flag, and the element storage (None = nothing constructed,
      the explicit replacement of the placement-new storage). */
  datatype Atom<T> = Atom(markIdx: nat, alive: bool, data: Option<T>)

  /** A mark: the slot it designates and its generation counter. */
  datatype Mark = Mark(idx: nat, ctr: nat)

  /** A handle: the mark it is bound to and the counter it saw at creation.
      The manager is passed explicitly to every handle operation. */
  datatype Handle = Handle(markIdx: nat, ctr: nat)

  /** The alive atoms of s, in order. */
  function Survivors<T>(s: seq<Atom<T>>): (r: seq<Atom<T>>)
    ensures |r| <= |s|
  {
    if s == [] then []
    else (if s[0].alive then [s[0]] else []) + Survivors(s[1..])
  }

  /** An atom survives exactly when it occurs in s and is alive. */
  lemma {:induction false} SurvivorsMembers<T>(s: seq<Atom<T>>)
    ensures forall i :: 0 <= i < |Survivors(s)| ==> Survivors(s)[i] in s && Survivors(s)[i].alive
    ensures forall i :: 0 <= i < |s| && s[i].alive ==> s[i] in Survivors(s)
  {
    if s != [] {
      SurvivorsMembers(s[1..]);
      var r := Survivors(s);
      var head := if s[0].alive then [s[0]] else [];
      assert r == head + Survivors(s[1..]);
      forall i | 0 <= i < |s| && s[i].alive ensures s[i] in r {
        if i > 0 { assert s[i] == s[1..][i - 1]; }
      }
    }
  }

  lemma {:induction false} SurvivorsConcat<T>(u: seq<Atom<T>>, v: seq<Atom<T>>)
    ensures Survivors(u + v) == Survivors(u) + Survivors(v)
  {
    if u == [] {
      assert u + v == v;
    } else {
      assert (u + v)[0] == u[0];
      assert (u + v)[1..] == u[1..] + v;
      SurvivorsConcat(u[1..], v);
    }
  }

  /** Taking one atom x out of the middle of u + [x] + v takes it out of
      the survivors. */
  lemma SurvivorsRemove<T>(u: seq<Atom<T>>, x: Atom<T>, v: seq<Atom<T>>)
    ensures multiset(Survivors(u + ([x] + v))) == multiset(Survivors(u + v)) + multiset(Survivors([x]))
  {
    SurvivorsConcat(u, [x] + v);
    SurvivorsConcat([x], v);
    SurvivorsConcat(u, v);
  }

  /** Slicing facts for the permutation proof, kept apart from Survivors. */
  lemma SplitAt<T>(a: seq<T>, b: seq<T>, j: nat)
    requires 0 < |a| && j < |b| && b[j] == a[0] && multiset(a) == multiset(b)
    ensures b == b[..j] + ([b[j]] + b[j + 1..])
    ensures a == [] + ([a[0]] + a[1..])
    ensures multiset(b[..j] + b[j + 1..]) == multiset(a[1..])
  {
    assert b == b[..j] + [b[j]] + b[j + 1..];
    assert multiset(b[..j] + b[j + 1..]) == multiset(b) - multiset{b[j]};
    assert a == [a[0]] + a[1..];
    assert multiset(a[1..]) == multiset(a) - multiset{a[0]};
  }

  /** Survivors only depends on the multiset of atoms: reordering the
      slots (as the swap compaction does) keeps the same survivors. */
  lemma {:induction false} SurvivorsRespectsPermutation<T>(a: seq<Atom<T>>, b: seq<Atom<T>>)
    requires multiset(a) == multiset(b)
    ensures multiset(Survivors(a)) == multiset(Survivors(b))
    decreases |a|
  {
    if a == [] {
      assert |b| == |multiset(b)| == 0;
    } else {
      var x := a[0];
      assert x in multiset(b);
      var j :| 0 <= j < |b| && b[j] == x;
      SplitAt(a, b, j);
      var u, v := b[..j], b[j + 1..];
      SurvivorsRespectsPermutation(a[1..], u + v);
      SurvivorsRemove(u, x, v);
      SurvivorsRemove([], x, a[1..]);
    }
  }

  /** A sequence made of an alive prefix of length n and a dead rest
      survives as exactly its prefix. */
  lemma {:induction false} SurvivorsOfPartition<T>(s: seq<Atom<T>>, n: nat)
    requires n <= |s|
    requires forall i :: 0 <= i < n ==> s[i].alive
    requires forall i :: n <= i < |s| ==> !s[i].alive
    ensures Survivors(s) == s[..n]
    decreases |s|
  {
    if s != [] {
      if n == 0 {
        SurvivorsOfPartition(s[1..], 0);
      } else {
        SurvivorsOfPartition(s[1..], n - 1);
        assert s[..n] == [s[0]] + s[1..][..n - 1];
      }
    }
  }

  /** The markIdx fields of atoms are a permutation of [0, |atoms|) and
      slotOf is its inverse: the atom of mark m stands at slot slotOf[m]. */
  ghost predicate IsInverse<T>(atoms: seq<Atom<T>>, slotOf: seq<nat>)
  {
    && |slotOf| == |atoms|
    && (forall i :: 0 <= i < |atoms| ==> atoms[i].markIdx < |atoms| && slotOf[atoms[i].markIdx] == i)
    && (forall m :: 0 <= m < |slotOf| ==> slotOf[m] < |atoms| && atoms[slotOf[m]].markIdx == m)
  }

  /** Swapping two atoms and the two slotOf entries of their marks keeps
      slotOf the inverse. */
  lemma SwapKeepsInverse<T>(a: seq<Atom<T>>, so: seq<nat>, i: nat, k: nat)
    requires IsInverse(a, so) && i < k < |a|
    ensures IsInverse(a[i := a[k]][k := a[i]], so[a[i].markIdx := k][a[k].markIdx := i])
  {
  }

  /** Swapping two atoms below n permutes the prefix of length n and leaves
      the rest alone. */
  lemma SwapKeepsPrefix<T>(a: seq<Atom<T>>, i: nat, k: nat, n: nat)
    requires i < k < n <= |a|
    ensures multiset(a[i := a[k]][k := a[i]][..n]) == multiset(a[..n])
  {
    assert a[i := a[k]][k := a[i]][..n] == a[..n][i := a[k]][k := a[i]];
  }

  /** When a permutation of a0[..end] keeps every atom the atom of its mark
      and leaves the rest of a0 alone, each mark's atom is the one it had,
      and stands below end exactly when it stood there before. */
  lemma {:induction false} TrackedMarks<T>(a0: seq<Atom<T>>, s0: seq<nat>, a: seq<Atom<T>>, so: seq<nat>, end: nat)
    requires IsInverse(a0, s0) && IsInverse(a, so) && |a| == |a0| && end <= |a|
    requires forall p :: end <= p < |a| ==> a[p] == a0[p]
    requires forall p :: 0 <= p < |a| ==> a[p] == a0[s0[a[p].markIdx]]
    ensures forall m :: 0 <= m < |so| ==> a[so[m]] == a0[s0[m]]
    ensures forall m :: 0 <= m < |so| ==> (so[m] < end <==> s0[m] < end)
  {
    forall m | 0 <= m < |so|
      ensures a[so[m]] == a0[s0[m]] && (so[m] < end <==> s0[m] < end)
    {
      var p := so[m];
      assert a[p] == a0[s0[m]];
      if p >= end {
        assert a0[p] == a[p];
      }
      var q := s0[m];
      if q >= end {
        assert a[q] == a0[q];
      }
    }
  }

  /** Once s[..cut] is alive and s[cut..n] dead, s[..cut] holds the
      survivors of any permutation of s[..n]. */
  lemma PartitionSurvivors<T>(s: seq<Atom<T>>, before: seq<Atom<T>>, n: nat, cut: nat)
    requires cut <= n <= |s|
    requires multiset(s[..n]) == multiset(before)
    requires forall i :: 0 <= i < cut ==> s[i].alive
    requires forall i :: cut <= i < n ==> !s[i].alive
    ensures multiset(s[..cut]) == multiset(Survivors(before))
  {
    var prefix := s[..n];
    SurvivorsOfPartition(prefix, cut);
    SurvivorsRespectsPermutation(prefix, before);
    assert prefix[..cut] == s[..cut];
  }

  /** The manager's invariant over its storage: the atoms' markIdx fields
      are a permutation with inverse slotOf; [0, sizeNext) are the created
      slots, each holding an element and designated by its mark; a
      generation is odd exactly while its mark designates a created slot;
      the slots past sizeNext are dead and empty. */
  ghost predicate Wellformed<T>(atoms: seq<Atom<T>>, marks: seq<Mark>, slotOf: seq<nat>, size: nat, sizeNext: nat)
  {
    && |marks| == |atoms| && IsInverse(atoms, slotOf)
    && size <= sizeNext <= |atoms|
    && (forall m :: 0 <= m < |marks| ==> marks[m].idx < |atoms|)
    && (forall m :: 0 <= m < |marks| && slotOf[m] < sizeNext ==> marks[m].idx == slotOf[m])
    && (forall m :: 0 <= m < |marks| ==> (marks[m].ctr % 2 == 1 <==> slotOf[m] < sizeNext))
    && (forall i :: 0 <= i < sizeNext ==> atoms[i].data.Some?)
    && (forall i :: sizeNext <= i < |atoms| ==> !atoms[i].alive && atoms[i].data.None?)
  }

  /** A permutation of a prefix whose atoms all hold an element still does. */
  lemma PermutedKeepsData<T>(a: seq<Atom<T>>, a0: seq<Atom<T>>, end: nat)
    requires end <= |a| && end <= |a0| && multiset(a[..end]) == multiset(a0[..end])
    requires forall i :: 0 <= i < end ==> a0[i].data.Some?
    ensures forall i :: 0 <= i < end ==> a[i].data.Some?
  {
    forall i | 0 <= i < end
      ensures a[i].data.Some?
    {
      assert a[..end][i] == a[i];
      assert a[i] in multiset(a0[..end]);
      var j :| 0 <= j < end && a0[..end][j] == a[i];
    }
  }

  /** The state refresh leaves behind, from what its three loops do: the
      scan (a0, s0 to a1, s1, alive prefix of length n), the clean-up (a1 to
      a2, marks0 to marks1) and the resync (marks1 to marks2). It is well
      formed with size == sizeNext == n; its prefix holds the atoms that were
      alive; doomed marks gained one generation, surviving marks designate
      their old atom below n, free marks are as they were. */
  lemma RefreshOutcome<T>(a0: seq<Atom<T>>, s0: seq<nat>, marks0: seq<Mark>, size0: nat, n0: nat,
                          a1: seq<Atom<T>>, s1: seq<nat>, n: nat,
                          a2: seq<Atom<T>>, marks1: seq<Mark>, marks2: seq<Mark>)
    requires Wellformed(a0, marks0, s0, size0, n0)
    requires IsInverse(a1, s1) && |a1| == |a0| && n <= n0
    requires forall p :: 0 <= p < n ==> a1[p].alive
    requires forall p :: n <= p < n0 ==> !a1[p].alive
    requires forall p :: n0 <= p < |a1| ==> a1[p] == a0[p]
    requires forall p :: 0 <= p < |a1| ==> a1[p] == a0[s0[a1[p].markIdx]]
    requires multiset(a1[..n0]) == multiset(a0[..n0])
    requires |a2| == |a1| && forall i :: 0 <= i < |a1| ==>
      a2[i] == if n <= i < n0 then a1[i].(data := None) else a1[i]
    requires |marks1| == |marks0| && forall m :: 0 <= m < |marks0| ==>
      marks1[m] == marks0[m].(ctr := marks0[m].ctr + if n <= s1[m] < n0 then 1 else 0)
    requires |marks2| == |marks1| && forall m :: 0 <= m < |marks1| ==>
      marks2[m] == if s1[m] < n then marks1[m].(idx := s1[m]) else marks1[m]
    ensures Wellformed(a2, marks2, s1, n, n)
    ensures |a2| == |a0| && |marks2| == |marks0|
    ensures n == |Survivors(a0[..n0])|
    ensures multiset(a2[..n]) == multiset(Survivors(a0[..n0]))
    ensures forall i :: 0 <= i < n ==> a2[i].alive
    ensures forall i :: n <= i < n0 ==> !a2[i].alive && a2[i].data == None
    ensures forall i :: n0 <= i < |a2| ==> a2[i] == a0[i]
    ensures forall m :: 0 <= m < |marks2| ==>
      marks2[m].ctr == marks0[m].ctr + if s0[m] < n0 && !a0[s0[m]].alive then 1 else 0
    ensures forall m :: 0 <= m < |marks2| && s0[m] < n0 && a0[s0[m]].alive ==>
      marks2[m].idx < n && a2[marks2[m].idx] == a0[marks0[m].idx]
    ensures forall m :: 0 <= m < |marks2| && !(s0[m] < n0 && a0[s0[m]].alive) ==> marks2[m].idx == marks0[m].idx
    ensures forall m :: 0 <= m < |marks2| && !(s0[m] < n0) ==> marks2[m] == marks0[m]
  {
    TrackedMarks(a0, s0, a1, s1, n0);
    PermutedKeepsData(a1, a0, n0);
    RefreshedAtoms(a0, n0, a1, n, a2);
    RefreshedMarks(a0, s0, marks0, n0, a1, s1, n, a2, marks1, marks2);
    RefreshedWellformed(a0, s0, marks0, n0, a1, s1, n, a2, marks1, marks2);
  }

  /** Refresh's atoms: the alive prefix holds the survivors, the rest of the
      created slots are dead and empty, the others untouched. */
  lemma RefreshedAtoms<T>(a0: seq<Atom<T>>, n0: nat, a1: seq<Atom<T>>, n: nat, a2: seq<Atom<T>>)
    requires |a1| == |a0| && n <= n0 <= |a0|
    requires forall p :: 0 <= p < n ==> a1[p].alive
    requires forall p :: n <= p < n0 ==> !a1[p].alive
    requires forall p :: n0 <= p < |a1| ==> a1[p] == a0[p]
    requires multiset(a1[..n0]) == multiset(a0[..n0])
    requires |a2| == |a1| && forall i :: 0 <= i < |a1| ==>
      a2[i] == if n <= i < n0 then a1[i].(data := None) else a1[i]
    ensures |a2| == |a0|
    ensures n == |Survivors(a0[..n0])|
    ensures multiset(a2[..n]) == multiset(Survivors(a0[..n0]))
    ensures forall i :: 0 <= i < n ==> a2[i].alive
    ensures forall i :: n <= i < n0 ==> !a2[i].alive && a2[i].data == None
    ensures forall i :: n0 <= i < |a2| ==> a2[i] == a0[i]
  {
    PartitionSurvivors(a1, a0[..n0], n0, n);
    assert a2[..n] == a1[..n];
    assert |multiset(a2[..n])| == n;
  }

  /** Refresh's marks: a doomed mark (its atom was created and dead) gains
      one generation; a surviving mark designates its old atom below n; a
      free mark is untouched. */
  lemma RefreshedMarks<T>(a0: seq<Atom<T>>, s0: seq<nat>, marks0: seq<Mark>, n0: nat,
                          a1: seq<Atom<T>>, s1: seq<nat>, n: nat,
                          a2: seq<Atom<T>>, marks1: seq<Mark>, marks2: seq<Mark>)
    requires IsInverse(a0, s0) && IsInverse(a1, s1) && |a1| == |a0| && n <= n0 <= |a0| && |marks0| == |a0|
    requires forall m :: 0 <= m < |marks0| && s0[m] < n0 ==> marks0[m].idx == s0[m]
    requires forall p :: 0 <= p < n ==> a1[p].alive
    requires forall p :: n <= p < n0 ==> !a1[p].alive
    requires forall m :: 0 <= m < |s1| ==> a1[s1[m]] == a0[s0[m]]
    requires forall m :: 0 <= m < |s1| ==> (s1[m] < n0 <==> s0[m] < n0)
    requires |a2| == |a1| && forall i :: 0 <= i < |a1| ==>
      a2[i] == if n <= i < n0 then a1[i].(data := None) else a1[i]
    requires |marks1| == |marks0| && forall m :: 0 <= m < |marks0| ==>
      marks1[m] == marks0[m].(ctr := marks0[m].ctr + if n <= s1[m] < n0 then 1 else 0)
    requires |marks2| == |marks1| && forall m :: 0 <= m < |marks1| ==>
      marks2[m] == if s1[m] < n then marks1[m].(idx := s1[m]) else marks1[m]
    ensures |marks2| == |marks0|
    ensures forall m :: 0 <= m < |marks2| ==>
      marks2[m].ctr == marks0[m].ctr + if s0[m] < n0 && !a0[s0[m]].alive then 1 else 0
    ensures forall m :: 0 <= m < |marks2| && s0[m] < n0 && a0[s0[m]].alive ==>
      marks2[m].idx < n && a2[marks2[m].idx] == a0[marks0[m].idx]
    ensures forall m :: 0 <= m < |marks2| && !(s0[m] < n0 && a0[s0[m]].alive) ==> marks2[m].idx == marks0[m].idx
    ensures forall m :: 0 <= m < |marks2| && !(s0[m] < n0) ==> marks2[m] == marks0[m]
  {
  }

  /** Refresh leaves a well-formed manager with size == sizeNext == n. */
  lemma RefreshedWellformed<T>(a0: seq<Atom<T>>, s0: seq<nat>, marks0: seq<Mark>, n0: nat,
                               a1: seq<Atom<T>>, s1: seq<nat>, n: nat,
                               a2: seq<Atom<T>>, marks1: seq<Mark>, marks2: seq<Mark>)
    requires IsInverse(a1, s1) && |a1| == |a0| && n <= n0 <= |a0| && |marks0| == |a0| && |s0| == |s1|
    requires forall m :: 0 <= m < |marks0| ==> marks0[m].idx < |a0|
    requires forall m :: 0 <= m < |marks0| ==> (marks0[m].ctr % 2 == 1 <==> s0[m] < n0)
    requires forall i :: n0 <= i < |a0| ==> !a0[i].alive && a0[i].data.None?
    requires forall p :: n <= p < n0 ==> !a1[p].alive
    requires forall p :: 0 <= p < n0 ==> a1[p].data.Some?
    requires forall p :: n0 <= p < |a1| ==> a1[p] == a0[p]
    requires forall m :: 0 <= m < |s1| ==> (s1[m] < n0 <==> s0[m] < n0)
    requires |a2| == |a1| && forall i :: 0 <= i < |a1| ==>
      a2[i] == if n <= i < n0 then a1[i].(data := None) else a1[i]
    requires |marks1| == |marks0| && forall m :: 0 <= m < |marks0| ==>
      marks1[m] == marks0[m].(ctr := marks0[m].ctr + if n <= s1[m] < n0 then 1 else 0)
    requires |marks2| == |marks1| && forall m :: 0 <= m < |marks1| ==>
      marks2[m] == if s1[m] < n then marks1[m].(idx := s1[m]) else marks1[m]
    ensures Wellformed(a2, marks2, s1, n, n)
  {
    assert IsInverse(a2, s1);
  }

  /** An atom after forEachAtom's callback ran on it: f maps the element
      to its new value and to whether the atom is set dead. */
  function Visited<T>(a: Atom<T>, f: T -> (T, bool)): Atom<T>
    requires a.data.Some?
  {
    var (x, dies) := f(a.data.value);
    a.(data := Some(x), alive := !dies)
  }

  /** The liveness flags of a range of atoms, as the searches of refresh
      read them. */
  function AliveFlags<T>(a: seq<Atom<T>>): (r: seq<bool>)
    ensures |r| == |a| && forall i :: 0 <= i < |a| ==> r[i] == a[i].alive
  {
    seq(|a|, i requires 0 <= i < |a| => a[i].alive)
  }

  /** Outcome of the search for an alive slot inside refresh. */
  datatype Probe = Found(at: nat) | Exhausted | ReadsPastEnd

  /** The inner search of refresh as written: it reads the liveness of slot k
      before testing k == sizeNext, so when sizeNext equals the capacity it
      reads one slot past the end of the storage. */
  function SearchAliveAsWritten(alive: seq<bool>, k: nat, sizeNext: nat): (r: Probe)
    ensures r.Found? ==> k <= r.at < |alive| && alive[r.at]
    decreases |alive| - k
  {
    if k >= |alive| then ReadsPastEnd
    else if alive[k] then Found(k)
    else if k == sizeNext then Exhausted
    else SearchAliveAsWritten(alive, k + 1, sizeNext)
  }

  /** The search with the end test first: the first alive slot in
      [k, sizeNext), never reading at or beyond sizeNext. */
  function SearchAlive(alive: seq<bool>, k: nat, sizeNext: nat): (r: Probe)
    requires k <= sizeNext <= |alive|
    ensures !r.ReadsPastEnd?
    ensures r.Found? ==> k <= r.at < sizeNext && alive[r.at] && forall j :: k <= j < r.at ==> !alive[j]
    ensures r.Exhausted? ==> forall j :: k <= j < sizeNext ==> !alive[j]
    decreases sizeNext - k
  {
    if k == sizeNext then Exhausted
    else if alive[k] then Found(k)
    else SearchAlive(alive, k + 1, sizeNext)
  }

  /** When the slot at sizeNext exists and is dead, the written order and the
      corrected order give the same answer. */
  lemma {:induction false} SearchAgreesWhenRoomLeft(alive: seq<bool>, k: nat, sizeNext: nat)
    requires k <= sizeNext < |alive| && !alive[sizeNext]
    ensures SearchAliveAsWritten(alive, k, sizeNext) == SearchAlive(alive, k, sizeNext)
    decreases sizeNext - k
  {
    if k < sizeNext && !alive[k] {
      SearchAgreesWhenRoomLeft(alive, k + 1, sizeNext);
    }
  }

  /** When the storage is full (sizeNext == capacity) and no slot from k on
      is alive, the search as written reads past the end. */
  lemma {:induction false} SearchAsWrittenOverrunsFullStorage(alive: seq<bool>, k: nat)
    requires k <= |alive|
    requires forall j :: k <= j < |alive| ==> !alive[j]
    ensures SearchAliveAsWritten(alive, k, |alive|) == ReadsPastEnd
    decreases |alive| - k
  {
    if k < |alive| {
      SearchAsWrittenOverrunsFullStorage(alive, k + 1);
    }
  }
}
