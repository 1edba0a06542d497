/**
 * The state invariant of the reflection-probe manager and the specification
 * functions its methods are proved against: slot ownership of the cube-map
 * array, the slot a full array gives up, the oldest and the first dynamic
 * probe of a scan, and the probe order handed to the shader.
 */
module ReflectionState {
  import opened Wrappers
  import opened Seqs
  import opened Probes

  /** Faces per cube map; the capture cursor walks them one per tick. */
  const CUBE_FACES: nat := 6

  /**
   * Slot bookkeeping: `owner` names the probe holding each used slot, a slot
   * is used exactly when `cubeFree` says so, and every probe's `cubeIndex`
   * is -1 or the slot it owns.
   */
  ghost predicate SlotsOk(n: nat, free: seq<bool>, ps: seq<ProbeId>, st: map<ProbeId, Probe>, owner: map<nat, ProbeId>)
    requires forall p :: p in ps ==> p in st
  {
    |free| == n
    && (forall c: nat :: c in owner <==> c < n && !free[c])
    && (forall c :: c in owner ==> owner[c] in ps && st[owner[c]].cubeIndex == c)
    && (forall p {:trigger p in ps} :: p in ps && st[p].cubeIndex != -1 ==>
          0 <= st[p].cubeIndex < n && st[p].cubeIndex in owner && owner[st[p].cubeIndex] == p)
  }

  /**
   * The invariant the manager keeps between calls: the probe list and the
   * deferred create list are duplicate-free and disjoint, created probes are
   * still bare, handles below `nextId` are the only ones in use, the
   * neighbour lists form an undirected simple graph on the probe list, slot
   * ownership is consistent, and the capture cursor is `(null, 0)` or a
   * listed probe that holds a slot, with a face below 6.
   */
  ghost predicate Inv(n: nat, free: seq<bool>, ps: seq<ProbeId>, cl: seq<ProbeId>, st: map<ProbeId, Probe>,
                      owner: map<nat, ProbeId>, cursor: Option<ProbeId>, face: nat, nextId: nat)
  {
    Distinct(ps) && Distinct(cl)
    && (forall p {:trigger p in cl} :: p in cl ==> p !in ps && p in st && st[p].cubeIndex == -1 && st[p].neighbors == [])
    && (forall p :: p in st ==> p < nextId)
    && GraphOk(ps, st)
    && SlotsOk(n, free, ps, st, owner)
    && (cursor.None? ==> face == 0)
    && (cursor.Some? ==> cursor.value in ps && face < CUBE_FACES && st[cursor.value].cubeIndex != -1)
  }

  /**
   * The store with the fields the per-tick collection scan rewrites (links,
   * probe index, distance) blanked: two stores with the same `Settled`
   * image differ in those fields at most.
   */
  function Settled(st: map<ProbeId, Probe>): map<ProbeId, Probe> {
    map q | q in st :: st[q].(neighbors := [], probeIndex := -1, distance := 0.0)
  }

  /** Rewriting the scan's fields of one probe keeps the `Settled` image. */
  lemma SettledUpdate(st: map<ProbeId, Probe>, q: ProbeId, pr: Probe)
    requires q in st && pr.(neighbors := [], probeIndex := -1, distance := 0.0) == st[q].(neighbors := [], probeIndex := -1, distance := 0.0)
    ensures Settled(st[q := pr]) == Settled(st)
  {
    var a, b := Settled(st[q := pr]), Settled(st);
    assert forall x :: x in a ==> a[x] == b[x];
    SameEntries(a, b);
  }

  /** Rewriting only links keeps the `Settled` image. */
  lemma SettledLinks(st: map<ProbeId, Probe>, st2: map<ProbeId, Probe>)
    requires st2.Keys == st.Keys && forall q :: q in st ==> SameButLinks(st[q], st2[q])
    ensures Settled(st2) == Settled(st)
  {
    var a, b := Settled(st2), Settled(st);
    forall x | x in a ensures a[x] == b[x] {
      assert SameButLinks(st[x], st2[x]);
    }
    SameEntries(a, b);
  }

  /**
   * Only neighbour lists, probe indices, bind times and distances differ, so
   * the parts of the invariant about slots and membership carry over.
   */
  ghost predicate SameSlots(st: map<ProbeId, Probe>, st2: map<ProbeId, Probe>) {
    st2.Keys == st.Keys && forall q :: q in st ==> st2[q].cubeIndex == st[q].cubeIndex
  }

  /** Rewriting probe indices and bind times keeps the invariant. */
  lemma InvSameLinks(n: nat, free: seq<bool>, ps: seq<ProbeId>, cl: seq<ProbeId>, st: map<ProbeId, Probe>, st2: map<ProbeId, Probe>,
                     owner: map<nat, ProbeId>, cursor: Option<ProbeId>, face: nat, nextId: nat)
    requires Inv(n, free, ps, cl, st, owner, cursor, face, nextId)
    requires SameSlots(st, st2) && forall q :: q in st ==> st2[q].neighbors == st[q].neighbors
    ensures Inv(n, free, ps, cl, st2, owner, cursor, face, nextId)
  {
    assert forall p :: p in ps ==> LinksOk(ps, st, p);
    assert forall p :: p in ps ==> LinksOk(ps, st2, p);
  }

  /** Giving one probe a new position and distance keeps the invariant. */
  lemma InvReindex(n: nat, free: seq<bool>, ps: seq<ProbeId>, cl: seq<ProbeId>, st: map<ProbeId, Probe>,
                   owner: map<nat, ProbeId>, cursor: Option<ProbeId>, face: nat, nextId: nat,
                   q: ProbeId, index: int, distance: real)
    requires Inv(n, free, ps, cl, st, owner, cursor, face, nextId) && q in st
    ensures Inv(n, free, ps, cl, st[q := st[q].(probeIndex := index, distance := distance)], owner, cursor, face, nextId)
  {
    InvSameLinks(n, free, ps, cl, st, st[q := st[q].(probeIndex := index, distance := distance)], owner, cursor, face, nextId);
  }

  /** `mCubeFree` after slot `c` is given back (-1: no slot, nothing changes). */
  function FreedSlot(free: seq<bool>, c: int): (r: seq<bool>)
    ensures |r| == |free|
  {
    if 0 <= c < |free| then free[c := true] else free
  }

  /** Slot ownership after slot `c` is given back. */
  ghost function FreedOwner(owner: map<nat, ProbeId>, c: int): map<nat, ProbeId> {
    if c >= 0 then owner - {c as nat} else owner
  }

  /** Whether a probe is not named in the kill list `kl`. */
  function NotKilled(kl: seq<ProbeId>): ProbeId -> bool {
    q => q !in kl
  }

  /**
   * Processing one more kill-list entry erases its first occurrence, if
   * any, from what is left of the list.
   */
  lemma KillStep(p0: seq<ProbeId>, kl: seq<ProbeId>, k: nat)
    requires Distinct(p0) && k < |kl|
    ensures Filter(p0, NotKilled(kl[..k + 1])) == RemoveFirst(Filter(p0, NotKilled(kl[..k])), kl[k])
  {
    var f := NotKilled(kl[..k]);
    var x := kl[k];
    assert kl[..k + 1] == kl[..k] + [x];
    FilterRemoveFirst(p0, f, NotKilled(kl[..k + 1]), x);
  }

  /** Appending the create list to the probe list, and emptying it, keeps the invariant. */
  lemma AppendCreatedKeepsInv(n: nat, free: seq<bool>, ps: seq<ProbeId>, cl: seq<ProbeId>, st: map<ProbeId, Probe>,
                              owner: map<nat, ProbeId>, cursor: Option<ProbeId>, face: nat, nextId: nat)
    requires Inv(n, free, ps, cl, st, owner, cursor, face, nextId)
    ensures Inv(n, free, ps + cl, [], st, owner, cursor, face, nextId)
  {
    var ps2 := ps + cl;
    forall i, j | 0 <= i < j < |ps2| ensures ps2[i] != ps2[j] {
      if j >= |ps| && i < |ps| {
        assert ps2[j] in cl && ps2[i] in ps;
      }
    }
    forall p | p in ps2 ensures LinksOk(ps2, st, p) {
      if p in ps { assert LinksOk(ps, st, p); }
    }
    forall p, q | p in ps2 && q in ps2 ensures q in st[p].neighbors <==> p in st[q].neighbors {
      if p in ps && q in ps {
      } else if p in ps {
        assert LinksOk(ps, st, p);
      } else if q in ps {
        assert LinksOk(ps, st, q);
      }
    }
  }

  /** Reordering the probe list keeps the invariant: it only speaks of membership and distinctness. */
  lemma PermuteKeepsInv(n: nat, free: seq<bool>, ps: seq<ProbeId>, ps2: seq<ProbeId>, cl: seq<ProbeId>, st: map<ProbeId, Probe>,
                        owner: map<nat, ProbeId>, cursor: Option<ProbeId>, face: nat, nextId: nat)
    requires Inv(n, free, ps, cl, st, owner, cursor, face, nextId)
    requires Distinct(ps2) && forall q :: q in ps2 <==> q in ps
    ensures Inv(n, free, ps2, cl, st, owner, cursor, face, nextId)
  {
    forall p | p in ps2 ensures LinksOk(ps2, st, p) {
      assert LinksOk(ps, st, p);
    }
  }

  /** Giving the free slot `c` to a listed probe without one keeps the invariant. */
  lemma ClaimFreeSlotKeepsInv(n: nat, free: seq<bool>, ps: seq<ProbeId>, cl: seq<ProbeId>, st: map<ProbeId, Probe>,
                              owner: map<nat, ProbeId>, cursor: Option<ProbeId>, face: nat, nextId: nat,
                              p: ProbeId, c: nat)
    requires Inv(n, free, ps, cl, st, owner, cursor, face, nextId)
    requires p in ps && st[p].cubeIndex == -1 && c < |free| && free[c]
    ensures Inv(n, free[c := false], ps, cl, st[p := st[p].(hasCubeArray := true, cubeIndex := c)], owner[c := p],
                cursor, face, nextId)
  {
    var st2 := st[p := st[p].(hasCubeArray := true, cubeIndex := c)];
    var owner2 := owner[c := p];
    GraphKeepsLinks(ps, st, st2);
    forall d | d in owner2 ensures owner2[d] in ps && st2[owner2[d]].cubeIndex == d {
      if d != c {
        assert st[owner[d]].cubeIndex == d;
      }
    }
  }

  /**
   * Taking the slot of listed probe `ps[j]` and giving it to a listed probe
   * without one keeps the invariant while no capture is in progress.
   */
  lemma StealSlotKeepsInv(n: nat, free: seq<bool>, ps: seq<ProbeId>, cl: seq<ProbeId>, st: map<ProbeId, Probe>,
                          owner: map<nat, ProbeId>, nextId: nat, p: ProbeId, j: nat)
    requires Inv(n, free, ps, cl, st, owner, None, 0, nextId)
    requires p in ps && st[p].cubeIndex == -1 && j < |ps| && st[ps[j]].cubeIndex != -1
    ensures 0 <= st[ps[j]].cubeIndex < n
    ensures var v := ps[j]; var c := st[v].cubeIndex;
      Inv(n, free, ps, cl, st[v := st[v].(cubeIndex := -1)][p := st[p].(hasCubeArray := true, cubeIndex := c)],
          owner[c as nat := p], None, 0, nextId)
  {
    var v := ps[j];
    var c := st[v].cubeIndex;
    var st2 := st[v := st[v].(cubeIndex := -1)][p := st[p].(hasCubeArray := true, cubeIndex := c)];
    GraphKeepsLinks(ps, st, st2);
    StealSlots(n, free, ps, st, owner, p, v);
  }

  /** The slot bookkeeping of `StealSlotKeepsInv`. */
  lemma StealSlots(n: nat, free: seq<bool>, ps: seq<ProbeId>, st: map<ProbeId, Probe>, owner: map<nat, ProbeId>,
                   p: ProbeId, v: ProbeId)
    requires forall q :: q in ps ==> q in st
    requires SlotsOk(n, free, ps, st, owner)
    requires p in ps && st[p].cubeIndex == -1 && v in ps && st[v].cubeIndex != -1
    ensures var c := st[v].cubeIndex;
      0 <= c < n && SlotsOk(n, free, ps, st[v := st[v].(cubeIndex := -1)][p := st[p].(hasCubeArray := true, cubeIndex := c)],
                            owner[c as nat := p])
  {
    var c := st[v].cubeIndex;
    var st2 := st[v := st[v].(cubeIndex := -1)][p := st[p].(hasCubeArray := true, cubeIndex := c)];
    var owner2 := owner[c as nat := p];
    forall d | d in owner2 ensures owner2[d] in ps && st2[owner2[d]].cubeIndex == d {
      if d != c {
        assert st[owner[d]].cubeIndex == d;
      }
    }
    forall q | q in ps && st2[q].cubeIndex != -1
      ensures 0 <= st2[q].cubeIndex < n && st2[q].cubeIndex in owner2 && owner2[st2[q].cubeIndex] == q
    {
      if q != p && q != v {
        assert st[q].cubeIndex != c;
      }
    }
  }

  /**
   * The outcome of `allocateCubeIndex` on the slots `free0` and the store
   * `st0` (the slot returned, the new slots, the new store): the lowest free
   * slot, now used; failing that, the slot of the last probe at or beyond
   * position `n` that holds one, which gives it up; failing that, -1 with
   * nothing changed.
   */
  function Allocation(n: nat, free0: seq<bool>, ps: seq<ProbeId>, st0: map<ProbeId, Probe>)
    : (a: (int, seq<bool>, map<ProbeId, Probe>))
    requires |free0| == n && forall q :: q in ps ==> q in st0
    ensures |a.1| == n && a.2.Keys == st0.Keys
  {
    var first := IndexOf(free0, true);
    if first < n then (first, free0[first := false], st0)
    else
      match LastHolder(ps, st0, n, |ps|)
      case None => (-1, free0, st0)
      case Some(j) => (st0[ps[j]].cubeIndex, free0, st0[ps[j] := st0[ps[j]].(cubeIndex := -1)])
  }

  /**
   * Allocating for a probe among the first `n` positions that has no slot
   * never fails, leaves that probe alone, and recording it as the slot's
   * owner keeps the invariant.
   */
  lemma TakeSlotKeepsInv(n: nat, free0: seq<bool>, ps: seq<ProbeId>, cl: seq<ProbeId>, st0: map<ProbeId, Probe>,
                         owner0: map<nat, ProbeId>, nextId: nat, p: ProbeId)
    requires Inv(n, free0, ps, cl, st0, owner0, None, 0, nextId)
    requires p in ps && IndexOf(ps, p) < n && st0[p].cubeIndex == -1
    ensures var a := Allocation(n, free0, ps, st0);
      0 <= a.0 < n && p in a.2 && a.2[p] == st0[p]
      && Inv(n, a.1, ps, cl, a.2[p := st0[p].(hasCubeArray := true, cubeIndex := a.0)], owner0[a.0 as nat := p], None, 0, nextId)
  {
    var first := IndexOf(free0, true);
    if first < n {
      ClaimFreeSlotKeepsInv(n, free0, ps, cl, st0, owner0, None, 0, nextId, p, first);
    } else {
      StealAvailable(n, free0, ps, st0, owner0, IndexOf(ps, p));
      StealSlotKeepsInv(n, free0, ps, cl, st0, owner0, nextId, p, LastHolder(ps, st0, n, |ps|).value);
    }
  }

  /** A capture may start on a listed probe holding a slot when none is in progress. */
  lemma StartCursorKeepsInv(n: nat, free: seq<bool>, ps: seq<ProbeId>, cl: seq<ProbeId>, st: map<ProbeId, Probe>,
                            owner: map<nat, ProbeId>, nextId: nat, p: ProbeId)
    requires Inv(n, free, ps, cl, st, owner, None, 0, nextId)
    requires p in ps && st[p].cubeIndex != -1
    ensures Inv(n, free, ps, cl, st, owner, Some(p), 0, nextId)
  {
  }

  /** Putting the capture cursor back to `(null, 0)` keeps the invariant. */
  lemma ResetCursorKeepsInv(n: nat, free: seq<bool>, ps: seq<ProbeId>, cl: seq<ProbeId>, st: map<ProbeId, Probe>,
                            owner: map<nat, ProbeId>, cursor: Option<ProbeId>, face: nat, nextId: nat)
    requires Inv(n, free, ps, cl, st, owner, cursor, face, nextId)
    ensures Inv(n, free, ps, cl, st, owner, None, 0, nextId)
  {
  }

  /** Probe `q` has a slot of the cube-map array. */
  function HoldsSlot(st: map<ProbeId, Probe>): ProbeId -> bool {
    q => q in st && st[q].cubeIndex != -1
  }

  /**
   * Position of the last probe at or beyond position `n` (and below `hi`)
   * that holds a slot: the victim when the cube-map array is full.
   */
  function LastHolder(ps: seq<ProbeId>, st: map<ProbeId, Probe>, n: nat, hi: nat): (r: Option<nat>)
    requires hi <= |ps| && forall p :: p in ps ==> p in st
    ensures r.Some? ==> n <= r.value < hi && st[ps[r.value]].cubeIndex != -1
    ensures r.Some? ==> forall k :: r.value < k < hi ==> st[ps[k]].cubeIndex == -1
    ensures r.None? ==> forall k :: n <= k < hi ==> st[ps[k]].cubeIndex == -1
    decreases hi
  {
    if hi <= n then None
    else if st[ps[hi - 1]].cubeIndex != -1 then Some(hi - 1)
    else LastHolder(ps, st, n, hi - 1)
  }

  /** No map from `n` values into fewer than `n` values is injective. */
  lemma {:induction false} NoInjection(f: nat -> nat, n: nat, m: nat)
    requires m < n
    requires forall c: nat :: c < n ==> f(c) < m
    requires forall c: nat, d: nat :: c < d < n ==> f(c) != f(d)
    ensures false
    decreases n
  {
    if m == 0 {
      assert false;
    } else {
      var g: nat -> nat := c => if f(c) == m - 1 then f(n - 1) else f(c);
      forall c: nat | c < n - 1 ensures g(c) < m - 1 {
        if f(c) == m - 1 {
          assert f(n - 1) != m - 1;
        }
      }
      forall c: nat, d: nat | c < d < n - 1 ensures g(c) != g(d) {
        assert f(c) != f(n - 1) && f(d) != f(n - 1);
      }
      NoInjection(g, n - 1, m - 1);
    }
  }

  /**
   * When no slot is free and a probe within the first `n` positions holds
   * none, some probe beyond position `n` holds one: the `n` used slots have
   * `n` distinct owners, and at most `n - 1` of them fit before position `n`.
   * So the capture of the oldest probe never meets the "should never fail
   * to allocate" case.
   */
  lemma StealAvailable(n: nat, free: seq<bool>, ps: seq<ProbeId>, st: map<ProbeId, Probe>, owner: map<nat, ProbeId>, k: nat)
    requires forall p :: p in ps ==> p in st
    requires Distinct(ps) && SlotsOk(n, free, ps, st, owner)
    requires true !in free
    requires k < n && k < |ps| && st[ps[k]].cubeIndex == -1
    ensures LastHolder(ps, st, n, |ps|).Some?
  {
    if LastHolder(ps, st, n, |ps|).None? {
      var f: nat -> nat := c => OwnerRank(ps, owner, k, c);
      forall c: nat | c < n ensures f(c) < n - 1 {
        OwnerPosition(n, free, ps, st, owner, k, c);
      }
      forall c: nat, d: nat | c < d < n ensures f(c) != f(d) {
        OwnerPosition(n, free, ps, st, owner, k, c);
        OwnerPosition(n, free, ps, st, owner, k, d);
      }
      NoInjection(f, n, n - 1);
    }
  }

  /** Position of slot `c`'s owner in the list, closing the gap at position `k`. */
  function OwnerRank(ps: seq<ProbeId>, owner: map<nat, ProbeId>, k: nat, c: nat): nat {
    var i := if c in owner then IndexOf(ps, owner[c]) else 0;
    if i > k then i - 1 else i
  }

  /** With no holder beyond `n`, every owner sits before `n`, and not at `k`. */
  lemma OwnerPosition(n: nat, free: seq<bool>, ps: seq<ProbeId>, st: map<ProbeId, Probe>, owner: map<nat, ProbeId>, k: nat, c: nat)
    requires forall p :: p in ps ==> p in st
    requires SlotsOk(n, free, ps, st, owner)
    requires true !in free && LastHolder(ps, st, n, |ps|).None?
    requires k < n && k < |ps| && st[ps[k]].cubeIndex == -1
    requires c < n
    ensures c in owner && OwnerRank(ps, owner, k, c) < n - 1
    ensures forall d: nat :: d < n && d != c ==> OwnerRank(ps, owner, k, c) != OwnerRank(ps, owner, k, d)
  {
    assert free[c] != true;
    assert c in owner;
    var i := IndexOf(ps, owner[c]);
    assert st[ps[i]].cubeIndex == c;
    assert i < n;
    forall d: nat | d < n && d != c ensures OwnerRank(ps, owner, k, c) != OwnerRank(ps, owner, k, d) {
      assert free[d] != true;
      assert d in owner;
      var j := IndexOf(ps, owner[d]);
      assert st[ps[j]].cubeIndex == d;
      assert i != j;
    }
  }

  /**
   * Position of the probe the collection scan picks as oldest: a strict
   * comparison replaces the candidate, so it is the first position whose
   * last update time is minimal.
   */
  function OldestAt(s: seq<ProbeId>, age: ProbeId -> real): (r: Option<nat>)
    ensures r.None? <==> s == []
    ensures r.Some? ==> r.value < |s|
    ensures r.Some? ==> forall i :: 0 <= i < |s| ==> age(s[r.value]) <= age(s[i])
    ensures r.Some? ==> forall i :: 0 <= i < r.value ==> age(s[r.value]) < age(s[i])
    decreases |s|
  {
    if s == [] then None
    else
      var init := s[..|s| - 1];
      var o := OldestAt(init, age);
      if o.None? || age(s[|s| - 1]) < age(init[o.value]) then Some(|s| - 1) else o
  }

  /** The probe at `OldestAt`, if any. */
  function Oldest(s: seq<ProbeId>, age: ProbeId -> real): Option<ProbeId> {
    match OldestAt(s, age)
    case None => None
    case Some(i) => Some(s[i])
  }

  /** The oldest pick reads the ages of the scanned probes and nothing else. */
  lemma {:induction false} OldestAtAgrees(s: seq<ProbeId>, age: ProbeId -> real, age2: ProbeId -> real)
    requires forall i :: 0 <= i < |s| ==> age(s[i]) == age2(s[i])
    ensures OldestAt(s, age) == OldestAt(s, age2)
    decreases |s|
  {
    if s != [] {
      var init := s[..|s| - 1];
      assert forall i :: 0 <= i < |init| ==> init[i] == s[i];
      OldestAtAgrees(init, age, age2);
    }
  }

  /** The scan extends the oldest probe of a prefix one element at a time. */
  lemma OldestSnoc(s: seq<ProbeId>, x: ProbeId, age: ProbeId -> real)
    ensures Oldest(s + [x], age) ==
      (match Oldest(s, age)
       case None => Some(x)
       case Some(o) => if age(x) < age(o) then Some(x) else Some(o))
  {
    assert (s + [x])[..|s + [x]| - 1] == s;
  }

  /** After `rebuild` zeroes every update time, the first position is the oldest. */
  lemma OldestOfEqualAges(s: seq<ProbeId>, age: ProbeId -> real)
    requires s != [] && forall i :: 0 <= i < |s| ==> age(s[i]) == 0.0
    ensures Oldest(s, age) == Some(s[0])
  {
  }

  /** Age of a probe as the scan reads it. */
  function AgeIn(st: map<ProbeId, Probe>): ProbeId -> real {
    q => if q in st then st[q].lastUpdateTime else 0.0
  }

  /**
   * Probe `q` is dynamic and has its cube array and a slot in it, so it can
   * be captured in real time.
   */
  function IsLiveDynamic(st: map<ProbeId, Probe>): ProbeId -> bool {
    q => q in st && st[q].hasCubeArray && st[q].shape.isDynamic && st[q].cubeIndex != -1
  }

  /**
   * The real-time test `update` writes: dynamic with `mCubeArray` set. A
   * probe whose slot `allocateCubeIndex` took keeps its cube array, so it
   * still passes with `cubeIndex == -1`.
   */
  function IsLiveDynamicAsWritten(st: map<ProbeId, Probe>): ProbeId -> bool {
    q => q in st && st[q].hasCubeArray && st[q].shape.isDynamic
  }

  /**
   * One slot, held by the dynamic probe 1; probe 0 is static and has no
   * slot.
   */
  function StealExample(): map<ProbeId, Probe> {
    map[0 := NewProbe(Group(0), Vec3(0.0, 0.0, 0.0), Shape(0, false, false)),
        1 := NewProbe(Group(1), Vec3(0.0, 0.0, 0.0), Shape(0, false, true)).(hasCubeArray := true, cubeIndex := 0)]
  }

  /** The example state keeps the invariant, with the list `[0, 1]` and no capture. */
  lemma StealExampleInv()
    ensures Inv(1, [false], [0, 1], [], StealExample(), map[0 := 1], None, 0, 2)
  {
    var st0 := StealExample();
    var ps := [0, 1];
    assert Distinct(ps);
    assert GraphOk(ps, st0) by {
      assert LinksOk(ps, st0, 0) && LinksOk(ps, st0, 1);
    }
  }

  /**
   * Capturing the static probe at position 0 of the example steals the only
   * slot from probe 1. The state left keeps the invariant, yet probe 1
   * still has its cube array, so the real-time test as written picks it in
   * whichever order the list is next scanned, and its faces would be copied
   * to layer `-1 * 6 + face`, below the array. The test that also asks for a
   * slot picks nothing.
   */
  lemma StolenSlotStaysRealtimePick()
    ensures var st0 := StealExample();
      var a := Allocation(1, [false], [0, 1], st0);
      var st2 := a.2[0 := st0[0].(hasCubeArray := true, cubeIndex := a.0)];
      a.0 == 0 && Inv(1, a.1, [0, 1], [], st2, map[0 := 0], None, 0, 2)
      && st2[1].cubeIndex == -1 && st2[1].cubeIndex * CUBE_FACES < 0
      && Head(Filter([0, 1], IsLiveDynamicAsWritten(st2))) == Some(1)
      && Head(Filter([1, 0], IsLiveDynamicAsWritten(st2))) == Some(1)
      && Head(Filter([0, 1], IsLiveDynamic(st2))) == None
      && Head(Filter([1, 0], IsLiveDynamic(st2))) == None
  {
    var st0 := StealExample();
    var ps := [0, 1];
    StealExampleInv();
    TakeSlotKeepsInv(1, [false], ps, [], st0, map[0 := 1], 2, 0);
    StealExampleAllocation();
    var st2 := st0[1 := st0[1].(cubeIndex := -1)][0 := st0[0].(hasCubeArray := true, cubeIndex := 0)];
    StolenPicks(st2);
  }

  /** The array is full, so the allocation takes the slot of probe 1, the last holder past position 0. */
  lemma StealExampleAllocation()
    ensures var st0 := StealExample();
      Allocation(1, [false], [0, 1], st0) == (0, [false], st0[1 := st0[1].(cubeIndex := -1)])
  {
    var st0 := StealExample();
    assert IndexOf([false], true) == 1;
    assert LastHolder([0, 1], st0, 1, 2) == Some(1);
  }

  /** The two real-time tests on the state the steal leaves. */
  lemma StolenPicks(st2: map<ProbeId, Probe>)
    requires 0 in st2 && 1 in st2 && !st2[0].shape.isDynamic
    requires st2[1].shape.isDynamic && st2[1].hasCubeArray && st2[1].cubeIndex == -1
    ensures Head(Filter([0, 1], IsLiveDynamicAsWritten(st2))) == Some(1)
    ensures Head(Filter([1, 0], IsLiveDynamicAsWritten(st2))) == Some(1)
    ensures Head(Filter([0, 1], IsLiveDynamic(st2))) == None
    ensures Head(Filter([1, 0], IsLiveDynamic(st2))) == None
  {
    assert [0, 1][..1] == [0] && [1, 0][..1] == [1];
    assert Filter([0], IsLiveDynamicAsWritten(st2)) == [];
    assert Filter([1], IsLiveDynamicAsWritten(st2)) == [1];
    assert Filter([0], IsLiveDynamic(st2)) == [];
    assert Filter([1], IsLiveDynamic(st2)) == [];
  }

  /** Probe `q` still has a holder outside the manager. */
  function IsReferenced(st: map<ProbeId, Probe>): ProbeId -> bool {
    q => q in st && st[q].referenced
  }

  /**
   * The probe list one frame of `update` leaves before its closing sort:
   * the kill list is applied to the old list, the created probes are
   * appended after that, and the collection scan keeps the referenced ones.
   * A created probe is therefore kept even when the kill list names it.
   */
  function Collected(ps: seq<ProbeId>, kl: seq<ProbeId>, cl: seq<ProbeId>, st: map<ProbeId, Probe>): seq<ProbeId> {
    Kept(Pending(ps, kl, cl), st)
  }

  /** The list after the kill list and the create list are applied, in that order. */
  function Pending(ps: seq<ProbeId>, kl: seq<ProbeId>, cl: seq<ProbeId>): seq<ProbeId> {
    Filter(ps, NotKilled(kl)) + cl
  }

  /** The probes of `ps` the collection scan keeps, in order: those still referenced. */
  function Kept(ps: seq<ProbeId>, st: map<ProbeId, Probe>): seq<ProbeId> {
    Filter(ps, IsReferenced(st))
  }

  /**
   * A probe survives the frame exactly when it is referenced and either it
   * was listed and not killed, or it was created during the frame.
   */
  lemma CollectedMembers(ps: seq<ProbeId>, kl: seq<ProbeId>, cl: seq<ProbeId>, st: map<ProbeId, Probe>)
    ensures forall p :: p in Collected(ps, kl, cl, st) <==> ((p in ps && p !in kl) || p in cl) && p in st && st[p].referenced
  {
    var live := Filter(ps, NotKilled(kl));
    FilterIn(ps, NotKilled(kl));
    FilterIn(live + cl, IsReferenced(st));
  }

  /** Rewriting only links keeps what the collection scan reads: references and ages. */
  lemma LinksKeepScanInputs(st: map<ProbeId, Probe>, st2: map<ProbeId, Probe>)
    requires st2.Keys == st.Keys && forall q :: q in st ==> SameButLinks(st[q], st2[q])
    ensures forall q :: IsReferenced(st2)(q) == IsReferenced(st)(q) && AgeIn(st2)(q) == AgeIn(st)(q)
  {
    forall q ensures IsReferenced(st2)(q) == IsReferenced(st)(q) && AgeIn(st2)(q) == AgeIn(st)(q) {
      if q in st {
        assert SameButLinks(st[q], st2[q]);
      }
    }
  }

  /** Distance of a probe as the final sort reads it. */
  function DistanceIn(st: map<ProbeId, Probe>): ProbeId -> real {
    q => if q in st then st[q].distance else 0.0
  }

  /** Every probe of `ps` is stored with its camera distance `d`, as the collection scan leaves it. */
  ghost predicate Measured(ps: seq<ProbeId>, st: map<ProbeId, Probe>, d: ProbeId -> real) {
    forall q {:trigger d(q)} :: q in ps ==> q in st && st[q].distance == d(q)
  }

  /** `st2` holds the probes of `st`, at the same distances. */
  ghost predicate SameDistances(st: map<ProbeId, Probe>, st2: map<ProbeId, Probe>) {
    st2.Keys == st.Keys && forall q :: q in st ==> st2[q].distance == st[q].distance
  }

  /** Rewriting one stored probe without moving it keeps the distances. */
  lemma SameDistancesUpdate(st: map<ProbeId, Probe>, st2: map<ProbeId, Probe>, p: ProbeId, pr: Probe)
    requires SameDistances(st, st2) && p in st && pr.distance == st[p].distance
    ensures SameDistances(st, st2[p := pr])
  {
  }

  /** Dropping or reordering probes, or changing anything but distances, keeps them measured. */
  lemma MeasuredKept(ps: seq<ProbeId>, st: map<ProbeId, Probe>, ps2: seq<ProbeId>, st2: map<ProbeId, Probe>, d: ProbeId -> real)
    requires Measured(ps, st, d) && SameDistances(st, st2)
    requires forall q :: q in ps2 ==> q in ps
    ensures Measured(ps2, st2, d)
  {
    forall q | q in ps2 ensures q in st2 && st2[q].distance == d(q) {
      var camera := d(q);  // names the term the measured fact is triggered on
      assert q in ps;
    }
  }

  /**
   * A list sorted by the stored distances, whose probes all carry their
   * camera distance, is sorted by camera distance.
   */
  lemma SortedByCamera(ps: seq<ProbeId>, st: map<ProbeId, Probe>, d: ProbeId -> real)
    requires SortedBy(ps, DistanceIn(st)) && Measured(ps, st, d)
    ensures SortedBy(ps, d)
  {
    forall i, j | 0 <= i < j < |ps| ensures d(ps[i]) <= d(ps[j]) {
      assert ps[i] in ps && ps[j] in ps;
      assert DistanceIn(st)(ps[i]) <= DistanceIn(st)(ps[j]);
    }
  }

  /** Allocating a slot moves no probe: every distance stays. */
  lemma AllocationKeepsDistances(n: nat, free0: seq<bool>, ps: seq<ProbeId>, st0: map<ProbeId, Probe>)
    requires |free0| == n && forall q :: q in ps ==> q in st0
    ensures SameDistances(st0, Allocation(n, free0, ps, st0).2)
  {
    var first := IndexOf(free0, true);
    if first >= n {
      match LastHolder(ps, st0, n, |ps|)
      case None =>
      case Some(j) =>
        var st2 := st0[ps[j] := st0[ps[j]].(cubeIndex := -1)];
        assert Allocation(n, free0, ps, st0).2 == st2;
    }
  }

  /** The first element, if any. */
  function Head(s: seq<ProbeId>): Option<ProbeId> {
    if s == [] then None else Some(s[0])
  }

  /** Number of slot holders before position `j`: the output position of the probe at `j`. */
  function Rank(ps: seq<ProbeId>, st: map<ProbeId, Probe>, j: nat): nat
    requires j <= |ps|
  {
    if j == 0 then 0 else Rank(ps, st, j - 1) + (if HoldsSlot(st)(ps[j - 1]) then 1 else 0)
  }

  /** The rank of position `j` is the number of slot holders before it. */
  lemma {:induction false} RankIsFilter(ps: seq<ProbeId>, st: map<ProbeId, Probe>, j: nat)
    requires j <= |ps|
    ensures Rank(ps, st, j) == |Filter(ps[..j], HoldsSlot(st))|
  {
    if j > 0 {
      RankIsFilter(ps, st, j - 1);
      assert ps[..j] == ps[..j - 1] + [ps[j - 1]];
      FilterSnoc(ps[..j - 1], ps[j - 1], HoldsSlot(st));
    }
  }

  /** Ranks never decrease along the list. */
  lemma {:induction false} RankMonotone(ps: seq<ProbeId>, st: map<ProbeId, Probe>, j: nat, k: nat)
    requires j <= k <= |ps|
    ensures Rank(ps, st, j) <= Rank(ps, st, k)
    decreases k - j
  {
    if j < k {
      RankMonotone(ps, st, j, k - 1);
    }
  }

  /** One more position adds one to the rank exactly when it holds a slot. */
  lemma RankStep(ps: seq<ProbeId>, st: map<ProbeId, Probe>, j: nat)
    requires j < |ps|
    ensures Rank(ps, st, j + 1) == Rank(ps, st, j) + (if HoldsSlot(st)(ps[j]) then 1 else 0)
  {
  }

  /** A slot holder at position `j` is element `Rank(j)` of the holders in list order. */
  lemma HolderAtRank(ps: seq<ProbeId>, st: map<ProbeId, Probe>, j: nat)
    requires j < |ps| && HoldsSlot(st)(ps[j])
    ensures Rank(ps, st, j) < |Filter(ps, HoldsSlot(st))|
    ensures Filter(ps, HoldsSlot(st))[Rank(ps, st, j)] == ps[j]
  {
    var f := HoldsSlot(st);
    RankIsFilter(ps, st, j);
    FilterSplit(ps, j, f);
    var pre := Filter(ps[..j], f);
    assert (pre + [ps[j]] + Filter(ps[j + 1..], f))[|pre|] == ps[j];
  }

  /** The holders before position `i + 1` extend those before `i` by at most `ps[i]`. */
  lemma HoldersStep(ps: seq<ProbeId>, st: map<ProbeId, Probe>, i: nat)
    requires i < |ps|
    ensures Filter(ps[..i + 1], HoldsSlot(st)) == Filter(ps[..i], HoldsSlot(st)) + (if HoldsSlot(st)(ps[i]) then [ps[i]] else [])
  {
    assert ps[..i + 1] == ps[..i] + [ps[i]];
    FilterSnoc(ps[..i], ps[i], HoldsSlot(st));
  }

  /** The holders before position `j` are the first holders of the whole list. */
  lemma PrefixFilter(ps: seq<ProbeId>, st: map<ProbeId, Probe>, j: nat)
    requires j <= |ps|
    ensures |Filter(ps[..j], HoldsSlot(st))| <= |Filter(ps, HoldsSlot(st))|
    ensures Filter(ps[..j], HoldsSlot(st)) == Filter(ps, HoldsSlot(st))[..|Filter(ps[..j], HoldsSlot(st))|]
  {
    assert ps == ps[..j] + ps[j..];
    FilterAppend(ps[..j], ps[j..], HoldsSlot(st));
  }

  /** Every slot holder has the rank of its own element of the holder list. */
  lemma RankOfHolder(ps: seq<ProbeId>, st: map<ProbeId, Probe>, r: nat) returns (j: nat)
    requires r < |Filter(ps, HoldsSlot(st))|
    ensures j < |ps| && HoldsSlot(st)(ps[j]) && Rank(ps, st, j) == r
    ensures Filter(ps, HoldsSlot(st))[r] == ps[j]
  {
    var f := HoldsSlot(st);
    // walk to the first position whose rank passes r
    j := 0;
    assert ps[..0] == [];
    while !(f(ps[j]) && Rank(ps, st, j) == r)
      invariant j < |ps| && Rank(ps, st, j) <= r
      decreases |ps| - j
    {
      RankStep(ps, st, j);
      assert j + 1 < |ps| by {
        RankMonotone(ps, st, j + 1, |ps|);
        assert ps[..|ps|] == ps;
        RankIsFilter(ps, st, |ps|);
      }
      j := j + 1;
    }
    HolderAtRank(ps, st, j);
  }

  /** A probe the walk of `getReflectionMaps` reaches: bound now, indexed by its output position or -1. */
  function Visited(pr: Probe, rank: nat, now: real): Probe {
    pr.(lastBindTime := now, probeIndex := if pr.cubeIndex != -1 then rank else -1)
  }

  /**
   * A probe after `getReflectionMaps` with `cap` output places: probes the
   * walk reaches (rank below `cap`) are visited; probes beyond get -1,
   * except that with no output places the walk never starts and probe 0
   * keeps its index.
   */
  function Bound(pr: Probe, j: nat, rank: nat, cap: nat, now: real): Probe {
    if rank < cap then Visited(pr, rank, now)
    else if j == 0 then pr
    else pr.(probeIndex := -1)
  }

  /** The store after `getReflectionMaps`. */
  function BindAll(st: map<ProbeId, Probe>, ps: seq<ProbeId>, cap: nat, now: real): map<ProbeId, Probe> {
    map q | q in st ::
      if q in ps then Bound(st[q], IndexOf(ps, q), Rank(ps, st, IndexOf(ps, q)), cap, now) else st[q]
  }

  /** The probes `getReflectionMaps` hands out with `cap` places: the first `cap` slot holders in list order. */
  function Selected(ps: seq<ProbeId>, st: map<ProbeId, Probe>, cap: nat): (s: seq<ProbeId>)
    ensures |s| <= cap
  {
    var h := Filter(ps, HoldsSlot(st));
    if cap <= |h| then h[..cap] else h
  }

  /** The probes handed out are the leading slot holders, at most `cap` of them. */
  lemma SelectedPrefix(ps: seq<ProbeId>, st: map<ProbeId, Probe>, cap: nat)
    ensures var s := Selected(ps, st, cap); var h := Filter(ps, HoldsSlot(st));
      |s| <= |h| && |s| <= cap && forall r :: 0 <= r < |s| ==> s[r] == h[r]
  {
  }

  /** The store after the walk of `getReflectionMaps` has visited the first `i` positions. */
  function Walked(st: map<ProbeId, Probe>, ps: seq<ProbeId>, now: real, i: nat): (w: map<ProbeId, Probe>)
    requires i <= |ps| && forall q :: q in ps ==> q in st
    ensures w.Keys == st.Keys
  {
    if i == 0 then st
    else Walked(st, ps, now, i - 1)[ps[i - 1] := Visited(st[ps[i - 1]], Rank(ps, st, i - 1), now)]
  }

  /** The store `w` after the reset loop has set the index of positions `[from, k)` to -1. */
  function Cleared(w: map<ProbeId, Probe>, ps: seq<ProbeId>, from: nat, k: nat): (c: map<ProbeId, Probe>)
    requires k <= from || k <= |ps|
    requires forall q :: q in ps ==> q in w
    ensures c.Keys == w.Keys
  {
    if k <= from then w
    else Cleared(w, ps, from, k - 1)[ps[k - 1] := w[ps[k - 1]].(probeIndex := -1)]
  }

  /** The walk changes exactly the visited positions. */
  lemma {:induction false} WalkedAt(st: map<ProbeId, Probe>, ps: seq<ProbeId>, now: real, i: nat, q: ProbeId)
    requires Distinct(ps) && i <= |ps| && q in st && forall p :: p in ps ==> p in st
    ensures Walked(st, ps, now, i)[q] ==
      if q in ps && IndexOf(ps, q) < i then Visited(st[q], Rank(ps, st, IndexOf(ps, q)), now) else st[q]
  {
    if i > 0 {
      WalkedAt(st, ps, now, i - 1, q);
      if q == ps[i - 1] {
        assert IndexOf(ps, q) == i - 1;
      }
    }
  }

  /** The reset changes exactly the positions in `[from, k)`. */
  lemma {:induction false} ClearedAt(w: map<ProbeId, Probe>, ps: seq<ProbeId>, from: nat, k: nat, q: ProbeId)
    requires Distinct(ps) && (k <= from || k <= |ps|) && q in w && forall p :: p in ps ==> p in w
    ensures Cleared(w, ps, from, k)[q] ==
      if q in ps && from <= IndexOf(ps, q) < k then w[q].(probeIndex := -1) else w[q]
  {
    if k > from {
      ClearedAt(w, ps, from, k - 1, q);
      if q == ps[k - 1] {
        assert IndexOf(ps, q) == k - 1;
      }
    }
  }

  /**
   * When the walk stops at `i` (the end of the list, or the first position
   * whose rank reaches `cap`) and the reset runs from the position after the
   * last one visited to the end, the store is `BindAll`.
   */
  lemma BindingDone(st: map<ProbeId, Probe>, ps: seq<ProbeId>, cap: nat, now: real, i: nat)
    requires Distinct(ps) && i <= |ps| && forall q :: q in ps ==> q in st
    requires Rank(ps, st, i) <= cap && (i > 0 ==> Rank(ps, st, i) < cap || HoldsSlot(st)(ps[i - 1]))
    requires i == |ps| || Rank(ps, st, i) >= cap
    ensures var from := if i == 0 then 1 else i;
      Cleared(Walked(st, ps, now, i), ps, from, if from <= |ps| then |ps| else from) == BindAll(st, ps, cap, now)
  {
    var from := if i == 0 then 1 else i;
    var k := if from <= |ps| then |ps| else from;
    var b := Cleared(Walked(st, ps, now, i), ps, from, k);
    var c := BindAll(st, ps, cap, now);
    forall q | q in st ensures b[q] == c[q] {
      BindingDoneAt(st, ps, cap, now, i, q);
    }
    SameEntries(b, c);
  }


  /** `BindingDone` for one probe. */
  lemma BindingDoneAt(st: map<ProbeId, Probe>, ps: seq<ProbeId>, cap: nat, now: real, i: nat, q: ProbeId)
    requires Distinct(ps) && i <= |ps| && q in st && forall p :: p in ps ==> p in st
    requires Rank(ps, st, i) <= cap && (i > 0 ==> Rank(ps, st, i) < cap || HoldsSlot(st)(ps[i - 1]))
    requires i == |ps| || Rank(ps, st, i) >= cap
    ensures var from := if i == 0 then 1 else i;
      Cleared(Walked(st, ps, now, i), ps, from, if from <= |ps| then |ps| else from)[q] == BindAll(st, ps, cap, now)[q]
  {
    var from := if i == 0 then 1 else i;
    var k := if from <= |ps| then |ps| else from;
    var w := Walked(st, ps, now, i);
    WalkedAt(st, ps, now, i, q);
    ClearedAt(w, ps, from, k, q);
    if q in ps {
      RankSplit(ps, st, cap, i, IndexOf(ps, q));
    }
  }

  /** Where the walk stopped: positions before `i` were reached, positions from `i` on were not. */
  lemma RankSplit(ps: seq<ProbeId>, st: map<ProbeId, Probe>, cap: nat, i: nat, j: nat)
    requires i <= |ps| && j < |ps|
    requires Rank(ps, st, i) <= cap && (i > 0 ==> Rank(ps, st, i) < cap || HoldsSlot(st)(ps[i - 1]))
    requires i == |ps| || Rank(ps, st, i) >= cap
    ensures j < i ==> Rank(ps, st, j) < cap
    ensures j >= i ==> Rank(ps, st, j) >= cap
  {
    if j >= i {
      RankMonotone(ps, st, i, j);
    } else {
      RankStep(ps, st, i - 1);
      RankMonotone(ps, st, j, i - 1);
    }
  }

  /** `getReflectionMaps` changes only bind times and probe indices. */
  lemma BindAllFrame(st: map<ProbeId, Probe>, ps: seq<ProbeId>, cap: nat, now: real)
    ensures var b := BindAll(st, ps, cap, now);
      SameSlots(st, b)
      && forall q :: q in st ==> b[q].(lastBindTime := st[q].lastBindTime, probeIndex := st[q].probeIndex) == st[q]
  {
  }

  /**
   * What `BindAll` promises the shader side: each listed probe's index is -1
   * or the output position holding it, and every output position below
   * `min(cap, |holders|)` is named by its probe.
   */
  lemma BindAllIndex(st: map<ProbeId, Probe>, ps: seq<ProbeId>, cap: nat, now: real)
    requires Distinct(ps) && cap > 0 && forall q :: q in ps ==> q in st
    ensures var b := BindAll(st, ps, cap, now); var s := Filter(ps, HoldsSlot(st));
      (forall q :: q in ps ==>
         b[q].probeIndex == -1 || (0 <= b[q].probeIndex < cap && b[q].probeIndex < |s| && s[b[q].probeIndex] == q))
      && (forall r :: 0 <= r < |s| && r < cap ==> s[r] in st && b[s[r]].probeIndex == r)
  {
    var b := BindAll(st, ps, cap, now);
    var s := Filter(ps, HoldsSlot(st));
    forall q | q in ps
      ensures b[q].probeIndex == -1 || (0 <= b[q].probeIndex < cap && b[q].probeIndex < |s| && s[b[q].probeIndex] == q)
    {
      var j := IndexOf(ps, q);
      BoundIndexInRange(ps, st, j, cap, now);
      assert b[q] == Bound(st[ps[j]], j, Rank(ps, st, j), cap, now);
    }
    forall r | 0 <= r < |s| && r < cap ensures s[r] in st && b[s[r]].probeIndex == r {
      var j := RankOfHolder(ps, st, r);
      assert IndexOf(ps, ps[j]) == j;
      assert b[ps[j]] == Bound(st[ps[j]], j, r, cap, now);
    }
  }

  /** The probe indices `getReflectionMaps` hands out are -1 or positions of the output. */
  lemma BoundIndexInRange(ps: seq<ProbeId>, st: map<ProbeId, Probe>, j: nat, cap: nat, now: real)
    requires j < |ps| && ps[j] in st && cap > 0
    ensures var b := Bound(st[ps[j]], j, Rank(ps, st, j), cap, now);
      b.probeIndex == -1
      || (0 <= b.probeIndex < cap && b.probeIndex < |Filter(ps, HoldsSlot(st))|
          && Filter(ps, HoldsSlot(st))[b.probeIndex] == ps[j])
  {
    if HoldsSlot(st)(ps[j]) {
      HolderAtRank(ps, st, j);
    }
  }

  /** `rebuild`: every listed probe's last update time becomes 0. */
  function Rebuilt(st: map<ProbeId, Probe>, ps: seq<ProbeId>): (r: map<ProbeId, Probe>)
    ensures r.Keys == st.Keys
  {
    map q | q in st :: if q in ps then st[q].(lastUpdateTime := 0.0) else st[q]
  }

  /** Resetting one more listed probe extends the reset prefix by that probe. */
  lemma RebuiltStep(st: map<ProbeId, Probe>, ps: seq<ProbeId>, j: nat)
    requires j < |ps| && ps[j] in st
    ensures var r := Rebuilt(st, ps[..j]);
      r[ps[j] := r[ps[j]].(lastUpdateTime := 0.0)] == Rebuilt(st, ps[..j + 1])
  {
    var r := Rebuilt(st, ps[..j]);
    var a := r[ps[j] := r[ps[j]].(lastUpdateTime := 0.0)];
    var b := Rebuilt(st, ps[..j + 1]);
    assert ps[..j + 1] == ps[..j] + [ps[j]];
    forall q | q in a ensures a[q] == b[q] {
      assert q in ps[..j + 1] <==> q in ps[..j] || q == ps[j];
    }
    SameEntries(a, b);
  }

  /**
   * After `rebuild` every listed probe has the same age, so the next
   * capture scan picks the first probe it considers.
   */
  lemma RebuildRestartsScan(st: map<ProbeId, Probe>, ps: seq<ProbeId>, s: seq<ProbeId>)
    requires s != [] && forall q :: q in s ==> q in ps && q in st
    ensures Oldest(s, AgeIn(Rebuilt(st, ps))) == Some(s[0])
  {
    var age := AgeIn(Rebuilt(st, ps));
    forall i | 0 <= i < |s| ensures age(s[i]) == 0.0 {
      assert s[i] in s;
    }
    OldestOfEqualAges(s, age);
  }

  /** `shift`: every listed probe's origin moves by `offset`. */
  function Shifted(st: map<ProbeId, Probe>, ps: seq<ProbeId>, offset: Vec3): (r: map<ProbeId, Probe>)
    ensures r.Keys == st.Keys
  {
    map q | q in st :: if q in ps then st[q].(origin := st[q].origin.Add(offset)) else st[q]
  }

  /** Moving one more listed probe extends the moved prefix by that probe. */
  lemma ShiftedStep(st: map<ProbeId, Probe>, ps: seq<ProbeId>, offset: Vec3, j: nat)
    requires j < |ps| && ps[j] in st && ps[j] !in ps[..j]
    ensures var r := Shifted(st, ps[..j], offset);
      r[ps[j] := r[ps[j]].(origin := r[ps[j]].origin.Add(offset))] == Shifted(st, ps[..j + 1], offset)
  {
    var r := Shifted(st, ps[..j], offset);
    var a := r[ps[j] := r[ps[j]].(origin := r[ps[j]].origin.Add(offset))];
    var b := Shifted(st, ps[..j + 1], offset);
    assert ps[..j + 1] == ps[..j] + [ps[j]];
    forall q | q in a ensures a[q] == b[q] {
      assert q in ps[..j + 1] <==> q in ps[..j] || q == ps[j];
    }
    SameEntries(a, b);
  }

  /** Shifting back by the opposite offset restores every origin. */
  lemma ShiftRoundTrip(st: map<ProbeId, Probe>, ps: seq<ProbeId>, offset: Vec3)
    ensures Shifted(Shifted(st, ps, offset), ps, offset.Neg()) == st
  {
    var s2 := Shifted(Shifted(st, ps, offset), ps, offset.Neg());
    forall q | q in st ensures s2[q] == st[q] {
      if q in ps {
        var o := st[q].origin;
        assert o.Add(offset).Add(offset.Neg()) == o;
      }
    }
    SameEntries(s2, st);
  }
}
