/**
 * The reflection-probe manager: the probe list with its deferred kill and
 * create lists, the pool of cube-map array slots, the neighbour graph, the
 * one-face-per-tick capture cursor, and the list of probes handed to the
 * shader.
 */
module ReflectionMaps {
  import opened Wrappers
  import opened Seqs
  import opened Probes
  import opened ReflectionState
  import opened UniformPacking
  import opened CollectionScan
  import CubeArrays

  /** Partition type of a spatial group (`mPartitionType`). */
  datatype Partition = Volume | Terrain | OtherPartition(kind: nat)

  /**
   * One cube face rendered by `updateProbeFace`: the probe, the face, and
   * the layer of the cube-map array the face is copied into.
   */
  datatype FaceCapture = FaceCapture(probe: ProbeId, face: nat, layer: int)

  /** Every face drawn is a face of a cube in a layer of an array of `n` cube maps. */
  predicate InLayers(rendered: seq<FaceCapture>, n: nat) {
    forall r :: r in rendered ==> r.face < CUBE_FACES && 0 <= r.layer < CUBE_FACES * n
  }

  /** The last face drawn is the first face of `p`. */
  predicate EndsWithFirstFace(rendered: seq<FaceCapture>, p: ProbeId) {
    |rendered| > 0 && rendered[|rendered| - 1].probe == p && rendered[|rendered| - 1].face == 0
  }

  /** `registerSpatialGroup` only gives probes to volume and terrain nodes about 16m across. */
  predicate GetsProbe(partition: Partition, size: real) {
    (partition == Volume || partition == Terrain) && 15.0 <= size <= 17.0
  }

  /** The probe `p` links to in `updateNeighbors`: any other probe it intersects. */
  function Matches(p: ProbeId, intersects: (ProbeId, ProbeId) -> bool): ProbeId -> bool {
    (q: ProbeId) => q != p && intersects(p, q)
  }

  /** Adding a bare probe under a fresh handle keeps the invariant, on values. */
  lemma InsertKeepsInv(n: nat, free: seq<bool>, ps: seq<ProbeId>, cl: seq<ProbeId>, st: map<ProbeId, Probe>,
                              owner: map<nat, ProbeId>, cursor: Option<ProbeId>, face: nat, nextId: nat,
                              pr: Probe, snapshot: bool)
    requires Inv(n, free, ps, cl, st, owner, cursor, face, nextId)
    requires pr.cubeIndex == -1 && pr.neighbors == []
    ensures nextId !in st
    ensures snapshot ==> Inv(n, free, ps, cl + [nextId], st[nextId := pr], owner, cursor, face, nextId + 1)
    ensures !snapshot ==> Inv(n, free, ps + [nextId], cl, st[nextId := pr], owner, cursor, face, nextId + 1)
  {
    var id := nextId;
    var st2 := st[id := pr];
    assert id !in st;
    AddIsolated(ps, st, id, pr);
    if snapshot {
      forall p | p in ps ensures LinksOk(ps, st2, p) {
        assert LinksOk(ps, st, p);
      }
      assert GraphOk(ps, st2);
      forall p | p in cl + [id]
        ensures p !in ps && p in st2 && st2[p].cubeIndex == -1 && st2[p].neighbors == []
      {
        if p != id { assert p in cl; }
      }
      assert id !in cl;
    } else {
      assert Distinct(ps + [id]);
    }
  }

  /** `deleteProbe` keeps the invariant, on values. */
  lemma DeleteKeepsInv(n: nat, free: seq<bool>, ps: seq<ProbeId>, cl: seq<ProbeId>, st: map<ProbeId, Probe>,
                              owner: map<nat, ProbeId>, cursor: Option<ProbeId>, face: nat, nextId: nat, i: nat)
    requires Inv(n, free, ps, cl, st, owner, cursor, face, nextId) && i < |ps|
    ensures var p := ps[i]; var pr := st[p];
      (pr.cubeIndex != -1 ==> 0 <= pr.cubeIndex < |free|)
      && Inv(n, FreedSlot(free, pr.cubeIndex), RemoveAt(ps, i), cl, Detach(st, p, pr.neighbors),
             FreedOwner(owner, pr.cubeIndex),
             if cursor == Some(p) then None else cursor,
             if cursor == Some(p) then 0 else face,
             nextId)
  {
    var p := ps[i];
    var pr := st[p];
    var ps2 := RemoveAt(ps, i);
    var d := Detach(st, p, pr.neighbors);
    RemoveAtDistinct(ps, i);
    DetachGraph(ps, ps2, st, p);
    DeleteKeepsSlots(ps, st, free, owner, i);
    assert forall q :: q in cl ==> q !in pr.neighbors by {
      assert LinksOk(ps, st, p);
    }
    assert forall q :: q in cl ==> d[q] == st[q];
  }

  /** Slot bookkeeping after `deleteProbe`, on values. */
  lemma DeleteKeepsSlots(ps0: seq<ProbeId>, st0: map<ProbeId, Probe>, free0: seq<bool>, owner0: map<nat, ProbeId>, i: nat)
    requires i < |ps0| && Distinct(ps0) && GraphOk(ps0, st0)
    requires SlotsOk(|free0|, free0, ps0, st0, owner0)
    ensures var p := ps0[i]; var pr := st0[p]; var d := Detach(st0, p, pr.neighbors);
      var ps := RemoveAt(ps0, i);
      (forall q :: q in ps ==> q in d)
      && (pr.cubeIndex != -1 ==>
            (0 <= pr.cubeIndex < |free0|
             && SlotsOk(|free0|, free0[pr.cubeIndex := true], ps, d, owner0 - {pr.cubeIndex})))
      && (pr.cubeIndex == -1 ==> SlotsOk(|free0|, free0, ps, d, owner0))
  {
    var p := ps0[i];
    var pr := st0[p];
    var n := |free0|;
    DetachGraph(ps0, RemoveAt(ps0, i), st0, p);
    RemoveAtDistinct(ps0, i);
    var ps := RemoveAt(ps0, i);
    var d := Detach(st0, p, pr.neighbors);
    if pr.cubeIndex != -1 {
      var free := free0[pr.cubeIndex := true];
      var owner := owner0 - {pr.cubeIndex};
      forall c | c in owner ensures owner[c] in ps && d[owner[c]].cubeIndex == c {
        assert owner[c] != p;
      }
      assert forall c: nat :: c in owner <==> c < n && !free[c];
    } else {
      forall c | c in owner0 ensures owner0[c] in ps && d[owner0[c]].cubeIndex == c {
        assert owner0[c] != p;
      }
    }
  }

  /** `updateNeighbors` keeps the invariant and links `p` to exactly its matches, on values. */
  lemma RelinkKeepsInv(n: nat, free: seq<bool>, ps: seq<ProbeId>, cl: seq<ProbeId>, st: map<ProbeId, Probe>,
                              owner: map<nat, ProbeId>, cursor: Option<ProbeId>, face: nat, nextId: nat,
                              p: ProbeId, m: ProbeId -> bool)
    requires Inv(n, free, ps, cl, st, owner, cursor, face, nextId) && p in ps && !m(p)
    ensures var l := Link(Unlink(st, p), p, ps, m);
      Inv(n, free, ps, cl, l, owner, cursor, face, nextId)
      && l[p].neighbors == Filter(ps, m)
      && (forall q :: q in ps && q != p ==> (p in l[q].neighbors <==> m(q)))
      && l.Keys == st.Keys && (forall q :: q in st ==> SameButLinks(st[q], l[q]))
  {
    var u := Unlink(st, p);
    UnlinkGraph(ps, st, p);
    LinkGraph(ps, u, p, m);
    var l := Link(u, p, ps, m);
    assert forall q :: q in cl ==> q !in st[p].neighbors && q != p by {
      assert LinksOk(ps, st, p);
    }
    assert forall q :: q in cl ==> l[q] == st[q];
    assert forall q :: q in st ==> SameButLinks(st[q], l[q]) by {
      forall q | q in st ensures SameButLinks(st[q], l[q]) {
        assert SameButLinks(st[q], u[q]) && SameButLinks(u[q], l[q]);
      }
    }
  }

  /** The search loop of `updateNeighbors`, over the probe list in order. */
  method LinkAll(ps: seq<ProbeId>, st1: map<ProbeId, Probe>, p: ProbeId, intersects: (ProbeId, ProbeId) -> bool)
    returns (st: map<ProbeId, Probe>)
    requires p in st1 && st1[p].neighbors == [] && Distinct(ps) && forall q :: q in ps ==> q in st1
    ensures st == Link(st1, p, ps, Matches(p, intersects))
  {
    var m := Matches(p, intersects);
    assert !m(p);
    st := st1;
    assert st == Link(st1, p, [], m);
    var j := 0;
    while j < |ps|
      invariant j <= |ps|
      invariant st == Link(st1, p, ps[..j], m)
    {
      var other := ps[j];
      assert other !in ps[..j];
      assert other in st1;
      LinkStep(st1, p, ps[..j], m, other);
      var hit := m(other);
      assert hit == (other != p && intersects(p, other));
      if hit {
        st := st[p := st[p].(neighbors := st[p].neighbors + [other])][other := st[other].(neighbors := st[other].neighbors + [p])];
      }
      assert ps[..j + 1] == ps[..j] + [other];
      j := j + 1;
    }
    assert ps[..j] == ps;
  }

  /**
   * The output writes of `getReflectionMaps`: `maps[count++] = probe` for
   * each probe handed out, then null after the last one when there is room.
   */
  method WriteMaps(maps: array<Option<ProbeId>>, out: seq<ProbeId>)
    requires |out| <= maps.Length
    modifies maps
    ensures forall r :: 0 <= r < |out| ==> maps[r] == Some(out[r])
    ensures |out| < maps.Length ==> maps[|out|] == None
    ensures forall r :: |out| < r < maps.Length ==> maps[r] == old(maps[r])
    ensures Leading(maps[..]) == out
  {
    var r := 0;
    while r < |out|
      invariant r <= |out|
      invariant forall k :: 0 <= k < r ==> maps[k] == Some(out[k])
      invariant forall k :: r <= k < maps.Length ==> maps[k] == old(maps[k])
    {
      maps[r] := Some(out[r]);
      r := r + 1;
    }
    if r < maps.Length {
      maps[r] := None;
    }
    LeadingIsSelected(maps[..], out);
  }

  /**
   * The value computed by `getReflectionMaps`: the walk, then the reset of
   * the probes after the last one reached.
   */
  method BindMaps(ps: seq<ProbeId>, st0: map<ProbeId, Probe>, cap: nat, now: real)
    returns (st: map<ProbeId, Probe>, out: seq<ProbeId>)
    requires Distinct(ps) && forall q :: q in ps ==> q in st0
    ensures st == BindAll(st0, ps, cap, now)
    ensures out == Selected(ps, st0, cap)
  {
    var i;
    st, out, i := WalkMaps(ps, st0, cap, now);
    WalkStore(ps, st0, cap, now, i, st, out);
    WalkOutput(ps, st0, cap, now, i, st, out);
    var lastIdx := if i == 0 then 0 else i - 1;
    st := ClearAfter(ps, st, lastIdx + 1);
  }

  /** Where the walk stops, resetting the rest of the list gives `BindAll`. */
  lemma WalkStore(ps: seq<ProbeId>, st0: map<ProbeId, Probe>, cap: nat, now: real,
                  i: nat, st: map<ProbeId, Probe>, out: seq<ProbeId>)
    requires Distinct(ps) && WalkState(ps, st0, cap, now, i, st, out) && (i == |ps| || |out| == cap)
    ensures var from := if i == 0 then 1 else i;
      (forall q :: q in ps ==> q in st)
      && Cleared(st, ps, from, if from <= |ps| then |ps| else from) == BindAll(st0, ps, cap, now)
  {
    BindingDone(st0, ps, cap, now, i);
  }

  /** Where the walk stops, it has handed out the first `cap` slot holders. */
  lemma WalkOutput(ps: seq<ProbeId>, st0: map<ProbeId, Probe>, cap: nat, now: real,
                   i: nat, st: map<ProbeId, Probe>, out: seq<ProbeId>)
    requires WalkState(ps, st0, cap, now, i, st, out) && (i == |ps| || |out| == cap)
    ensures out == Selected(ps, st0, cap)
  {
    PrefixFilter(ps, st0, i);
    ghost var h := Filter(ps, HoldsSlot(st0));
    assert |out| == (if cap <= |h| then cap else |h|) by {
      RankMonotone(ps, st0, i, |ps|);
      assert ps[..|ps|] == ps;
      RankIsFilter(ps, st0, |ps|);
    }
    assert h[..|h|] == h;
  }

  /**
   * The walk of `getReflectionMaps` after `i` positions with `cap` output
   * places: `out` holds the slot holders reached, in list order, and the
   * walk has not yet stopped before `i`.
   */
  ghost predicate WalkState(ps: seq<ProbeId>, st0: map<ProbeId, Probe>, cap: nat, now: real,
                            i: nat, st: map<ProbeId, Probe>, out: seq<ProbeId>)
  {
    (forall q :: q in ps ==> q in st0)
    && i <= |ps| && |out| == Rank(ps, st0, i) && |out| <= cap
    && (i > 0 ==> |out| < cap || HoldsSlot(st0)(ps[i - 1]))
    && st == Walked(st0, ps, now, i)
    && out == Filter(ps[..i], HoldsSlot(st0))
  }

  /**
   * The walk of `getReflectionMaps` over `cap` output places: stops at the
   * end of the list or once every place is taken.
   */
  method WalkMaps(ps: seq<ProbeId>, st0: map<ProbeId, Probe>, cap: nat, now: real)
    returns (st: map<ProbeId, Probe>, out: seq<ProbeId>, i: nat)
    requires forall q :: q in ps ==> q in st0
    ensures WalkState(ps, st0, cap, now, i, st, out)
    ensures i == |ps| || |out| == cap
  {
    st := st0;
    out := [];
    i := 0;
    assert ps[..0] == [];
    while |out| < cap && i < |ps|
      invariant WalkState(ps, st0, cap, now, i, st, out)
      decreases |ps| - i
    {
      st, out := VisitProbe(ps, st0, cap, now, i, st, out);
      i := i + 1;
    }
  }

  /**
   * One probe reached by the walk: its bind time is set, and a slot holder
   * takes the next output position while any other probe gets -1.
   */
  method VisitProbe(ps: seq<ProbeId>, st0: map<ProbeId, Probe>, cap: nat, now: real, i: nat,
                    st: map<ProbeId, Probe>, out: seq<ProbeId>)
    returns (st2: map<ProbeId, Probe>, out2: seq<ProbeId>)
    requires WalkState(ps, st0, cap, now, i, st, out) && i < |ps| && |out| < cap
    ensures WalkState(ps, st0, cap, now, i + 1, st2, out2)
  {
    var q := ps[i];
    HoldersStep(ps, st0, i);
    if st0[q].cubeIndex != -1 {
      st2 := st[q := st0[q].(lastBindTime := now, probeIndex := |out|)];
      out2 := out + [q];
    } else {
      st2 := st[q := st0[q].(lastBindTime := now, probeIndex := -1)];
      out2 := out;
    }
  }

  /** The second loop of `getReflectionMaps`: index -1 from position `from` to the end. */
  method ClearAfter(ps: seq<ProbeId>, w: map<ProbeId, Probe>, from: nat) returns (st: map<ProbeId, Probe>)
    requires forall q :: q in ps ==> q in w
    ensures st == Cleared(w, ps, from, if from <= |ps| then |ps| else from)
  {
    st := w;
    var k := from;
    while k < |ps|
      invariant from <= k && (k <= |ps| || k == from)
      invariant st == Cleared(w, ps, from, k)
    {
      var q := ps[k];
      st := st[q := w[q].(probeIndex := -1)];
      k := k + 1;
    }
  }

  /** The loop of `rebuild` over the probe list. */
  method RebuildAll(ps: seq<ProbeId>, st0: map<ProbeId, Probe>) returns (st: map<ProbeId, Probe>)
    requires forall q :: q in ps ==> q in st0
    ensures st == Rebuilt(st0, ps)
  {
    st := st0;
    var j := 0;
    assert st0 == Rebuilt(st0, ps[..0]) by {
      forall q | q in st0 ensures st0[q] == Rebuilt(st0, ps[..0])[q] { }
      SameEntries(st0, Rebuilt(st0, ps[..0]));
    }
    while j < |ps|
      invariant j <= |ps| && st == Rebuilt(st0, ps[..j])
    {
      RebuiltStep(st0, ps, j);
      st := st[ps[j] := st[ps[j]].(lastUpdateTime := 0.0)];
      j := j + 1;
    }
    assert ps[..j] == ps;
  }

  /** The loop of `shift` over the probe list. */
  method ShiftAll(ps: seq<ProbeId>, st0: map<ProbeId, Probe>, offset: Vec3) returns (st: map<ProbeId, Probe>)
    requires Distinct(ps) && forall q :: q in ps ==> q in st0
    ensures st == Shifted(st0, ps, offset)
  {
    st := st0;
    var j := 0;
    assert st0 == Shifted(st0, ps[..0], offset) by {
      forall q | q in st0 ensures st0[q] == Shifted(st0, ps[..0], offset)[q] { }
      SameEntries(st0, Shifted(st0, ps[..0], offset));
    }
    while j < |ps|
      invariant j <= |ps| && st == Shifted(st0, ps[..j], offset)
    {
      assert ps[j] !in ps[..j];
      ShiftedStep(st0, ps, offset, j);
      st := st[ps[j] := st[ps[j]].(origin := st[ps[j]].origin.Add(offset))];
      j := j + 1;
    }
    assert ps[..j] == ps;
  }

  /** The entries before the first null are exactly the probes `getReflectionMaps` wrote out. */
  lemma LeadingIsSelected(maps: seq<Option<ProbeId>>, s: seq<ProbeId>)
    requires |s| <= |maps| && (forall r :: 0 <= r < |s| ==> maps[r] == Some(s[r])) && (|s| < |maps| ==> maps[|s|] == None)
    ensures Leading(maps) == s
  {
    var l := Leading(maps);
    forall r | 0 <= r < |s| ensures l[r] == s[r] {
      assert maps[r] == Some(s[r]);
    }
  }

  /**
   * The checks `updateUniforms` makes of each probe of `s` it packs: the
   * probe at output position `r` carries `r` as its probe index and owns a
   * slot below `n`, and it and every neighbour of it are in the store.
   */
  ghost predicate Uploadable(st: map<ProbeId, Probe>, s: seq<ProbeId>, n: nat) {
    forall r :: 0 <= r < |s| ==>
      s[r] in st && st[s[r]].probeIndex == r && 0 <= st[s[r]].cubeIndex < n
      && forall q :: q in st[s[r]].neighbors ==> q in st
  }

  /** The probes `getReflectionMaps` hands out pass the checks of `updateUniforms`. */
  lemma HandedOut(n: nat, free: seq<bool>, ps: seq<ProbeId>, cl: seq<ProbeId>, st: map<ProbeId, Probe>,
                  owner: map<nat, ProbeId>, cursor: Option<ProbeId>, face: nat, nextId: nat, now: real)
    requires Inv(n, free, ps, cl, st, owner, cursor, face, nextId)
    ensures Uploadable(BindAll(st, ps, n, now), Selected(ps, st, n), n)
  {
    HandedOutSlots(n, free, ps, cl, st, owner, cursor, face, nextId, now);
    HandedOutLinks(n, free, ps, cl, st, owner, cursor, face, nextId, now);
  }

  /** The slot half of `HandedOut`. */
  lemma HandedOutSlots(n: nat, free: seq<bool>, ps: seq<ProbeId>, cl: seq<ProbeId>, st: map<ProbeId, Probe>,
                       owner: map<nat, ProbeId>, cursor: Option<ProbeId>, face: nat, nextId: nat, now: real)
    requires Inv(n, free, ps, cl, st, owner, cursor, face, nextId)
    ensures var s := Selected(ps, st, n); var b := BindAll(st, ps, n, now);
      forall r :: 0 <= r < |s| ==> s[r] in b && b[s[r]].probeIndex == r && 0 <= b[s[r]].cubeIndex < n
  {
    var s := Selected(ps, st, n);
    var b := BindAll(st, ps, n, now);
    var h := Filter(ps, HoldsSlot(st));
    BindAllFrame(st, ps, n, now);
    FilterIn(ps, HoldsSlot(st));
    if n > 0 {
      BindAllIndex(st, ps, n, now);
    }
    SelectedPrefix(ps, st, n);
    forall r | 0 <= r < |s|
      ensures s[r] in b && b[s[r]].probeIndex == r && 0 <= b[s[r]].cubeIndex < n
    {
      assert s[r] == h[r] && h[r] in h;
      assert s[r] in ps && s[r] in st && HoldsSlot(st)(s[r]);
      assert b[s[r]].probeIndex == r;
      assert b[s[r]].cubeIndex == st[s[r]].cubeIndex;
    }
  }

  /** The neighbour half of `HandedOut`. */
  lemma HandedOutLinks(n: nat, free: seq<bool>, ps: seq<ProbeId>, cl: seq<ProbeId>, st: map<ProbeId, Probe>,
                       owner: map<nat, ProbeId>, cursor: Option<ProbeId>, face: nat, nextId: nat, now: real)
    requires Inv(n, free, ps, cl, st, owner, cursor, face, nextId)
    ensures var s := Selected(ps, st, n); var b := BindAll(st, ps, n, now);
      forall r, q :: 0 <= r < |s| && s[r] in b && q in b[s[r]].neighbors ==> q in b
  {
    var s := Selected(ps, st, n);
    var b := BindAll(st, ps, n, now);
    var h := Filter(ps, HoldsSlot(st));
    BindAllFrame(st, ps, n, now);
    FilterIn(ps, HoldsSlot(st));
    SelectedPrefix(ps, st, n);
    forall r | 0 <= r < |s| && s[r] in b
      ensures forall q :: q in b[s[r]].neighbors ==> q in b
    {
      assert s[r] == h[r] && h[r] in h;
      assert s[r] in ps && s[r] in st;
      assert LinksOk(ps, st, s[r]);
      assert b[s[r]].neighbors == st[s[r]].neighbors;
    }
  }

  /**
   * The list passes before the scan rewrite only links, so the scan run on
   * the store they leave keeps the probes, and picks the oldest, as it
   * would on the store of the start of the frame.
   */
  lemma SurvivorsAgree(p0: seq<ProbeId>, kl: seq<ProbeId>, cl: seq<ProbeId>, st0: map<ProbeId, Probe>,
                        mid: map<ProbeId, Probe>, ps: seq<ProbeId>, n: nat)
    requires LinksOnly(st0, mid)
    requires ps == Kept(Pending(p0, kl, cl), mid)
    ensures ps == Collected(p0, kl, cl, st0)
    ensures OldestKept(ps, mid, n) == OldestKept(ps, st0, n)
  {
    var p1 := Pending(p0, kl, cl);
    LinksKeepScanInputs(st0, mid);
    FilterExt(p1, IsReferenced(mid), IsReferenced(st0));
    OldestAtAgrees(ps[..Capped(|ps|, n)], AgeIn(mid), AgeIn(st0));
  }

  /** Appending faces keeps them in the array, and the first and last faces. */
  lemma AppendFaces(a: seq<FaceCapture>, b: seq<FaceCapture>, n: nat)
    requires InLayers(a, n) && InLayers(b, n)
    ensures InLayers(a + b, n)
    ensures |a| > 0 ==> (a + b)[0] == a[0]
    ensures forall p :: EndsWithFirstFace(b, p) ==> EndsWithFirstFace(a + b, p)
  {
    forall p | EndsWithFirstFace(b, p) ensures EndsWithFirstFace(a + b, p) {
      assert (a + b)[|a + b| - 1] == b[|b| - 1];
    }
  }

  /**
   * The oldest probe among the first `c` of `ps` lies in that prefix, and
   * there is one exactly when the prefix is not empty.
   */
  lemma OldestInPrefix(ps: seq<ProbeId>, c: nat, age: ProbeId -> real)
    requires c <= |ps|
    ensures Oldest(ps[..c], age).Some? <==> c > 0
    ensures Oldest(ps[..c], age).Some? ==> Oldest(ps[..c], age).value in ps && IndexOf(ps, Oldest(ps[..c], age).value) < c
  {
    var r := OldestAt(ps[..c], age);
    if r.Some? {
      assert ps[..c][r.value] == ps[r.value];
    }
  }

  class ReflectionMapManager {
    /** `LL_REFLECTION_PROBE_COUNT`: slots of the cube-map array. */
    const probeCount: nat
    /** `LL_REFLECTION_PROBE_RESOLUTION`. */
    const resolution: nat
    /** `mCubeFree`. */
    const cubeFree: array<bool>
    /** `mReflectionMaps`, sized to `probeCount`. */
    const reflectionMaps: array<Option<ProbeId>>

    var probes: seq<ProbeId>
    var killList: seq<ProbeId>
    var createList: seq<ProbeId>
    var store: map<ProbeId, Probe>
    var nextId: nat
    var updatingProbe: Option<ProbeId>
    var updatingFace: nat
    /** Whether `mTexture` has been allocated. */
    var hasTexture: bool
    /** Resolutions of the render targets of `mMipChain`. */
    var mipChain: seq<nat>
    /** The probe owning each used slot. */
    ghost var slotOwner: map<nat, ProbeId>

    ghost predicate Valid()
      reads this, cubeFree
    {
      cubeFree.Length == probeCount && reflectionMaps.Length == probeCount && resolution >= 1
      && Inv(probeCount, cubeFree[..], probes, createList, store, slotOwner, updatingProbe, updatingFace, nextId)
    }

    /** Every slot starts free; there are no probes and no capture. */
    constructor (probeCount: nat, resolution: nat)
      requires resolution >= 1
      ensures Valid() && fresh(cubeFree) && fresh(reflectionMaps)
      ensures this.probeCount == probeCount && this.resolution == resolution
      ensures forall i :: 0 <= i < probeCount ==> cubeFree[i]
      ensures probes == [] && killList == [] && createList == [] && store == map[]
      ensures updatingProbe == None && updatingFace == 0 && !hasTexture && mipChain == []
    {
      var free := new bool[probeCount];
      var i := 0;
      while i < probeCount
        invariant 0 <= i <= probeCount
        invariant forall j :: 0 <= j < i ==> free[j]
      {
        free[i] := true;
        i := i + 1;
      }
      this.probeCount := probeCount;
      this.resolution := resolution;
      cubeFree := free;
      reflectionMaps := new Option<ProbeId>[probeCount](_ => None);
      probes := [];
      killList := [];
      createList := [];
      store := map[];
      nextId := 0;
      updatingProbe := None;
      updatingFace := 0;
      hasTexture := false;
      mipChain := [];
      slotOwner := map[];
    }

    /**
     * Shared tail of `addProbe` and `registerViewerObject`: while a cube
     * snapshot is in progress the probe list is being walked, so the new
     * probe waits in the create list; otherwise it joins the probe list.
     */
    method Insert(pr: Probe, snapshot: bool) returns (id: ProbeId)
      requires Valid() && pr.cubeIndex == -1 && pr.neighbors == []
      modifies this`store, this`nextId, this`probes, this`createList
      ensures Valid()
      ensures id !in old(store) && store == old(store)[id := pr]
      ensures snapshot ==> createList == old(createList) + [id] && probes == old(probes)
      ensures !snapshot ==> probes == old(probes) + [id] && createList == old(createList)
    {
      InsertKeepsInv(probeCount, cubeFree[..], probes, createList, store, slotOwner, updatingProbe, updatingFace, nextId, pr, snapshot);
      id := nextId;
      nextId := nextId + 1;
      store := store[id := pr];
      if snapshot {
        createList := createList + [id];
      } else {
        probes := probes + [id];
      }
    }

    /** `addProbe`: a probe for a spatial group, placed at the centre of its octree node. */
    method AddProbe(group: nat, center: Vec3, shape: Shape, snapshot: bool) returns (id: ProbeId)
      requires Valid()
      modifies this`store, this`nextId, this`probes, this`createList
      ensures Valid()
      ensures id !in old(store) && store == old(store)[id := NewProbe(Group(group), center, shape)]
      ensures snapshot ==> createList == old(createList) + [id] && probes == old(probes)
      ensures !snapshot ==> probes == old(probes) + [id] && createList == old(createList)
    {
      id := Insert(NewProbe(Group(group), center, shape), snapshot);
    }

    /** `registerViewerObject`: a probe for an object, placed at the object's position. */
    method RegisterViewerObject(obj: nat, position: Vec3, shape: Shape, snapshot: bool) returns (id: ProbeId)
      requires Valid()
      modifies this`store, this`nextId, this`probes, this`createList
      ensures Valid()
      ensures id !in old(store) && store == old(store)[id := NewProbe(Object(obj), position, shape)]
      ensures snapshot ==> createList == old(createList) + [id] && probes == old(probes)
      ensures !snapshot ==> probes == old(probes) + [id] && createList == old(createList)
    {
      id := Insert(NewProbe(Object(obj), position, shape), snapshot);
    }

    /** `registerSpatialGroup`: a probe for qualifying groups, null for the rest. */
    method RegisterSpatialGroup(partition: Partition, size: real, group: nat, center: Vec3, shape: Shape, snapshot: bool)
      returns (r: Option<ProbeId>)
      requires Valid()
      modifies this`store, this`nextId, this`probes, this`createList
      ensures Valid()
      ensures r.Some? <==> GetsProbe(partition, size)
      ensures r.None? ==> store == old(store) && probes == old(probes) && createList == old(createList)
      ensures r.Some? ==> r.value !in old(store) && store == old(store)[r.value := NewProbe(Group(group), center, shape)]
      ensures r.Some? && snapshot ==> createList == old(createList) + [r.value] && probes == old(probes)
      ensures r.Some? && !snapshot ==> probes == old(probes) + [r.value] && createList == old(createList)
    {
      if partition == Volume && 15.0 <= size <= 17.0 {
        var id := AddProbe(group, center, shape, snapshot);
        return Some(id);
      }
      if partition == Terrain && 15.0 <= size <= 17.0 {
        var id := AddProbe(group, center, shape, snapshot);
        return Some(id);
      }
      return None;
    }

    /**
     * `allocateCubeIndex`: the lowest free slot, now marked used; failing
     * that, the slot of the last probe at a position at or beyond
     * `probeCount` holding one, which loses it; failing that, -1. The new
     * owner is recorded by the caller.
     */
    method AllocateCubeIndex() returns (r: int)
      requires cubeFree.Length == probeCount && forall q :: q in probes ==> q in store
      modifies this`store, cubeFree
      ensures (r, cubeFree[..], store) == Allocation(probeCount, old(cubeFree[..]), probes, old(store))
    {
      ghost var free0 := cubeFree[..];
      var i := 0;
      while i < probeCount
        invariant 0 <= i <= probeCount && cubeFree[..] == free0
        invariant forall j :: 0 <= j < i ==> !free0[j]
      {
        if cubeFree[i] {
          assert IndexOf(free0, true) == i;
          cubeFree[i] := false;
          return i;
        }
        i := i + 1;
      }
      assert IndexOf(free0, true) == probeCount;
      var k: int := |probes| - 1;
      while k >= probeCount
        invariant -1 <= k < |probes|
        invariant LastHolder(probes, store, probeCount, |probes|) == LastHolder(probes, store, probeCount, k + 1)
      {
        var p := probes[k];
        if store[p].cubeIndex != -1 {
          r := store[p].cubeIndex;
          store := store[p := store[p].(cubeIndex := -1)];
          return r;
        }
        k := k - 1;
      }
      return -1;
    }

    /**
     * `deleteProbe(i)`: frees the probe's slot, resets the cursor if it was
     * being captured, erases it from each neighbour's list, and erases
     * position `i` of the probe list.
     */
    method DeleteProbe(i: nat)
      requires Valid() && i < |probes|
      modifies this`probes, this`store, this`updatingProbe, this`updatingFace, this`slotOwner, cubeFree
      ensures Valid()
      ensures probes == RemoveAt(old(probes), i)
      ensures store == Detach(old(store), old(probes)[i], old(store)[old(probes)[i]].neighbors)
      ensures cubeFree[..] == FreedSlot(old(cubeFree[..]), old(store)[old(probes)[i]].cubeIndex)
      ensures old(store)[old(probes)[i]].cubeIndex < probeCount
      ensures updatingProbe == (if old(updatingProbe) == Some(old(probes)[i]) then None else old(updatingProbe))
      ensures updatingFace == (if old(updatingProbe) == Some(old(probes)[i]) then 0 else old(updatingFace))
    {
      var p := probes[i];
      var pr := store[p];
      DeleteKeepsInv(probeCount, cubeFree[..], probes, createList, store, slotOwner, updatingProbe, updatingFace, nextId, i);
      var st := DetachAll(p);
      var ps2 := RemoveAt(probes, i);
      CommitDelete(p, pr.cubeIndex, ps2, st);
    }

    /**
     * The state changes of `deleteProbe` once the neighbour lists are done:
     * the slot is freed, the cursor released, and the new store and probe
     * list take effect.
     */
    method CommitDelete(p: ProbeId, c: int, ps2: seq<ProbeId>, st: map<ProbeId, Probe>)
      requires cubeFree.Length == probeCount && reflectionMaps.Length == probeCount && resolution >= 1
      requires c == -1 || 0 <= c < cubeFree.Length
      requires Inv(probeCount, FreedSlot(cubeFree[..], c), ps2, createList, st, FreedOwner(slotOwner, c),
                   if updatingProbe == Some(p) then None else updatingProbe,
                   if updatingProbe == Some(p) then 0 else updatingFace, nextId)
      modifies this`probes, this`store, this`updatingProbe, this`updatingFace, this`slotOwner, cubeFree
      ensures Valid()
      ensures probes == ps2 && store == st
      ensures cubeFree[..] == FreedSlot(old(cubeFree[..]), c) && slotOwner == FreedOwner(old(slotOwner), c)
      ensures updatingProbe == (if old(updatingProbe) == Some(p) then None else old(updatingProbe))
      ensures updatingFace == (if old(updatingProbe) == Some(p) then 0 else old(updatingFace))
    {
      FreeSlot(c);
      ReleaseCursor(p);
      store := st;
      probes := ps2;
    }

    /** The capture cursor goes back to `(null, 0)` when it is on `p`. */
    method ReleaseCursor(p: ProbeId)
      modifies this`updatingProbe, this`updatingFace
      ensures updatingProbe == (if old(updatingProbe) == Some(p) then None else old(updatingProbe))
      ensures updatingFace == (if old(updatingProbe) == Some(p) then 0 else old(updatingFace))
    {
      if updatingProbe == Some(p) {
        updatingProbe := None;
        updatingFace := 0;
      }
    }

    /** `mCubeFree[index] = true` for a probe's slot, when it has one. */
    method FreeSlot(c: int)
      requires c == -1 || 0 <= c < cubeFree.Length
      modifies cubeFree, this`slotOwner
      ensures cubeFree[..] == FreedSlot(old(cubeFree[..]), c) && slotOwner == FreedOwner(old(slotOwner), c)
    {
      if c != -1 {
        cubeFree[c] := true;
        slotOwner := slotOwner - {c as nat};
      }
    }

    /**
     * `updateNeighbors(p)`: `p` leaves every neighbour list, then is linked
     * both ways with every other listed probe it intersects.
     */
    method UpdateNeighbors(p: ProbeId, intersects: (ProbeId, ProbeId) -> bool)
      requires Valid() && p in probes
      modifies this`store
      ensures Valid()
      ensures store == Link(Unlink(old(store), p), p, probes, Matches(p, intersects))
      ensures store[p].neighbors == Filter(probes, Matches(p, intersects))
      ensures forall q :: q in probes && q != p ==> (p in store[q].neighbors <==> intersects(p, q))
      ensures store.Keys == old(store).Keys && forall q :: q in old(store) ==> SameButLinks(old(store)[q], store[q])
    {
      var m := Matches(p, intersects);
      RelinkKeepsInv(probeCount, cubeFree[..], probes, createList, store, slotOwner, updatingProbe, updatingFace, nextId, p, m);
      var st := DetachAll(p);
      st := st[p := st[p].(neighbors := [])];
      st := LinkAll(probes, st, p, intersects);
      store := st;
    }

    /**
     * The neighbour-erasing loop shared by `deleteProbe` and
     * `updateNeighbors`: `p` is erased from the list of each of its
     * neighbours, each of which holds it.
     */
    method DetachAll(p: ProbeId) returns (st: map<ProbeId, Probe>)
      requires Valid() && p in probes
      ensures st == Detach(store, p, store[p].neighbors)
    {
      st := store;
      var nbrs := store[p].neighbors;
      assert LinksOk(probes, store, p);
      var k := 0;
      while k < |nbrs|
        invariant k <= |nbrs|
        invariant st == Detach(store, p, nbrs[..k])
      {
        var other := nbrs[k];
        assert other in store[p].neighbors && other in probes;
        assert other !in nbrs[..k] && st[other] == store[other];
        assert p in st[other].neighbors;
        st := st[other := st[other].(neighbors := RemoveFirst(st[other].neighbors, p))];
        DetachStep(store, p, nbrs[..k], other);
        assert nbrs[..k + 1] == nbrs[..k] + [other];
        k := k + 1;
      }
      assert nbrs[..k] == nbrs;
    }

    /**
     * `getReflectionMaps(maps)`: walks the list while output places remain,
     * binding each probe it reaches and handing out the slot holders in list
     * order; resets the index of every probe after the last one reached, and
     * writes null after the last entry when there is room.
     */
    method GetReflectionMaps(maps: array<Option<ProbeId>>, now: real)
      requires Valid()
      modifies this`store, maps
      ensures Valid()
      ensures store == BindAll(old(store), probes, maps.Length, now)
      ensures var s := Selected(probes, old(store), maps.Length);
        (forall r :: 0 <= r < |s| ==> maps[r] == Some(s[r]))
        && (|s| < maps.Length ==> maps[|s|] == None)
        && (forall r :: |s| < r < maps.Length ==> maps[r] == old(maps[r]))
      ensures Leading(maps[..]) == Selected(probes, old(store), maps.Length)
    {
      var st, out := BindMaps(probes, store, maps.Length, now);
      WriteMaps(maps, out);
      ghost var written := maps[..];
      BindAllFrame(old(store), probes, maps.Length, now);
      InvSameLinks(probeCount, cubeFree[..], probes, createList, old(store), st, slotOwner, updatingProbe, updatingFace, nextId);
      store := st;
      assert maps[..] == written;
    }

    /**
     * `updateUniforms`: hands the probes out into `reflectionMaps`, then
     * packs one `refIndex` row for each probe before the first null entry
     * and their sampled neighbours into the `refNeighbor` buffer;
     * `refmapCount` is the number of rows. Each packed probe's probe index
     * is its row and it owns a slot of the cube-map array.
     */
    method UpdateUniforms(now: real) returns (rows: seq<RefIndex>, refNeighbor: array<int>)
      requires Valid()
      modifies this`store, reflectionMaps
      ensures Valid() && store == BindAll(old(store), probes, probeCount, now)
      ensures fresh(refNeighbor) && refNeighbor.Length == NEIGHBOR_SLOTS
      ensures Uploadable(store, Selected(probes, old(store), probeCount), probeCount)
      ensures Packed(store, Selected(probes, old(store), probeCount), rows, refNeighbor[..])
    {
      ghost var s := Selected(probes, store, probeCount);
      HandedOut(probeCount, cubeFree[..], probes, createList, store, slotOwner, updatingProbe, updatingFace, nextId, now);
      GetReflectionMaps(reflectionMaps, now);
      assert store == BindAll(old(store), probes, probeCount, now);
      ghost var st := store;
      rows, refNeighbor := PackNeighbors(reflectionMaps[..], store, s);
      assert store == st && Selected(probes, old(store), probeCount) == s;
    }

    /**
     * `update`, once per frame. `active` stands for the frame's guards (PBR
     * rendering on, no teleport screen, no logout under way), `realtime` for
     * the probe detail setting, `intersects` for the probes' volume test and
     * `distanceOf` for the camera distance. An active frame allocates the
     * cube-map array and the mip chain on first use and runs `Frame`.
     * `rendered` lists the cube faces drawn, in order.
     */
    method Update(active: bool, realtime: bool, intersects: (ProbeId, ProbeId) -> bool, distanceOf: ProbeId -> real)
      returns (rendered: seq<FaceCapture>)
      requires Valid()
      modifies this, cubeFree
      ensures Valid()
      ensures !active ==>
        rendered == [] && probes == old(probes) && store == old(store) && killList == old(killList)
        && createList == old(createList) && updatingProbe == old(updatingProbe) && updatingFace == old(updatingFace)
        && hasTexture == old(hasTexture) && mipChain == old(mipChain) && cubeFree[..] == old(cubeFree[..])
      ensures active ==> hasTexture && killList == [] && createList == []
      ensures active && old(mipChain) == [] ==>
        |mipChain| == CubeArrays.MipCount(resolution) && forall i :: 0 <= i < |mipChain| ==> mipChain[i] == CubeArrays.LevelResolution(resolution, i)
      ensures old(mipChain) != [] ==> mipChain == old(mipChain)
      ensures active ==> SortedBy(probes, DistanceIn(store))
      ensures active ==> Measured(probes, store, distanceOf) && SortedBy(probes, distanceOf)
      ensures active ==> multiset(probes) == multiset(Collected(old(probes), old(killList), old(createList), old(store)))
      ensures active ==> forall p :: p in probes ==> p in old(probes) || p in old(createList)
      ensures active && old(updatingProbe).None? ==>
        updatingProbe == OldestKept(Collected(old(probes), old(killList), old(createList), old(store)), old(store), probeCount)
      ensures active && old(updatingProbe).None? && probes != [] && probeCount > 0 ==>
        updatingProbe.Some? && updatingFace == 1 && EndsWithFirstFace(rendered, updatingProbe.value)
      ensures InLayers(rendered, probeCount)
    {
      rendered := [];
      if !active {
        return;
      }
      hasTexture := true;
      if mipChain == [] {
        mipChain := CubeArrays.BuildMipChain(resolution);
      }
      rendered := Frame(realtime, intersects, distanceOf);
    }

    /** An active frame: `Tick`, then the closing sort of the list by distance. */
    method Frame(realtime: bool, intersects: (ProbeId, ProbeId) -> bool, distanceOf: ProbeId -> real)
      returns (rendered: seq<FaceCapture>)
      requires Valid()
      modifies this`probes, this`store, this`killList, this`createList, this`updatingProbe, this`updatingFace, this`slotOwner, cubeFree
      ensures Valid() && killList == [] && createList == []
      ensures SortedBy(probes, DistanceIn(store))
      ensures Measured(probes, store, distanceOf) && SortedBy(probes, distanceOf)
      ensures multiset(probes) == multiset(Collected(old(probes), old(killList), old(createList), old(store)))
      ensures forall p :: p in probes ==> p in old(probes) || p in old(createList)
      ensures old(updatingProbe).None? ==>
        updatingProbe == OldestKept(Collected(old(probes), old(killList), old(createList), old(store)), old(store), probeCount)
      ensures old(updatingProbe).None? && probes != [] && probeCount > 0 ==>
        updatingProbe.Some? && updatingFace == 1 && EndsWithFirstFace(rendered, updatingProbe.value)
      ensures InLayers(rendered, probeCount)
    {
      rendered := Tick(realtime, intersects, distanceOf);
      ghost var ticked, u, f := probes, updatingProbe, updatingFace;
      SortProbes(distanceOf);
      assert updatingProbe == u && updatingFace == f && |probes| == |ticked|;
    }

    /**
     * The body of an active frame before the closing sort: drains the kill
     * list, admits the create list, and, unless the list is then empty, runs
     * `Capture`.
     */
    method Tick(realtime: bool, intersects: (ProbeId, ProbeId) -> bool, distanceOf: ProbeId -> real)
      returns (rendered: seq<FaceCapture>)
      requires Valid()
      modifies this`probes, this`store, this`killList, this`createList, this`updatingProbe, this`updatingFace, this`slotOwner, cubeFree
      ensures Valid()
      ensures killList == [] && createList == []
      ensures probes == Collected(old(probes), old(killList), old(createList), old(store))
      ensures forall p :: p in probes ==> p in old(probes) || p in old(createList)
      ensures old(updatingProbe).None? ==> updatingProbe == OldestKept(probes, old(store), probeCount)
      ensures old(updatingProbe).None? && probes != [] && probeCount > 0 ==>
        updatingProbe.Some? && updatingFace == 1 && EndsWithFirstFace(rendered, updatingProbe.value)
      ensures Measured(probes, store, distanceOf)
      ensures InLayers(rendered, probeCount)
    {
      rendered := [];
      ApplyPending();
      ghost var mid := store;
      rendered := CaptureIfAny(realtime, intersects, distanceOf);
      SurvivorsAgree(old(probes), old(killList), old(createList), old(store), mid, probes, probeCount);
    }

    /** `Capture`, unless the list is empty. */
    method CaptureIfAny(realtime: bool, intersects: (ProbeId, ProbeId) -> bool, distanceOf: ProbeId -> real)
      returns (rendered: seq<FaceCapture>)
      requires Valid()
      modifies this`probes, this`store, this`updatingProbe, this`updatingFace, this`slotOwner, cubeFree
      ensures Valid() && unchanged(this`killList, this`createList)
      ensures probes == Kept(old(probes), old(store))
      ensures forall p :: p in probes ==> p in old(probes)
      ensures old(updatingProbe).None? ==> updatingProbe == OldestKept(probes, old(store), probeCount)
      ensures old(updatingProbe).None? && probes != [] && probeCount > 0 ==>
        updatingProbe.Some? && updatingFace == 1 && EndsWithFirstFace(rendered, updatingProbe.value)
      ensures Measured(probes, store, distanceOf)
      ensures InLayers(rendered, probeCount)
    {
      rendered := [];
      if probes != [] {
        rendered := Capture(realtime, intersects, distanceOf);
      }
    }

    /** The two list passes that open an active frame: the kill list, then the create list. */
    method ApplyPending()
      requires Valid()
      modifies this`probes, this`store, this`updatingProbe, this`updatingFace, this`slotOwner, cubeFree, this`killList, this`createList
      ensures Valid() && killList == [] && createList == []
      ensures probes == Pending(old(probes), old(killList), old(createList))
      ensures forall p :: p in probes ==> p in old(probes) || p in old(createList)
      ensures LinksOnly(old(store), store)
      ensures old(updatingProbe).None? ==> updatingProbe.None?
    {
      ghost var p0 := probes;
      DrainKillList();
      FilterIn(p0, NotKilled(old(killList)));
      AppendCreates();
    }

    /**
     * The frame on a non-empty list: advances the capture in progress,
     * compacts and scans the list, captures the closest live dynamic probe
     * in real time, and then, when no capture was in progress, starts
     * capturing the oldest probe. Every face lands in a layer of the array.
     */
    method Capture(realtime: bool, intersects: (ProbeId, ProbeId) -> bool, distanceOf: ProbeId -> real)
      returns (rendered: seq<FaceCapture>)
      requires Valid() && probes != []
      modifies this`probes, this`store, this`updatingProbe, this`updatingFace, this`slotOwner, cubeFree
      ensures Valid()
      ensures probes == Kept(old(probes), old(store))
      ensures forall p :: p in probes ==> p in old(probes)
      ensures old(updatingProbe).None? ==> updatingProbe == OldestKept(probes, old(store), probeCount)
      ensures old(updatingProbe).None? && probes != [] && probeCount > 0 ==>
        updatingProbe.Some? && updatingFace == 1 && EndsWithFirstFace(rendered, updatingProbe.value)
      ensures old(updatingProbe).Some? ==>
        |rendered| > 0 && rendered[0].probe == old(updatingProbe).value && rendered[0].face == old(updatingFace)
        && (updatingProbe == old(updatingProbe) || updatingProbe.None?)
      ensures old(updatingProbe).Some? && old(updatingFace) + 1 == CUBE_FACES ==> updatingProbe.None?
      ensures Measured(probes, store, distanceOf)
      ensures InLayers(rendered, probeCount)
    {
      var didUpdate;
      ghost var p0, st0 := probes, store;
      rendered, didUpdate := Advance(intersects);
      LinksKeepScanInputs(st0, store);
      FilterExt(p0, IsReferenced(store), IsReferenced(st0));
      var more := ScanThenBegin(didUpdate, realtime, intersects, distanceOf);
      AppendFaces(rendered, more, probeCount);
      rendered := rendered + more;
    }

    /** The collection scan, then `Begin` with what it found. */
    method ScanThenBegin(didUpdate: bool, realtime: bool, intersects: (ProbeId, ProbeId) -> bool, distanceOf: ProbeId -> real)
      returns (rendered: seq<FaceCapture>)
      requires Valid() && (!didUpdate ==> updatingProbe.None?)
      modifies this`probes, this`store, this`updatingProbe, this`updatingFace, this`slotOwner, cubeFree
      ensures Valid()
      ensures probes == Kept(old(probes), old(store))
      ensures forall p :: p in probes ==> p in old(probes)
      ensures !didUpdate ==> updatingProbe == OldestKept(probes, old(store), probeCount)
      ensures !didUpdate && probes != [] && probeCount > 0 ==>
        updatingProbe.Some? && updatingFace == 1 && EndsWithFirstFace(rendered, updatingProbe.value)
      ensures didUpdate ==> updatingProbe == old(updatingProbe) || updatingProbe.None?
      ensures Measured(probes, store, distanceOf)
      ensures InLayers(rendered, probeCount)
    {
      var oldest, dyn := Scan(didUpdate, realtime, distanceOf);
      rendered := Begin(didUpdate, realtime, oldest, dyn, intersects, distanceOf);
    }

    /**
     * The rest of the frame after the collection scan: the real-time probe
     * `dyn` found by the scan is rendered, then, when no capture was in
     * progress, the capture of the oldest probe starts with its first face.
     */
    method Begin(didUpdate: bool, realtime: bool, oldest: Option<ProbeId>, dyn: Option<ProbeId>,
                 intersects: (ProbeId, ProbeId) -> bool, ghost distanceOf: ProbeId -> real)
      returns (rendered: seq<FaceCapture>)
      requires Valid() && (!didUpdate ==> updatingProbe.None?)
      requires oldest.Some? ==> oldest.value in probes && IndexOf(probes, oldest.value) < probeCount
      requires dyn.Some? ==> dyn.value in probes && 0 <= store[dyn.value].cubeIndex < probeCount
      requires Measured(probes, store, distanceOf)
      modifies this`store, cubeFree, this`slotOwner, this`updatingProbe, this`updatingFace
      ensures Valid()
      ensures |rendered| == (if realtime && dyn.Some? then CUBE_FACES else 0) + (if !didUpdate && oldest.Some? then 1 else 0)
      ensures realtime && dyn.Some? ==> forall f :: 0 <= f < CUBE_FACES ==> rendered[f].probe == dyn.value && rendered[f].face == f
      ensures !didUpdate && oldest.Some? ==>
        updatingProbe == oldest && updatingFace == 1 && EndsWithFirstFace(rendered, oldest.value)
      ensures didUpdate || oldest.None? ==> updatingProbe == old(updatingProbe) && updatingFace == old(updatingFace)
      ensures Measured(probes, store, distanceOf)
      ensures InLayers(rendered, probeCount)
    {
      rendered := [];
      if realtime && dyn.Some? {
        rendered := RenderRealtime(dyn.value);
      }
      if !didUpdate && oldest.Some? {
        var face := StartCapture(oldest.value, intersects, distanceOf);
        ghost var before := rendered;
        rendered := rendered + [face];
        assert |rendered| == |before| + 1 && rendered[|before|] == face;
      }
    }

    /**
     * The start of the frame: renders the next face of the capture in
     * progress, if there is one. The list is left as it was.
     */
    method Advance(intersects: (ProbeId, ProbeId) -> bool) returns (rendered: seq<FaceCapture>, didUpdate: bool)
      requires Valid()
      modifies this`store, this`updatingProbe, this`updatingFace
      ensures Valid()
      ensures didUpdate == old(updatingProbe).Some?
      ensures !didUpdate ==> updatingProbe.None?
      ensures didUpdate ==>
        |rendered| == 1 && rendered[0].probe == old(updatingProbe).value && rendered[0].face == old(updatingFace)
        && rendered[0].layer / CUBE_FACES == old(store)[old(updatingProbe).value].cubeIndex
      ensures !didUpdate ==> rendered == [] && store == old(store) && updatingFace == old(updatingFace)
      ensures didUpdate && old(updatingFace) + 1 < CUBE_FACES ==>
        updatingProbe == old(updatingProbe) && updatingFace == old(updatingFace) + 1 && store == old(store)
      ensures didUpdate && old(updatingFace) + 1 == CUBE_FACES ==>
        var p := old(updatingProbe).value;
        updatingProbe == None && updatingFace == 0
        && store == Link(Unlink(old(store), p), p, probes, Matches(p, intersects))
      ensures store.Keys == old(store).Keys && forall q :: q in old(store) ==> SameButLinks(old(store)[q], store[q])
      ensures InLayers(rendered, probeCount)
    {
      rendered := [];
      didUpdate := updatingProbe.Some?;
      if didUpdate {
        var face := DoProbeUpdate(intersects);
        rendered := [face];
      }
    }

    /**
     * The collection scan as the rest of the frame sees it: no probe joins
     * the list, the capture is left alone or dropped, and `oldest`, when no
     * capture was in progress, is one of the first `probeCount` probes, and
     * is there whenever the list and the array are not empty; `dyn` is a
     * listed probe that holds a slot.
     */
    method Scan(didUpdate: bool, realtime: bool, distanceOf: ProbeId -> real)
      returns (oldest: Option<ProbeId>, dyn: Option<ProbeId>)
      requires Valid()
      modifies this`probes, this`store, this`updatingProbe, this`updatingFace, this`slotOwner, cubeFree
      ensures Valid()
      ensures probes == Kept(old(probes), old(store))
      ensures forall p :: p in probes ==> p in old(probes)
      ensures updatingProbe == old(updatingProbe) || updatingProbe.None?
      ensures oldest == if didUpdate then None else OldestKept(probes, old(store), probeCount)
      ensures oldest.Some? ==> oldest.value in probes && IndexOf(probes, oldest.value) < probeCount
      ensures !didUpdate && probes != [] && probeCount > 0 ==> oldest.Some?
      ensures dyn == if realtime then Head(Filter(probes, IsLiveDynamic(old(store)))) else None
      ensures dyn.Some? ==> dyn.value in probes && 0 <= store[dyn.value].cubeIndex < probeCount
      ensures Measured(probes, store, distanceOf)
    {
      oldest, dyn := Collect(didUpdate, realtime, distanceOf);
      if dyn.Some? {
        var q := dyn.value;
        FilterIn(probes, IsLiveDynamic(old(store)));
        assert q in Filter(probes, IsLiveDynamic(old(store)));
        assert Settled(store)[q] == Settled(old(store))[q];
      }
    }

    /**
     * `doProbeUpdate`: renders the cursor's face, advances the face, and
     * after the sixth face rebuilds the probe's neighbours and resets the
     * cursor to `(null, 0)`.
     */
    method DoProbeUpdate(intersects: (ProbeId, ProbeId) -> bool) returns (rendered: FaceCapture)
      requires Valid() && updatingProbe.Some?
      modifies this`store, this`updatingProbe, this`updatingFace
      ensures Valid()
      ensures rendered.probe == old(updatingProbe).value && rendered.face == old(updatingFace)
      ensures rendered.layer / CUBE_FACES == old(store)[old(updatingProbe).value].cubeIndex
        && 0 <= rendered.layer < CUBE_FACES * probeCount
      ensures old(updatingFace) + 1 < CUBE_FACES ==>
        updatingProbe == old(updatingProbe) && updatingFace == old(updatingFace) + 1 && store == old(store)
      ensures old(updatingFace) + 1 == CUBE_FACES ==>
        var p := old(updatingProbe).value;
        updatingProbe == None && updatingFace == 0
        && store == Link(Unlink(old(store), p), p, probes, Matches(p, intersects))
      ensures store.Keys == old(store).Keys && forall q :: q in old(store) ==> SameButLinks(old(store)[q], store[q])
    {
      var p := updatingProbe.value;
      rendered := UpdateProbeFace(p, updatingFace);
      if updatingFace + 1 == CUBE_FACES {
        FinishCapture(intersects);
      } else {
        updatingFace := updatingFace + 1;
      }
    }

    /**
     * The end of a capture, after its sixth face: the probe's neighbours are
     * rebuilt and the cursor goes back to `(null, 0)`.
     */
    method FinishCapture(intersects: (ProbeId, ProbeId) -> bool)
      requires Valid() && updatingProbe.Some?
      modifies this`store, this`updatingProbe, this`updatingFace
      ensures Valid()
      ensures var p := old(updatingProbe).value;
        updatingProbe == None && updatingFace == 0
        && store == Link(Unlink(old(store), p), p, probes, Matches(p, intersects))
      ensures store.Keys == old(store).Keys && forall q :: q in old(store) ==> SameButLinks(old(store)[q], store[q])
    {
      var p := updatingProbe.value;
      updatingFace := 0;
      UpdateNeighbors(p, intersects);
      ResetCursorKeepsInv(probeCount, cubeFree[..], probes, createList, store, slotOwner, updatingProbe, updatingFace, nextId);
      updatingProbe := None;
    }

    /** `rebuild`: every probe is marked as never updated, so captures start over. */
    method Rebuild()
      requires Valid()
      modifies this`store
      ensures Valid()
      ensures store == Rebuilt(old(store), probes)
    {
      var st := RebuildAll(probes, store);
      InvSameLinks(probeCount, cubeFree[..], probes, createList, store, st, slotOwner, updatingProbe, updatingFace, nextId);
      store := st;
    }

    /** `shift(offset)`: every probe's origin moves with the region origin. */
    method Shift(offset: Vec3)
      requires Valid()
      modifies this`store
      ensures Valid()
      ensures store == Shifted(old(store), probes, offset)
    {
      var st := ShiftAll(probes, store, offset);
      InvSameLinks(probeCount, cubeFree[..], probes, createList, store, st, slotOwner, updatingProbe, updatingFace, nextId);
      store := st;
    }

    /**
     * The kill-list pass of `update`: each listed probe still in the probe
     * list is deleted, and the kill list is emptied.
     */
    method DrainKillList()
      requires Valid()
      modifies this`probes, this`store, this`updatingProbe, this`updatingFace, this`slotOwner, cubeFree, this`killList
      ensures Valid()
      ensures probes == Filter(old(probes), NotKilled(old(killList))) && killList == []
      ensures store.Keys == old(store).Keys && forall q :: q in old(store) ==> SameButLinks(old(store)[q], store[q])
      ensures old(updatingProbe).None? ==> updatingProbe.None?
      ensures updatingProbe.Some? ==> updatingProbe == old(updatingProbe)
    {
      ghost var p0, st0 := probes, store;
      var kl := killList;
      FilterKeepsAll(p0, NotKilled(kl[..0]));
      var k := 0;
      while k < |kl|
        invariant k <= |kl| && Valid()
        invariant probes == Filter(p0, NotKilled(kl[..k]))
        invariant store.Keys == st0.Keys && forall q :: q in st0 ==> SameButLinks(st0[q], store[q])
        invariant old(updatingProbe).None? ==> updatingProbe.None?
        invariant updatingProbe.Some? ==> updatingProbe == old(updatingProbe)
      {
        KillStep(p0, kl, k);
        ghost var mid := store;
        KillOne(kl[k]);
        forall q | q in st0 ensures SameButLinks(st0[q], store[q]) {
          assert SameButLinks(st0[q], mid[q]);
        }
        k := k + 1;
      }
      assert kl[..k] == kl;
      killList := [];
    }

    /** One kill-list entry: the probe is deleted if it is still listed. */
    method KillOne(x: ProbeId)
      requires Valid()
      modifies this`probes, this`store, this`updatingProbe, this`updatingFace, this`slotOwner, cubeFree
      ensures Valid()
      ensures probes == RemoveFirst(old(probes), x)
      ensures store.Keys == old(store).Keys && forall q :: q in old(store) ==> SameButLinks(old(store)[q], store[q])
      ensures old(updatingProbe).None? ==> updatingProbe.None?
      ensures updatingProbe.Some? ==> updatingProbe == old(updatingProbe)
    {
      var idx := IndexOf(probes, x);
      if idx < |probes| {
        ghost var st0 := store;
        DetachOnlyLinks(st0, x, st0[x].neighbors);
        DeleteProbe(idx);
      }
    }

    /**
     * The collection scan of `update`: probes nobody else holds are deleted
     * in place; each kept probe gets its position and its distance; the
     * scan picks the oldest probe among the first `probeCount` kept ones
     * (when no capture was in progress) and the first kept probe that is
     * dynamic and has its cube array (in real-time mode).
     */
    method Collect(didUpdate: bool, realtime: bool, distanceOf: ProbeId -> real)
      returns (oldest: Option<ProbeId>, dyn: Option<ProbeId>)
      requires Valid()
      modifies this`probes, this`store, this`updatingProbe, this`updatingFace, this`slotOwner, cubeFree
      ensures Valid()
      ensures probes == Kept(old(probes), old(store))
      ensures store.Keys == old(store).Keys && Settled(store) == Settled(old(store))
      ensures forall k :: 0 <= k < |probes| ==>
        store[probes[k]].probeIndex == k && store[probes[k]].distance == distanceOf(probes[k])
      ensures oldest == if didUpdate then None else OldestKept(probes, old(store), probeCount)
      ensures dyn == if realtime then Head(Filter(probes, IsLiveDynamic(old(store)))) else None
      ensures updatingProbe == old(updatingProbe) || updatingProbe.None?
      ensures forall p :: p in probes ==> p in old(probes)
      ensures oldest.Some? ==> oldest.value in probes && IndexOf(probes, oldest.value) < probeCount
      ensures !didUpdate && probes != [] && probeCount > 0 ==> oldest.Some?
    {
      ghost var p0, st0 := probes, store;
      assert Distinct(p0);
      assert Stored(p0, st0) by {
        assert forall k :: 0 <= k < |p0| ==> p0[k] in p0;
      }
      ghost var tr := Trace(p0, st0, probeCount, distanceOf, didUpdate, realtime);
      var i: nat;
      ghost var j: nat;
      i, j, oldest, dyn := CollectScan(p0, st0, tr, didUpdate, realtime, distanceOf);
      assert tr[j] == ScanAt(p0, st0, probeCount, distanceOf, didUpdate, realtime, j);
      ScanFinal(p0, st0, probeCount, distanceOf, didUpdate, realtime, j, probes, i, oldest, dyn, store);
      FilterIn(p0, IsReferenced(st0));
      OldestInPrefix(probes, Capped(|probes|, probeCount), AgeIn(st0));
    }

    /** After `j` steps of the trace `tr`, the scan stands at cursor `i` with these candidates. */
    ghost predicate Scanning(p0: seq<ProbeId>, tr: seq<ScanPoint>, j: nat, i: nat,
                             oldest: Option<ProbeId>, dyn: Option<ProbeId>)
      reads this, cubeFree
    {
      Valid() && j < |tr| && i + |p0| == |probes| + j
      && tr[j].probes == probes && tr[j].cursor == i && tr[j].oldest == oldest && tr[j].dyn == dyn && tr[j].store == store
    }

    /**
     * The loop of the collection scan: it steps through the list until the
     * cursor `i` reaches its end, after `j` steps of the trace.
     */
    method CollectScan(ghost p0: seq<ProbeId>, ghost st0: map<ProbeId, Probe>, ghost tr: seq<ScanPoint>,
                       didUpdate: bool, realtime: bool, distanceOf: ProbeId -> real)
      returns (i: nat, ghost j: nat, oldest: Option<ProbeId>, dyn: Option<ProbeId>)
      requires Valid() && p0 == probes && st0 == store && Stored(p0, st0)
      requires IsTrace(p0, st0, probeCount, distanceOf, didUpdate, realtime, tr)
      modifies this`probes, this`store, this`updatingProbe, this`updatingFace, this`slotOwner, cubeFree
      ensures Scanning(p0, tr, j, i, oldest, dyn) && i >= |probes|
      ensures updatingProbe == old(updatingProbe) || updatingProbe.None?
    {
      TraceStart(p0, st0, probeCount, distanceOf, didUpdate, realtime, tr);
      ghost var cursor0 := updatingProbe;
      j, i := 0, 0;
      oldest, dyn := None, None;
      while i < |probes|
        invariant Scanning(p0, tr, j, i, oldest, dyn)
        invariant updatingProbe == cursor0 || updatingProbe.None?
        decreases |p0| - j
      {
        i, oldest, dyn := CollectStep(p0, st0, tr, j, didUpdate, realtime, distanceOf, i, oldest, dyn);
        j := j + 1;
      }
    }

    /** One step of the collection scan: the probe at `i` is dropped or kept. */
    method CollectStep(ghost p0: seq<ProbeId>, ghost st0: map<ProbeId, Probe>, ghost tr: seq<ScanPoint>, ghost j: nat,
                       didUpdate: bool, realtime: bool, distanceOf: ProbeId -> real,
                       i: nat, oldest: Option<ProbeId>, dyn: Option<ProbeId>)
      returns (i2: nat, oldest2: Option<ProbeId>, dyn2: Option<ProbeId>)
      requires Stored(p0, st0) && IsTrace(p0, st0, probeCount, distanceOf, didUpdate, realtime, tr)
      requires Scanning(p0, tr, j, i, oldest, dyn) && i < |probes|
      modifies this`probes, this`store, this`updatingProbe, this`updatingFace, this`slotOwner, cubeFree
      ensures Scanning(p0, tr, j + 1, i2, oldest2, dyn2)
      ensures updatingProbe == old(updatingProbe) || updatingProbe.None?
    {
      TraceNext(p0, st0, probeCount, distanceOf, didUpdate, realtime, tr, j);
      if !store[probes[i]].referenced {
        CollectDrop(i, didUpdate, realtime, distanceOf, oldest, dyn);
        i2, oldest2, dyn2 := i, oldest, dyn;
      } else {
        oldest2, dyn2 := CollectKeep(i, didUpdate, realtime, distanceOf, oldest, dyn);
        i2 := i + 1;
      }
    }

    /** One dropping step of the collection scan: the unreferenced probe at `i` is deleted. */
    method CollectDrop(i: nat, ghost didUpdate: bool, ghost realtime: bool, ghost distanceOf: ProbeId -> real,
                       ghost oldest: Option<ProbeId>, ghost dyn: Option<ProbeId>)
      requires Valid() && i < |probes| && !store[probes[i]].referenced
      requires Steppable(ScanPoint(probes, i, oldest, dyn, store))
      modifies this`probes, this`store, this`updatingProbe, this`updatingFace, this`slotOwner, cubeFree
      ensures Valid()
      ensures ScanPoint(probes, i, oldest, dyn, store)
        == ScanStep(ScanPoint(old(probes), i, oldest, dyn, old(store)), probeCount, distanceOf, didUpdate, realtime)
      ensures updatingProbe == old(updatingProbe) || updatingProbe.None?
    {
      DeleteProbe(i);
    }

    /**
     * One keeping step of the collection scan: the probe at `i` gets its
     * position and distance, and may become the oldest or the real-time
     * candidate.
     */
    method CollectKeep(i: nat, didUpdate: bool, realtime: bool, distanceOf: ProbeId -> real,
                       oldest: Option<ProbeId>, dyn: Option<ProbeId>)
      returns (oldest2: Option<ProbeId>, dyn2: Option<ProbeId>)
      requires Valid() && i < |probes| && store[probes[i]].referenced
      requires Steppable(ScanPoint(probes, i, oldest, dyn, store))
      modifies this`store
      ensures Valid()
      ensures ScanPoint(probes, i + 1, oldest2, dyn2, store)
        == ScanStep(ScanPoint(probes, i, oldest, dyn, old(store)), probeCount, distanceOf, didUpdate, realtime)
    {
      var q := probes[i];
      ghost var s0 := ScanPoint(probes, i, oldest, dyn, store);
      oldest2 := if !didUpdate && i < probeCount && (oldest.None? || store[q].lastUpdateTime < store[oldest.value].lastUpdateTime)
                 then Some(q) else oldest;
      dyn2 := if realtime && dyn.None? && store[q].hasCubeArray && store[q].shape.isDynamic && store[q].cubeIndex != -1
              then Some(q) else dyn;
      ghost var free := cubeFree[..];
      InvReindex(probeCount, free, probes, createList, store, slotOwner, updatingProbe, updatingFace, nextId,
                 q, i, distanceOf(q));
      store := store[q := store[q].(probeIndex := i, distance := distanceOf(q))];
      assert cubeFree[..] == free;
      KeepStep(s0, probeCount, distanceOf, didUpdate, realtime);

    }

    /** The create-list pass of `update`: deferred probes join the end of the list, in order. */
    method AppendCreates()
      requires Valid()
      modifies this`probes, this`createList
      ensures Valid()
      ensures probes == old(probes) + old(createList) && createList == []
    {
      AppendCreatedKeepsInv(probeCount, cubeFree[..], probes, createList, store, slotOwner, updatingProbe, updatingFace, nextId);
      ghost var p0 := probes;
      var cl := createList;
      var k := 0;
      while k < |cl|
        invariant k <= |cl| && probes == p0 + cl[..k] && createList == cl
      {
        assert cl[..k + 1] == cl[..k] + [cl[k]];
        probes := probes + [cl[k]];
        k := k + 1;
      }
      assert cl[..k] == cl;
      createList := [];
    }

    /** The closing sort of `update`: the list ordered by distance, as a permutation. */
    method SortProbes(ghost distanceOf: ProbeId -> real)
      requires Valid() && Measured(probes, store, distanceOf)
      modifies this`probes
      ensures Valid()
      ensures SortedBy(probes, DistanceIn(store)) && multiset(probes) == multiset(old(probes))
      ensures |probes| == |old(probes)| && forall p :: p in probes <==> p in old(probes)
      ensures Measured(probes, store, distanceOf) && SortedBy(probes, distanceOf)
    {
      var s := SortBy(probes, DistanceIn(store));
      SortByFacts(probes, DistanceIn(store));
      assert |s| == |probes| by {
        assert |multiset(s)| == |multiset(probes)|;
      }
      forall p ensures p in s <==> p in probes {
        assert p in s <==> p in multiset(s);
      }
      PermuteKeepsInv(probeCount, cubeFree[..], probes, s, createList, store, slotOwner, updatingProbe, updatingFace, nextId);
      MeasuredKept(probes, store, s, store, distanceOf);
      SortedByCamera(s, store, distanceOf);
      probes := s;
    }

    /**
     * Real-time refresh of the nearest dynamic probe: all six faces in this
     * tick, in order, into the six layers of its slot.
     */
    method RenderRealtime(p: ProbeId) returns (rendered: seq<FaceCapture>)
      requires p in store && 0 <= store[p].cubeIndex < probeCount
      ensures |rendered| == CUBE_FACES
      ensures forall f :: 0 <= f < CUBE_FACES ==>
        rendered[f].probe == p && rendered[f].face == f && rendered[f].layer / CUBE_FACES == store[p].cubeIndex
      ensures InLayers(rendered, probeCount)
    {
      rendered := [];
      var f := 0;
      while f < CUBE_FACES
        invariant f <= CUBE_FACES && |rendered| == f
        invariant forall g :: 0 <= g < f ==>
          rendered[g].probe == p && rendered[g].face == g && rendered[g].layer / CUBE_FACES == store[p].cubeIndex
          && 0 <= rendered[g].layer < CUBE_FACES * probeCount
      {
        var c := UpdateProbeFace(p, f);
        rendered := rendered + [c];
        f := f + 1;
      }
    }

    /**
     * The start of a new capture in `update`: a probe without a slot gets one
     * from `allocateCubeIndex` (and the cube-map array), the cursor moves to
     * it, and its first face is rendered.
     */
    method StartCapture(p: ProbeId, intersects: (ProbeId, ProbeId) -> bool, ghost distanceOf: ProbeId -> real)
      returns (rendered: FaceCapture)
      requires Valid() && updatingProbe.None? && p in probes && IndexOf(probes, p) < probeCount
      requires Measured(probes, store, distanceOf)
      modifies this`store, cubeFree, this`slotOwner, this`updatingProbe, this`updatingFace
      ensures Valid()
      ensures rendered.probe == p && rendered.face == 0 && updatingProbe == Some(p) && updatingFace == 1
      ensures rendered.layer / CUBE_FACES == store[p].cubeIndex && 0 <= rendered.layer < CUBE_FACES * probeCount
      ensures store[p].cubeIndex != -1 && store.Keys == old(store).Keys
      ensures old(store)[p].cubeIndex != -1 ==> store == old(store) && cubeFree[..] == old(cubeFree[..])
      ensures old(store)[p].cubeIndex == -1 ==>
        store[p] == old(store)[p].(hasCubeArray := true, cubeIndex := store[p].cubeIndex)
        && (store[p].cubeIndex, cubeFree[..], store[p := old(store)[p]]) == Allocation(probeCount, old(cubeFree[..]), probes, old(store))
      ensures Measured(probes, store, distanceOf)
    {
      if store[p].cubeIndex == -1 {
        var r := TakeSlot(p);
      }
      StartCursorKeepsInv(probeCount, cubeFree[..], probes, createList, store, slotOwner, nextId, p);
      updatingProbe := Some(p);
      updatingFace := 0;
      ghost var st1 := store;
      rendered := DoProbeUpdate(intersects);
      assert SameDistances(st1, store);
      MeasuredKept(probes, old(store), probes, store, distanceOf);
    }

    /**
     * A probe about to be captured without a slot gets the one
     * `allocateCubeIndex` returns, and the shared cube-map array.
     */
    method TakeSlot(p: ProbeId) returns (r: int)
      requires Valid() && updatingProbe.None? && p in probes && IndexOf(probes, p) < probeCount && store[p].cubeIndex == -1
      modifies this`store, cubeFree, this`slotOwner
      ensures Valid() && 0 <= r < probeCount
      ensures store[p] == old(store)[p].(hasCubeArray := true, cubeIndex := r)
      ensures (r, cubeFree[..], store[p := old(store)[p]]) == Allocation(probeCount, old(cubeFree[..]), probes, old(store))
      ensures SameDistances(old(store), store)
    {
      ghost var free0, st0, owner0 := cubeFree[..], store, slotOwner;
      AllocationKeepsDistances(probeCount, free0, probes, st0);
      TakeSlotKeepsInv(probeCount, free0, probes, createList, st0, owner0, nextId, p);
      ghost var a := Allocation(probeCount, free0, probes, st0);
      ghost var st2 := a.2[p := st0[p].(hasCubeArray := true, cubeIndex := a.0)];
      ghost var owner2 := owner0[a.0 as nat := p];
      SameDistancesUpdate(st0, a.2, p, st0[p].(hasCubeArray := true, cubeIndex := a.0));
      assert st2[p := st0[p]] == a.2;
      r := AllocateCubeIndex();
      store := store[p := store[p].(hasCubeArray := true, cubeIndex := r)];
      slotOwner := slotOwner[r as nat := p];
      assert store == st2 && cubeFree[..] == a.1 && slotOwner == owner2;
    }

    /**
     * `updateProbeFace`: the render passes and mip copies are graphics work;
     * what remains is which face of which probe was rendered, and the array
     * layer `cubeIndex * 6 + face` it is copied into. For a probe holding a
     * slot that is the face's layer within the slot's cube; for a probe
     * without one (`cubeIndex == -1`) it lies below the array.
     */
    method UpdateProbeFace(p: ProbeId, face: nat) returns (rendered: FaceCapture)
      requires p in store && face < CUBE_FACES
      ensures rendered.probe == p && rendered.face == face
      ensures 0 <= store[p].cubeIndex < probeCount ==>
        0 <= rendered.layer < CUBE_FACES * probeCount
        && rendered.layer / CUBE_FACES == store[p].cubeIndex && rendered.layer % CUBE_FACES == face
      ensures store[p].cubeIndex == -1 ==> rendered.layer < 0
    {
      rendered := FaceCapture(p, face, store[p].cubeIndex * CUBE_FACES + face);
    }
  }
}
