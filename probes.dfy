/**
 * Reflection probes as values, and the undirected neighbour graph that the
 * manager keeps as two-way adjacency lists.
 *
 * Probes live on the heap in the viewer and point at each other; here every
 * probe has a stable handle (`ProbeId`) into a store `map<ProbeId, Probe>`
 * and a neighbour list is a sequence of handles.
 */
module Probes {
  import opened Seqs

  type ProbeId = nat

  datatype Vec3 = Vec3(x: real, y: real, z: real) {
    function Add(o: Vec3): Vec3 {
      Vec3(x + o.x, y + o.y, z + o.z)
    }

    function Neg(): Vec3 {
      Vec3(-x, -y, -z)
    }
  }

  /** What a probe was created for: a spatial group (automatic probe) or a viewer object. */
  datatype Owner = Group(group: nat) | Object(object: nat)

  /**
   * Attributes that the probe's own code derives from its owner (priority,
   * whether `getBox` finds a box influence volume, `getIsDynamic`).
   */
  datatype Shape = Shape(priority: int, hasBox: bool, isDynamic: bool)

  /**
   * One reflection probe. `cubeIndex` is its slot in the cube-map array or
   * -1; `probeIndex` its position in the last list handed to the shader or
   * -1; `referenced` is false once no holder outside the manager remains
   * (`getNumRefs() == 1`); `hasCubeArray` says whether `mCubeArray` is set.
   */
  datatype Probe = Probe(
    owner: Owner,
    origin: Vec3,
    shape: Shape,
    cubeIndex: int,
    probeIndex: int,
    neighbors: seq<ProbeId>,
    lastUpdateTime: real,
    lastBindTime: real,
    distance: real,
    hasCubeArray: bool,
    referenced: bool)

  /** A freshly created probe: no slot, no neighbours, held by its creator. */
  function NewProbe(owner: Owner, origin: Vec3, shape: Shape): Probe {
    Probe(owner, origin, shape, -1, -1, [], 0.0, 0.0, 0.0, false, true)
  }

  /** Two stores with the same handles and the same probe at each handle are equal. */
  lemma SameEntries(b: map<ProbeId, Probe>, c: map<ProbeId, Probe>)
    requires b.Keys == c.Keys && forall q :: q in b ==> b[q] == c[q]
    ensures b == c
  {
  }

  /** The fields the neighbour bookkeeping never touches are equal. */
  ghost predicate SameButLinks(a: Probe, b: Probe) {
    a.(neighbors := b.neighbors) == b
  }

  /** `st2` holds the probes of `st`, changed at most in their neighbour lists. */
  ghost predicate LinksOnly(st: map<ProbeId, Probe>, st2: map<ProbeId, Probe>) {
    st2.Keys == st.Keys && forall q :: q in st ==> SameButLinks(st[q], st2[q])
  }

  /** `p`'s list is duplicate-free, omits `p`, and names only probes of `ps`. */
  ghost predicate LinksOk(ps: seq<ProbeId>, st: map<ProbeId, Probe>, p: ProbeId)
    requires p in st
  {
    Distinct(st[p].neighbors)
    && p !in st[p].neighbors
    && forall q :: q in st[p].neighbors ==> q in ps
  }

  /** The adjacency lists of the probes `ps` form an undirected simple graph on `ps`. */
  ghost predicate GraphOk(ps: seq<ProbeId>, st: map<ProbeId, Probe>) {
    (forall p :: p in ps ==> p in st)
    && (forall p :: p in ps ==> LinksOk(ps, st, p))
    && (forall p, q {:trigger q in st[p].neighbors} :: p in ps && q in ps && q in st[p].neighbors ==> p in st[q].neighbors)
  }

  /** The graph depends on neighbour lists alone. */
  lemma GraphKeepsLinks(ps: seq<ProbeId>, st: map<ProbeId, Probe>, st2: map<ProbeId, Probe>)
    requires GraphOk(ps, st)
    requires forall q :: q in ps ==> q in st2 && st2[q].neighbors == st[q].neighbors
    ensures GraphOk(ps, st2)
  {
    forall q | q in ps ensures LinksOk(ps, st2, q) {
      assert LinksOk(ps, st, q);
    }
  }

  /** The store after `p` has been erased from the lists of the probes in `done`. */
  function Detach(st: map<ProbeId, Probe>, p: ProbeId, done: seq<ProbeId>): map<ProbeId, Probe> {
    map q | q in st :: if q in done then st[q].(neighbors := RemoveFirst(st[q].neighbors, p)) else st[q]
  }

  /** Erasing from lists changes nothing but lists. */
  lemma DetachOnlyLinks(st: map<ProbeId, Probe>, p: ProbeId, done: seq<ProbeId>)
    ensures var d := Detach(st, p, done);
      d.Keys == st.Keys && forall q :: q in st ==> SameButLinks(st[q], d[q])
  {
  }

  /** Erasing `p` from one more list extends `done` by that probe. */
  lemma DetachStep(st: map<ProbeId, Probe>, p: ProbeId, done: seq<ProbeId>, q: ProbeId)
    requires q in st && q !in done
    ensures var d := Detach(st, p, done);
      d[q := d[q].(neighbors := RemoveFirst(d[q].neighbors, p))] == Detach(st, p, done + [q])
  {
  }

  /**
   * Erasing `p` from each of its neighbours' lists leaves a graph on the
   * remaining probes in which no list names `p`, and changes nothing but lists.
   */
  lemma DetachGraph(ps: seq<ProbeId>, ps2: seq<ProbeId>, st: map<ProbeId, Probe>, p: ProbeId)
    requires GraphOk(ps, st) && p in ps
    requires forall r :: r in ps2 <==> r in ps && r != p
    ensures var d := Detach(st, p, st[p].neighbors);
      GraphOk(ps2, d)
      && d.Keys == st.Keys
      && (forall r :: r in ps ==> p !in d[r].neighbors)
      && (forall r :: r in st ==> SameButLinks(st[r], d[r]))
      && (forall r, s :: r in ps && r != p ==> (s in d[r].neighbors <==> s in st[r].neighbors && s != p))
  {
    var d := Detach(st, p, st[p].neighbors);
    forall r | r in ps && r != p
      ensures Distinct(d[r].neighbors)
      ensures forall s :: s in d[r].neighbors <==> s in st[r].neighbors && s != p
    {
      assert LinksOk(ps, st, r);
      if r !in st[p].neighbors {
        assert p !in st[r].neighbors;
      }
    }
    assert p !in d[p].neighbors by {
      assert LinksOk(ps, st, p);
    }
    forall r | r in ps2 ensures LinksOk(ps2, d, r) {
      assert LinksOk(ps, st, r);
    }
  }

  /**
   * The store after `p`'s links have been cleared (first step of
   * `updateNeighbors`): `p` leaves every list, and its own list is emptied.
   */
  function Unlink(st: map<ProbeId, Probe>, p: ProbeId): map<ProbeId, Probe>
    requires p in st
  {
    var d := Detach(st, p, st[p].neighbors);
    d[p := d[p].(neighbors := [])]
  }

  lemma UnlinkGraph(ps: seq<ProbeId>, st: map<ProbeId, Probe>, p: ProbeId)
    requires GraphOk(ps, st) && p in ps
    ensures var u := Unlink(st, p);
      GraphOk(ps, u)
      && u.Keys == st.Keys
      && u[p].neighbors == []
      && (forall r :: r in ps ==> p !in u[r].neighbors)
      && (forall r :: r in st ==> SameButLinks(st[r], u[r]))
  {
    var ps2 := Filter(ps, r => r != p);
    FilterIn(ps, r => r != p);
    DetachGraph(ps, ps2, st, p);
    var d := Detach(st, p, st[p].neighbors);
    var u := Unlink(st, p);
    forall r | r in ps ensures LinksOk(ps, u, r) {
      if r != p { assert LinksOk(ps2, d, r); }
    }
  }

  /**
   * The store after the search of `updateNeighbors` has visited the probes
   * `done`: `p` lists the visited probes satisfying `m`, in visiting order,
   * and each of those has `p` appended to its own list.
   */
  function Link(st: map<ProbeId, Probe>, p: ProbeId, done: seq<ProbeId>, m: ProbeId -> bool): map<ProbeId, Probe>
    requires p in st
  {
    map q | q in st ::
      if q == p then st[p].(neighbors := Filter(done, m))
      else if q in done && m(q) then st[q].(neighbors := st[q].neighbors + [p])
      else st[q]
  }

  /** Visiting one more probe `q` (linking both ways when `m(q)`) extends `done` by `q`. */
  lemma LinkStep(st: map<ProbeId, Probe>, p: ProbeId, done: seq<ProbeId>, m: ProbeId -> bool, q: ProbeId)
    requires p in st && q in st && q !in done && !m(p)
    ensures var l := Link(st, p, done, m);
      (if q != p && m(q)
       then l[p := l[p].(neighbors := l[p].neighbors + [q])][q := l[q].(neighbors := l[q].neighbors + [p])]
       else l)
      == Link(st, p, done + [q], m)
  {
    var l := Link(st, p, done, m);
    var u := if q != p && m(q)
      then l[p := l[p].(neighbors := l[p].neighbors + [q])][q := l[q].(neighbors := l[q].neighbors + [p])]
      else l;
    var l2 := Link(st, p, done + [q], m);
    assert u.Keys == l2.Keys;
    forall r | r in u ensures u[r] == l2[r] {
      LinkStepAt(st, p, done, m, q, r);
    }
    SameEntries(u, l2);
  }

  /** `LinkStep` for the entry of one probe `r`. */
  lemma LinkStepAt(st: map<ProbeId, Probe>, p: ProbeId, done: seq<ProbeId>, m: ProbeId -> bool, q: ProbeId, r: ProbeId)
    requires p in st && q in st && r in st && q !in done && !m(p)
    ensures var l := Link(st, p, done, m);
      (if q != p && m(q)
       then l[p := l[p].(neighbors := l[p].neighbors + [q])][q := l[q].(neighbors := l[q].neighbors + [p])]
       else l)[r]
      == Link(st, p, done + [q], m)[r]
  {
    FilterSnoc(done, q, m);
    assert r in done + [q] <==> r in done || r == q;
  }

  /**
   * Linking an isolated `p` to the probes of `ps` that satisfy `m` keeps an
   * undirected simple graph, gives `p` exactly those neighbours, and
   * lists `p` at exactly those probes.
   */
  lemma LinkGraph(ps: seq<ProbeId>, st: map<ProbeId, Probe>, p: ProbeId, m: ProbeId -> bool)
    requires GraphOk(ps, st) && Distinct(ps) && p in ps && !m(p)
    requires st[p].neighbors == [] && forall r :: r in ps ==> p !in st[r].neighbors
    ensures var l := Link(st, p, ps, m);
      GraphOk(ps, l)
      && l.Keys == st.Keys
      && l[p].neighbors == Filter(ps, m)
      && (forall r :: r in ps && r != p ==> (p in l[r].neighbors <==> m(r)))
      && (forall r :: r in st ==> SameButLinks(st[r], l[r]))
  {
    var l := Link(st, p, ps, m);
    FilterDistinct(ps, m);
    FilterIn(ps, m);
    forall r | r in ps ensures LinksOk(ps, l, r) {
      assert LinksOk(ps, st, r);
    }
    forall r, s | r in ps && s in ps ensures s in l[r].neighbors <==> r in l[s].neighbors {
      if r != p && s != p {
        assert s in l[r].neighbors <==> s in st[r].neighbors;
        assert r in l[s].neighbors <==> r in st[s].neighbors;
      }
    }
  }

  /** A probe with a fresh handle and no links joins the graph without disturbing it. */
  lemma AddIsolated(ps: seq<ProbeId>, st: map<ProbeId, Probe>, id: ProbeId, pr: Probe)
    requires GraphOk(ps, st) && id !in st && pr.neighbors == []
    ensures GraphOk(ps + [id], st[id := pr])
  {
    var ps2 := ps + [id];
    var st2 := st[id := pr];
    forall p | p in ps2 ensures LinksOk(ps2, st2, p) {
      if p != id { assert LinksOk(ps, st, p); }
    }
    forall p, q | p in ps2 && q in ps2 ensures q in st2[p].neighbors <==> p in st2[q].neighbors {
      if p != id && q != id {
      } else if p != id {
        assert LinksOk(ps, st, p);
      } else if q != id {
        assert LinksOk(ps, st, q);
      }
    }
  }
}
