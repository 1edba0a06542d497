/**
 * The collection scan of the manager's per-tick update, on values: the
 * probe list is compacted in place, dropping probes that no holder outside
 * the manager keeps; each kept probe is given its position and distance;
 * and the scan remembers the oldest probe among the first `n` kept ones and
 * the first kept probe that can be captured in real time.
 */
module CollectionScan {
  import opened Wrappers
  import opened Seqs
  import opened Probes
  import opened ReflectionState

  /** `min(i, n)`: how many kept probes may become the oldest candidate. */
  function Capped(i: nat, n: nat): nat {
    if i < n then i else n
  }

  /** The probe the scan picks as oldest among the first `n` probes of the kept list `ps`. */
  function OldestKept(ps: seq<ProbeId>, st: map<ProbeId, Probe>, n: nat): Option<ProbeId> {
    Oldest(ps[..Capped(|ps|, n)], AgeIn(st))
  }

  /**
   * Where the scan stands: the probe list as compacted so far, the cursor,
   * the two candidates, and the store.
   */
  datatype ScanState<S> = ScanPoint(probes: seq<ProbeId>, cursor: nat, oldest: Option<ProbeId>, dyn: Option<ProbeId>,
                                     store: S)
  type ScanPoint = ScanState<map<ProbeId, Probe>>

  /** Every entry of `p0` has a probe in `st0`. */
  ghost predicate Stored(p0: seq<ProbeId>, st0: map<ProbeId, Probe>) {
    forall k :: 0 <= k < |p0| ==> p0[k] in st0
  }

  /** The store holds the probe under the cursor, every listed probe, and the oldest candidate. */
  ghost predicate Steppable(s: ScanPoint) {
    s.cursor < |s.probes|
    && (forall k :: 0 <= k < |s.probes| ==> s.probes[k] in s.store)
    && (s.oldest.Some? ==> s.oldest.value in s.store)
  }

  /**
   * One step of the scan: the probe under the cursor is deleted (and
   * unlinked) when it has no holder left; otherwise it gets the cursor as
   * its position and its distance, replaces the oldest candidate when it is
   * within the first `n` and strictly older (never after a capture this
   * tick), becomes the real-time candidate when there is none yet and it is
   * dynamic with a cube array and a slot (in real-time mode), and the cursor moves past
   * it.
   */
  function ScanStep(s: ScanPoint, n: nat, distanceOf: ProbeId -> real, didUpdate: bool, realtime: bool): (r: ScanPoint)
    requires Steppable(s)
    ensures r.store.Keys == s.store.Keys && |r.probes| - r.cursor == |s.probes| - s.cursor - 1
    ensures forall k :: 0 <= k < |r.probes| ==> r.probes[k] in s.store
    ensures r.oldest.Some? ==> r.oldest.value in s.store
  {
    var q := s.probes[s.cursor];
    if !s.store[q].referenced then
      ScanPoint(RemoveAt(s.probes, s.cursor), s.cursor, s.oldest, s.dyn, Detach(s.store, q, s.store[q].neighbors))
    else
      ScanPoint(s.probes, s.cursor + 1,
                if !didUpdate && s.cursor < n
                   && (s.oldest.None? || s.store[q].lastUpdateTime < s.store[s.oldest.value].lastUpdateTime)
                then Some(q) else s.oldest,
                if realtime && s.dyn.None? && s.store[q].hasCubeArray && s.store[q].shape.isDynamic && s.store[q].cubeIndex != -1
                then Some(q) else s.dyn,
                s.store[q := s.store[q].(probeIndex := s.cursor, distance := distanceOf(q))])
  }

  /** A step on a probe that still has a holder keeps the list and moves the cursor past the probe. */
  lemma KeepStep(s: ScanPoint, n: nat, distanceOf: ProbeId -> real, didUpdate: bool, realtime: bool)
    requires Steppable(s) && s.store[s.probes[s.cursor]].referenced
    ensures var q := s.probes[s.cursor];
      ScanStep(s, n, distanceOf, didUpdate, realtime)
      == ScanPoint(s.probes, s.cursor + 1,
                   if !didUpdate && s.cursor < n
                      && (s.oldest.None? || s.store[q].lastUpdateTime < s.store[s.oldest.value].lastUpdateTime)
                   then Some(q) else s.oldest,
                   if realtime && s.dyn.None? && s.store[q].hasCubeArray && s.store[q].shape.isDynamic && s.store[q].cubeIndex != -1
                   then Some(q) else s.dyn,
                   s.store[q := s.store[q].(probeIndex := s.cursor, distance := distanceOf(q))])
  {
  }

  /** The scan after its first `j` steps, starting from the list `p0` and the store `st0`. */
  ghost function ScanAt(p0: seq<ProbeId>, st0: map<ProbeId, Probe>, n: nat, distanceOf: ProbeId -> real,
                        didUpdate: bool, realtime: bool, j: nat): (r: ScanPoint)
    requires j <= |p0| && Stored(p0, st0)
    ensures r.cursor + (|p0| - j) == |r.probes|
    ensures r.store.Keys == st0.Keys
    ensures forall k :: 0 <= k < |r.probes| ==> r.probes[k] in st0
    ensures r.oldest.Some? ==> r.oldest.value in st0
    decreases j
  {
    if j == 0 then ScanPoint(p0, 0, None, None, st0)
    else ScanStep(ScanAt(p0, st0, n, distanceOf, didUpdate, realtime, j - 1), n, distanceOf, didUpdate, realtime)
  }

  /** Before its end, the scan can take another step, and that step is `ScanStep`. */
  lemma ScanAtNext(p0: seq<ProbeId>, st0: map<ProbeId, Probe>, n: nat, distanceOf: ProbeId -> real,
                   didUpdate: bool, realtime: bool, j: nat)
    requires j < |p0| && Stored(p0, st0)
    ensures Steppable(ScanAt(p0, st0, n, distanceOf, didUpdate, realtime, j))
    ensures ScanAt(p0, st0, n, distanceOf, didUpdate, realtime, j + 1)
      == ScanStep(ScanAt(p0, st0, n, distanceOf, didUpdate, realtime, j), n, distanceOf, didUpdate, realtime)
  {
  }

  /** `tr` lists the points of the scan after 0, 1, ..., `|p0|` steps. */
  ghost predicate IsTrace(p0: seq<ProbeId>, st0: map<ProbeId, Probe>, n: nat, distanceOf: ProbeId -> real,
                          didUpdate: bool, realtime: bool, tr: seq<ScanPoint>)
    requires Stored(p0, st0)
  {
    |tr| == |p0| + 1
    && forall k {:trigger ScanAt(p0, st0, n, distanceOf, didUpdate, realtime, k)} :: 0 <= k <= |p0| ==>
         tr[k] == ScanAt(p0, st0, n, distanceOf, didUpdate, realtime, k)
  }

  /** The trace of the scan of `p0` over `st0`. */
  ghost function Trace(p0: seq<ProbeId>, st0: map<ProbeId, Probe>, n: nat, distanceOf: ProbeId -> real,
                       didUpdate: bool, realtime: bool): (tr: seq<ScanPoint>)
    requires Stored(p0, st0)
    ensures IsTrace(p0, st0, n, distanceOf, didUpdate, realtime, tr)
  {
    seq(|p0| + 1, k requires 0 <= k <= |p0| => ScanAt(p0, st0, n, distanceOf, didUpdate, realtime, k))
  }

  /** A trace starts with the unscanned list and store, and no candidates. */
  lemma TraceStart(p0: seq<ProbeId>, st0: map<ProbeId, Probe>, n: nat, distanceOf: ProbeId -> real,
                   didUpdate: bool, realtime: bool, tr: seq<ScanPoint>)
    requires Stored(p0, st0) && IsTrace(p0, st0, n, distanceOf, didUpdate, realtime, tr)
    ensures tr[0].probes == p0 && tr[0].cursor == 0 && tr[0].oldest == None && tr[0].dyn == None && tr[0].store == st0
  {
    assert tr[0] == ScanAt(p0, st0, n, distanceOf, didUpdate, realtime, 0);
  }

  /** Each point of a trace before its end is followed by one `ScanStep`. */
  lemma TraceNext(p0: seq<ProbeId>, st0: map<ProbeId, Probe>, n: nat, distanceOf: ProbeId -> real,
                  didUpdate: bool, realtime: bool, tr: seq<ScanPoint>, j: nat)
    requires Stored(p0, st0) && IsTrace(p0, st0, n, distanceOf, didUpdate, realtime, tr) && j < |p0|
    ensures Steppable(tr[j]) && tr[j + 1] == ScanStep(tr[j], n, distanceOf, didUpdate, realtime)
  {
    ScanAtNext(p0, st0, n, distanceOf, didUpdate, realtime, j);
  }

  /**
   * What the scan has produced after the first `j` entries of `p0`, in closed
   * form: the referenced probes among them, in order, followed by the
   * unscanned rest; the cursor past the kept ones; the first probe of least
   * update time among the first `n` kept ones (none after a capture this
   * tick); the first kept probe that is dynamic with a cube array and a slot (in
   * real-time mode only).
   */
  ghost function Compacted(p0: seq<ProbeId>, st0: map<ProbeId, Probe>, n: nat, didUpdate: bool, realtime: bool, j: nat)
    : (seq<ProbeId>, nat, Option<ProbeId>, Option<ProbeId>)
    requires j <= |p0|
  {
    var kept := Filter(p0[..j], IsReferenced(st0));
    (kept + p0[j..], |kept|,
     if didUpdate then None else Oldest(kept[..Capped(|kept|, n)], AgeIn(st0)),
     if realtime then Head(Filter(kept, IsLiveDynamic(st0))) else None)
  }

  /** The closed form of the scan, and what it does to the store. */
  ghost predicate ScanClosed(p0: seq<ProbeId>, st0: map<ProbeId, Probe>, n: nat, distanceOf: ProbeId -> real,
                             didUpdate: bool, realtime: bool, j: nat)
    requires j <= |p0| && Stored(p0, st0)
  {
    var s := ScanAt(p0, st0, n, distanceOf, didUpdate, realtime, j);
    (s.probes, s.cursor, s.oldest, s.dyn) == Compacted(p0, st0, n, didUpdate, realtime, j)
    && Settled(s.store) == Settled(st0)
    && forall k :: 0 <= k < s.cursor ==>
         s.store[s.probes[k]].probeIndex == k && s.store[s.probes[k]].distance == distanceOf(s.probes[k])
  }

  /**
   * The step-by-step scan computes the closed form: the list ends up as the
   * referenced probes in their old order, only links, positions and
   * distances change in the store, and each kept probe carries its position
   * and distance.
   */
  lemma {:induction false} ScanIsCompaction(p0: seq<ProbeId>, st0: map<ProbeId, Probe>, n: nat, distanceOf: ProbeId -> real,
                                            didUpdate: bool, realtime: bool, j: nat)
    requires j <= |p0| && Stored(p0, st0) && Distinct(p0)
    ensures ScanClosed(p0, st0, n, distanceOf, didUpdate, realtime, j)
    decreases j
  {
    if j == 0 {
      ClosedStart(p0, st0, n, distanceOf, didUpdate, realtime);
    } else {
      ScanIsCompaction(p0, st0, n, distanceOf, didUpdate, realtime, j - 1);
      ScanAtNext(p0, st0, n, distanceOf, didUpdate, realtime, j - 1);
      if IsReferenced(st0)(p0[j - 1]) {
        KeepClosed(p0, st0, n, distanceOf, didUpdate, realtime, j - 1);
      } else {
        DropClosed(p0, st0, n, distanceOf, didUpdate, realtime, j - 1);
      }
    }
  }

  /**
   * Where the scan ends: the list is the referenced probes of `p0` in their
   * order, only links, positions and distances have changed in the store,
   * each probe carries its position and distance, and the candidates are
   * the oldest among the first `n` and the first live dynamic probe.
   */
  lemma ScanFinal(p0: seq<ProbeId>, st0: map<ProbeId, Probe>, n: nat, distanceOf: ProbeId -> real,
                  didUpdate: bool, realtime: bool, j: nat, ps: seq<ProbeId>, i: nat,
                  oldest: Option<ProbeId>, dyn: Option<ProbeId>, st: map<ProbeId, Probe>)
    requires j <= |p0| && Stored(p0, st0) && Distinct(p0) && i >= |ps|
    requires ScanAt(p0, st0, n, distanceOf, didUpdate, realtime, j) == ScanPoint(ps, i, oldest, dyn, st)
    ensures ps == Filter(p0, IsReferenced(st0))
    ensures st.Keys == st0.Keys && Settled(st) == Settled(st0)
    ensures forall k :: 0 <= k < |ps| ==> st[ps[k]].probeIndex == k && st[ps[k]].distance == distanceOf(ps[k])
    ensures oldest == if didUpdate then None else Oldest(ps[..Capped(|ps|, n)], AgeIn(st0))
    ensures dyn == if realtime then Head(Filter(ps, IsLiveDynamic(st0))) else None
  {
    ScanIsCompaction(p0, st0, n, distanceOf, didUpdate, realtime, j);
    assert j == |p0|;
    assert p0[..j] == p0 && p0[j..] == [];
    var kept := Filter(p0, IsReferenced(st0));
    assert kept + [] == kept;
  }

  /** Before the scan nothing is kept, nothing is a candidate and the store is as it was. */
  lemma ClosedStart(p0: seq<ProbeId>, st0: map<ProbeId, Probe>, n: nat, distanceOf: ProbeId -> real,
                    didUpdate: bool, realtime: bool)
    requires Stored(p0, st0)
    ensures ScanClosed(p0, st0, n, distanceOf, didUpdate, realtime, 0)
  {
    var kept := Filter(p0[..0], IsReferenced(st0));
    assert p0[..0] == [] && p0[0..] == p0;
    assert kept == [];
    assert kept[..Capped(0, n)] == [];
    assert Oldest([], AgeIn(st0)) == None;
    assert Filter(kept, IsLiveDynamic(st0)) == [];
    assert ScanAt(p0, st0, n, distanceOf, didUpdate, realtime, 0) == ScanPoint(p0, 0, None, None, st0);
    var c := Compacted(p0, st0, n, didUpdate, realtime, 0);
    assert c.0 == p0;
    assert c.1 == 0;
    assert c.2 == None;
    assert c.3 == None;
  }

  /** A keeping step preserves the closed form. */
  lemma KeepClosed(p0: seq<ProbeId>, st0: map<ProbeId, Probe>, n: nat, distanceOf: ProbeId -> real,
                   didUpdate: bool, realtime: bool, j: nat)
    requires j < |p0| && Stored(p0, st0) && Distinct(p0) && IsReferenced(st0)(p0[j])
    requires ScanClosed(p0, st0, n, distanceOf, didUpdate, realtime, j)
    ensures ScanClosed(p0, st0, n, distanceOf, didUpdate, realtime, j + 1)
  {
    var s := ScanAt(p0, st0, n, distanceOf, didUpdate, realtime, j);
    ScanAtNext(p0, st0, n, distanceOf, didUpdate, realtime, j);
    var q := p0[j];
    KeepAt(p0, st0, n, didUpdate, realtime, j);
    assert s.probes[s.cursor] == q;
    assert Settled(s.store)[q] == Settled(st0)[q];
    if s.oldest.Some? {
      assert Settled(s.store)[s.oldest.value] == Settled(st0)[s.oldest.value];
    }
    KeptFresh(p0, st0, j);
    assert s.probes[..s.cursor] == Filter(p0[..j], IsReferenced(st0));
    KeepStore(s, distanceOf);
  }

  /** A dropping step preserves the closed form. */
  lemma DropClosed(p0: seq<ProbeId>, st0: map<ProbeId, Probe>, n: nat, distanceOf: ProbeId -> real,
                   didUpdate: bool, realtime: bool, j: nat)
    requires j < |p0| && Stored(p0, st0) && !IsReferenced(st0)(p0[j])
    requires ScanClosed(p0, st0, n, distanceOf, didUpdate, realtime, j)
    ensures ScanClosed(p0, st0, n, distanceOf, didUpdate, realtime, j + 1)
  {
    var s := ScanAt(p0, st0, n, distanceOf, didUpdate, realtime, j);
    ScanAtNext(p0, st0, n, distanceOf, didUpdate, realtime, j);
    var q := p0[j];
    DropAt(p0, st0, n, didUpdate, realtime, j);
    assert s.probes[s.cursor] == q;
    assert Settled(s.store)[q] == Settled(st0)[q];
    DropStore(s, distanceOf);
  }

  /**
   * Scanning a referenced entry: it is the probe under the cursor; it stays,
   * the cursor moves past it, and the candidates change as the scan says.
   */
  lemma KeepAt(p0: seq<ProbeId>, st0: map<ProbeId, Probe>, n: nat, didUpdate: bool, realtime: bool, j: nat)
    requires j < |p0| && IsReferenced(st0)(p0[j])
    ensures var (ps, c, o, d) := Compacted(p0, st0, n, didUpdate, realtime, j);
      c < |ps| && ps[c] == p0[j]
      && Compacted(p0, st0, n, didUpdate, realtime, j + 1) ==
         (ps, c + 1,
          if !didUpdate && c < n && (o.None? || AgeIn(st0)(p0[j]) < AgeIn(st0)(o.value)) then Some(p0[j]) else o,
          if realtime && d.None? && IsLiveDynamic(st0)(p0[j]) then Some(p0[j]) else d)
  {
    var f := IsReferenced(st0);
    var kept := Filter(p0[..j], f);
    var q := p0[j];
    CompactStep(p0, j, f);
    var kept2 := Filter(p0[..j + 1], f);
    assert kept2 == kept + [q];
    assert kept2 + p0[j + 1..] == kept + p0[j..];
    if !didUpdate && |kept| < n {
      assert kept2[..Capped(|kept2|, n)] == kept[..Capped(|kept|, n)] + [q];
      OldestSnoc(kept[..Capped(|kept|, n)], q, AgeIn(st0));
    } else if !didUpdate {
      assert kept2[..Capped(|kept2|, n)] == kept[..Capped(|kept|, n)];
    }
    FilterSnoc(kept, q, IsLiveDynamic(st0));
  }

  /** Scanning an unreferenced entry: it is the probe under the cursor, and it leaves the list. */
  lemma DropAt(p0: seq<ProbeId>, st0: map<ProbeId, Probe>, n: nat, didUpdate: bool, realtime: bool, j: nat)
    requires j < |p0| && !IsReferenced(st0)(p0[j])
    ensures var (ps, c, o, d) := Compacted(p0, st0, n, didUpdate, realtime, j);
      c < |ps| && ps[c] == p0[j]
      && Compacted(p0, st0, n, didUpdate, realtime, j + 1) == (RemoveAt(ps, c), c, o, d)
  {
    var f := IsReferenced(st0);
    var kept := Filter(p0[..j], f);
    CompactStep(p0, j, f);
    assert Filter(p0[..j + 1], f) == kept;
    assert kept + p0[j + 1..] == RemoveAt(kept + p0[j..], |kept|);
  }

  /** A kept probe is none of the entries scanned before it. */
  lemma KeptFresh(p0: seq<ProbeId>, st0: map<ProbeId, Probe>, j: nat)
    requires j < |p0| && Distinct(p0)
    ensures p0[j] !in Filter(p0[..j], IsReferenced(st0))
  {
    FilterIn(p0[..j], IsReferenced(st0));
  }

  /** The store part of a keeping step. */
  lemma KeepStore(s: ScanPoint, distanceOf: ProbeId -> real)
    requires s.cursor < |s.probes| && s.probes[s.cursor] in s.store
    requires s.probes[s.cursor] !in s.probes[..s.cursor]
    requires forall k :: 0 <= k < s.cursor ==>
      s.probes[k] in s.store
      && s.store[s.probes[k]].probeIndex == k && s.store[s.probes[k]].distance == distanceOf(s.probes[k])
    ensures var q := s.probes[s.cursor];
      var st2 := s.store[q := s.store[q].(probeIndex := s.cursor, distance := distanceOf(q))];
      Settled(st2) == Settled(s.store)
      && forall k :: 0 <= k < s.cursor + 1 ==>
           st2[s.probes[k]].probeIndex == k && st2[s.probes[k]].distance == distanceOf(s.probes[k])
  {
    var q := s.probes[s.cursor];
    assert forall k :: 0 <= k < s.cursor ==> s.probes[k] == s.probes[..s.cursor][k];
    SettledUpdate(s.store, q, s.store[q].(probeIndex := s.cursor, distance := distanceOf(q)));
  }

  /** The store part of a dropping step. */
  lemma DropStore(s: ScanPoint, distanceOf: ProbeId -> real)
    requires s.cursor < |s.probes| && s.probes[s.cursor] in s.store
    requires forall k :: 0 <= k < s.cursor ==>
      s.probes[k] in s.store
      && s.store[s.probes[k]].probeIndex == k && s.store[s.probes[k]].distance == distanceOf(s.probes[k])
    ensures var q := s.probes[s.cursor];
      var ps2, st2 := RemoveAt(s.probes, s.cursor), Detach(s.store, q, s.store[q].neighbors);
      Settled(st2) == Settled(s.store)
      && forall k :: 0 <= k < s.cursor ==>
           st2[ps2[k]].probeIndex == k && st2[ps2[k]].distance == distanceOf(ps2[k])
  {
    var q := s.probes[s.cursor];
    DetachOnlyLinks(s.store, q, s.store[q].neighbors);
    SettledLinks(s.store, Detach(s.store, q, s.store[q].neighbors));
  }
}
