/**
 * Layout of the neighbour buffer of the reflection-probe uniform block.
 * Each probe's neighbour run is written at a cursor into a buffer of 4096
 * entries; the run is cut where the buffer ends, and a non-empty run moves
 * the cursor to the next multiple of 4 so that the shader can read the
 * buffer as `ivec4`s.
 */
module UniformPacking {
  import opened Wrappers
  import opened Probes

  /** Entries of the `refNeighbor` buffer. */
  const NEIGHBOR_SLOTS: nat := 4096

  /** Entries of a run of `want` neighbours that fit below the end of the buffer. */
  function Placed(cursor: nat, want: nat): (r: nat)
    requires cursor <= NEIGHBOR_SLOTS
    ensures r <= want && cursor + r <= NEIGHBOR_SLOTS
    ensures r == want || cursor + r == NEIGHBOR_SLOTS
  {
    if want <= NEIGHBOR_SLOTS - cursor then want else NEIGHBOR_SLOTS - cursor
  }

  /**
   * The cursor after a run of `placed` entries: unchanged for an empty run,
   * otherwise the end of the run rounded up to a multiple of 4.
   */
  function Advance(cursor: nat, placed: nat): (r: nat)
    ensures placed == 0 ==> r == cursor
    ensures placed > 0 ==> r % 4 == 0 && cursor + placed <= r < cursor + placed + 4
  {
    if placed == 0 then cursor
    else if (cursor + placed) % 4 == 0 then cursor + placed
    else cursor + placed + (4 - (cursor + placed) % 4)
  }

  /**
   * Where the next run starts after runs that wanted `wants` entries: a
   * multiple of 4 that never passes the end of the buffer.
   */
  function Cursor(wants: seq<nat>): (c: nat)
    ensures c <= NEIGHBOR_SLOTS && c % 4 == 0
    decreases |wants|
  {
    if wants == [] then 0
    else
      var pre := Cursor(wants[..|wants| - 1]);
      Advance(pre, Placed(pre, wants[|wants| - 1]))
  }

  /** One more run moves the cursor past the whole of that run. */
  lemma CursorStep(wants: seq<nat>, w: nat)
    ensures var start := Cursor(wants);
      Cursor(wants + [w]) == Advance(start, Placed(start, w))
      && start + Placed(start, w) <= Cursor(wants + [w])
  {
    assert (wants + [w])[..|wants + [w]| - 1] == wants;
  }

  /**
   * Runs never overlap: run `c` ends at or before the start of every later
   * run `d`, so each probe's neighbours sit in their own part of the buffer.
   */
  lemma {:induction false} RunsDisjoint(wants: seq<nat>, c: nat, d: nat)
    requires c < d <= |wants|
    ensures var start := Cursor(wants[..c]);
      start + Placed(start, wants[c]) <= Cursor(wants[..d])
    decreases d - c
  {
    assert wants[..c + 1] == wants[..c] + [wants[c]];
    CursorStep(wants[..c], wants[c]);
    if c + 1 < d {
      CursorMonotone(wants, c + 1, d);
    }
  }

  /** The cursor never moves back. */
  lemma {:induction false} CursorMonotone(wants: seq<nat>, c: nat, d: nat)
    requires c <= d <= |wants|
    ensures Cursor(wants[..c]) <= Cursor(wants[..d])
    decreases d - c
  {
    if c < d {
      assert wants[..c + 1] == wants[..c] + [wants[c]];
      CursorStep(wants[..c], wants[c]);
      CursorMonotone(wants, c + 1, d);
    }
  }

  /** `refIndex[c][1]` for a run: the start in `ivec4` units, or -1 for an empty run. */
  function RunHeader(start: nat, placed: nat): int {
    if placed == 0 then -1 else start / 4
  }

  /** `refIndex[c][3]`: the priority, negated to tell the shader the influence volume is a box. */
  function PackedPriority(priority: int, hasBox: bool): int {
    if hasBox then -priority else priority
  }

  /** One row of `refIndex`: the cube slot, the run header, the run length and the signed priority. */
  datatype RefIndex = RefIndex(cube: int, header: int, length: nat, priority: int)

  /**
   * The `mProbeIndex` of each neighbour in `nbrs` that is handed out this
   * frame (index not -1), in list order: the entries a probe's run asks for.
   */
  function SampledIndices(st: map<ProbeId, Probe>, nbrs: seq<ProbeId>): (r: seq<int>)
    ensures |r| <= |nbrs|
    ensures forall m :: 0 <= m < |r| ==> r[m] != -1
    decreases |nbrs|
  {
    if nbrs == [] then []
    else
      var q := nbrs[|nbrs| - 1];
      SampledIndices(st, nbrs[..|nbrs| - 1]) + (if q in st && st[q].probeIndex != -1 then [st[q].probeIndex] else [])
  }

  /** The sampled entries of a list are those of its first `k` entries followed by those of the rest. */
  lemma {:induction false} SampledSplit(st: map<ProbeId, Probe>, nbrs: seq<ProbeId>, k: nat)
    requires k <= |nbrs|
    ensures SampledIndices(st, nbrs) == SampledIndices(st, nbrs[..k]) + SampledIndices(st, nbrs[k..])
    decreases |nbrs|
  {
    if k < |nbrs| {
      var init := nbrs[..|nbrs| - 1];
      SampledSplit(st, init, k);
      assert init[..k] == nbrs[..k];
      assert nbrs[k..][..|nbrs[k..]| - 1] == init[k..];
    } else {
      assert nbrs[..k] == nbrs;
      assert nbrs[k..] == [];
    }
  }

  /** How many buffer entries the probe `p` asks for. */
  function Want(st: map<ProbeId, Probe>, p: ProbeId): nat
    requires p in st
  {
    |SampledIndices(st, st[p].neighbors)|
  }

  /** What the probes `ps` ask for, in order. */
  function Wants(ps: seq<ProbeId>, st: map<ProbeId, Probe>): (w: seq<nat>)
    requires forall c :: 0 <= c < |ps| ==> ps[c] in st
    ensures |w| == |ps| && forall c {:trigger w[c]} :: 0 <= c < |ps| ==> w[c] == Want(st, ps[c])
  {
    seq(|ps|, c requires 0 <= c < |ps| => Want(st, ps[c]))
  }

  /** The row of the probe `p` whose run starts at `start`. */
  function Row(st: map<ProbeId, Probe>, p: ProbeId, start: nat): RefIndex
    requires p in st && start <= NEIGHBOR_SLOTS
  {
    var placed := Placed(start, Want(st, p));
    RefIndex(st[p].cubeIndex, RunHeader(start, placed), placed, PackedPriority(st[p].shape.priority, st[p].shape.hasBox))
  }

  /**
   * What a row promises the shader: the header is -1 exactly for an empty
   * run and otherwise the run start in `ivec4` units; the run stays below
   * the end of the buffer and is cut only there; the priority is negated
   * for a box influence volume.
   */
  lemma RowLayout(st: map<ProbeId, Probe>, p: ProbeId, start: nat)
    requires p in st && start <= NEIGHBOR_SLOTS && start % 4 == 0
    ensures var r := Row(st, p, start);
      (r.header == -1 <==> r.length == 0)
      && (r.length > 0 ==> r.header * 4 == start)
      && start + r.length <= NEIGHBOR_SLOTS
      && (r.length == Want(st, p) || start + r.length == NEIGHBOR_SLOTS)
      && r.priority == (if st[p].shape.hasBox then -st[p].shape.priority else st[p].shape.priority)
  {
  }

  /** The probes named by `maps` before its first null entry. */
  function Leading(maps: seq<Option<ProbeId>>): (ps: seq<ProbeId>)
    ensures |ps| <= |maps| && forall c :: 0 <= c < |ps| ==> maps[c] == Some(ps[c])
    ensures |ps| < |maps| ==> maps[|ps|].None?
  {
    if maps == [] || maps[0].None? then [] else [maps[0].value] + Leading(maps[1..])
  }

  /** Every probe named before the first null entry, and every neighbour of it, is in the store. */
  ghost predicate Packable(maps: seq<Option<ProbeId>>, st: map<ProbeId, Probe>) {
    var ps := Leading(maps);
    forall c :: 0 <= c < |ps| ==> ps[c] in st && forall q :: q in st[ps[c]].neighbors ==> q in st
  }

  /** `starts` are where the runs of wants `w` begin: at 0, each one past the last run, rounded up. */
  ghost predicate RunStarts(w: seq<nat>, starts: seq<nat>) {
    |starts| == |w| + 1 && starts[0] == 0
    && forall d {:trigger w[d]} :: 0 <= d < |w| ==>
      starts[d] <= NEIGHBOR_SLOTS && starts[d + 1] == Advance(starts[d], Placed(starts[d], w[d]))
  }

  /** Such run starts are exactly the cursors `Cursor` gives. */
  lemma {:induction false} RunStartsAreCursors(w: seq<nat>, starts: seq<nat>, c: nat)
    requires RunStarts(w, starts) && c <= |w|
    ensures starts[c] == Cursor(w[..c])
    decreases c
  {
    if c > 0 {
      RunStartsAreCursors(w, starts, c - 1);
      assert w[..c] == w[..c - 1] + [w[c - 1]];
      CursorStep(w[..c - 1], w[c - 1]);
    }
  }

  /**
   * One probe's run: its sampled neighbours are written from the cursor
   * `nc` on, stopping where the buffer ends; entries below `nc` are kept.
   * The row's header is the run start, or -1 when nothing was written.
   */
  method PackRun(st: map<ProbeId, Probe>, p: ProbeId, nc: nat, buf: array<int>) returns (row: RefIndex, ni: nat)
    requires p in st && (forall q :: q in st[p].neighbors ==> q in st)
    requires nc <= NEIGHBOR_SLOTS && buf.Length == NEIGHBOR_SLOTS
    modifies buf
    ensures row == Row(st, p, nc) && ni == nc + row.length
    ensures forall x :: 0 <= x < nc ==> buf[x] == old(buf[x])
    ensures forall k :: 0 <= k < row.length ==> buf[nc + k] == SampledIndices(st, st[p].neighbors)[k]
  {
    row := RefIndex(st[p].cubeIndex, nc / 4, 0, st[p].shape.priority);
    if st[p].shape.hasBox {
      row := row.(priority := -row.priority);
    }
    var nbrs := st[p].neighbors;
    ni := nc;
    var k := 0;
    while k < |nbrs|
      invariant k <= |nbrs| && nc <= ni <= NEIGHBOR_SLOTS
      invariant ni - nc == |SampledIndices(st, nbrs[..k])|
      invariant forall m :: 0 <= m < ni - nc ==> buf[nc + m] == SampledIndices(st, nbrs[..k])[m]
      invariant forall x :: 0 <= x < nc ==> buf[x] == old(buf[x])
    {
      if ni >= NEIGHBOR_SLOTS {
        break;
      }
      var idx := st[nbrs[k]].probeIndex;
      assert nbrs[..k + 1][..k] == nbrs[..k];
      if idx != -1 {
        buf[ni] := idx;
        ni := ni + 1;
      }
      k := k + 1;
    }
    SampledSplit(st, nbrs, k);
    if k == |nbrs| {
      assert nbrs[..k] == nbrs;
    }
    if nc == ni {
      row := row.(header := -1);
    } else {
      row := row.(length := ni - nc);
    }
  }

  /**
   * The rows packed so far: row `c` is the row of the `c`-th probe for the
   * run start `starts[c]`, each start lies past the run before it, and
   * every run ends at or before the cursor `nc`.
   */
  ghost predicate RowsSoFar(st: map<ProbeId, Probe>, ps: seq<ProbeId>, rows: seq<RefIndex>, starts: seq<nat>, nc: nat) {
    |rows| <= |ps| && |starts| == |rows| + 1 && starts[0] == 0 && starts[|rows|] == nc && nc <= NEIGHBOR_SLOTS
    && (forall c :: 0 <= c < |ps| ==> ps[c] in st)
    && forall c {:trigger rows[c]} :: 0 <= c < |rows| ==>
      starts[c] <= NEIGHBOR_SLOTS && rows[c] == Row(st, ps[c], starts[c])
      && starts[c + 1] == Advance(starts[c], rows[c].length) && starts[c] + rows[c].length <= nc
  }

  /** The buffer `b` holds each packed probe's sampled neighbours at its run start. */
  ghost predicate BufSoFar(st: map<ProbeId, Probe>, ps: seq<ProbeId>, rows: seq<RefIndex>, starts: seq<nat>, b: seq<int>) {
    |b| == NEIGHBOR_SLOTS && |rows| <= |ps| && |starts| > |rows| && (forall c :: 0 <= c < |ps| ==> ps[c] in st)
    && forall c, k {:trigger rows[c], SampledIndices(st, st[ps[c]].neighbors)[k]} :: 0 <= c < |rows| && 0 <= k < rows[c].length ==>
      starts[c] + k < |b| && k < |SampledIndices(st, st[ps[c]].neighbors)|
      && b[starts[c] + k] == SampledIndices(st, st[ps[c]].neighbors)[k]
  }

  /** Appending the next probe's row keeps `RowsSoFar`, with the cursor moved past its run. */
  lemma RowsStep(st: map<ProbeId, Probe>, ps: seq<ProbeId>, rows: seq<RefIndex>, starts: seq<nat>, nc: nat, row: RefIndex)
    requires RowsSoFar(st, ps, rows, starts, nc) && |rows| < |ps|
    requires row == Row(st, ps[|rows|], nc)
    ensures RowsSoFar(st, ps, rows + [row], starts + [Advance(nc, row.length)], Advance(nc, row.length))
  {
    var rows2, starts2 := rows + [row], starts + [Advance(nc, row.length)];
    forall c | 0 <= c < |rows2|
      ensures starts2[c] <= NEIGHBOR_SLOTS && rows2[c] == Row(st, ps[c], starts2[c])
        && starts2[c + 1] == Advance(starts2[c], rows2[c].length) && starts2[c] + rows2[c].length <= Advance(nc, row.length)
    {
      if c < |rows| {
        assert rows2[c] == rows[c];
      }
    }
  }

  /**
   * Writing the next probe's run from the cursor on, while keeping every
   * entry below the cursor, keeps `BufSoFar`.
   */
  lemma BufStep(st: map<ProbeId, Probe>, ps: seq<ProbeId>, rows: seq<RefIndex>, starts: seq<nat>, nc: nat, row: RefIndex,
                next: nat, b: seq<int>, b2: seq<int>)
    requires RowsSoFar(st, ps, rows, starts, nc) && BufSoFar(st, ps, rows, starts, b) && |rows| < |ps|
    requires row == Row(st, ps[|rows|], nc) && |b2| == NEIGHBOR_SLOTS
    requires forall x :: 0 <= x < nc ==> b2[x] == b[x]
    requires forall k :: 0 <= k < row.length ==> nc + k < |b2| && b2[nc + k] == SampledIndices(st, st[ps[|rows|]].neighbors)[k]
    ensures BufSoFar(st, ps, rows + [row], starts + [next], b2)
  {
    var rows2, starts2 := rows + [row], starts + [next];
    forall c, k | 0 <= c < |rows2| && 0 <= k < rows2[c].length
      ensures starts2[c] + k < |b2| && b2[starts2[c] + k] == SampledIndices(st, st[ps[c]].neighbors)[k]
    {
      if c < |rows| {
        assert rows2[c] == rows[c];
        assert starts[c] + rows[c].length <= nc;
      } else {
        assert rows2[c] == row && starts2[c] == nc;
      }
    }
  }

  /** At the end of the loop, the run starts are the cursors of the probes' wants. */
  /**
   * The finished layout: one row per probe of `ps`, each the row of its
   * probe at the cursor the earlier runs leave, and `b` holding each row's
   * sampled neighbour indices from that cursor on.
   */
  ghost predicate Packed(st: map<ProbeId, Probe>, ps: seq<ProbeId>, rows: seq<RefIndex>, b: seq<int>)
    requires forall c :: 0 <= c < |ps| ==> ps[c] in st
  {
    var w := Wants(ps, st);
    |rows| == |ps|
    && (forall c {:trigger rows[c]} :: 0 <= c < |ps| ==> rows[c] == Row(st, ps[c], Cursor(w[..c])))
    && (forall c, k {:trigger rows[c], SampledIndices(st, st[ps[c]].neighbors)[k]} :: 0 <= c < |ps| && 0 <= k < rows[c].length ==>
          Cursor(w[..c]) + k < |b| && b[Cursor(w[..c]) + k] == SampledIndices(st, st[ps[c]].neighbors)[k])
  }

  lemma PackedLayout(st: map<ProbeId, Probe>, ps: seq<ProbeId>, rows: seq<RefIndex>, starts: seq<nat>, b: seq<int>)
    requires |rows| == |ps| && |starts| == |rows| + 1
    requires RowsSoFar(st, ps, rows, starts, starts[|rows|]) && BufSoFar(st, ps, rows, starts, b)
    ensures Packed(st, ps, rows, b)
  {
    var w := Wants(ps, st);
    assert RunStarts(w, starts) by {
      forall d | 0 <= d < |w|
        ensures starts[d] <= NEIGHBOR_SLOTS && starts[d + 1] == Advance(starts[d], Placed(starts[d], w[d]))
      {
        var r := rows[d];
        assert starts[d] <= NEIGHBOR_SLOTS && ps[d] in st;
        assert r == Row(st, ps[d], starts[d]);
      }
    }
    forall c | 0 <= c < |ps|
      ensures starts[c] == Cursor(w[..c])
    {
      RunStartsAreCursors(w, starts, c);
    }
  }

  /**
   * The packing loop of `updateUniforms`: one row for each probe up to the
   * first null entry of `maps`, each probe's sampled neighbours written at
   * the neighbour cursor `nc`, which moves past a non-empty run to the next
   * multiple of 4.
   */
  method PackNeighbors(maps: seq<Option<ProbeId>>, st: map<ProbeId, Probe>, ghost ps: seq<ProbeId>)
    returns (rows: seq<RefIndex>, buf: array<int>)
    requires ps == Leading(maps) && Packable(maps, st)
    ensures fresh(buf) && buf.Length == NEIGHBOR_SLOTS
    ensures Packed(st, ps, rows, buf[..])
  {
    buf := new int[NEIGHBOR_SLOTS];
    ghost var starts: seq<nat> := [0];
    rows := [];
    var nc: nat := 0;
    var count := 0;
    while count < |maps| && maps[count].Some?
      invariant count == |rows| && RowsSoFar(st, ps, rows, starts, nc) && BufSoFar(st, ps, rows, starts, buf[..])
    {
      var p := maps[count].value;
      assert p == ps[count];
      ghost var b, start := buf[..], nc;
      var row, ni := PackRun(st, p, nc, buf);
      if nc != ni {
        nc := ni;
        if nc % 4 != 0 {
          nc := nc + (4 - nc % 4);
        }
      }
      assert nc == Advance(start, row.length);
      RowsStep(st, ps, rows, starts, start, row);
      BufStep(st, ps, rows, starts, start, row, nc, b, buf[..]);
      rows := rows + [row];
      starts := starts + [nc];
      count := count + 1;
    }
    PackedLayout(st, ps, rows, starts, buf[..]);
  }
}
