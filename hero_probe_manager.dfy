/**
 * The hero (mirror) probe manager: the list of mirror candidates, the single
 * default probe that renders the nearest mirror, its (re)initialisation, the
 * mip chain, and the schedule that spreads the six cube faces over frames.
 *
 * Viewer objects are handles (`ObjId`); the `LLReflectionMap` objects in
 * `mProbes` are handles too, and the only one ever created is the default
 * probe, whose fields are kept in `defaultProbe`.
 */
module HeroProbes {
  import opened Wrappers
  import opened Seqs
  import CubeArrays

  /** A viewer object registered as a mirror candidate (`LLVOVolume*`). */
  type ObjId = nat

  /** The fields of `mDefaultProbe` that the manager sets. */
  datatype HeroProbe = HeroProbe(id: nat, cubeIndex: int, probeIndex: int, viewerObject: Option<ObjId>)

  /**
   * The update rate of `renderProbes` after its clamp: a setting below 1
   * becomes 1, one above 3 becomes 6, and 1 to 3 are kept, so the rate
   * always divides the six faces evenly.
   */
  function EffectiveRate(setting: int): (r: nat)
    ensures r == 1 || r == 2 || r == 3 || r == 6
    ensures CubeArrays.FACES % r == 0
    ensures 1 <= setting <= 3 ==> r == setting
    ensures setting < 1 ==> r == 1
    ensures setting > 3 ==> r == 6
  {
    if setting < 1 then 1 else if setting > 3 then 6 else setting
  }

  /** A rate the clamp can produce. */
  predicate IsRate(rate: nat) {
    rate == 1 || rate == 2 || rate == 3 || rate == 6
  }

  /** Frame `frame` renders face `face` at rate `rate`. */
  predicate Scheduled(frame: nat, rate: nat, face: nat)
    requires rate >= 1
  {
    frame % rate == face % rate
  }

  /** The faces below `k` that frame `frame` renders, in increasing order. */
  function FacesBelow(frame: nat, rate: nat, k: nat): seq<nat>
    requires rate >= 1
  {
    if k == 0 then []
    else FacesBelow(frame, rate, k - 1) + (if Scheduled(frame, rate, k - 1) then [k - 1] else [])
  }

  /** The faces frame `frame` renders, in the order the loop renders them. */
  function Schedule(frame: nat, rate: nat): seq<nat>
    requires rate >= 1
  {
    FacesBelow(frame, rate, CubeArrays.FACES)
  }

  /** `FacesBelow` holds exactly the scheduled faces below `k`, each once and in increasing order. */
  lemma {:induction false} FacesBelowMembers(frame: nat, rate: nat, k: nat)
    requires rate >= 1
    ensures forall x: nat :: x in FacesBelow(frame, rate, k) <==> x < k && Scheduled(frame, rate, x)
    ensures forall i, j :: 0 <= i < j < |FacesBelow(frame, rate, k)| ==> FacesBelow(frame, rate, k)[i] < FacesBelow(frame, rate, k)[j]
  {
    if k > 0 {
      FacesBelowMembers(frame, rate, k - 1);
      var before := FacesBelow(frame, rate, k - 1);
      var r := FacesBelow(frame, rate, k);
      assert r == before + (if Scheduled(frame, rate, k - 1) then [k - 1] else []);
      forall i, j | 0 <= i < j < |r|
        ensures r[i] < r[j]
      {
        assert r[i] == before[i] && r[i] in before;
        if j >= |before| {
          assert r[j] == k - 1;
        } else {
          assert r[j] == before[j];
        }
      }
    }
  }

  /** Face `i` is rendered on frame `f` exactly when `f % rate == i % rate`; the faces come in increasing order. */
  lemma ScheduleMembers(frame: nat, rate: nat)
    requires rate >= 1
    ensures forall i: nat :: i in Schedule(frame, rate) <==> i < CubeArrays.FACES && frame % rate == i % rate
    ensures forall i, j :: 0 <= i < j < |Schedule(frame, rate)| ==> Schedule(frame, rate)[i] < Schedule(frame, rate)[j]
  {
    FacesBelowMembers(frame, rate, CubeArrays.FACES);
  }

  /** Every frame renders `6 / rate` faces. */
  lemma ScheduleCount(frame: nat, rate: nat)
    requires IsRate(rate)
    ensures |Schedule(frame, rate)| == CubeArrays.FACES / rate
  {
    assert |FacesBelow(frame, rate, 1)| == (if Scheduled(frame, rate, 0) then 1 else 0);
    assert |FacesBelow(frame, rate, 2)| == |FacesBelow(frame, rate, 1)| + (if Scheduled(frame, rate, 1) then 1 else 0);
    assert |FacesBelow(frame, rate, 3)| == |FacesBelow(frame, rate, 2)| + (if Scheduled(frame, rate, 2) then 1 else 0);
    assert |FacesBelow(frame, rate, 4)| == |FacesBelow(frame, rate, 3)| + (if Scheduled(frame, rate, 3) then 1 else 0);
    assert |FacesBelow(frame, rate, 5)| == |FacesBelow(frame, rate, 4)| + (if Scheduled(frame, rate, 4) then 1 else 0);
    assert |FacesBelow(frame, rate, 6)| == |FacesBelow(frame, rate, 5)| + (if Scheduled(frame, rate, 5) then 1 else 0);
  }

  /**
   * Any `rate` consecutive frames, starting at `f0`, render face `face`
   * exactly once (frame numbers are unbounded here).
   */
  lemma OncePerCycle(f0: nat, rate: nat, face: nat)
    requires rate >= 1 && face < CubeArrays.FACES
    ensures exists f :: f0 <= f < f0 + rate && face in Schedule(f, rate)
    ensures forall f, g :: f0 <= f < f0 + rate && f0 <= g < f0 + rate && face in Schedule(f, rate) && face in Schedule(g, rate) ==> f == g
  {
    var f := WindowHit(f0, rate, face);
    ScheduleMembers(f, rate);
    assert face in Schedule(f, rate);
    forall g, h | f0 <= g < f0 + rate && f0 <= h < f0 + rate && face in Schedule(g, rate) && face in Schedule(h, rate)
      ensures g == h
    {
      ScheduleMembers(g, rate);
      ScheduleMembers(h, rate);
      WindowUnique(f0, rate, g, h);
    }
  }

  /** The frame of the window `[f0, f0 + rate)` congruent to `face` modulo `rate`. */
  lemma WindowHit(f0: nat, rate: nat, face: nat) returns (f: nat)
    requires rate >= 1
    ensures f0 <= f < f0 + rate && f % rate == face % rate
  {
    var q := (face - f0) % rate;
    var d := (face - f0) / rate;
    assert face - f0 == rate * d + q;
    f := f0 + q;
    assert f == face - rate * d;
    ModShift(face, rate, d);
  }
  /** Shifting by a multiple of `rate` keeps the remainder. */
  lemma ModShift(x: int, rate: nat, d: int)
    requires rate >= 1
    ensures (x - rate * d) % rate == x % rate
  {
    var y := x - rate * d;
    assert y == rate * (x / rate - d) + x % rate;
    ModUnique(y, rate, x / rate - d, x % rate);
  }
  /** The Euclidean remainder is the only one in `[0, rate)`. */
  lemma ModUnique(y: int, rate: nat, q: int, r: int)
    requires rate >= 1 && y == rate * q + r && 0 <= r < rate
    ensures y % rate == r
  {
    var q' := y / rate;
    assert rate * (q - q') == y % rate - r;
    SmallMultiple(rate, q - q');
  }

  /** The only multiple of `rate` strictly between `-rate` and `rate` is zero. */
  lemma SmallMultiple(rate: int, k: int)
    requires rate >= 1 && -rate < rate * k < rate
    ensures k == 0
  {
    if k > 0 {
      assert rate * k == rate * (k - 1) + rate;
      MulNonneg(rate, k - 1);
    } else if k < 0 {
      assert rate * k == rate * (k + 1) - rate;
      MulNonneg(rate, -(k + 1));
    }
  }

  /** A product of naturals is a natural. */
  lemma MulNonneg(a: nat, b: nat)
    ensures a * b >= 0
  {
  }

  /** Two frames of one window are congruent modulo `rate` only when equal. */
  lemma WindowUnique(f0: nat, rate: nat, g: nat, h: nat)
    requires rate >= 1 && f0 <= g < f0 + rate && f0 <= h < f0 + rate && g % rate == h % rate
    ensures g == h
  {
    assert rate * (g / rate - h / rate) == g - h;
    SmallMultiple(rate, g / rate - h / rate);
  }

  /** The loop of `renderProbes` over the six faces: face `i` is rendered when `frame % rate == i % rate`. */
  method RenderFaces(frame: nat, rate: nat) returns (faces: seq<nat>)
    requires rate >= 1
    ensures faces == Schedule(frame, rate)
  {
    faces := [];
    var i := 0;
    while i < CubeArrays.FACES
      invariant i <= CubeArrays.FACES
      invariant faces == FacesBelow(frame, rate, i)
    {
      if frame % rate == i % rate {
        faces := faces + [i];
      }
      i := i + 1;
    }
  }

  class HeroProbeManager {
    /** `mHeroVOList`. */
    var heroList: seq<ObjId>
    /** `mNearestHero`. */
    var nearestHero: Option<ObjId>
    /** `mProbes`: handles of probe objects. */
    var probes: seq<nat>
    /** `mDefaultProbe`. */
    var defaultProbe: Option<HeroProbe>
    /** Whether `mTexture` is allocated. */
    var hasTexture: bool
    /** `mReflectionProbeCount`. */
    var reflectionProbeCount: nat
    /** Cube maps allocated in `mTexture`. */
    var layers: nat
    /** `mReset`. */
    var reset: bool
    /** `mProbeResolution`. */
    var probeResolution: nat
    /** Resolutions of the render targets of `mMipChain`. */
    var mipChain: seq<nat>
    /** Whether `mVertexBuffer` is allocated. */
    var hasVertexBuffer: bool
    /** Handle for the next probe object. */
    var nextId: nat

    /**
     * The candidate list has no duplicates and the nearest hero is one of
     * them; the default probe exists exactly while the texture does, sits
     * in slot 0 of the cube-map array with probe index 0, and every entry
     * of `mProbes` is it; the texture holds the probe slots plus two.
     */
    ghost predicate Valid()
      reads this
    {
      Distinct(heroList)
      && (nearestHero.Some? ==> nearestHero.value in heroList)
      && (hasTexture <==> defaultProbe.Some?)
      && (defaultProbe.None? ==> probes == [])
      && (defaultProbe.Some? ==>
            probes != [] && (forall k :: 0 <= k < |probes| ==> probes[k] == defaultProbe.value.id)
            && defaultProbe.value.cubeIndex == 0 && defaultProbe.value.probeIndex == 0
            && defaultProbe.value.id < nextId)
      && (hasTexture ==> layers == reflectionProbeCount + 2 && probeResolution >= 1)
    }

    /** Nothing is allocated and there are no candidates. */
    constructor ()
      ensures Valid()
      ensures heroList == [] && nearestHero == None && probes == [] && defaultProbe == None
      ensures !hasTexture && reflectionProbeCount == 0 && !reset && mipChain == [] && !hasVertexBuffer
    {
      heroList := [];
      nearestHero := None;
      probes := [];
      defaultProbe := None;
      hasTexture := false;
      reflectionProbeCount := 0;
      layers := 0;
      reset := false;
      probeResolution := 0;
      mipChain := [];
      hasVertexBuffer := false;
      nextId := 0;
    }

    /** `registerViewerObject`: appends `o` and answers true only when it is not yet a candidate. */
    method RegisterViewerObject(o: ObjId) returns (added: bool)
      requires Valid()
      modifies this`heroList
      ensures Valid()
      ensures added <==> o !in old(heroList)
      ensures heroList == if added then old(heroList) + [o] else old(heroList)
    {
      if IndexOf(heroList, o) == |heroList| {
        heroList := heroList + [o];
        added := true;
      } else {
        added := false;
      }
    }

    /**
     * `unregisterViewerObject`: erases `o` from the candidates when it is
     * there; when `o` is the nearest hero, the nearest hero and the default
     * probe's viewer object are cleared.
     */
    method UnregisterViewerObject(o: ObjId)
      requires Valid()
      modifies this`heroList, this`nearestHero, this`defaultProbe
      ensures Valid()
      ensures heroList == RemoveFirst(old(heroList), o) && o !in heroList
      ensures forall x :: x in heroList <==> x in old(heroList) && x != o
      ensures old(nearestHero) == Some(o) ==>
        nearestHero == None && (old(defaultProbe).Some? ==> defaultProbe == Some(old(defaultProbe).value.(viewerObject := None)))
      ensures old(nearestHero) != Some(o) ==> nearestHero == old(nearestHero)
      ensures old(nearestHero) != Some(o) || old(defaultProbe).None? ==> defaultProbe == old(defaultProbe)
    {
      heroList := RemoveFirst(heroList, o);
      if nearestHero == Some(o) {
        nearestHero := None;
        if defaultProbe.Some? {
          defaultProbe := Some(defaultProbe.value.(viewerObject := None));
        }
      }
    }

    /** `reset`: the next initialisation starts from `cleanup`. */
    method Reset()
      modifies this`reset
      ensures reset
    {
      reset := true;
    }

    /** `cleanup`: releases the textures, the mip chain, the probes and the default probe. */
    method Cleanup()
      requires Valid()
      modifies this`hasVertexBuffer, this`mipChain, this`hasTexture, this`probes, this`defaultProbe
      ensures Valid()
      ensures !hasVertexBuffer && mipChain == [] && !hasTexture && probes == [] && defaultProbe == None
    {
      hasVertexBuffer := false;
      mipChain := [];
      hasTexture := false;
      probes := [];
      defaultProbe := None;
    }

    /**
     * `initReflectionMaps` with `count` for `LL_MAX_HERO_PROBE_COUNT`: when
     * mirrors are on and the texture is missing, the count changed or a
     * reset was asked for, it runs `cleanup` first on a reset, allocates the
     * texture with `count + 2` cube maps, creates the default probe if there
     * is none (pushing it onto `mProbes`), sets it to slot 0 and probe index
     * 0, and pushes it once more. The vertex buffer is allocated if missing.
     */
    method InitReflectionMaps(count: nat, renderMirrors: bool, resolution: nat)
      requires Valid() && resolution >= 1
      modifies this`reset, this`reflectionProbeCount, this`probeResolution, this`hasTexture, this`layers,
        this`defaultProbe, this`probes, this`nextId, this`hasVertexBuffer, this`mipChain
      ensures Valid() && hasVertexBuffer
      ensures heroList == old(heroList) && nearestHero == old(nearestHero)
      ensures !((!old(hasTexture) || old(reflectionProbeCount) != count || old(reset)) && renderMirrors) ==>
        probes == old(probes) && defaultProbe == old(defaultProbe) && hasTexture == old(hasTexture)
        && reset == old(reset) && reflectionProbeCount == old(reflectionProbeCount) && mipChain == old(mipChain)
      ensures (!old(hasTexture) || old(reflectionProbeCount) != count || old(reset)) && renderMirrors ==>
        !reset && hasTexture && reflectionProbeCount == count && layers == count + 2 && probeResolution == resolution
        && defaultProbe.Some? && probes[0] == defaultProbe.value.id
        && defaultProbe.value.cubeIndex == 0 && defaultProbe.value.probeIndex == 0
      ensures old(reset) && renderMirrors ==> |probes| == 2 && mipChain == []
      ensures (!old(hasTexture) || old(reflectionProbeCount) != count) && !old(reset) && renderMirrors ==>
        mipChain == old(mipChain)
        && |probes| == |old(probes)| + (if old(defaultProbe).None? then 2 else 1)
    {
      if (!hasTexture || reflectionProbeCount != count || reset) && renderMirrors {
        if reset {
          Cleanup();
        }
        Allocate(count, resolution);
      }
      if !hasVertexBuffer {
        hasVertexBuffer := true;
      }
    }

    /**
     * The allocating branch of `initReflectionMaps` after the optional
     * `cleanup`: the texture gets `count + 2` cube maps, the default probe is
     * created and pushed onto `mProbes` when missing, set to slot 0 and probe
     * index 0, and pushed once more.
     */
    method Allocate(count: nat, resolution: nat)
      requires Valid() && resolution >= 1
      modifies this`reset, this`reflectionProbeCount, this`probeResolution, this`hasTexture, this`layers,
        this`defaultProbe, this`probes, this`nextId
      ensures Valid()
      ensures !reset && hasTexture && reflectionProbeCount == count && layers == count + 2 && probeResolution == resolution
      ensures defaultProbe.Some? && probes[0] == defaultProbe.value.id
      ensures old(defaultProbe).Some? ==> defaultProbe == Some(old(defaultProbe).value.(cubeIndex := 0, probeIndex := 0))
      ensures |probes| == |old(probes)| + (if old(defaultProbe).None? then 2 else 1)
    {
      reset := false;
      reflectionProbeCount := count;
      probeResolution := resolution;
      hasTexture := true;
      layers := count + 2;
      var d: HeroProbe;
      if defaultProbe.None? {
        d := HeroProbe(nextId, -1, -1, None);
        nextId := nextId + 1;
        probes := probes + [d.id];
      } else {
        d := defaultProbe.value;
      }
      d := d.(cubeIndex := 0, probeIndex := 0);
      defaultProbe := Some(d);
      probes := probes + [d.id];
    }

    /**
     * `update`, up to the hero selection. `active` stands for the frame's
     * guards (mirrors and probes on, no teleport screen, started, no logout);
     * `chosen` is the nearest visible candidate the selection finds (float
     * geometry), which is one of the candidates. The default probe is then
     * in slot 0 of `mProbes`, the mip chain is built on first use and after a reset, and with
     * no candidates the nearest hero and the probe's viewer object are cleared.
     */
    method Update(active: bool, count: nat, resolution: nat, chosen: Option<ObjId>)
      requires Valid() && resolution >= 1
      requires chosen.Some? ==> chosen.value in heroList
      modifies this`reset, this`reflectionProbeCount, this`probeResolution, this`hasTexture, this`layers,
        this`defaultProbe, this`probes, this`nextId, this`hasVertexBuffer, this`mipChain, this`nearestHero
      ensures Valid()
      ensures !active ==> (probes == old(probes) && defaultProbe == old(defaultProbe) && mipChain == old(mipChain)
        && nearestHero == old(nearestHero) && hasTexture == old(hasTexture))
      ensures active ==> (defaultProbe.Some? && probes != [] && probes[0] == defaultProbe.value.id
        && hasTexture && reflectionProbeCount == count && !reset)
      ensures active && (old(mipChain) == [] || old(reset)) ==>
        |mipChain| == CubeArrays.MipCount(probeResolution)
        && forall i :: 0 <= i < |mipChain| ==> mipChain[i] == CubeArrays.LevelResolution(probeResolution, i)
      ensures active && old(mipChain) != [] && !old(reset) ==> mipChain == old(mipChain)
      ensures active && heroList == [] ==> nearestHero == None && defaultProbe.value.viewerObject == None
      ensures active && heroList != [] ==> nearestHero == chosen
      ensures heroList == old(heroList)
    {
      if !active {
        return;
      }
      InitReflectionMaps(count, true, resolution);
      if mipChain == [] {
        mipChain := CubeArrays.BuildMipChain(probeResolution);
      }
      if |heroList| > 0 {
        nearestHero := chosen;
      } else {
        nearestHero := None;
        defaultProbe := Some(defaultProbe.value.(viewerObject := None));
      }
    }

    /**
     * `renderProbes`: with the nearest hero alive (`heroReady` stands for it
     * not being dead and no teleport, disconnect or logout), the default
     * probe not occluded and `frame` for `gFrameCount`, renders the faces
     * the clamped rate schedules for this frame, then hands the nearest
     * hero to the default probe.
     */
    method RenderProbes(enabled: bool, heroReady: bool, occluded: bool, rateSetting: int, frame: nat)
      returns (faces: seq<nat>)
      requires Valid()
      modifies this`defaultProbe
      ensures Valid()
      ensures enabled && nearestHero.Some? && heroReady && probes != [] && !occluded ==>
        faces == Schedule(frame, EffectiveRate(rateSetting))
      ensures !(enabled && nearestHero.Some? && heroReady && probes != [] && !occluded) ==> faces == []
      ensures enabled && nearestHero.Some? && heroReady && defaultProbe.Some? ==>
        defaultProbe == Some(old(defaultProbe).value.(viewerObject := nearestHero))
      ensures !(enabled && nearestHero.Some? && heroReady && old(defaultProbe).Some?) ==> defaultProbe == old(defaultProbe)
    {
      faces := [];
      if !enabled {
        return;
      }
      if nearestHero.Some? && heroReady {
        var rate := EffectiveRate(rateSetting);
        if probes != [] && !occluded {
          faces := RenderFaces(frame, rate);
        }
        if defaultProbe.Some? {
          defaultProbe := Some(defaultProbe.value.(viewerObject := nearestHero));
        }
      }
    }

    /**
     * The scratch cube of `updateProbeFace` and `generateRadiance`,
     * `mReflectionProbeCount + 1`, and the array layer it copies face
     * `face` to: inside the `count + 2` allocated cube maps, past every
     * probe slot, and never a layer of the default probe's cube.
     */
    method SourceLayer(face: nat) returns (sourceIdx: nat, layer: nat)
      requires Valid() && hasTexture && face < CubeArrays.FACES
      ensures sourceIdx == reflectionProbeCount + 1 && layer == CubeArrays.CubeLayer(sourceIdx, face)
      ensures sourceIdx < layers && layer < CubeArrays.FACES * layers
      ensures defaultProbe.value.cubeIndex == 0
      ensures forall f :: 0 <= f < CubeArrays.FACES ==> layer != CubeArrays.CubeLayer(0, f)
    {
      sourceIdx := reflectionProbeCount;
      sourceIdx := sourceIdx + 1;
      layer := sourceIdx * CubeArrays.FACES + face;
      CubeArrays.CubeLayerInjective(sourceIdx, face, 0, 0, layers);
      assert CubeArrays.CubeLayer(sourceIdx, face) < CubeArrays.FACES * layers;
      forall f | 0 <= f < CubeArrays.FACES
        ensures layer != CubeArrays.CubeLayer(0, f)
      {
        CubeArrays.CubeLayerInjective(sourceIdx, face, 0, f, layers);
      }
    }
  }
}
