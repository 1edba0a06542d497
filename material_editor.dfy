/**
 * The state logic of the GLTF material editor: the eleven dirty flags and the
 * two flag sets (`mUnsavedChanges`, `mRevertedChanges`) the controls update,
 * the per-field merge that builds a live override, the in-flight
 * texture-upload counter, and the rules that name materials and textures.
 *
 * Field values of a material are kept generic (`V`): a material is the
 * sequence of its eleven editable fields, in flag order.
 */
module MaterialEditing {
  import opened Wrappers

  // ---------------------------------------------------------------------
  // Dirty flags
  // ---------------------------------------------------------------------

  const BASE_COLOR_DIRTY: bv32 := 1 << 0
  const BASE_COLOR_TEX_DIRTY: bv32 := 1 << 1
  const NORMAL_TEX_DIRTY: bv32 := 1 << 2
  const METALLIC_ROUGHNESS_TEX_DIRTY: bv32 := 1 << 3
  const METALLIC_ROUGHNESS_METALNESS_DIRTY: bv32 := 1 << 4
  const METALLIC_ROUGHNESS_ROUGHNESS_DIRTY: bv32 := 1 << 5
  const EMISSIVE_COLOR_DIRTY: bv32 := 1 << 6
  const EMISSIVE_TEX_DIRTY: bv32 := 1 << 7
  const DOUBLE_SIDED_DIRTY: bv32 := 1 << 8
  const ALPHA_MODE_DIRTY: bv32 := 1 << 9
  const ALPHA_CUTOFF_DIRTY: bv32 := 1 << 10

  /** The editable fields, one per flag. */
  const FIELD_COUNT: nat := 11

  /** The flags in field order: field `i` is guarded by `DIRTY_FLAGS[i]`. */
  const DIRTY_FLAGS: seq<bv32> := [
    BASE_COLOR_DIRTY, BASE_COLOR_TEX_DIRTY, NORMAL_TEX_DIRTY,
    METALLIC_ROUGHNESS_TEX_DIRTY, METALLIC_ROUGHNESS_METALNESS_DIRTY, METALLIC_ROUGHNESS_ROUGHNESS_DIRTY,
    EMISSIVE_COLOR_DIRTY, EMISSIVE_TEX_DIRTY,
    DOUBLE_SIDED_DIRTY, ALPHA_MODE_DIRTY, ALPHA_CUTOFF_DIRTY]

  /** Field `i`'s flag is set in `flags`. */
  predicate IsSet(flags: bv32, i: nat)
    requires i < FIELD_COUNT
  {
    flags & DIRTY_FLAGS[i] != 0
  }

  /** The flags are the single bits 0 to 10, so no two fields share one. */
  lemma {:induction false} FlagsAreDistinctBits()
    ensures |DIRTY_FLAGS| == FIELD_COUNT
    ensures forall i :: 0 <= i < FIELD_COUNT ==> DIRTY_FLAGS[i] == 1 << i
    ensures forall i, j :: 0 <= i < FIELD_COUNT && 0 <= j < FIELD_COUNT && i != j ==> DIRTY_FLAGS[i] & DIRTY_FLAGS[j] == 0
    ensures forall i :: 0 <= i < FIELD_COUNT ==> DIRTY_FLAGS[i] & 0x7FF == DIRTY_FLAGS[i]
  {
  }

  /** OR-ing in field `j`'s flag sets exactly that field and keeps every other one. */
  lemma OrFlag(flags: bv32, j: nat)
    requires j < FIELD_COUNT
    ensures forall i :: 0 <= i < FIELD_COUNT ==> (IsSet(flags | DIRTY_FLAGS[j], i) <==> IsSet(flags, i) || i == j)
  {
    FlagsAreDistinctBits();
    forall i | 0 <= i < FIELD_COUNT
      ensures IsSet(flags | DIRTY_FLAGS[j], i) <==> IsSet(flags, i) || i == j
    {
      assert (flags | DIRTY_FLAGS[j]) & DIRTY_FLAGS[i] == (flags & DIRTY_FLAGS[i]) | (DIRTY_FLAGS[j] & DIRTY_FLAGS[i]);
    }
  }

  /** No field is set in an empty flag set. */
  lemma NoneSet(i: nat)
    requires i < FIELD_COUNT
    ensures !IsSet(0, i)
  {
  }

  // ---------------------------------------------------------------------
  // The live-override merge of LLRenderMaterialOverrideFunctor::apply
  // ---------------------------------------------------------------------

  /** One field of the override: the editor's value if changed, else the saved one if reverted and saved, else as it was. */
  function MergeField<V>(current: V, edited: V, saved: Option<V>, changed: bool, reverted: bool): V {
    if changed then edited
    else if reverted && saved.Some? then saved.value
    else current
  }

  /**
   * The override a face receives: each field follows `MergeField` with its
   * own flag from the changed and the reverted set.
   */
  function MergeOverride<V>(material: seq<V>, editor: seq<V>, revert: Option<seq<V>>, changed: bv32, reverted: bv32): (r: seq<V>)
    requires |material| == FIELD_COUNT && |editor| == FIELD_COUNT
    requires revert.Some? ==> |revert.value| == FIELD_COUNT
    ensures |r| == FIELD_COUNT
  {
    seq(FIELD_COUNT, i requires 0 <= i < FIELD_COUNT =>
      MergeField(material[i], editor[i], if revert.Some? then Some(revert.value[i]) else None,
                 IsSet(changed, i), IsSet(reverted, i)))
  }

  /**
   * The per-field rule: a changed flag takes the editor's value whatever the
   * reverted flag says; otherwise a reverted flag takes the saved value when
   * there is one; otherwise the field is left as it was.
   */
  lemma MergeRule<V>(material: seq<V>, editor: seq<V>, revert: Option<seq<V>>, changed: bv32, reverted: bv32, i: nat)
    requires |material| == FIELD_COUNT && |editor| == FIELD_COUNT
    requires revert.Some? ==> |revert.value| == FIELD_COUNT
    requires i < FIELD_COUNT
    ensures var r := MergeOverride(material, editor, revert, changed, reverted);
      (IsSet(changed, i) ==> r[i] == editor[i])
      && (!IsSet(changed, i) && IsSet(reverted, i) && revert.Some? ==> r[i] == revert.value[i])
      && (!IsSet(changed, i) && (!IsSet(reverted, i) || revert.None?) ==> r[i] == material[i])
  {
  }

  /** With no flags set the override is the material unchanged. */
  lemma MergeNoFlags<V>(material: seq<V>, editor: seq<V>, revert: Option<seq<V>>)
    requires |material| == FIELD_COUNT && |editor| == FIELD_COUNT
    requires revert.Some? ==> |revert.value| == FIELD_COUNT
    ensures MergeOverride(material, editor, revert, 0, 0) == material
  {
    var r := MergeOverride(material, editor, revert, 0, 0);
    forall i | 0 <= i < FIELD_COUNT
      ensures r[i] == material[i]
    {
      NoneSet(i);
    }
  }

  /** Applying the same override twice gives the same result as once. */
  lemma MergeIdempotent<V>(material: seq<V>, editor: seq<V>, revert: Option<seq<V>>, changed: bv32, reverted: bv32)
    requires |material| == FIELD_COUNT && |editor| == FIELD_COUNT
    requires revert.Some? ==> |revert.value| == FIELD_COUNT
    ensures var once := MergeOverride(material, editor, revert, changed, reverted);
      MergeOverride(once, editor, revert, changed, reverted) == once
  {
  }

  /** Without a saved material the reverted flags have no effect. */
  lemma MergeWithoutSaved<V>(material: seq<V>, editor: seq<V>, changed: bv32, reverted: bv32)
    requires |material| == FIELD_COUNT && |editor| == FIELD_COUNT
    ensures MergeOverride(material, editor, None, changed, reverted) == MergeOverride(material, editor, None, changed, 0)
  {
    var a := MergeOverride(material, editor, None, changed, reverted);
    var b := MergeOverride(material, editor, None, changed, 0);
    forall i | 0 <= i < FIELD_COUNT
      ensures a[i] == b[i]
    {
      NoneSet(i);
    }
  }

  /** The saved material a face reverts to: absent when the face has none recorded, the blank material when recorded as null. */
  function RevertSource<V>(saved: seq<Option<seq<V>>>, te: nat, blank: seq<V>): (r: Option<seq<V>>)
    ensures r.None? <==> |saved| <= te
    ensures r.Some? && saved[te].Some? ==> r.value == saved[te].value
    ensures r.Some? && saved[te].None? ==> r.value == blank
  {
    if |saved| > te then Some(saved[te].GetOr(blank)) else None
  }

  /** A texture entry of a selected object: whether it has a base material, and its current override. */
  datatype FaceEntry<V> = FaceEntry(hasBase: bool, override: Option<seq<V>>)

  /** A selected node: the object, its texture entries and faces, the selected entries and the saved overrides. */
  datatype Node<V> = Node(
    objectId: nat, canModify: bool, hasVolume: bool,
    entries: seq<FaceEntry<V>>, numFaces: nat, selected: seq<bool>,
    saved: seq<Option<seq<V>>>)

  /** A material queued for a texture entry. */
  datatype Queued<V> = Queued(te: nat, material: seq<V>)

  /** The entries the functor visits: no more than the object has faces (avatars have entries but no faces). */
  function VisitedCount<V>(node: Node<V>): (n: nat)
    ensures n <= |node.entries| && n <= node.numFaces
  {
    if |node.entries| < node.numFaces then |node.entries| else node.numFaces
  }

  /** Well-formed field sequences for the node's overrides and saved materials. */
  ghost predicate WellFormed<V>(node: Node<V>, editor: seq<V>, blank: seq<V>) {
    |editor| == FIELD_COUNT && |blank| == FIELD_COUNT
    && (forall k :: 0 <= k < |node.entries| && node.entries[k].override.Some? ==> |node.entries[k].override.value| == FIELD_COUNT)
    && (forall k :: 0 <= k < |node.saved| && node.saved[k].Some? ==> |node.saved[k].value| == FIELD_COUNT)
  }

  /** Entry `te` is selected and has a base material to override. */
  predicate Applies<V>(node: Node<V>, te: nat)
    requires te < |node.entries|
  {
    te < |node.selected| && node.selected[te] && node.entries[te].hasBase
  }

  /** The override for entry `te`: its current override (or a blank one) merged with the editor's flags. */
  function FaceOverride<V>(node: Node<V>, te: nat, editor: seq<V>, blank: seq<V>, changed: bv32, reverted: bv32): seq<V>
    requires WellFormed(node, editor, blank) && te < |node.entries|
  {
    MergeOverride(node.entries[te].override.GetOr(blank), editor, RevertSource(node.saved, te, blank), changed, reverted)
  }

  /** The materials queued for the visited entries below `k`, in entry order. */
  function QueuedBelow<V>(node: Node<V>, k: nat, editor: seq<V>, blank: seq<V>, changed: bv32, reverted: bv32): seq<Queued<V>>
    requires WellFormed(node, editor, blank) && k <= |node.entries|
  {
    if k == 0 then []
    else
      QueuedBelow(node, k - 1, editor, blank, changed, reverted)
      + (if Applies(node, k - 1) then [Queued(k - 1, FaceOverride(node, k - 1, editor, blank, changed, reverted))] else [])
  }

  /** Each queued entry is visited, selected and has a base material and its merged override; entries come once each, in increasing order. */
  lemma {:induction false} QueuedBelowSound<V>(node: Node<V>, k: nat, editor: seq<V>, blank: seq<V>, changed: bv32, reverted: bv32)
    requires WellFormed(node, editor, blank) && k <= |node.entries|
    ensures var q := QueuedBelow(node, k, editor, blank, changed, reverted);
      (forall j :: 0 <= j < |q| ==>
         q[j].te < k && Applies(node, q[j].te) && q[j].material == FaceOverride(node, q[j].te, editor, blank, changed, reverted))
      && (forall j1, j2 :: 0 <= j1 < j2 < |q| ==> q[j1].te < q[j2].te)
  {
    if k > 0 {
      QueuedBelowSound(node, k - 1, editor, blank, changed, reverted);
      var before := QueuedBelow(node, k - 1, editor, blank, changed, reverted);
      assert var q0 := QueuedBelow(node, k - 1, editor, blank, changed, reverted); forall j :: 0 <= j < |q0| ==> q0[j].te < k - 1;
      var q := QueuedBelow(node, k, editor, blank, changed, reverted);
      var ext := if Applies(node, k - 1) then [Queued(k - 1, FaceOverride(node, k - 1, editor, blank, changed, reverted))] else [];
      assert q == before + ext;
      forall j | 0 <= j < |q|
        ensures q[j].te < k && Applies(node, q[j].te) && q[j].material == FaceOverride(node, q[j].te, editor, blank, changed, reverted)
      {
        if j < |before| {
          assert q[j] == before[j];
        } else {
          assert q[j] == ext[0];
        }
      }
      forall j1, j2 | 0 <= j1 < j2 < |q|
        ensures q[j1].te < q[j2].te
      {
        assert q[j1] == before[j1];
        if j2 < |before| {
          assert q[j2] == before[j2];
        }
      }
    }
  }

  /** Some queued override is for entry `te`. */
  predicate QueuesEntry<V>(q: seq<Queued<V>>, te: int) {
    exists j :: 0 <= j < |q| && q[j].te == te
  }

  /** Every visited entry that is selected and has a base material is queued. */
  lemma {:induction false} QueuedBelowComplete<V>(node: Node<V>, k: nat, editor: seq<V>, blank: seq<V>, changed: bv32, reverted: bv32)
    requires WellFormed(node, editor, blank) && k <= |node.entries|
    ensures forall te :: 0 <= te < k && Applies(node, te) ==>
      QueuesEntry(QueuedBelow(node, k, editor, blank, changed, reverted), te)
  {
    if k > 0 {
      QueuedBelowComplete(node, k - 1, editor, blank, changed, reverted);
      var before := QueuedBelow(node, k - 1, editor, blank, changed, reverted);
      var q := QueuedBelow(node, k, editor, blank, changed, reverted);
      forall te | 0 <= te < k && Applies(node, te)
        ensures QueuesEntry(q, te)
      {
        if te == k - 1 {
          assert q[|q| - 1].te == te;
        } else {
          assert QueuesEntry(before, te);
          var j :| 0 <= j < |before| && before[j].te == te;
          assert q[j] == before[j];
        }
      }
    }
  }

  /**
   * `LLRenderMaterialOverrideFunctor::apply` for one node: nothing for an
   * object that is missing, not modifiable or without a volume; otherwise
   * every visited, selected entry with a base material is given its merged
   * override, and `success` says whether the editor's own target among them.
   */
  method ApplyToNode<V>(node: Node<V>, editor: seq<V>, blank: seq<V>, changed: bv32, reverted: bv32,
                        targetObject: nat, targetTe: int)
    returns (handled: bool, queued: seq<Queued<V>>, success: bool)
    requires WellFormed(node, editor, blank)
    ensures handled <==> node.canModify && node.hasVolume
    ensures queued == (if handled then QueuedBelow(node, VisitedCount(node), editor, blank, changed, reverted) else [])
    ensures success <==> handled && node.objectId == targetObject && 0 <= targetTe < VisitedCount(node) && Applies(node, targetTe)
  {
    queued := [];
    success := false;
    if !node.canModify || !node.hasVolume {
      handled := false;
      return;
    }
    handled := true;
    var n := VisitedCount(node);
    var te := 0;
    while te < n
      invariant te <= n
      invariant queued == QueuedBelow(node, te, editor, blank, changed, reverted)
      invariant success <==> node.objectId == targetObject && 0 <= targetTe < te && Applies(node, targetTe)
    {
      if Applies(node, te) {
        var material := FaceOverride(node, te, editor, blank, changed, reverted);
        if targetTe == te && node.objectId == targetObject {
          success := true;
        }
        queued := queued + [Queued(te, material)];
      }
      te := te + 1;
    }
  }

  // ---------------------------------------------------------------------
  // Texture uploads
  // ---------------------------------------------------------------------

  /** The null asset id. */
  const NULL_ID: nat := 0

  /** The texture slots, in the order `saveTextures` visits them. */
  const SLOT_COUNT: nat := 4
  const BASE_COLOR_SLOT: nat := 0
  const NORMAL_SLOT: nat := 1
  const METALLIC_ROUGHNESS_SLOT: nat := 2
  const EMISSIVE_SLOT: nat := 3

  /**
   * One texture slot: its upload id, the id its picker shows, whether an
   * image buffer with data and a fetched image are held, and its name.
   */
  datatype TextureSlot = TextureSlot(uploadId: nat, currentId: nat, hasImage: bool, hasFetched: bool, name: string)

  /** The slot's texture is to be uploaded: its upload id is set and still the one shown. */
  predicate Pending(s: TextureSlot) {
    s.uploadId == s.currentId && s.uploadId != NULL_ID
  }

  /** `saveTexture` actually starts the upload: pending and with image data. */
  predicate Uploadable(s: TextureSlot) {
    Pending(s) && s.hasImage
  }

  /** A started upload: the slot, its asset id and its inventory name. */
  datatype UploadRequest = UploadRequest(slot: nat, assetId: nat, name: string)

  /** The inventory name of a slot's texture: the material name, then the slot's name. */
  function UploadName(materialName: string, s: TextureSlot): string {
    materialName + ": " + s.name
  }

  /** The uploads started for the slots below `k`, in slot order. */
  function UploadsBelow(slots: seq<TextureSlot>, materialName: string, k: nat): seq<UploadRequest>
    requires k <= |slots|
  {
    if k == 0 then []
    else
      UploadsBelow(slots, materialName, k - 1)
      + (if Uploadable(slots[k - 1]) then [UploadRequest(k - 1, slots[k - 1].uploadId, UploadName(materialName, slots[k - 1]))] else [])
  }

  /** The slots below `k` that are pending, uploadable or not. */
  function PendingBelow(slots: seq<TextureSlot>, k: nat): nat
    requires k <= |slots|
  {
    if k == 0 then 0 else PendingBelow(slots, k - 1) + (if Pending(slots[k - 1]) then 1 else 0)
  }

  /** A started upload is for an uploadable slot, under its own id and name, and the slots come once each, in order. */
  lemma {:induction false} UploadsBelowSound(slots: seq<TextureSlot>, materialName: string, k: nat)
    requires k <= |slots|
    ensures var u := UploadsBelow(slots, materialName, k);
      (forall j :: 0 <= j < |u| ==>
         u[j].slot < k && Uploadable(slots[u[j].slot]) && u[j].assetId == slots[u[j].slot].uploadId
         && u[j].name == UploadName(materialName, slots[u[j].slot]))
      && (forall j1, j2 :: 0 <= j1 < j2 < |u| ==> u[j1].slot < u[j2].slot)
  {
    if k > 0 {
      UploadsBelowSound(slots, materialName, k - 1);
      assert var u0 := UploadsBelow(slots, materialName, k - 1);
        forall j :: 0 <= j < |u0| ==> u0[j].slot < k - 1;
      var before := UploadsBelow(slots, materialName, k - 1);
      var u := UploadsBelow(slots, materialName, k);
      assert |u| > |before| ==>
        |u| == |before| + 1 && Uploadable(slots[k - 1])
        && u[|before|] == UploadRequest(k - 1, slots[k - 1].uploadId, UploadName(materialName, slots[k - 1]));
      assert forall j :: 0 <= j < |before| ==> u[j] == before[j];
    }
  }

  /** Some request uploads slot `s`. */
  predicate StartsSlot(u: seq<UploadRequest>, s: int) {
    exists j :: 0 <= j < |u| && u[j].slot == s
  }

  /** Every uploadable slot is started. */
  lemma {:induction false} UploadsBelowComplete(slots: seq<TextureSlot>, materialName: string, k: nat)
    requires k <= |slots|
    ensures forall s :: 0 <= s < k && Uploadable(slots[s]) ==> StartsSlot(UploadsBelow(slots, materialName, k), s)
  {
    if k > 0 {
      UploadsBelowComplete(slots, materialName, k - 1);
      var before := UploadsBelow(slots, materialName, k - 1);
      var u := UploadsBelow(slots, materialName, k);
      forall s | 0 <= s < k && Uploadable(slots[s])
        ensures StartsSlot(u, s)
      {
        if s == k - 1 {
          assert u[|u| - 1].slot == s;
        } else {
          assert StartsSlot(before, s);
          var j :| 0 <= j < |before| && before[j].slot == s;
          assert u[j] == before[j];
        }
      }
    }
  }

  /** No more uploads start than slots are pending. */
  lemma {:induction false} UploadsBelowCount(slots: seq<TextureSlot>, materialName: string, k: nat)
    requires k <= |slots|
    ensures |UploadsBelow(slots, materialName, k)| <= PendingBelow(slots, k)
  {
    if k > 0 {
      UploadsBelowCount(slots, materialName, k - 1);
    }
  }

  /** A pending slot without image data is counted but not started. */
  lemma {:induction false} UploadsBelowMissing(slots: seq<TextureSlot>, materialName: string, k: nat, s: nat)
    requires k <= |slots| && s < k && Pending(slots[s]) && !slots[s].hasImage
    ensures |UploadsBelow(slots, materialName, k)| < PendingBelow(slots, k)
  {
    if s == k - 1 {
      UploadsBelowCount(slots, materialName, k - 1);
    } else {
      UploadsBelowMissing(slots, materialName, k - 1, s);
    }
  }

  /** The state `saveTextures` and `saveIfNeeded` read and write: the counter, the failure flag, whether the editor is enabled, and the slots. */
  datatype UploadStage = UploadStage(count: int, failure: bool, enabled: bool, slots: seq<TextureSlot>)

  /** What `saveTextures` leaves: the count it returns, the uploads it started and the new state. */
  datatype TexturesStep = TexturesStep(work: nat, requests: seq<UploadRequest>, stage: UploadStage)

  /** What `saveIfNeeded` leaves: its outcome, the uploads it started and the new state. */
  datatype SaveStep = SaveStep(outcome: SaveOutcome, requests: seq<UploadRequest>, stage: UploadStage)

  /**
   * `saveTextures` as written: the counter and the returned count rise by
   * one for every pending slot, while `saveTexture` starts (and later calls
   * back for) only the uploadable ones; the textures are cleared only when
   * no slot is pending.
   */
  function SaveTexturesAsWritten(st: UploadStage, materialName: string): (r: TexturesStep)
    requires |st.slots| == SLOT_COUNT
    ensures |r.requests| <= r.work && r.stage.count == st.count + r.work && !r.stage.failure
  {
    var work := PendingBelow(st.slots, SLOT_COUNT);
    UploadsBelowCount(st.slots, materialName, SLOT_COUNT);
    TexturesStep(work, UploadsBelow(st.slots, materialName, SLOT_COUNT),
      st.(count := st.count + work, failure := false, slots := if work == 0 then ClearedAll(st.slots) else st.slots))
  }

  /** `saveIfNeeded` up to the material asset, over `saveTextures` as written. */
  function SaveIfNeededAsWritten(st: UploadStage, materialName: string): (r: SaveStep)
    requires |st.slots| == SLOT_COUNT
    ensures |r.stage.slots| == SLOT_COUNT
    ensures st.count > 0 ==> r == SaveStep(WaitingForUploads, [], st)
  {
    if st.count > 0 then SaveStep(WaitingForUploads, [], st)
    else
      var t := SaveTexturesAsWritten(st, materialName);
      if t.work > 0 then SaveStep(UploadingTextures, t.requests, t.stage.(enabled := false))
      else SaveStep(SaveMaterial, t.requests, t.stage)
  }

  /**
   * As written, a pending slot without image data leaves the counter above
   * the number of uploads started: once every started upload has called
   * back it is still positive, so the editor stays disabled and every
   * retried `saveIfNeeded` returns at its guard.
   */
  lemma AsWrittenCounterOutlivesUploads(st: UploadStage, materialName: string, s: nat)
    requires |st.slots| == SLOT_COUNT && st.count == 0
    requires s < SLOT_COUNT && Pending(st.slots[s]) && !st.slots[s].hasImage
    ensures var r := SaveIfNeededAsWritten(st, materialName);
      r.outcome == UploadingTextures && !r.stage.enabled && r.stage.count > |r.requests|
  {
    UploadsBelowMissing(st.slots, materialName, SLOT_COUNT, s);
  }

  /**
   * A base-color slot whose upload id is set but whose image buffer is
   * missing: as written, `saveIfNeeded` disables the editor with the
   * counter at 1 and no upload started, so no callback comes and every
   * later call waits with nothing changed; no upload starts either when the
   * counter follows the uploads started.
   */
  lemma CounterRaiseOvercounts()
    ensures var slots := [TextureSlot(7, 7, false, false, "Base Color"), TextureSlot(0, 0, false, false, "Normal"),
                          TextureSlot(0, 0, false, false, "Metallic Roughness"), TextureSlot(0, 0, false, false, "Emissive")];
      var r := SaveIfNeededAsWritten(UploadStage(0, false, true, slots), "m");
      r.outcome == UploadingTextures && r.requests == [] && r.stage == UploadStage(1, false, false, slots)
      && SaveIfNeededAsWritten(r.stage, "m") == SaveStep(WaitingForUploads, [], r.stage)
      && UploadsBelow(slots, "m", SLOT_COUNT) == []
  {
    var slots := [TextureSlot(7, 7, false, false, "Base Color"), TextureSlot(0, 0, false, false, "Normal"),
                  TextureSlot(0, 0, false, false, "Metallic Roughness"), TextureSlot(0, 0, false, false, "Emissive")];
    assert PendingBelow(slots, 1) == 1;
    assert UploadsBelow(slots, "m", 1) == [];
  }

  /**
   * The four upload blocks of `saveTextures`, in slot order: base color,
   * normal, metallic-roughness, emissive.
   */
  method StartUploads(slots: seq<TextureSlot>, materialName: string) returns (requests: seq<UploadRequest>)
    requires |slots| == SLOT_COUNT
    ensures requests == UploadsBelow(slots, materialName, SLOT_COUNT)
  {
    requests := [];
    if Uploadable(slots[BASE_COLOR_SLOT]) {
      requests := requests + [UploadRequest(BASE_COLOR_SLOT, slots[BASE_COLOR_SLOT].uploadId, UploadName(materialName, slots[BASE_COLOR_SLOT]))];
    }
    assert requests == UploadsBelow(slots, materialName, 1);
    if Uploadable(slots[NORMAL_SLOT]) {
      requests := requests + [UploadRequest(NORMAL_SLOT, slots[NORMAL_SLOT].uploadId, UploadName(materialName, slots[NORMAL_SLOT]))];
    }
    assert requests == UploadsBelow(slots, materialName, 2);
    if Uploadable(slots[METALLIC_ROUGHNESS_SLOT]) {
      requests := requests + [UploadRequest(METALLIC_ROUGHNESS_SLOT, slots[METALLIC_ROUGHNESS_SLOT].uploadId, UploadName(materialName, slots[METALLIC_ROUGHNESS_SLOT]))];
    }
    assert requests == UploadsBelow(slots, materialName, 3);
    if Uploadable(slots[EMISSIVE_SLOT]) {
      requests := requests + [UploadRequest(EMISSIVE_SLOT, slots[EMISSIVE_SLOT].uploadId, UploadName(materialName, slots[EMISSIVE_SLOT]))];
    }
  }

  /** The slots of a list of started uploads. */
  function SlotsOf(requests: seq<UploadRequest>): (m: multiset<nat>)
    ensures |m| == |requests|
    ensures forall s :: s in m ==> exists j :: 0 <= j < |requests| && requests[j].slot == s
  {
    if requests == [] then multiset{}
    else SlotsOf(requests[..|requests| - 1]) + multiset{requests[|requests| - 1].slot}
  }

  /** What `saveIfNeeded` does. */
  datatype SaveOutcome =
    | WaitingForUploads   // uploads in flight: retried from their callbacks
    | UploadingTextures   // uploads just started
    | SaveMaterial        // no texture to upload: the material asset itself is saved

  /** A slot after `clearTextures`: no buffers and no upload id. */
  function Cleared(s: TextureSlot): (r: TextureSlot)
    ensures !Pending(r) && !r.hasImage && !r.hasFetched
    ensures r.currentId == s.currentId && r.name == s.name
  {
    s.(uploadId := NULL_ID, hasImage := false, hasFetched := false)
  }

  /** A slot after its upload succeeded: the picker shows the new asset and the buffers are dropped. */
  function Uploaded(s: TextureSlot, newAsset: nat): (r: TextureSlot)
    ensures !Pending(r) && r.currentId == newAsset && r.name == s.name
  {
    s.(currentId := newAsset, uploadId := NULL_ID, hasImage := false, hasFetched := false)
  }

  /** Every slot after `clearTextures`. */
  function ClearedAll(slots: seq<TextureSlot>): (r: seq<TextureSlot>)
    ensures |r| == |slots| && forall k :: 0 <= k < |slots| ==> r[k] == Cleared(slots[k])
  {
    seq(|slots|, k requires 0 <= k < |slots| => Cleared(slots[k]))
  }

  class MaterialEditor {
    /** `mUnsavedChanges`. */
    var unsaved: bv32
    /** `mRevertedChanges`. */
    var reverted: bv32
    /** `mIsOverride`: live editing of the selection. */
    var isOverride: bool
    /** `mOverrideInProgress`. */
    var overrideInProgress: bool
    /** `mUploadingTexturesCount`. */
    var uploadingCount: int
    /** `mUploadingTexturesFailure`. */
    var uploadFailure: bool
    /** Whether the floater is enabled. */
    var enabled: bool
    /** `mMaterialName`. */
    var materialName: string
    /** The four texture slots: base color, normal, metallic-roughness, emissive. */
    var slots: seq<TextureSlot>
    /** The slots whose upload has been started and has not yet called back. */
    ghost var awaiting: multiset<nat>

    /** There are four slots, and the counter is the number of uploads still to call back. */
    ghost predicate Valid()
      reads this
    {
      |slots| == SLOT_COUNT && uploadingCount == |awaiting|
    }

    /** A fresh editor: no changes, no uploads. */
    constructor (isOverride: bool, materialName: string, slots: seq<TextureSlot>)
      requires |slots| == SLOT_COUNT
      ensures Valid()
      ensures this.isOverride == isOverride && this.materialName == materialName && this.slots == slots
      ensures unsaved == 0 && reverted == 0 && uploadingCount == 0 && !uploadFailure && enabled && !overrideInProgress
    {
      this.isOverride := isOverride;
      this.materialName := materialName;
      this.slots := slots;
      unsaved := 0;
      reverted := 0;
      overrideInProgress := false;
      uploadingCount := 0;
      uploadFailure := false;
      enabled := true;
      awaiting := multiset{};
    }

    /** `markChangesUnsaved`: the flag joins the unsaved set and nothing else changes. */
    method MarkChangesUnsaved(flag: bv32)
      modifies this`unsaved
      ensures unsaved == old(unsaved) | flag
    {
      unsaved := unsaved | flag;
    }

    /** `resetUnsavedChanges`: both flag sets become empty. */
    method ResetUnsavedChanges()
      modifies this`unsaved, this`reverted
      ensures unsaved == 0 && reverted == 0
    {
      unsaved := 0;
      reverted := 0;
    }

    /**
     * `applyToSelection`: only in live-override mode and with the
     * `ModifyMaterialParams` capability (`hasCapability`), and only when a
     * flag is set, are the overrides posted; then both sets are emptied and
     * the override stays in progress only if the functor found the editor's
     * own target (`targetFound`).
     */
    method ApplyToSelection(hasCapability: bool, targetFound: bool) returns (posted: bool)
      modifies this`unsaved, this`reverted, this`overrideInProgress
      ensures posted <==> isOverride && hasCapability && (old(unsaved) != 0 || old(reverted) != 0)
      ensures posted ==> unsaved == 0 && reverted == 0 && overrideInProgress == targetFound
      ensures !posted ==> unsaved == old(unsaved) && reverted == old(reverted) && overrideInProgress == old(overrideInProgress)
    {
      posted := false;
      if !isOverride {
        return;
      }
      if hasCapability {
        if unsaved != 0 || reverted != 0 {
          overrideInProgress := true;
          if !targetFound {
            overrideInProgress := false;
          }
          unsaved := 0;
          reverted := 0;
          posted := true;
        }
      }
    }

    /** `onCancelCtrl`: the flag joins the reverted set, then `applyToSelection`. */
    method OnCancelCtrl(flag: bv32, hasCapability: bool, targetFound: bool) returns (posted: bool)
      modifies this`unsaved, this`reverted, this`overrideInProgress
      ensures posted <==> isOverride && hasCapability && (old(unsaved) != 0 || old(reverted) | flag != 0)
      ensures !posted ==> unsaved == old(unsaved) && reverted == old(reverted) | flag
      ensures posted ==> unsaved == 0 && reverted == 0
    {
      reverted := reverted | flag;
      posted := ApplyToSelection(hasCapability, targetFound);
    }

    /** `onSelectCtrl`: the flag joins the unsaved set, then `applyToSelection`. */
    method OnSelectCtrl(flag: bv32, hasCapability: bool, targetFound: bool) returns (posted: bool)
      modifies this`unsaved, this`reverted, this`overrideInProgress
      ensures posted <==> isOverride && hasCapability && (old(unsaved) | flag != 0 || old(reverted) != 0)
      ensures !posted ==> unsaved == old(unsaved) | flag && reverted == old(reverted)
      ensures posted ==> unsaved == 0 && reverted == 0
    {
      unsaved := unsaved | flag;
      posted := ApplyToSelection(hasCapability, targetFound);
    }

    /** `clearTextures`: every slot loses its buffers and its upload id. */
    method ClearTextures()
      modifies this`slots
      ensures |slots| == |old(slots)| && forall k :: 0 <= k < |slots| ==> slots[k] == Cleared(old(slots)[k])
    {
      slots := ClearedAll(slots);
    }

    /**
     * `saveTextures`, with the counter raised only for the uploads
     * `saveTexture` actually starts (see `SaveTexturesAsWritten`): the
     * failure flag is cleared, the uploadable slots are started in slot
     * order and awaited, the counter rises by their number, and with none
     * the textures are cleared.
     */
    method SaveTextures() returns (work: nat, requests: seq<UploadRequest>)
      requires Valid()
      modifies this`uploadFailure, this`uploadingCount, this`awaiting, this`slots
      ensures Valid() && !uploadFailure
      ensures requests == UploadsBelow(old(slots), materialName, SLOT_COUNT) && work == |requests|
      ensures uploadingCount == old(uploadingCount) + work
      ensures awaiting == old(awaiting) + SlotsOf(requests)
      ensures work == 0 ==> slots == ClearedAll(old(slots))
      ensures work > 0 ==> slots == old(slots)
    {
      uploadFailure := false;
      requests := StartUploads(slots, materialName);
      work := |requests|;
      uploadingCount := uploadingCount + work;
      awaiting := awaiting + SlotsOf(requests);
      if work == 0 {
        ClearTextures();
      }
    }

    /**
     * `setFailedToUploadTexture`, reached from the failure callback of the
     * upload of `slot`: the failure is recorded, the counter drops by one,
     * and the editor is re-enabled once nothing is in flight.
     */
    method SetFailedToUploadTexture(ghost slot: nat)
      requires Valid() && slot in awaiting
      modifies this`uploadFailure, this`uploadingCount, this`awaiting, this`enabled
      ensures Valid() && uploadFailure
      ensures awaiting == old(awaiting) - multiset{slot} && uploadingCount == old(uploadingCount) - 1
      ensures enabled == (old(enabled) || uploadingCount == 0)
    {
      ghost var rest := awaiting - multiset{slot};
      assert awaiting == rest + multiset{slot};
      uploadFailure := true;
      awaiting := rest;
      uploadingCount := uploadingCount - 1;
      if uploadingCount == 0 {
        enabled := true;
      }
    }

    /**
     * `saveIfNeeded` up to the material asset itself: while uploads are in
     * flight it only waits; otherwise it starts the texture uploads and, if
     * any started, disables the editor.
     */
    method SaveIfNeeded() returns (outcome: SaveOutcome, requests: seq<UploadRequest>)
      requires Valid()
      modifies this`uploadFailure, this`uploadingCount, this`awaiting, this`slots, this`enabled
      ensures Valid()
      ensures old(uploadingCount) > 0 ==>
        outcome == WaitingForUploads && requests == [] && uploadingCount == old(uploadingCount) && awaiting == old(awaiting)
        && slots == old(slots) && enabled == old(enabled) && uploadFailure == old(uploadFailure)
      ensures old(uploadingCount) <= 0 ==>
        requests == UploadsBelow(old(slots), materialName, SLOT_COUNT) && uploadingCount == old(uploadingCount) + |requests|
        && awaiting == old(awaiting) + SlotsOf(requests) && !uploadFailure
        && (requests != [] ==> slots == old(slots) && !enabled)
        && (requests == [] ==> slots == ClearedAll(old(slots)) && enabled == old(enabled))
      ensures outcome == UploadingTextures <==> old(uploadingCount) <= 0 && requests != []
      ensures outcome == SaveMaterial <==> old(uploadingCount) <= 0 && requests == []
    {
      if uploadingCount > 0 {
        return WaitingForUploads, [];
      }
      var work;
      work, requests := SaveTextures();
      if work > 0 {
        enabled := false;
        return UploadingTextures, requests;
      }
      outcome := SaveMaterial;
    }

    /**
     * The success callback of the upload of `slot`: the picker shows the new
     * asset, the slot's buffers and upload id are dropped, the counter drops
     * by one, and saving is retried unless an upload failed, in which case
     * the editor is re-enabled once nothing is in flight. The retry waits
     * while other uploads are in flight; after the last one it starts the
     * uploads still pending in the updated slots, or, with none, clears the
     * slots and goes on to save the material (the editor stays as it was).
     */
    method OnTextureUploaded(slot: nat, newAsset: nat) returns (retried: bool, outcome: SaveOutcome)
      requires Valid() && slot < SLOT_COUNT && slot in awaiting
      modifies this`uploadFailure, this`uploadingCount, this`awaiting, this`slots, this`enabled
      ensures Valid()
      ensures retried <==> !old(uploadFailure)
      ensures uploadFailure == old(uploadFailure)
      ensures slots[slot].currentId == newAsset && !Pending(slots[slot])
      ensures old(uploadFailure) ==>
        outcome == WaitingForUploads
        && slots == old(slots)[slot := Uploaded(old(slots)[slot], newAsset)]
        && awaiting == old(awaiting) - multiset{slot} && uploadingCount == old(uploadingCount) - 1
        && enabled == (old(enabled) || old(uploadingCount) == 1)
      ensures retried && old(uploadingCount) > 1 ==>
        outcome == WaitingForUploads
        && slots == old(slots)[slot := Uploaded(old(slots)[slot], newAsset)]
        && awaiting == old(awaiting) - multiset{slot} && uploadingCount == old(uploadingCount) - 1
        && enabled == old(enabled)
      ensures retried && old(uploadingCount) == 1 ==>
        var updated := old(slots)[slot := Uploaded(old(slots)[slot], newAsset)];
        var started := UploadsBelow(updated, materialName, SLOT_COUNT);
        uploadingCount == |started| && awaiting == old(awaiting) - multiset{slot} + SlotsOf(started)
        && (outcome == UploadingTextures <==> started != []) && (outcome == SaveMaterial <==> started == [])
        && (started != [] ==> slots == updated && !enabled)
        && (started == [] ==> slots == ClearedAll(updated) && enabled == old(enabled))
    {
      TakeUpload(slot, newAsset);
      outcome := WaitingForUploads;
      retried := false;
      if !uploadFailure {
        retried := true;
        var more;
        outcome, more := SaveIfNeeded();
      } else if uploadingCount == 0 {
        enabled := true;
      }
    }

    /** The slot bookkeeping of the success callback: the new asset is shown and the upload is no longer awaited. */
    method TakeUpload(slot: nat, newAsset: nat)
      requires Valid() && slot < SLOT_COUNT && slot in awaiting
      modifies this`uploadingCount, this`awaiting, this`slots
      ensures Valid()
      ensures slots == old(slots)[slot := Uploaded(old(slots)[slot], newAsset)]
      ensures awaiting == old(awaiting) - multiset{slot} && uploadingCount == old(uploadingCount) - 1
    {
      ghost var rest := awaiting - multiset{slot};
      assert awaiting == rest + multiset{slot};
      slots := slots[slot := Uploaded(slots[slot], newAsset)];
      awaiting := rest;
      uploadingCount := uploadingCount - 1;
    }
  }

  // ---------------------------------------------------------------------
  // Names
  // ---------------------------------------------------------------------

  /** The base name may be at most this long before it is cut. */
  const MAX_TEXTURE_NAME_LENGTH: nat := 64

  /** C `isspace` in the default locale. */
  predicate IsSpace(c: char) {
    c == ' ' || c == '\t' || c == '\n' || c == '\r' || c as int == 0x0B || c as int == 0x0C
  }

  /** ASCII lower-casing. */
  function ToLower(c: char): (r: char)
    ensures !('A' <= r <= 'Z')
    ensures !IsSpace(c) ==> !IsSpace(r)
  {
    if 'A' <= c <= 'Z' then (c as int + 32) as char else c
  }

  /** Lower-case with the white space removed, the form the type test compares. */
  function Squash(s: string): string
  {
    if s == [] then [] else (if IsSpace(s[0]) then [] else [ToLower(s[0])]) + Squash(s[1..])
  }

  /** `Squash` works character by character, so it distributes over concatenation. */
  lemma {:induction false} SquashAppend(a: string, b: string)
    ensures Squash(a + b) == Squash(a) + Squash(b)
  {
    if a != [] {
      var head := if IsSpace(a[0]) then [] else [ToLower(a[0])];
      assert (a + b)[0] == a[0];
      assert (a + b)[1..] == a[1..] + b;
      assert Squash(a + b) == head + Squash(a[1..] + b);
      SquashAppend(a[1..], b);
      assert Squash(a) == head + Squash(a[1..]);
    } else {
      assert a + b == b;
    }
  }

  /** `Squash` leaves its own results unchanged. */
  lemma {:induction false} SquashIdempotent(s: string)
    ensures Squash(Squash(s)) == Squash(s)
  {
    if s != [] {
      SquashIdempotent(s[1..]);
      var head := if IsSpace(s[0]) then [] else [ToLower(s[0])];
      SquashAppend(head, Squash(s[1..]));
      if !IsSpace(s[0]) {
        assert Squash(head) == head by {
          assert head[1..] == [];
        }
      }
    }
  }

  /** `t` occurs in `s` (`std::string::find` does not return `npos`); the empty string occurs everywhere. */
  predicate Contains(s: string, t: string) {
    exists i | 0 <= i <= |s| - |t| :: OccursAt(s, t, i)
  }

  /** `t` occurs in `s` at position `i`. */
  predicate OccursAt(s: string, t: string, i: nat) {
    i + |t| <= |s| && s[i..i + |t|] == t
  }

  /** What occurs in a part of a string occurs in the whole. */
  lemma ContainsInMiddle(a: string, b: string, c: string, t: string)
    requires Contains(b, t)
    ensures Contains(a + b + c, t)
  {
    var i :| 0 <= i <= |b| - |t| && OccursAt(b, t, i);
    var s := a + b + c;
    assert s[|a| + i..|a| + i + |t|] == b[i..i + |t|];
    assert OccursAt(s, t, |a| + i);
  }

  /** Every path delimiter becomes `delim`. */
  function UnifyDelimiters(uri: string, delim: char): (r: string)
    ensures |r| == |uri|
    ensures forall i :: 0 <= i < |r| ==> r[i] != '\\' || delim == '\\'
    ensures forall i :: 0 <= i < |r| ==> r[i] != '/' || delim == '/'
  {
    seq(|uri|, i requires 0 <= i < |uri| => if uri[i] == '\\' || uri[i] == '/' then delim else uri[i])
  }

  /** The part after the last `delim`. */
  function LastSegment(s: string, delim: char): (r: string)
    ensures delim !in r
    ensures |r| <= |s| && r == s[|s| - |r|..]
  {
    if s == [] then []
    else if s[|s| - 1] == delim then []
    else LastSegment(s[..|s| - 1], delim) + [s[|s| - 1]]
  }

  /** Everything before the last `.`, or all of it when there is none. */
  function StripExtension(s: string): (r: string)
    ensures |r| <= |s| && r == s[..|r|]
  {
    if '.' !in s then s else StripExtensionAt(s, |s|)
  }

  function StripExtensionAt(s: string, k: nat): (r: string)
    requires k <= |s|
    ensures |r| <= k && r == s[..|r|]
  {
    if k == 0 then s[..0]
    else if s[k - 1] == '.' then s[..k - 1]
    else StripExtensionAt(s, k - 1)
  }

  /** The file's base name: the last path segment without its extension. */
  function BaseFileName(path: string, delim: char): string {
    StripExtension(LastSegment(path, delim))
  }

  /** A base name longer than 64 characters is cut to 63. */
  function Shorten(s: string): (r: string)
    ensures |r| <= MAX_TEXTURE_NAME_LENGTH && |r| <= |s|
    ensures r == s[..|r|]
    ensures |s| <= MAX_TEXTURE_NAME_LENGTH <==> r == s
  {
    if |s| > MAX_TEXTURE_NAME_LENGTH then s[..MAX_TEXTURE_NAME_LENGTH - 1] else s
  }

  /** The texture's name already mentions its type, compared lower-case and without white space. */
  predicate NameIncludesType(stem: string, textureType: string) {
    Contains(Squash(stem), Squash(textureType))
  }

  /** The shortened base name of an image uri, after unifying its path delimiters. */
  function TextureStem(uri: string, delim: char): (stem: string)
    ensures |stem| <= MAX_TEXTURE_NAME_LENGTH
  {
    Shorten(BaseFileName(UnifyDelimiters(uri, delim), delim))
  }

  /**
   * The three shapes of `getImageNameFromUri`: `"short: stem (type)"`, or
   * `"short (type)"` for an empty stem, or `"short: stem"` when the stem
   * already names the type.
   */
  function ImageName(shortName: string, stem: string, textureType: string): string {
    if !NameIncludesType(stem, textureType) then
      if |stem| > 0 then shortName + ": " + stem + " (" + textureType + ")"
      else shortName + " (" + textureType + ")"
    else shortName + ": " + stem
  }

  /** `getImageNameFromUri`: the texture name built from the material's short name, the image uri and the texture type. */
  function ImageNameFromUri(shortName: string, uri: string, textureType: string, delim: char): string {
    ImageName(shortName, TextureStem(uri, delim), textureType)
  }

  /**
   * A texture name starts with the material's short name; when the stem
   * names the type it is `"short: stem"`, otherwise it ends with the type in
   * parentheses, and an empty stem gives `"short (type)"`.
   */
  lemma ImageNameShape(shortName: string, stem: string, textureType: string)
    ensures var r := ImageName(shortName, stem, textureType);
      r[..|shortName|] == shortName
      && (NameIncludesType(stem, textureType) ==> r == shortName + ": " + stem)
      && (!NameIncludesType(stem, textureType) ==> r[|r| - |textureType| - 3..] == " (" + textureType + ")")
      && (stem == [] && Squash(textureType) != [] ==> r == shortName + " (" + textureType + ")")
  {
    if stem == [] && Squash(textureType) != [] {
      assert !NameIncludesType(stem, textureType);
    }
    if !NameIncludesType(stem, textureType) {
      var front := if |stem| > 0 then shortName + ": " + stem else shortName;
      assert ImageName(shortName, stem, textureType) == front + (" (" + textureType + ")");
    }
  }

  /** The type inside `x + type + y` survives squashing the whole. */
  lemma SquashedInMiddle(x: string, textureType: string, y: string)
    ensures Contains(Squash(x + textureType + y), Squash(textureType))
  {
    var t := Squash(textureType);
    assert OccursAt(t, t, 0);
    SquashAppend(x + textureType, y);
    SquashAppend(x, textureType);
    ContainsInMiddle(Squash(x), t, Squash(y), t);
  }

  /** The texture's type always shows in its name, once case and white space are ignored. */
  lemma ImageNameMentionsType(shortName: string, stem: string, textureType: string)
    ensures NameIncludesType(ImageName(shortName, stem, textureType), textureType)
  {
    if NameIncludesType(stem, textureType) {
      SquashAppend(shortName + ": ", stem);
      ContainsInMiddle(Squash(shortName + ": "), Squash(stem), [], Squash(textureType));
      assert Squash(shortName + ": ") + Squash(stem) + [] == Squash(shortName + ": " + stem);
    } else if |stem| > 0 {
      SquashedInMiddle(shortName + ": " + stem + " (", textureType, ")");
    } else {
      SquashedInMiddle(shortName + " (", textureType, ")");
    }
  }

  /** The caption `setFromGltfMetaData` appends: the material's own name, else the first scene's, else none. */
  function MaterialLabel(materials: seq<string>, index: int, scenes: seq<string>): (caption: string)
    ensures 0 <= index < |materials| && materials[index] != [] ==> caption == materials[index]
    ensures !(0 <= index < |materials| && materials[index] != []) && scenes != [] ==> caption == scenes[0]
    ensures !(0 <= index < |materials| && materials[index] != []) && scenes == [] ==> caption == []
  {
    if 0 <= index < |materials| && materials[index] != [] then materials[index]
    else if |scenes| > 0 then scenes[0]
    else []
  }

  /** `mMaterialName` and `mMaterialNameShort`. */
  datatype Names = Names(long: string, short: string)

  /** The long name: `"base (caption)"`, or the base alone without a caption. */
  function LongName(base: string, caption: string): string {
    if |caption| > 0 then base + " " + "(" + caption + ")" else base
  }

  /** The material's long and short names from the uploaded file and the model's names. */
  function MaterialNames(filename: string, delim: char, materials: seq<string>, index: int, scenes: seq<string>): Names {
    var base := BaseFileName(filename, delim);
    Names(LongName(base, MaterialLabel(materials, index, scenes)), base)
  }

  /** The caption read back from a long name: what lies between `"base ("` and the closing `")"`. */
  function CaptionOf(name: string, base: string): string {
    if |name| >= |base| + 3 then name[|base| + 2..|name| - 1] else []
  }

  /** The long name is the base alone exactly when there is no caption, and otherwise `"base (caption)"`, from which the caption reads back. */
  lemma LongNameReadsBack(base: string, caption: string)
    ensures var name := LongName(base, caption);
      (caption == [] <==> name == base)
      && (caption != [] ==>
            name[..|base|] == base && name[|base|..|base| + 2] == " (" && name[|name| - 1] == ')'
            && CaptionOf(name, base) == caption)
  {
    var name := LongName(base, caption);
    if caption != [] {
      assert name == base + " (" + caption + ")";
      assert name[|base| + 2..|name| - 1] == caption;
    }
  }

  /** The short name is always the file's base name, and the long name carries the caption the rule picks. */
  lemma MaterialNamesShape(filename: string, delim: char, materials: seq<string>, index: int, scenes: seq<string>)
    ensures var names := MaterialNames(filename, delim, materials, index, scenes);
      var base := BaseFileName(filename, delim);
      names.short == base
      && CaptionOf(names.long, base) == MaterialLabel(materials, index, scenes)
      && (names.long == base <==> MaterialLabel(materials, index, scenes) == [])
  {
    var base := BaseFileName(filename, delim);
    var caption := MaterialLabel(materials, index, scenes);
    LongNameReadsBack(base, caption);
    if caption == [] {
      assert CaptionOf(base, base) == [];
    }
  }

  /**
   * One composite texture's name after `setFromGltfMetaData`: left as it
   * was when the model has no material at the index; otherwise the type's
   * default name, unless the material's texture index picks one of the
   * model's images, whose uri then names it.
   */
  function TextureName(current: string, materialListed: bool, shortName: string, imageUris: seq<string>,
                       index: int, defaultName: string, delim: char): string {
    if !materialListed then current
    else if index > -1 && index < |imageUris| then ImageNameFromUri(shortName, imageUris[index], defaultName, delim)
    else defaultName
  }

  /**
   * Once the material is listed, a texture's name always shows its type
   * (ignoring case and white space), and it is the default name when no
   * image is picked.
   */
  lemma TextureNameMentionsType(current: string, materialListed: bool, shortName: string, imageUris: seq<string>,
                                index: int, defaultName: string, delim: char)
    ensures var r := TextureName(current, materialListed, shortName, imageUris, index, defaultName, delim);
      (!materialListed ==> r == current)
      && (materialListed ==> NameIncludesType(r, defaultName))
      && (materialListed && !(0 <= index < |imageUris|) ==> r == defaultName)
  {
    if materialListed {
      if index > -1 && index < |imageUris| {
        ImageNameMentionsType(shortName, TextureStem(imageUris[index], delim), defaultName);
      } else {
        assert Squash(defaultName)[0..|Squash(defaultName)|] == Squash(defaultName);
        assert OccursAt(Squash(defaultName), Squash(defaultName), 0);
      }
    }
  }
}
