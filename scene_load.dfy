/** Loading a milo scene (core/pikaxe_bevy/src/plugins.rs):
    `consolidate_milo_scene_events`, which drains the three load queues in a
    fixed order, and the rules of `process_milo_scene_events` that do not
    depend on floating point — the directory a batch is read from, the
    material and texture work sets, the mesh skip and alpha rules, the
    texture-slot registration, the placement of one entity per object under
    the root and the final hand-over of the objects to `MiloState`. */
module SceneLoad {
  import opened Common
  import opened Scene

  // ---------------------------------------------------------------------
  // Consolidation

  /** An opaque `fn(&mut EntityCommands)` callback. */
  datatype Callback = Callback(id: nat)

  datatype LoadMilo = FromArkPath(path: string) | FromObjects(objects: seq<Object>)

  datatype LoadRequest = LoadRequest(load: LoadMilo, callback: Option<Callback>)

  /** The queued `LoadMiloScene`, `LoadMiloSceneWithCommands` and
      `LoadMiloObjectsWithCommands` events turned into one request list:
      plain scene loads first, then scene loads with a callback, then object
      loads with a callback, each group in arrival order. */
  function Consolidate(scenes: seq<string>, sceneCmds: seq<(string, Callback)>,
                       objectCmds: seq<(seq<Object>, Callback)>): (r: seq<LoadRequest>)
    ensures |r| == |scenes| + |sceneCmds| + |objectCmds|
    ensures forall i :: 0 <= i < |scenes| ==>
      r[i] == LoadRequest(FromArkPath(scenes[i]), None)
    ensures forall i :: 0 <= i < |sceneCmds| ==>
      r[|scenes| + i] == LoadRequest(FromArkPath(sceneCmds[i].0), Some(sceneCmds[i].1))
    ensures forall i :: 0 <= i < |objectCmds| ==>
      r[|scenes| + |sceneCmds| + i] == LoadRequest(FromObjects(objectCmds[i].0), Some(objectCmds[i].1))
  {
    seq(|scenes|, i requires 0 <= i < |scenes| => LoadRequest(FromArkPath(scenes[i]), None))
    + seq(|sceneCmds|, i requires 0 <= i < |sceneCmds| =>
        LoadRequest(FromArkPath(sceneCmds[i].0), Some(sceneCmds[i].1)))
    + seq(|objectCmds|, i requires 0 <= i < |objectCmds| =>
        LoadRequest(FromObjects(objectCmds[i].0), Some(objectCmds[i].1)))
  }

  /** Sorts requests back into the three queues by their shape. */
  function Split(r: seq<LoadRequest>): (seq<string>, seq<(string, Callback)>, seq<(seq<Object>, Callback)>) {
    if r == [] then ([], [], [])
    else
      var (a, b, c) := Split(Init(r));
      match Last(r)
      case LoadRequest(FromArkPath(p), None) => (a + [p], b, c)
      case LoadRequest(FromArkPath(p), Some(cb)) => (a, b + [(p, cb)], c)
      case LoadRequest(FromObjects(o), Some(cb)) => (a, b, c + [(o, cb)])
      case LoadRequest(FromObjects(_), None) => (a, b, c)
  }

  /** Consolidation loses nothing and reorders nothing within a queue:
      splitting its output gives the three queues back. */
  lemma {:induction false} SplitConsolidate(scenes: seq<string>, sceneCmds: seq<(string, Callback)>,
                                            objectCmds: seq<(seq<Object>, Callback)>)
    ensures Split(Consolidate(scenes, sceneCmds, objectCmds)) == (scenes, sceneCmds, objectCmds)
    decreases |scenes| + |sceneCmds| + |objectCmds|
  {
    var r := Consolidate(scenes, sceneCmds, objectCmds);
    if |objectCmds| > 0 {
      assert Init(r) == Consolidate(scenes, sceneCmds, Init(objectCmds));
      SplitConsolidate(scenes, sceneCmds, Init(objectCmds));
      assert objectCmds == Init(objectCmds) + [Last(objectCmds)];
    } else if |sceneCmds| > 0 {
      assert Init(r) == Consolidate(scenes, Init(sceneCmds), objectCmds);
      SplitConsolidate(scenes, Init(sceneCmds), objectCmds);
      assert sceneCmds == Init(sceneCmds) + [Last(sceneCmds)];
    } else if |scenes| > 0 {
      assert Init(r) == Consolidate(Init(scenes), sceneCmds, objectCmds);
      SplitConsolidate(Init(scenes), sceneCmds, objectCmds);
      assert scenes == Init(scenes) + [Last(scenes)];
    }
  }

  /** The output is grouped: no request without a callback follows one
      with a callback, and no scene load follows an object load. */
  lemma ConsolidateGrouped(scenes: seq<string>, sceneCmds: seq<(string, Callback)>,
                           objectCmds: seq<(seq<Object>, Callback)>, i: nat, j: nat)
    requires i < j < |scenes| + |sceneCmds| + |objectCmds|
    ensures Consolidate(scenes, sceneCmds, objectCmds)[j].callback.None? ==>
      Consolidate(scenes, sceneCmds, objectCmds)[i].callback.None?
    ensures Consolidate(scenes, sceneCmds, objectCmds)[i].load.FromObjects? ==>
      Consolidate(scenes, sceneCmds, objectCmds)[j].load.FromObjects?
  {
    var r := Consolidate(scenes, sceneCmds, objectCmds);
    if j >= |scenes| + |sceneCmds| {
      assert r[j] == LoadRequest(FromObjects(objectCmds[j - |scenes| - |sceneCmds|].0),
                                 Some(objectCmds[j - |scenes| - |sceneCmds|].1));
    } else if j >= |scenes| {
      assert r[j] == LoadRequest(FromArkPath(sceneCmds[j - |scenes|].0), Some(sceneCmds[j - |scenes|].1));
      assert r[i].load.FromArkPath?;
    } else {
      assert r[i] == LoadRequest(FromArkPath(scenes[i]), None);
    }
  }

  /** The three event queues. */
  class MiloEventQueues {
    var scenes: seq<string>
    var sceneCmds: seq<(string, Callback)>
    var objectCmds: seq<(seq<Object>, Callback)>

    constructor()
      ensures scenes == [] && sceneCmds == [] && objectCmds == []
    {
      scenes := [];
      sceneCmds := [];
      objectCmds := [];
    }

    /** `consolidate_milo_scene_events`: every queue is drained. */
    method Drain() returns (r: seq<LoadRequest>)
      modifies this
      ensures r == Consolidate(old(scenes), old(sceneCmds), old(objectCmds))
      ensures scenes == [] && sceneCmds == [] && objectCmds == []
    {
      r := Consolidate(scenes, sceneCmds, objectCmds);
      scenes := [];
      sceneCmds := [];
      objectCmds := [];
    }
  }

  // ---------------------------------------------------------------------
  // The directory a batch is read from

  /** An object directory: its name, its type and its entries. */
  datatype Directory = Directory(name: string, dirType: string, entries: seq<Object>)

  /** A request's directory. Objects are wrapped in a directory named
      "custom" of type "Object"; an ark path is opened by `open_milo`, whose
      result is given as `openResult` and whose failure hits an `unwrap`. */
  function BatchDirectory(load: LoadMilo, openResult: Option<Directory>): (r: Option<Directory>)
    ensures load.FromObjects? ==> r == Some(Directory("custom", "Object", load.objects))
    ensures load.FromArkPath? ==> r == openResult
  {
    match load
    case FromObjects(objs) => Some(Directory("custom", "Object", objs))
    case FromArkPath(_) => openResult
  }

  /** An `UpdateSkinnedMeshes(dir name)` event is sent exactly for
      directories of type "Character". */
  function SkinEvent(dir: Directory): (r: Option<string>)
    ensures r.Some? <==> dir.dirType == "Character"
    ensures r.Some? ==> r.value == dir.name
  {
    if dir.dirType == "Character" then Some(dir.name) else None
  }

  /** Loose objects are never skinned: their directory is "custom" of type
      "Object", so no skinning event is sent for them. */
  lemma ObjectBatchesNotSkinned(objs: seq<Object>, openResult: Option<Directory>)
    ensures BatchDirectory(FromObjects(objs), openResult).Some?
    ensures SkinEvent(BatchDirectory(FromObjects(objs), openResult).value) == None
  {
    assert "Object" != "Character";
  }

  // ---------------------------------------------------------------------
  // Work sets

  datatype Kind = MeshKind | MatKind | TexKind | TransKind

  predicate IsKind(o: Object, k: Kind) {
    match k
    case MeshKind => o.Mesh?
    case MatKind => o.Mat?
    case TexKind => o.Tex?
    case TransKind => o.Trans?
  }

  /** No later entry of kind `k` has the name of `objs[i]`. */
  predicate LastNamed(objs: seq<Object>, k: Kind, i: nat)
    requires i < |objs|
  {
    forall j :: i < j < |objs| ==> !(IsKind(objs[j], k) && objs[j].name == objs[i].name)
  }

  /** The name-keyed `HashMap` of one kind of entry built by the fold over
      the directory: the names of that kind are its keys, each mapped to an
      entry of that kind with that name (the last one, by `ByNameLast`). */
  function ByName(objs: seq<Object>, k: Kind): (m: map<string, Object>)
    ensures forall n :: n in m <==> exists i :: 0 <= i < |objs| && IsKind(objs[i], k) && objs[i].name == n
    ensures forall n :: n in m ==> IsKind(m[n], k) && m[n].name == n && m[n] in objs
  {
    if objs == [] then map[]
    else
      var m := ByName(Init(objs), k);
      var o := Last(objs);
      assert objs == Init(objs) + [o];
      if IsKind(o, k) then m[o.name := o] else m
  }

  /** Last writer wins: the entry stored under a name is the last entry of
      that kind with that name. */
  lemma {:induction false} ByNameLast(objs: seq<Object>, k: Kind, i: nat)
    requires i < |objs| && IsKind(objs[i], k) && LastNamed(objs, k, i)
    ensures objs[i].name in ByName(objs, k) && ByName(objs, k)[objs[i].name] == objs[i]
  {
    if i < |objs| - 1 {
      assert LastNamed(Init(objs), k, i);
      ByNameLast(Init(objs), k, i);
    }
  }

  /** Materials to load: those named by the mesh map's meshes. Only the
      last mesh of each name is in the map, and skipped meshes are not
      excluded. */
  function MaterialsToLoad(objs: seq<Object>): (r: set<string>)
    ensures r <= ByName(objs, MatKind).Keys
  {
    var meshes := ByName(objs, MeshKind);
    set n | n in ByName(objs, MatKind) && exists k :: k in meshes && meshes[k].mat == n
  }

  /** The three texture slots of a material, in registration order. */
  function Slots(mat: Object): seq<(string, TextureType)>
    requires mat.Mat?
  {
    [(mat.diffuseTex, Diffuse), (mat.normalMap, Normal), (mat.emissiveMap, Emissive)]
  }

  /** The name a material gives in one slot. */
  function SlotName(mat: Object, t: TextureType): string
    requires mat.Mat?
  {
    match t
    case Diffuse => mat.diffuseTex
    case Normal => mat.normalMap
    case Emissive => mat.emissiveMap
  }

  /** Textures to load: named in some slot of a material to load, present
      in the texture map, and (for that last entry of the name) carrying a
      bitmap. As a set, each texture appears once however many materials
      share it. */
  function TexturesToLoad(objs: seq<Object>): (r: set<string>)
    ensures r <= ByName(objs, TexKind).Keys
    ensures forall t :: t in r ==> ByName(objs, TexKind)[t].hasBitmap
  {
    var mats := ByName(objs, MatKind);
    var texs := ByName(objs, TexKind);
    set t | t in texs && texs[t].hasBitmap
      && exists n, s :: n in MaterialsToLoad(objs) && s in {Diffuse, Normal, Emissive} && SlotName(mats[n], s) == t
  }

  /** A mesh that is the last of its name pulls in its material even when
      the mesh itself is skipped at placement; each of that material's
      slots pulls in its texture when it has a bitmap. */
  lemma WorkSetsFollowMeshes(objs: seq<Object>, i: nat, s: TextureType)
    requires i < |objs| && objs[i].Mesh? && LastNamed(objs, MeshKind, i)
    requires objs[i].mat in ByName(objs, MatKind)
    ensures objs[i].mat in MaterialsToLoad(objs)
    ensures var t := SlotName(ByName(objs, MatKind)[objs[i].mat], s);
      t in ByName(objs, TexKind) && ByName(objs, TexKind)[t].hasBitmap ==> t in TexturesToLoad(objs)
  {
    ByNameLast(objs, MeshKind, i);
    var mat := ByName(objs, MatKind)[objs[i].mat];
    assert objs[i].mat in MaterialsToLoad(objs);
    assert s in {Diffuse, Normal, Emissive};
  }

  /** Conversely, every entry stored under a name is the last entry of that
      kind with that name. */
  lemma {:induction false} ByNameFromLast(objs: seq<Object>, k: Kind, n: string) returns (i: nat)
    requires n in ByName(objs, k)
    ensures i < |objs| && objs[i] == ByName(objs, k)[n] && objs[i].name == n && IsKind(objs[i], k) && LastNamed(objs, k, i)
  {
    var o := Last(objs);
    if IsKind(o, k) && o.name == n {
      i := |objs| - 1;
    } else {
      assert ByName(objs, k)[n] == ByName(Init(objs), k)[n];
      i := ByNameFromLast(Init(objs), k, n);
      LastNamedExtend(objs, k, i);
    }
  }

  /** An entry last of its kind and name before a final entry of another
      kind or name stays the last one. */
  lemma LastNamedExtend(objs: seq<Object>, k: Kind, i: nat)
    requires i < |objs| - 1 && LastNamed(Init(objs), k, i)
    requires !(IsKind(Last(objs), k) && Last(objs).name == objs[i].name)
    ensures LastNamed(objs, k, i)
  {
    assert Init(objs)[i] == objs[i];
    forall j | i < j < |objs|
      ensures !(IsKind(objs[j], k) && objs[j].name == objs[i].name)
    {
      if j < |objs| - 1 {
        assert Init(objs)[j] == objs[j];
      }
    }
  }

  /** A material is loaded exactly when some material carries its name and
      the last mesh of some name refers to it. */
  lemma MaterialsToLoadRows(objs: seq<Object>, n: string)
    ensures n in MaterialsToLoad(objs) <==>
      (exists j :: 0 <= j < |objs| && objs[j].Mat? && objs[j].name == n)
      && (exists i :: 0 <= i < |objs| && objs[i].Mesh? && LastNamed(objs, MeshKind, i) && objs[i].mat == n)
  {
    var meshes := ByName(objs, MeshKind);
    if n in MaterialsToLoad(objs) {
      var k :| k in meshes && meshes[k].mat == n;
      var i := ByNameFromLast(objs, MeshKind, k);
    }
    if exists i :: 0 <= i < |objs| && objs[i].Mesh? && LastNamed(objs, MeshKind, i) && objs[i].mat == n {
      var i :| 0 <= i < |objs| && objs[i].Mesh? && LastNamed(objs, MeshKind, i) && objs[i].mat == n;
      ByNameLast(objs, MeshKind, i);
    }
  }

  /** The last texture named `t` has a bitmap. */
  predicate BitmapRow(objs: seq<Object>, t: string) {
    exists j :: 0 <= j < |objs| && objs[j].Tex? && LastNamed(objs, TexKind, j) && objs[j].name == t && objs[j].hasBitmap
  }

  /** Some slot of the last material of some name, referred to by the last
      mesh of some name, names `t`. */
  predicate SlotRow(objs: seq<Object>, t: string) {
    exists i, m, s :: 0 <= i < |objs| && 0 <= m < |objs| && objs[i].Mesh? && LastNamed(objs, MeshKind, i)
      && objs[m].Mat? && LastNamed(objs, MatKind, m) && objs[m].name == objs[i].mat && SlotName(objs[m], s) == t
  }

  lemma TexturesToLoadHasRows(objs: seq<Object>, t: string)
    requires t in TexturesToLoad(objs)
    ensures BitmapRow(objs, t) && SlotRow(objs, t)
  {
    var mats := ByName(objs, MatKind);
    var j := ByNameFromLast(objs, TexKind, t);
    var n, s :| n in MaterialsToLoad(objs) && s in {Diffuse, Normal, Emissive} && SlotName(mats[n], s) == t;
    MaterialsToLoadRows(objs, n);
    var m := ByNameFromLast(objs, MatKind, n);
    var i :| 0 <= i < |objs| && objs[i].Mesh? && LastNamed(objs, MeshKind, i) && objs[i].mat == n;
    assert objs[m].name == objs[i].mat && SlotName(objs[m], s) == t;
  }

  lemma MeshPullsMaterial(objs: seq<Object>, i: nat, m: nat)
    requires i < |objs| && objs[i].Mesh? && LastNamed(objs, MeshKind, i)
    requires m < |objs| && objs[m].Mat? && LastNamed(objs, MatKind, m) && objs[m].name == objs[i].mat
    ensures objs[i].mat in MaterialsToLoad(objs) && ByName(objs, MatKind)[objs[i].mat] == objs[m]
  {
    ByNameLast(objs, MatKind, m);
    MaterialsToLoadRows(objs, objs[i].mat);
  }

  lemma SlotPullsTexture(objs: seq<Object>, n: string, s: TextureType, j: nat)
    requires n in MaterialsToLoad(objs)
    requires j < |objs| && objs[j].Tex? && LastNamed(objs, TexKind, j) && objs[j].hasBitmap
    requires SlotName(ByName(objs, MatKind)[n], s) == objs[j].name
    ensures objs[j].name in TexturesToLoad(objs)
  {
    ByNameLast(objs, TexKind, j);
    assert s in {Diffuse, Normal, Emissive};
  }

  lemma RowsGiveTexturesToLoad(objs: seq<Object>, t: string)
    requires BitmapRow(objs, t) && SlotRow(objs, t)
    ensures t in TexturesToLoad(objs)
  {
    var j :| 0 <= j < |objs| && objs[j].Tex? && LastNamed(objs, TexKind, j) && objs[j].name == t && objs[j].hasBitmap;
    var i, m, s :| 0 <= i < |objs| && 0 <= m < |objs| && objs[i].Mesh? && LastNamed(objs, MeshKind, i)
      && objs[m].Mat? && LastNamed(objs, MatKind, m) && objs[m].name == objs[i].mat && SlotName(objs[m], s) == t;
    MeshPullsMaterial(objs, i, m);
    SlotPullsTexture(objs, objs[i].mat, s, j);
  }

  /** A texture is loaded exactly when the last texture of its name has a
      bitmap and some slot of the last material of some name, referred to
      by the last mesh of some name, names it. */
  lemma TexturesToLoadRows(objs: seq<Object>, t: string)
    ensures t in TexturesToLoad(objs) <==> BitmapRow(objs, t) && SlotRow(objs, t)
  {
    if t in TexturesToLoad(objs) {
      TexturesToLoadHasRows(objs, t);
    }
    if BitmapRow(objs, t) && SlotRow(objs, t) {
      RowsGiveTexturesToLoad(objs, t);
    }
  }

  // ---------------------------------------------------------------------
  // Mesh rules

  /** Meshes without vertices or named "shadow..." produce no entity. */
  predicate SkipsMesh(m: Object)
    requires m.Mesh?
  {
    m.vertCount == 0 || StartsWith(m.name, "shadow")
  }

  datatype AlphaMode = AlphaBlend | Opaque

  /** The non-colour settings of the `StandardMaterial` made for a mesh. */
  datatype MaterialSettings = MaterialSettings(alpha: AlphaMode, unlit: bool, doubleSided: bool)

  /** A mesh with a milo material is unlit and blends only for
      (kBlendSrcAlpha, kZModeDisable); without one it gets a lit, opaque
      default material. */
  function MeshMaterial(mat: Option<Object>): (r: MaterialSettings)
    requires mat.Some? ==> mat.value.Mat?
    ensures r.alpha == AlphaBlend <==>
      (mat.Some? && mat.value.blend == BlendSrcAlpha && mat.value.zMode == ZModeDisable)
    ensures r.unlit <==> mat.Some?
    ensures r.doubleSided
  {
    match mat
    case None => MaterialSettings(Opaque, false, true)
    case Some(m) =>
      MaterialSettings(if m.blend == BlendSrcAlpha && m.zMode == ZModeDisable then AlphaBlend else Opaque, true, true)
  }

  // ---------------------------------------------------------------------
  // Texture-slot registration

  datatype TextureType = Diffuse | Normal | Emissive

  /** An opaque material asset handle. */
  datatype MatHandle = MatHandle(id: nat)

  /** The (handle, slot type) pairs a material adds to texture `t`: one per
      slot naming `t`, in slot order. */
  function Registered(slots: seq<(string, TextureType)>, t: string, h: MatHandle): (r: seq<(MatHandle, TextureType)>)
    ensures |r| <= |slots|
    ensures forall x :: x in r ==> x.0 == h
  {
    if slots == [] then []
    else Registered(Init(slots), t, h) + (if Last(slots).0 == t then [(h, Last(slots).1)] else [])
  }

  /** A slot type is registered for texture `t` exactly when the material
      names `t` in that slot. */
  lemma RegisteredIffSlot(mat: Object, t: string, h: MatHandle, s: TextureType)
    requires mat.Mat?
    ensures (h, s) in Registered(Slots(mat), t, h) <==> SlotName(mat, s) == t
  {
    var sl := Slots(mat);
    assert Init(sl) == sl[..2] && Init(sl[..2]) == sl[..1] && Init(sl[..1]) == [];
    var one := if mat.diffuseTex == t then [(h, Diffuse)] else [];
    var two := if mat.normalMap == t then [(h, Normal)] else [];
    var three := if mat.emissiveMap == t then [(h, Emissive)] else [];
    assert Registered(sl[..1], t, h) == one;
    assert Registered(sl[..2], t, h) == one + two;
    assert Registered(sl, t, h) == one + two + three;
  }

  /** Every pending texture's list extended by what the material registers for it. */
  function RegisterAll(pending: map<string, seq<(MatHandle, TextureType)>>, mat: Option<Object>, h: MatHandle): (r: map<string, seq<(MatHandle, TextureType)>>)
    requires mat.Some? ==> mat.value.Mat?
    ensures r.Keys == pending.Keys
  {
    map t | t in pending :: pending[t] + (if mat.None? then [] else Registered(Slots(mat.value), t, h))
  }

  /** The loop over the three slots: a slot whose texture is pending gets
      (handle, slot type) appended; a texture not pending, or no material,
      changes nothing. */
  method RegisterTextureSlots(pending: map<string, seq<(MatHandle, TextureType)>>, mat: Option<Object>, h: MatHandle)
    returns (r: map<string, seq<(MatHandle, TextureType)>>)
    requires mat.Some? ==> mat.value.Mat?
    ensures r == RegisterAll(pending, mat, h)
  {
    if mat.None? {
      assert forall t :: t in pending ==> pending[t] + [] == pending[t];
      return pending;
    }
    r := AppendRegistrations(pending, Slots(mat.value), h);
    ghost var spec := RegisterAll(pending, mat, h);
    assert forall t :: t in r ==> r[t] == spec[t];
  }

  /** One more slot adds at most its own pair. */
  lemma RegisteredStep(slots: seq<(string, TextureType)>, i: nat, t: string, h: MatHandle)
    requires i < |slots|
    ensures Registered(slots[..i + 1], t, h)
      == Registered(slots[..i], t, h) + (if slots[i].0 == t then [(h, slots[i].1)] else [])
  {
    assert Init(slots[..i + 1]) == slots[..i] && Last(slots[..i + 1]) == slots[i];
  }

  method AppendRegistrations(pending: map<string, seq<(MatHandle, TextureType)>>, slots: seq<(string, TextureType)>, h: MatHandle)
    returns (r: map<string, seq<(MatHandle, TextureType)>>)
    ensures r.Keys == pending.Keys
    ensures forall t :: t in r ==> r[t] == pending[t] + Registered(slots, t, h)
  {
    r := pending;
    var i := 0;
    while i < |slots|
      invariant 0 <= i <= |slots|
      invariant r.Keys == pending.Keys
      invariant forall t :: t in r ==> r[t] == pending[t] + Registered(slots[..i], t, h)
    {
      var (name, typ) := slots[i];
      ghost var prev := r;
      if name in r {
        r := r[name := r[name] + [(h, typ)]];
      }
      forall t | t in r
        ensures r[t] == pending[t] + Registered(slots[..i + 1], t, h)
      {
        RegisteredStep(slots, i, t, h);
        assert prev[t] == pending[t] + Registered(slots[..i], t, h);
      }
      i := i + 1;
    }
    assert slots[..i] == slots;
  }

  // ---------------------------------------------------------------------
  // Placement

  /** One spawned entity: its `MiloObject` component, its parent and the
      callback applied to it. */
  datatype Spawned = Spawned(entity: Entity, component: MiloObject, parent: Entity, callback: Option<Callback>)

  /** The kinds that spawn an entity; CharHair stops at a `continue`, and
      materials, textures and the rest spawn nothing here. */
  predicate Spawns(o: Object) {
    o.BandPlacer? || o.Cam? || o.CharClipSamples? || o.Group? || o.Trans? || (o.Mesh? && !SkipsMesh(o))
  }

  /** How many of `objs` spawn. */
  function SpawnCount(objs: seq<Object>): (n: nat)
    ensures n <= |objs|
  {
    if objs == [] then 0 else SpawnCount(Init(objs)) + (if Spawns(Last(objs)) then 1 else 0)
  }

  /** What the placement loop has issued after a prefix of the directory:
      the spawned entities, the name -> entity map of Trans objects and the
      texture work list with slot registrations. */
  datatype Placement = Placement(spawned: seq<Spawned>, transMap: map<string, Entity>,
                                 pending: map<string, seq<(MatHandle, TextureType)>>)

  /** The placement loop as a left fold. Entities are numbered from
      `first` in spawn order, each mesh's material handle carries its
      entity's number, and `mats` is the directory's material map. */
  function Place(objs: seq<Object>, keys: seq<nat>, dir: string, root: Entity, first: Entity,
                 callback: Option<Callback>, mats: map<string, Object>,
                 pending: map<string, seq<(MatHandle, TextureType)>>): (r: Placement)
    requires |keys| == |objs|
    requires forall n :: n in mats ==> mats[n].Mat?
    ensures |r.spawned| == SpawnCount(objs)
    ensures forall j :: 0 <= j < |r.spawned| ==>
      r.spawned[j].entity == first + j && r.spawned[j].parent == root
      && r.spawned[j].component.dir == dir && r.spawned[j].callback == callback
    ensures r.pending.Keys == pending.Keys
  {
    if objs == [] then Placement([], map[], pending)
    else PlaceOne(Place(Init(objs), Init(keys), dir, root, first, callback, mats, pending),
                  Last(objs), Last(keys), dir, root, first, callback, mats)
  }

  /** One iteration of the placement loop, on entry `o` stored under `key`. */
  function PlaceOne(p: Placement, o: Object, key: nat, dir: string, root: Entity, first: Entity,
                    callback: Option<Callback>, mats: map<string, Object>): Placement
    requires forall n :: n in mats ==> mats[n].Mat?
  {
    if !Spawns(o) then p
    else
      var e := first + |p.spawned|;
      var s := Spawned(e, MiloObject(key, o.name, dir), root, callback);
      Placement(p.spawned + [s],
                if o.Trans? then p.transMap[o.name := e] else p.transMap,
                if o.Mesh? then RegisterAll(p.pending, if o.mat in mats then Some(mats[o.mat]) else None, MatHandle(e))
                else p.pending)
  }

  /** The fold over one more entry is one more loop iteration. */
  lemma PlaceStep(objs: seq<Object>, keys: seq<nat>, dir: string, root: Entity, first: Entity,
                  callback: Option<Callback>, mats: map<string, Object>,
                  pending: map<string, seq<(MatHandle, TextureType)>>, i: nat)
    requires |keys| == |objs| && i < |objs|
    requires forall n :: n in mats ==> mats[n].Mat?
    ensures Place(objs[..i + 1], keys[..i + 1], dir, root, first, callback, mats, pending)
      == PlaceOne(Place(objs[..i], keys[..i], dir, root, first, callback, mats, pending),
                  objs[i], keys[i], dir, root, first, callback, mats)
  {
    assert Init(objs[..i + 1]) == objs[..i] && Init(keys[..i + 1]) == keys[..i];
    assert Last(objs[..i + 1]) == objs[i] && Last(keys[..i + 1]) == keys[i];
  }

  /** Row `i` of the directory, when it spawns, is the entity at position
      `SpawnCount(objs[..i])` and carries the row's key and name. */
  lemma {:induction false} PlacedRow(objs: seq<Object>, keys: seq<nat>, dir: string, root: Entity, first: Entity,
                                     callback: Option<Callback>, mats: map<string, Object>,
                                     pending: map<string, seq<(MatHandle, TextureType)>>, i: nat)
    requires |keys| == |objs| && i < |objs| && Spawns(objs[i])
    requires forall n :: n in mats ==> mats[n].Mat?
    ensures SpawnCount(objs[..i]) < SpawnCount(objs)
    ensures Place(objs, keys, dir, root, first, callback, mats, pending).spawned[SpawnCount(objs[..i])]
      == Spawned(first + SpawnCount(objs[..i]), MiloObject(keys[i], objs[i].name, dir), root, callback)
    decreases |objs|
  {
    if i == |objs| - 1 {
      assert objs[..i] == Init(objs);
    } else {
      assert Init(objs)[..i] == objs[..i];
      PlacedRow(Init(objs), Init(keys), dir, root, first, callback, mats, pending, i);
    }
  }

  /** Every spawned entity comes from a spawning row and carries that
      row's key and name. */
  lemma {:induction false} SpawnedFromRows(objs: seq<Object>, keys: seq<nat>, dir: string, root: Entity, first: Entity,
                                           callback: Option<Callback>, mats: map<string, Object>,
                                           pending: map<string, seq<(MatHandle, TextureType)>>, j: nat)
    requires |keys| == |objs|
    requires forall n :: n in mats ==> mats[n].Mat?
    requires j < |Place(objs, keys, dir, root, first, callback, mats, pending).spawned|
    ensures exists i :: (0 <= i < |objs| && Spawns(objs[i])
      && Place(objs, keys, dir, root, first, callback, mats, pending).spawned[j].component
         == MiloObject(keys[i], objs[i].name, dir))
    decreases |objs|
  {
    var p := Place(Init(objs), Init(keys), dir, root, first, callback, mats, pending);
    var r := Place(objs, keys, dir, root, first, callback, mats, pending);
    if j < |p.spawned| {
      SpawnedFromRows(Init(objs), Init(keys), dir, root, first, callback, mats, pending, j);
      var i :| 0 <= i < |Init(objs)| && Spawns(Init(objs)[i]) && p.spawned[j].component == MiloObject(Init(keys)[i], Init(objs)[i].name, dir);
      assert r.spawned[j] == p.spawned[j];
      assert Init(objs)[i] == objs[i] && Init(keys)[i] == keys[i];
    } else {
      assert r.spawned[j].component == MiloObject(Last(keys), Last(objs).name, dir);
      assert Spawns(objs[|objs| - 1]);
    }
  }

  /** A row that does not spawn (a skipped mesh, a material, CharHair, ...)
      has no entity: with distinct keys, no spawned component has its key. */
  lemma UnspawnedRowAbsent(objs: seq<Object>, keys: seq<nat>, dir: string, root: Entity, first: Entity,
                           callback: Option<Callback>, mats: map<string, Object>,
                           pending: map<string, seq<(MatHandle, TextureType)>>, i: nat)
    requires |keys| == |objs| && i < |objs| && !Spawns(objs[i])
    requires forall a, b :: 0 <= a < b < |keys| ==> keys[a] != keys[b]
    requires forall n :: n in mats ==> mats[n].Mat?
    ensures forall j :: 0 <= j < |Place(objs, keys, dir, root, first, callback, mats, pending).spawned| ==>
      Place(objs, keys, dir, root, first, callback, mats, pending).spawned[j].component.id != keys[i]
  {
    var r := Place(objs, keys, dir, root, first, callback, mats, pending);
    forall j | 0 <= j < |r.spawned|
      ensures r.spawned[j].component.id != keys[i]
    {
      SpawnedFromRows(objs, keys, dir, root, first, callback, mats, pending, j);
    }
  }

  /** A mesh without vertices or named "shadow..." gets no entity. */
  lemma SkippedMeshNotPlaced(objs: seq<Object>, keys: seq<nat>, dir: string, root: Entity, first: Entity,
                             callback: Option<Callback>, mats: map<string, Object>,
                             pending: map<string, seq<(MatHandle, TextureType)>>, i: nat)
    requires |keys| == |objs| && i < |objs| && objs[i].Mesh?
    requires objs[i].vertCount == 0 || StartsWith(objs[i].name, "shadow")
    requires forall a, b :: 0 <= a < b < |keys| ==> keys[a] != keys[b]
    requires forall n :: n in mats ==> mats[n].Mat?
    ensures forall j :: 0 <= j < |Place(objs, keys, dir, root, first, callback, mats, pending).spawned| ==>
      Place(objs, keys, dir, root, first, callback, mats, pending).spawned[j].component.id != keys[i]
  {
    UnspawnedRowAbsent(objs, keys, dir, root, first, callback, mats, pending, i);
  }

  /** `trans_map.insert` runs in row order, so a name in the trans map is
      mapped to the entity numbered for the last Trans row of that name. */
  lemma {:induction false} TransMapLast(objs: seq<Object>, keys: seq<nat>, dir: string, root: Entity, first: Entity,
                                        callback: Option<Callback>, mats: map<string, Object>,
                                        pending: map<string, seq<(MatHandle, TextureType)>>, n: string) returns (i: nat)
    requires |keys| == |objs|
    requires forall m :: m in mats ==> mats[m].Mat?
    requires n in Place(objs, keys, dir, root, first, callback, mats, pending).transMap
    ensures i < |objs| && objs[i].Trans? && objs[i].name == n && LastNamed(objs, TransKind, i)
    ensures Place(objs, keys, dir, root, first, callback, mats, pending).transMap[n] == first + SpawnCount(objs[..i])
    decreases |objs|
  {
    var p := Place(Init(objs), Init(keys), dir, root, first, callback, mats, pending);
    var o := Last(objs);
    if o.Trans? && o.name == n {
      i := |objs| - 1;
      assert objs[..i] == Init(objs);
    } else {
      assert n in p.transMap;
      i := TransMapLast(Init(objs), Init(keys), dir, root, first, callback, mats, pending, n);
      assert Init(objs)[..i] == objs[..i];
      LastNamedExtend(objs, TransKind, i);
    }
  }

  /** The trans map names exactly the Trans objects. A name is mapped to
      the entity spawned for the last Trans row of that name, carrying that
      row's key. */
  lemma TransMapSpawned(objs: seq<Object>, keys: seq<nat>, dir: string, root: Entity, first: Entity,
                        callback: Option<Callback>, mats: map<string, Object>,
                        pending: map<string, seq<(MatHandle, TextureType)>>, n: string)
    requires |keys| == |objs|
    requires forall m :: m in mats ==> mats[m].Mat?
    ensures var r := Place(objs, keys, dir, root, first, callback, mats, pending);
      (n in r.transMap <==> exists i :: 0 <= i < |objs| && objs[i].Trans? && objs[i].name == n)
      && (n in r.transMap ==>
            exists i :: 0 <= i < |objs| && objs[i].Trans? && objs[i].name == n && LastNamed(objs, TransKind, i)
              && SpawnCount(objs[..i]) < |r.spawned|
              && r.spawned[SpawnCount(objs[..i])] == Spawned(r.transMap[n], MiloObject(keys[i], n, dir), root, callback))
  {
    TransMapKeys(objs, keys, dir, root, first, callback, mats, pending, n);
    var r := Place(objs, keys, dir, root, first, callback, mats, pending);
    if n in r.transMap {
      var i := TransMapLast(objs, keys, dir, root, first, callback, mats, pending, n);
      PlacedRow(objs, keys, dir, root, first, callback, mats, pending, i);
    }
  }

  /** The trans map's names are exactly those of the Trans objects. */
  lemma {:induction false} TransMapKeys(objs: seq<Object>, keys: seq<nat>, dir: string, root: Entity, first: Entity,
                                        callback: Option<Callback>, mats: map<string, Object>,
                                        pending: map<string, seq<(MatHandle, TextureType)>>, n: string)
    requires |keys| == |objs|
    requires forall m :: m in mats ==> mats[m].Mat?
    ensures n in Place(objs, keys, dir, root, first, callback, mats, pending).transMap
      <==> exists i :: 0 <= i < |objs| && objs[i].Trans? && objs[i].name == n
    decreases |objs|
  {
    if objs != [] {
      TransMapKeys(Init(objs), Init(keys), dir, root, first, callback, mats, pending, n);
      assert forall i :: 0 <= i < |objs| - 1 ==> Init(objs)[i] == objs[i];
    }
  }

  /** The body of the placement loop for entry `o` stored under `key`:
      spawn it (unless its kind spawns nothing), register a mesh's texture
      slots and record a Trans in the trans map. */
  method PlaceEntry(spawned0: seq<Spawned>, transMap0: map<string, Entity>,
                    texturesToLoad0: map<string, seq<(MatHandle, TextureType)>>,
                    o: Object, key: nat, dir: string, root: Entity, first: Entity,
                    callback: Option<Callback>, mats: map<string, Object>)
    returns (spawned: seq<Spawned>, transMap: map<string, Entity>,
             texturesToLoad: map<string, seq<(MatHandle, TextureType)>>)
    requires forall n :: n in mats ==> mats[n].Mat?
    ensures Placement(spawned, transMap, texturesToLoad)
      == PlaceOne(Placement(spawned0, transMap0, texturesToLoad0), o, key, dir, root, first, callback, mats)
  {
    spawned, transMap, texturesToLoad := spawned0, transMap0, texturesToLoad0;
    if Spawns(o) {
      var e := first + |spawned|;
      if o.Mesh? {
        texturesToLoad := RegisterTextureSlots(texturesToLoad, if o.mat in mats then Some(mats[o.mat]) else None, MatHandle(e));
      }
      spawned := spawned + [Spawned(e, MiloObject(key, o.name, dir), root, callback)];
      if o.Trans? {
        transMap := transMap[o.name := e];
      }
    }
  }

  /** The placement loop over the directory's entries. */
  method PlaceObjects(objs: seq<Object>, keys: seq<nat>, dir: string, root: Entity, first: Entity,
                      callback: Option<Callback>, mats: map<string, Object>,
                      pending: map<string, seq<(MatHandle, TextureType)>>)
    returns (spawned: seq<Spawned>, transMap: map<string, Entity>,
             texturesToLoad: map<string, seq<(MatHandle, TextureType)>>)
    requires |keys| == |objs|
    requires forall n :: n in mats ==> mats[n].Mat?
    ensures Placement(spawned, transMap, texturesToLoad) == Place(objs, keys, dir, root, first, callback, mats, pending)
  {
    spawned, transMap, texturesToLoad := [], map[], pending;
    var i := 0;
    while i < |objs|
      invariant 0 <= i <= |objs|
      invariant Placement(spawned, transMap, texturesToLoad)
        == Place(objs[..i], keys[..i], dir, root, first, callback, mats, pending)
    {
      PlaceStep(objs, keys, dir, root, first, callback, mats, pending, i);
      spawned, transMap, texturesToLoad := PlaceEntry(spawned, transMap, texturesToLoad, objs[i], keys[i], dir, root, first, callback, mats);
      i := i + 1;
    }
    assert objs[..i] == objs && keys[..i] == keys;
  }

  // ---------------------------------------------------------------------
  // Handing the objects over

  /** The `objects` store of `MiloState`, keyed by object key. */
  class ObjectStore {
    var objects: map<nat, Object>

    constructor()
      ensures objects == map[]
    {
      objects := map[];
    }

    /** The directory's entries drained into the store under their keys. */
    method StoreObjects(objs: seq<Object>, keys: seq<nat>)
      requires |keys| == |objs|
      modifies this
      ensures objects == old(objects) + LastWins(Zip(keys, objs))
    {
      var i := 0;
      while i < |objs|
        invariant 0 <= i <= |objs|
        invariant objects == old(objects) + LastWins(Zip(keys[..i], objs[..i]))
      {
        assert Zip(keys[..i + 1], objs[..i + 1]) == Zip(keys[..i], objs[..i]) + [(keys[i], objs[i])];
        LastWinsSnoc(Zip(keys[..i], objs[..i]), (keys[i], objs[i]));
        UnionUpdate(old(objects), LastWins(Zip(keys[..i], objs[..i])), keys[i], objs[i]);
        objects := objects[keys[i] := objs[i]];
        i := i + 1;
      }
      assert keys[..i] == keys && objs[..i] == objs;
    }
  }

  lemma UnionUpdate<K, V>(a: map<K, V>, b: map<K, V>, k: K, v: V)
    ensures (a + b)[k := v] == a + b[k := v]
  {
  }

  function Zip<A, B>(as_: seq<A>, bs: seq<B>): (r: seq<(A, B)>)
    requires |as_| == |bs|
    ensures |r| == |as_| && forall i :: 0 <= i < |r| ==> r[i] == (as_[i], bs[i])
  {
    seq(|as_|, i requires 0 <= i < |as_| => (as_[i], bs[i]))
  }

  /** With distinct keys, every entry is stored under its own key. */
  lemma StoredUnderKey(old_: map<nat, Object>, objs: seq<Object>, keys: seq<nat>, i: nat)
    requires |keys| == |objs| && i < |objs|
    requires forall a, b :: 0 <= a < b < |keys| ==> keys[a] != keys[b]
    ensures keys[i] in old_ + LastWins(Zip(keys, objs))
    ensures (old_ + LastWins(Zip(keys, objs)))[keys[i]] == objs[i]
  {
    LastWinsUnique(Zip(keys, objs), i);
  }
}
