# pikaxe-tools: the rules inside the Bevy glue

pikaxe-tools loads Harmonix game assets (arks, milo scenes, textures)
into the Bevy engine and provides two apps: a scene previewer and a
character creator. Most of the code is engine plumbing. This project
models the small, self-contained rules inside that plumbing, and proves
what they guarantee. Entities, asset handles, callbacks and matrices are
opaque values.

- `Common` (`common.dfy`) holds shared helpers:
  - `Option`, and entities as naturals;
  - prefix and substring tests, first and last index search;
  - `LastWins`, which models filling a `HashMap` in order, so a later key
    overwrites an earlier one.
- `Scene` (`scene.dfy`): the milo object kinds the loader reads and the
  `MiloObject` component.
- `MatrixMap` (`matrix.dfy`): `map_matrix` and `map_matrix3`, the field
  reordering into Bevy's column-major `Mat4`, over any element type.
- `Texture` (`texture.dfy`) covers decoding a texture:
  - the in-place byte-pair swap of Xbox 360 data;
  - the encoding-to-format choice;
  - the top-mip slice;
  - `image_new_fill`, which tiles a pixel over the image buffer.
- `SceneLoad` (`scene_load.dfy`) covers loading a scene:
  - the three load queues drained into one request list;
  - the directory a request reads;
  - the "Character" skin event;
  - the material and texture work sets;
  - the mesh skip and alpha rules;
  - texture-slot registration;
  - the placement loop that spawns one entity per object;
  - the hand-over of the objects to `MiloState.objects`.
- `Parents` (`parents.dfy`): `update_milo_object_parents`. It builds a
  name → entity map and a name → parent-name map, then issues one
  `ChildOf` edit per placed object without `ParentOverride`.
- `Skin` (`skin.dfy`) covers skinning:
  - `compute_global_mat`;
  - the per-directory bone index and per-mesh joint list of
    `update_skinned_meshes`;
  - the all-or-nothing twist-bone rule of `update_skinned_meshes_ik`.
- `ArkPath` (`ark_path.dfy`) finds a milo inside an ark:
  - `get_path_with_gen_folder`;
  - `get_entry_from_path`;
  - the chain of fallible stages in `MiloState::open_milo`.
- `SortedNames` (`sorted_names.dfy`) is the character creator's name list:
  - `EntitiesSortedByName`, a class with a `sorted` flag whose invariant
    is that the flag implies the entries are sorted;
  - `display_name_entities_added`;
  - the combo boxes' selected text.
- `Preview` (`preview.dfy`) covers the preview app:
  - the file extension and loader dispatch of `open_file`, and the
    `AppState` fields it changes;
  - the fly-camera rule;
  - `detect_meshes`;
  - `window_resized`;
  - `window_closed`.

Operations that change state in place are methods:
- the byte swap, on an `array`;
- the queue drain, the object store and the name list, as classes;
- `AppState.OpenFile` and `AppSettings.WindowResized`.

The byte swap, the drain, the store and the name list are proved equal
to a specification function of the old state, and the properties are
proved about that function; `AppState.OpenFile` and
`AppSettings.WindowResized` state each field's new value directly. Loops
that only accumulate are methods proved equal to a recursive function:
the parent edits, the placement loop, slot registration, the fill and
the mesh totals. The camera loop is proved equal, camera by camera, to
the one-camera update `UpdatedCam`.

Foreign calls are parameters of the model; their outcomes are given as
inputs. These are the ark reader, the milo decoder, `unpack_rgba`,
`guess_system_info` and `open_and_unpack_milo`. The Bevy `Commands` a
system issues become a returned list of edits or spawned records, and a
`log::warn!` becomes a returned list.

## Model

| member | source | states |
|---|---|---|
| Common.IndexOf | apps/preview_ui/src/main.rs:359-362 | `find`: None iff the element is absent; otherwise an index holding it with no earlier occurrence |
| Common.LastIndexOf | core/pikaxe_bevy/src/resources.rs:53 | `rfind`: None iff absent; otherwise an index holding it with no later occurrence |
| Common.LastWins | core/pikaxe_bevy/src/plugins.rs:1091-1103 | A map filled from pairs in order has exactly the keys of the pairs, and each key maps to the value of its last pair |
| Common.LastWinsSnoc | core/pikaxe_bevy/src/plugins.rs:957-959 | Inserting one more pair is a map update of the previous map |
| Common.LastWinsUnique | core/pikaxe_bevy/src/plugins.rs:1112-1113 | A key carried by a single pair maps to that pair's value |
| Scene.KindParent | core/pikaxe_bevy/src/plugins.rs:1031-1040 | Only BandPlacer, Cam, Mesh, Group and Trans have a kind-specific parent field, and that field is returned |
| MatrixMap.MapMatrix | core/pikaxe_bevy/src/plugins.rs:1328-1347 | The result has 16 values; column c, row r of the Mat4 is the milo field m(c+1)(r+1) |
| MatrixMap.MapMatrixRoundTrip | core/pikaxe_bevy/src/plugins.rs:1328-1347 | `map_matrix` is a bijection: unmapping recovers the milo matrix, and mapping an unmapped Mat4 recovers it |
| MatrixMap.MapMatrix3 | core/pikaxe_bevy/src/plugins.rs:1349-1368 | The 3x3 block is copied column-major, the fourth row and column are zero, and the corner is one |
| MatrixMap.MapMatrix3AsPadded | core/pikaxe_bevy/src/plugins.rs:1349-1368 | `map_matrix3` equals `map_matrix` of the 3x3 matrix padded with a zero border and a one in the corner |
| Texture.SwappedPairs | core/pikaxe_bevy/src/plugins.rs:329-334 | Swapping byte pairs keeps the length |
| Texture.SwappedAt | core/pikaxe_bevy/src/plugins.rs:329-334 | After the swap, each even position holds its odd neighbour and vice versa; a trailing odd byte stays |
| Texture.SwapTwice | core/pikaxe_bevy/src/plugins.rs:329-334 | Swapping twice gives back the original data |
| Texture.SwapBytePairs | core/pikaxe_bevy/src/plugins.rs:327-335 | The in-place loop leaves the array equal to the swapped sequence; it completes iff the length is even (an odd last chunk panics on `ab[1]`) |
| Texture.CompressedFormat | core/pikaxe_bevy/src/plugins.rs:337-341 | Encoding 24 gives BC3, 32 gives BC5, and anything else gives BC1; never RGBA8 |
| Texture.Decode | core/pikaxe_bevy/src/plugins.rs:323-351 | Fails iff the data is compressed Xbox 360 data of odd length, or is uncompressed and fails to unpack. Compressed data keeps its length, bpp and chosen format; unpacked data is RGBA8 with 32 bpp |
| Texture.DecodeRestoresRaw | core/pikaxe_bevy/src/plugins.rs:324-335 | Xbox 360 output swapped again is the raw data; PS3 output is the raw data |
| Texture.Resized | core/pikaxe_bevy/src/plugins.rs:1401 | `Vec::resize(n, 0)`: the result has n bytes; bytes below the old length are kept, and the rest are zero |
| Texture.Blank | core/pikaxe_bevy/src/plugins.rs:1398-1401 | The buffer the fill starts from: the default image (one white RGBA pixel) resized to n bytes, so its first four bytes are 255 and the rest are zero |
| Texture.Fill | core/pikaxe_bevy/src/plugins.rs:1415-1417 | The filled buffer keeps the buffer's length |
| Texture.FillAt | core/pikaxe_bevy/src/plugins.rs:1415-1417 | Each byte of a whole chunk is the pixel byte at offset k mod the pixel size; the bytes of a partial last chunk keep their old value (255 in the first four bytes, zero elsewhere) |
| Texture.FillWhole | core/pikaxe_bevy/src/plugins.rs:1415-1417 | Filling a buffer of exactly one pixel's size gives the pixel, whatever the buffer held |
| Texture.CopyChunk | core/pikaxe_bevy/src/plugins.rs:1416 | `copy_from_slice` writes the pixel into its chunk and changes no other byte |
| Texture.ImageNewFill | core/pikaxe_bevy/src/plugins.rs:1392-1419 | An empty pixel panics (`chunks_exact_mut(0)`); otherwise the chunk loop over the resized default image produces exactly the filled buffer |
| Texture.ImageData | core/pikaxe_bevy/src/plugins.rs:353-367 | Defined iff the decoded data covers `tex_size` (and the RGBA slice is non-empty). Compressed data becomes the top-mip slice; RGBA data becomes a width·height·4 buffer |
| Texture.RgbaImageIsTopLevel | core/pikaxe_bevy/src/plugins.rs:345-367 | For an unpacked RGBA texture with pixels, the image holds exactly the first width·height·4 decoded bytes |
| SceneLoad.Consolidate | core/pikaxe_bevy/src/plugins.rs:197-214 | Plain scene loads come first with no callback, then scene loads with their callbacks, then object loads with their callbacks; each group keeps its order and nothing is dropped |
| SceneLoad.SplitConsolidate | core/pikaxe_bevy/src/plugins.rs:202-213 | The three queues can be recovered from the consolidated list: no event is lost, duplicated or moved across groups |
| SceneLoad.ConsolidateGrouped | core/pikaxe_bevy/src/plugins.rs:202-213 | A callback-less request never follows one with a callback, and object loads never precede a scene load |
| SceneLoad.MiloEventQueues.Drain | core/pikaxe_bevy/src/plugins.rs:202-213 | Draining returns the consolidated list and empties all three queues |
| SceneLoad.BatchDirectory | core/pikaxe_bevy/src/plugins.rs:243-259 | An object batch is read as a directory named "custom" of type "Object"; an ark path is read from what `open_milo` returned |
| SceneLoad.SkinEvent | core/pikaxe_bevy/src/plugins.rs:950-953 | `UpdateSkinnedMeshes` is sent iff the directory type is "Character", and it carries the directory name |
| SceneLoad.ObjectBatchesNotSkinned | core/pikaxe_bevy/src/plugins.rs:248-258 | An object batch never triggers the skin event |
| SceneLoad.ByName | core/pikaxe_bevy/src/plugins.rs:267-285 | The per-kind name map has exactly the names of that kind, each mapped to an entry of that kind and name taken from the directory |
| SceneLoad.ByNameLast | core/pikaxe_bevy/src/plugins.rs:270-282 | The last entry of a kind with a given name is the one stored under that name |
| SceneLoad.ByNameFromLast | core/pikaxe_bevy/src/plugins.rs:270-282 | Conversely, the entry stored under a name is the last entry of that kind with that name |
| SceneLoad.MaterialsToLoad | core/pikaxe_bevy/src/plugins.rs:288-294 | Only materials present in the material map are loaded; the row-level characterisation is `MaterialsToLoadRows` |
| SceneLoad.MaterialsToLoadRows | core/pikaxe_bevy/src/plugins.rs:288-294 | A material is loaded iff some material carries its name and the last mesh of some name refers to it (skipped meshes included) |
| SceneLoad.MeshPullsMaterial | core/pikaxe_bevy/src/plugins.rs:288-294 | The last mesh of a name pulls in the last material of the name it refers to |
| SceneLoad.TexturesToLoad | core/pikaxe_bevy/src/plugins.rs:297-308 | Only textures present in the texture map, and only those with a bitmap, are loaded; the row-level characterisation is `TexturesToLoadRows` |
| SceneLoad.TexturesToLoadRows | core/pikaxe_bevy/src/plugins.rs:297-308 | A texture is loaded iff the last texture of its name has a bitmap and a slot of the last material of some name, referred to by the last mesh of some name, names it |
| SceneLoad.SlotPullsTexture | core/pikaxe_bevy/src/plugins.rs:297-308 | A slot of a loaded material naming a texture whose last entry has a bitmap pulls that texture in |
| SceneLoad.WorkSetsFollowMeshes | core/pikaxe_bevy/src/plugins.rs:288-308 | A mesh's existing material is loaded, and so is each of that material's textures that has a bitmap |
| SceneLoad.MeshMaterial | core/pikaxe_bevy/src/plugins.rs:774-810 | Alpha blending iff the material is (kBlendSrcAlpha, kZModeDisable); unlit iff there is a milo material; always double-sided |
| SceneLoad.Registered | core/pikaxe_bevy/src/plugins.rs:814-826 | Registrations under one texture name are at most one per slot and all carry the mesh's material handle |
| SceneLoad.RegisteredIffSlot | core/pikaxe_bevy/src/plugins.rs:814-826 | A (handle, slot type) pair is registered under a texture name iff the material names that texture in that slot |
| SceneLoad.RegisterAll | core/pikaxe_bevy/src/plugins.rs:820-826 | Registration never adds or removes texture tasks; a texture outside the work list is skipped |
| SceneLoad.RegisterTextureSlots | core/pikaxe_bevy/src/plugins.rs:814-826 | The slot loop yields exactly the specified registrations |
| SceneLoad.AppendRegistrations | core/pikaxe_bevy/src/plugins.rs:820-826 | Each existing texture task's list grows by its registrations, in slot order |
| SceneLoad.SpawnCount | core/pikaxe_bevy/src/plugins.rs:406-938 | No more entities are spawned than there are objects |
| SceneLoad.Place | core/pikaxe_bevy/src/plugins.rs:406-938 | One entity per spawning object, numbered in order, each a child of the root with the batch's directory and callback; the texture work list keeps its keys |
| SceneLoad.PlacedRow | core/pikaxe_bevy/src/plugins.rs:406-938 | A spawning object sits at its spawn position with its own key and name |
| SceneLoad.SpawnedFromRows | core/pikaxe_bevy/src/plugins.rs:406-938 | Every spawned entity comes from a spawning object of the batch, with that object's key and name |
| SceneLoad.UnspawnedRowAbsent | core/pikaxe_bevy/src/plugins.rs:587-588 | An object that does not spawn has no entity: a skipped mesh, a CharHair, a material, a texture |
| SceneLoad.SkippedMeshNotPlaced | core/pikaxe_bevy/src/plugins.rs:736-737 | A mesh with no vertices or whose name starts with "shadow" gets no entity |
| SceneLoad.TransMapSpawned | core/pikaxe_bevy/src/plugins.rs:934 | `trans_map` names exactly the Trans objects. A name maps to the entity spawned for the last Trans row of that name, which carries that row's key, the name and the directory |
| SceneLoad.TransMapKeys | core/pikaxe_bevy/src/plugins.rs:934 | The names of `trans_map` are exactly those of the Trans objects |
| SceneLoad.TransMapLast | core/pikaxe_bevy/src/plugins.rs:934 | The inserts run in row order, so a name keeps the entity numbered for its last Trans row |
| SceneLoad.PlaceObjects | core/pikaxe_bevy/src/plugins.rs:401-938 | The placement loop computes exactly the placement fold |
| SceneLoad.ObjectStore.StoreObjects | core/pikaxe_bevy/src/plugins.rs:957-959 | The store becomes the old store overwritten by key → object, the last object winning for a repeated key |
| SceneLoad.Zip | core/pikaxe_bevy/src/plugins.rs:957 | Pairs objects with their keys position by position |
| SceneLoad.StoredUnderKey | core/pikaxe_bevy/src/plugins.rs:957-959 | With distinct keys, each object is stored under its own key |
| Parents.EntityMap | core/pikaxe_bevy/src/plugins.rs:1019-1022 | The entity map has exactly the placed names and is the map left by inserting (name, entity) row by row, so a repeated name keeps the entity of its last row |
| Parents.ParentStep | core/pikaxe_bevy/src/plugins.rs:1025-1044 | One fold step sets the object's parent name when it declares a valid one and leaves other names alone |
| Parents.ParentStepInserts | core/pikaxe_bevy/src/plugins.rs:1025-1044 | One fold step equals inserting the row's valid `CustomParent` and then its valid kind-specific parent, in that order |
| Parents.ParentMap | core/pikaxe_bevy/src/plugins.rs:1019-1047 | Only placed names get a parent name. The map is the one left by all the fold's inserts in row order, each row inserting its valid `CustomParent` and then its valid kind field, so the later insert for a name wins |
| Parents.NewParent | core/pikaxe_bevy/src/plugins.rs:1061-1073 | The new parent is the root or an entity of the entity map |
| Parents.Resolve | core/pikaxe_bevy/src/plugins.rs:1049-1078 | One edit per non-overridden row, in row order, each naming the parent the rule prescribes for that row |
| Parents.Warnings | core/pikaxe_bevy/src/plugins.rs:1061-1072 | One warning per non-overridden row whose recorded parent names no placed object, carrying that name, in row order; no other warnings |
| Parents.UpdateMiloObjectParents | core/pikaxe_bevy/src/plugins.rs:968-1079 | Nothing happens unless milos were updated; otherwise the loop issues exactly the resolved edits and warnings |
| Parents.ReparentRows | core/pikaxe_bevy/src/plugins.rs:1049-1078 | The loop over the rows issues exactly the edits and warnings of the fold over the rows, for the given maps |
| Parents.EditsFollowRows | core/pikaxe_bevy/src/plugins.rs:1049-1078 | The edited children are the non-overridden rows, in row order |
| Parents.ReparentedRows | core/pikaxe_bevy/src/plugins.rs:1049-1052 | An entity is reparented iff it is a row without `ParentOverride` |
| Parents.ReparentedOnce | core/pikaxe_bevy/src/plugins.rs:1049-1078 | Each non-overridden row's entity appears once among the reparented entities |
| Parents.OverriddenNeverReparented | core/pikaxe_bevy/src/plugins.rs:1050-1052 | An object with `ParentOverride` gets no `ChildOf` edit |
| Parents.OthersReparentedOnce | core/pikaxe_bevy/src/plugins.rs:1075-1077 | Every other object gets exactly one `ChildOf` edit |
| Parents.LastEntity | core/pikaxe_bevy/src/plugins.rs:1064 | The entity looked up for a name: none iff no placed object has the name, otherwise the entity of a row carrying it |
| Parents.LastDeclared | core/pikaxe_bevy/src/plugins.rs:1025-1044 | The parent name recorded for a name is valid (non-empty, not the name itself) and is the declared parent of a row of that name |
| Parents.EntityMapIsLastEntity | core/pikaxe_bevy/src/plugins.rs:1019-1022 | The entity map sends each name to the entity of the last row of that name |
| Parents.ParentMapIsLastDeclared | core/pikaxe_bevy/src/plugins.rs:1019-1047 | The parent map sends each name to the parent declared by the last row of that name that declares one; within a row the kind field overrides `CustomParent`, and a row declaring nothing leaves an earlier entry in place |
| Parents.EntityMapUnique | core/pikaxe_bevy/src/plugins.rs:1022 | With unique names, a name maps to its own row's entity |
| Parents.ParentMapUnique | core/pikaxe_bevy/src/plugins.rs:1025-1044 | With unique names, a name has a parent entry iff its row declares a valid parent, and the entry is that parent; the kind field overrides `CustomParent` |
| Parents.ParentRule | core/pikaxe_bevy/src/plugins.rs:1061-1073 | For any names, the loop's lookups give the prescribed parent: the entity of the last object named by the recorded parent name, or the root when there is no recorded parent or it names no object |
| Parents.EditsAreExpected | core/pikaxe_bevy/src/plugins.rs:1049-1078 | The edits of the fold are the prescribed edits, row by row |
| Parents.EditForRow | core/pikaxe_bevy/src/plugins.rs:1075-1077 | A non-overridden row gets an edit to its computed parent |
| Parents.ResolvedParent | core/pikaxe_bevy/src/plugins.rs:1061-1077 | For any names, the edit for a non-overridden row names the prescribed parent |
| Parents.WarningForRow | core/pikaxe_bevy/src/plugins.rs:1067-1069 | A parent name missing from the entity map is warned about |
| Parents.WarningsAreUnknown | core/pikaxe_bevy/src/plugins.rs:1061-1072 | The warnings of the fold are the prescribed warnings, row by row |
| Parents.UnknownParentWarns | core/pikaxe_bevy/src/plugins.rs:1061-1073 | A recorded parent name that names no placed object sends the object to the root and is logged |
| Parents.NewParentNotSelf | core/pikaxe_bevy/src/plugins.rs:1026-1042 | An object is never its own computed parent |
| Parents.EditsNeverSelf | core/pikaxe_bevy/src/plugins.rs:1075-1077 | If no row's computed parent is itself, no edit parents an entity to itself |
| Parents.NeverOwnParent | core/pikaxe_bevy/src/plugins.rs:1049-1078 | No resolved edit parents an entity to itself |
| Parents.ParentMapNamesParent | core/pikaxe_bevy/src/plugins.rs:1026-1043 | No name is recorded as its own parent |
| Parents.ApplyOverwrites | core/pikaxe_bevy/src/plugins.rs:1075-1077 | Applying edits overwrites existing parent links |
| Parents.ApplyIdempotent | core/pikaxe_bevy/src/plugins.rs:1049-1078 | Applying the same resolved edits a second time changes nothing |
| Parents.ApplyOnce | core/pikaxe_bevy/src/plugins.rs:1075-1077 | A child named by exactly one edit ends up with that edit's parent |
| Parents.AppliedParent | core/pikaxe_bevy/src/plugins.rs:1049-1078 | With distinct entities, after the edits are applied every non-overridden object hangs under its prescribed parent |
| Skin.DirBones | core/pikaxe_bevy/src/plugins.rs:1091-1093 | The bones kept are exactly those of the event's directory |
| Skin.DirBonesAppend | core/pikaxe_bevy/src/plugins.rs:1091-1093 | The filter keeps query order and multiplicity: filtering a concatenation concatenates the filtered parts |
| Skin.GlobalMatEnds | core/pikaxe_bevy/src/plugins.rs:1286-1290 | An unknown bone name gives the identity; a bone with an empty parent gives its own local matrix |
| Skin.SelfParentDiverges | core/pikaxe_bevy/src/plugins.rs:1286-1288 | A bone that names itself as parent never finishes its walk |
| Skin.CycleDiverges | core/pikaxe_bevy/src/plugins.rs:1282-1292 | A parent chain that runs into a cycle of any length (a self-parent, a→b→a, or x→a→b→a) makes the walk from every bone of the chain, on the cycle or leading into it, never finish |
| Skin.GlobalMatStable | core/pikaxe_bevy/src/plugins.rs:1282-1292 | A finished walk gives the same matrix at any larger depth |
| Skin.AcyclicTerminates | core/pikaxe_bevy/src/plugins.rs:1282-1292 | On acyclic parent chains the walk always finishes |
| Skin.ThreeBoneChain | core/pikaxe_bevy/src/plugins.rs:1286-1289 | For a chain a ← b ← c, the result is (local a · local b) · local c: the parent's global times the local matrix, ending at an empty parent |
| Skin.BoneIndexMap | core/pikaxe_bevy/src/plugins.rs:1105-1117 | The index has exactly the bone names; each maps to the last position in query order holding a bone of that name, with that bone's entity |
| Skin.Poses | core/pikaxe_bevy/src/plugins.rs:1105-1117 | One pose per bone, in order, each the inverse of that bone's global matrix; defined iff every walk ends |
| Skin.IndicesInRange | core/pikaxe_bevy/src/plugins.rs:1112-1117 | Every index in the bone index map is less than the number of poses |
| Skin.BindJoints | core/pikaxe_bevy/src/plugins.rs:1138-1151 | The joint and pose lists have the mesh bones' length and order. A known name gives (its bone entity, the mesh bone's matrix); an unknown name gives (PLACEHOLDER, IDENTITY) |
| Skin.BindMeshes | core/pikaxe_bevy/src/plugins.rs:1121-1173 | A `SkinnedMesh` is inserted exactly for the meshes with some non-empty bone name, carrying that mesh's joint list |
| Skin.JointsFromDirectory | core/pikaxe_bevy/src/plugins.rs:1090-1144 | A real joint is a bone of the event's directory with the same name |
| Skin.UpdateSkinnedMeshes | core/pikaxe_bevy/src/plugins.rs:1090-1176 | One event fails (a stack overflow) iff the parent walk of some bone of the directory never ends. Otherwise the inserted components are exactly the joint binding of every unskinned mesh against the directory's bone index: one `SkinnedMesh` per mesh with a non-empty bone name, with one joint and one pose per mesh bone |
| Skin.TwistEdits | core/pikaxe_bevy/src/plugins.rs:1195-1237 | Zero, two or four edits. The left pair is issued iff all four left bones exist, and the right pair iff both sides are complete; each twist bone copies its arm bone |
| Skin.BoneMap | core/pikaxe_bevy/src/plugins.rs:1185-1189 | The bone map's names are exactly the directory's bone names, each mapped to the entity of the last bone of that name in query order |
| Skin.BoneMapHas | core/pikaxe_bevy/src/plugins.rs:1185-1189 | A name is in the bone map iff some bone of the event's directory carries it |
| Skin.TwistEditsFromDirectory | core/pikaxe_bevy/src/plugins.rs:1195-1237 | Every twist edit makes a twist bone of the directory copy the transform of its own arm bone in the same directory |
| Skin.TwistSidesFromDirectory | core/pikaxe_bevy/src/plugins.rs:1195-1237 | A side is complete in the bone map iff its four bones are bones of the directory |
| Skin.UpdateSkinnedMeshesIk | core/pikaxe_bevy/src/plugins.rs:1184-1238 | Zero, two or four edits: edits iff the four left bones are bones of the event's directory, four iff the four right ones are too. Each edit pairs a twist bone and its arm bone, both bones of that directory |
| ArkPath.GenPath | core/pikaxe_bevy/src/resources.rs:52-61 | The gen path is four characters longer |
| ArkPath.GenPathComponents | core/pikaxe_bevy/src/resources.rs:52-61 | The file name is kept, and the directory gains a final "gen" component ("gen" alone for a bare name) |
| ArkPath.LastSlashUnique | core/pikaxe_bevy/src/resources.rs:53 | The last '/' of a path is unique |
| ArkPath.GetEntry | core/pikaxe_bevy/src/resources.rs:35-50 | None iff no entry path starts with the path or its gen path; otherwise the first such entry in ark order |
| ArkPath.PrefixFound | core/pikaxe_bevy/src/resources.rs:45-49 | An entry whose path extends the path or the gen path is found when no earlier entry matches (prefix, not equality) |
| ArkPath.OpenMilo | core/pikaxe_bevy/src/resources.rs:15-32 | No ark or no entry gives None. A result means the stream and archive were read, and the platform was guessed from the entry's own path |
| ArkPath.OpenMiloStagesNeeded | core/pikaxe_bevy/src/resources.rs:20-31 | A failure of the stream, archive, directory or entries stage gives None; otherwise the result is the guessed info with the unpacked directory |
| SortedNames.LessEqRefl | apps/character_creator/src/gui.rs:21 | The string order is reflexive |
| SortedNames.LessEqTotal | apps/character_creator/src/gui.rs:21 | The string order is total |
| SortedNames.LessEqTrans | apps/character_creator/src/gui.rs:21 | The string order is transitive |
| SortedNames.Insert | apps/character_creator/src/gui.rs:21 | Insertion adds exactly the new entry |
| SortedNames.SortByName | apps/character_creator/src/gui.rs:21 | The sort is a permutation |
| SortedNames.InsertSorted | apps/character_creator/src/gui.rs:21 | Insertion keeps a list sorted |
| SortedNames.SortByNameSorted | apps/character_creator/src/gui.rs:21 | The sorted list is non-decreasing by name |
| SortedNames.WithNameAppend | apps/character_creator/src/gui.rs:21 | The entries of a given name distribute over concatenation |
| SortedNames.InsertWithName | apps/character_creator/src/gui.rs:21 | Insertion places an entry after every earlier entry of the same name |
| SortedNames.NoneNamedAfter | apps/character_creator/src/gui.rs:21 | A sorted list starting above a name has no entry of that name |
| SortedNames.SortByNameStable | apps/character_creator/src/gui.rs:21 | `sort_by` is stable: entries of equal name keep their relative order |
| SortedNames.InsertAtEnd | apps/character_creator/src/gui.rs:21 | An entry not below anything goes at the end |
| SortedNames.SortedFixed | apps/character_creator/src/gui.rs:21 | Sorting a sorted list changes nothing |
| SortedNames.EntitiesSortedByName.constructor | apps/character_creator/src/gui.rs:10-11 | `Default` is empty and unflagged |
| SortedNames.EntitiesSortedByName.Add | apps/character_creator/src/gui.rs:14-17 | The value is appended at the end, the flag is cleared, and the invariant is kept |
| SortedNames.EntitiesSortedByName.Sort | apps/character_creator/src/gui.rs:19-24 | A flagged list is unchanged; otherwise it becomes its stable sort by name. The flag is set and the invariant is kept |
| SortedNames.EntitiesSortedByName.Entries | apps/character_creator/src/gui.rs:26-28 | A flagged list is sorted |
| SortedNames.SortResultIsSortByName | apps/character_creator/src/gui.rs:19-24 | Whether or not it sorts, `sort` leaves the sort of its contents, so it is idempotent |
| SortedNames.DisplayNameEntitiesAdded | apps/character_creator/src/gui.rs:52-61 | The list becomes the sort of the old entries plus every added pair, and is flagged sorted |
| SortedNames.SelectedText | apps/character_creator/src/gui.rs:87-88 | The selected option's display name when the selection is in range, otherwise "(None)" |
| Preview.Extension | apps/preview_ui/src/main.rs:356-363 | Defined iff there is a file name. The name is split into a stem with no '.' followed by the extension, which starts at the first '.' when there is one; a name with no '.' is its own extension |
| Preview.Dispatch | apps/preview_ui/src/main.rs:366-424 | Ark iff the extension contains "hdr". Milo iff it does not, and contains "milo", "gh" or "rnd". Unknown otherwise; matching is case-sensitive |
| Preview.DispatchIgnoresStem | apps/preview_ui/src/main.rs:356-366 | Only what follows the first '.' is tested, whatever the stem contains |
| Preview.AppState.OpenFile | apps/preview_ui/src/main.rs:347-425 | The open path is cleared, then set only by a successful ark or milo open. A successful open replaces the ark and tree, or the milo and system info, and only a milo open emits `SelectMiloEntry(None)`; failures keep the old data |
| Preview.AnyPressed | apps/preview_ui/src/main.rs:492-494 | True iff some key of the list is pressed |
| Preview.IsCameraButtonDown | apps/preview_ui/src/main.rs:482-495 | True iff W, A, S, D, Space or left Shift is pressed |
| Preview.FocusedWindow | apps/preview_ui/src/main.rs:451-453 | None iff no window is focused; otherwise the first focused window in query order |
| Preview.UpdatedCam | apps/preview_ui/src/main.rs:458-478 | The camera keeps its target, and is enabled only when its window is focused and it belongs to that window |
| Preview.FlyRule | apps/preview_ui/src/main.rs:458-478 | A camera is enabled iff it targets the focused window, egui neither wants nor is over the pointer, and a movement key or the left mouse button is down; it can turn iff the mouse is down; its target is unchanged |
| Preview.ControlCamera | apps/preview_ui/src/main.rs:445-480 | With no focused window nothing changes; otherwise every camera is updated for the first focused window |
| Preview.TotalsSplit | apps/preview_ui/src/main.rs:117-120 | The vertex and face totals add over any split of the meshes |
| Preview.TotalsRemove | apps/preview_ui/src/main.rs:117-120 | Taking one mesh out of the list takes its counts out of the totals |
| Preview.TotalsOfPermutation | apps/preview_ui/src/main.rs:110-126 | Any two orderings of the same meshes give the same vertex and face totals, so the query order does not matter |
| Preview.DetectMeshes | apps/preview_ui/src/main.rs:110-126 | The loop computes the total vertex and face counts |
| Preview.AppSettings.WindowResized | apps/preview_ui/src/main.rs:497-532 | A change of maximized state records it, saves once and ignores the events. While maximized nothing changes. Otherwise the earlier snapshots stay as they were and exactly one snapshot per event is appended, in order, each with that event's size and not maximized; the last event's size remains |
| Preview.WindowClosed | apps/preview_ui/src/main.rs:534-544 | Given the windows of the query, exit is requested iff one of them lacks `PrimaryWindow` |

## Left out

- Bevy plumbing is not modelled: `Commands`, queries, observers, asset stores, system ordering and `EventReader` bookkeeping. Edits and spawns are returned as lists. Events not read by an early `return` in `window_resized` would stay queued for a later frame; this is not modelled.
- Floating point is not modelled. Matrices are an abstract type with a given product, identity and inverse, and `MILO_TO_BEVY_MATRIX` is left out. So are colours, the camera projection and the animation curves of the CharClipSamples branch. Camera sensitivity is a `real` (3.0 or 0.0).
- The asynchronous texture tasks and their polling are left out; only the decode, slice and fill rules each task applies are modelled.
- The CharHair branch after its `continue` is dead code and is not modelled, nor are the physics joints inside it.
- Vertex, normal, UV and index buffers, joint weights and the debug spheres of the Mesh branch are not modelled. A mesh's `Mesh` is reduced to its name, parent, vertex and face counts and material name.
- Foreign calls are parameters: `Ark::from_path`, `MiloArchive::from_stream`, `unpack_directory`, `unpack_entries`, `unpack_rgba`, `SystemInfo::guess_system_info`, `open_and_unpack_milo` and `ArkDirNode::expand`. Saving settings is recorded as a list of snapshots.
- `get_next_obj_key` is not modelled; the keys it yields are an input to placement and storage.
- Entity ids are modelled as allocated consecutively from a given first id. Material handles carry their mesh entity's id, which keeps them distinct per mesh as `materials.add` does.
- Callbacks are opaque ids. Applying a callback to an entity is recorded with the spawn, not run.
- `MiloState.objects` is declared as a `Vec` but used as a key → object map; it is modelled as a map.
- GUI layout, icons, argument parsing and the window setup are not modelled.
- Skin.UpdateSkinnedMeshes: one event is modelled. Several events in one frame each bind the same snapshot of meshes without `SkinnedMesh` (the inserts are deferred), so a mesh is bound once per event and the last event's insert stays; the model does not fold over the events of a frame.
- Skin.UpdateSkinnedMeshes: a bone or mesh row whose object is not a `Trans` or a `Mesh` in `MiloState.objects` hits `unreachable!` (plugins.rs:1098, 1125); the model takes each bone's `Trans` fields and each mesh's bones as given, so that panic is not represented.
- Parents.UpdateMiloObjectParents: the `unwrap` on looking up each row's object in `MiloState.objects` (plugins.rs:985) and the `unwrap` of the root query (plugins.rs:981) are not modelled; each row carries its object and the root is given.
- Skin.GlobalMat: the source recursion is unbounded. The model has a depth bound (`fuel`), and `None` stands for a walk that never ends, that is, a stack overflow.
- Texture.ImageData: `usize` overflow of `width * height * bpp` is not modelled (unbounded integers).
- Preview.DetectMeshes: `usize` overflow of the totals is not modelled.
- The panics (`unwrap`, `expect`, `unreachable!`) are modelled as `None` or `false` results where the model covers the operation. A missing `MiloRoot` and a missing winit window are assumed present.
- Log messages other than the parent-resolution warning are not modelled.
- Skin.BindMeshes: the mesh query of `update_skinned_meshes` is not filtered by directory, so every unskinned mesh in the world is bound against the event's directory index; the model keeps this.
- Skin.BindJoints: the pose stored for a joint is the mesh bone's own matrix, not the inverse global pose (that code is commented out); the model follows the code.
- Preview.Dispatch: the tests apply to the extension, from the first '.', not to the whole file name.
