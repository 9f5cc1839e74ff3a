/** The skin binder of core/pikaxe_bevy/src/plugins.rs: `compute_global_mat`,
    the per-directory bone index built in `update_skinned_meshes`, the
    per-mesh joint list, and the twist-bone rule of
    `update_skinned_meshes_ik`.

    Matrices are an abstract type `M` with an uninterpreted product `mul`,
    an `identity` and an `inverse`; the matrix a bone or a mesh bone carries
    is taken to be already passed through `map_matrix`. */
module Skin {
  import opened Common

  /** A `MiloBone` entity of the query, with the name and directory of its
      `MiloObject` and the `parent` and local matrix of the `Trans` it was
      placed from. */
  datatype BoneEntity<M> = BoneEntity(entity: Entity, name: string, dir: string, parent: string, local: M)

  /** The two fields of a `Trans` that `compute_global_mat` reads. */
  datatype TransRec<M> = TransRec(parent: string, local: M)

  /** The bones of one directory, in query order. */
  function DirBones<M(!new)>(bones: seq<BoneEntity<M>>, dir: string): (r: seq<BoneEntity<M>>)
    ensures forall b :: b in r <==> b in bones && b.dir == dir
  {
    if bones == [] then []
    else (if bones[0].dir == dir then [bones[0]] else []) + DirBones(bones[1..], dir)
  }

  /** The filter keeps query order and multiplicity: the bones of a
      directory in a concatenation are those of each part, in order. */
  lemma {:induction false} DirBonesAppend<M(!new)>(a: seq<BoneEntity<M>>, b: seq<BoneEntity<M>>, dir: string)
    ensures DirBones(a + b, dir) == DirBones(a, dir) + DirBones(b, dir)
  {
    if a == [] {
      assert a + b == b;
    } else {
      assert (a + b)[0] == a[0] && (a + b)[1..] == a[1..] + b;
      DirBonesAppend(a[1..], b, dir);
    }
  }

  /** `transforms_map`: bone name -> its `Trans`, later bones overwriting earlier ones. */
  function TransformsMap<M>(dirBones: seq<BoneEntity<M>>): map<string, TransRec<M>> {
    LastWins(seq(|dirBones|, i requires 0 <= i < |dirBones| => (dirBones[i].name, TransRec(dirBones[i].parent, dirBones[i].local))))
  }

  /** `compute_global_mat`. The source recurses without bound; `fuel` stands
      for the recursion depth the stack allows, and `None` for a walk that
      does not end. An unknown name gives the identity, a bone with an empty
      parent its local matrix, any other bone global(parent) * local. */
  function GlobalMat<M>(name: string, transforms: map<string, TransRec<M>>, mul: (M, M) -> M, identity: M, fuel: nat): Option<M>
    decreases fuel
  {
    if fuel == 0 then None
    else if name !in transforms then Some(identity)
    else
      var t := transforms[name];
      if t.parent == "" then Some(t.local)
      else match GlobalMat(t.parent, transforms, mul, identity, fuel - 1)
        case None => None
        case Some(g) => Some(mul(g, t.local))
  }

  /** The two cases that end the walk: an unknown name gives the identity,
      a bone with an empty parent its own local matrix. */
  lemma GlobalMatEnds<M>(name: string, transforms: map<string, TransRec<M>>, mul: (M, M) -> M, identity: M, fuel: nat)
    requires fuel > 0
    ensures name !in transforms ==> GlobalMat(name, transforms, mul, identity, fuel) == Some(identity)
    ensures name in transforms && transforms[name].parent == "" ==> GlobalMat(name, transforms, mul, identity, fuel) == Some(transforms[name].local)
  {
  }

  /** A bone that names itself as parent recurses forever (the parent
      resolver, by contrast, treats a self-reference as "no parent"). */
  lemma {:induction false} SelfParentDiverges<M>(name: string, transforms: map<string, TransRec<M>>, mul: (M, M) -> M, identity: M, fuel: nat)
    requires name in transforms && transforms[name].parent == name && name != ""
    ensures GlobalMat(name, transforms, mul, identity, fuel) == None
  {
    if fuel > 0 {
      SelfParentDiverges(name, transforms, mul, identity, fuel - 1);
    }
  }

  /** `c[i]` is a bone of the map whose parent is `c[i + 1]`, not empty. */
  predicate Link<M>(c: seq<string>, i: nat, transforms: map<string, TransRec<M>>)
    requires i + 1 < |c|
  {
    c[i] in transforms && transforms[c[i]].parent == c[i + 1] && c[i + 1] != ""
  }

  /** A parent chain that runs into a cycle never ends: `c[0] -> c[1] ->
      ... -> c[k]`, each link a bone of the map naming the next one as its
      (non-empty) parent, with `c[k]` already met as `c[m]`. The walk from
      any bone of the chain, on the cycle or leading into it, diverges. */
  lemma {:induction false} CycleDiverges<M>(c: seq<string>, k: nat, m: nat, j: nat, transforms: map<string, TransRec<M>>, mul: (M, M) -> M, identity: M, fuel: nat)
    requires m < k < |c| && c[k] == c[m] && j < k
    requires forall i :: 0 <= i < k ==> Link(c, i, transforms)
    ensures GlobalMat(c[j], transforms, mul, identity, fuel) == None
    decreases fuel
  {
    if fuel > 0 {
      assert Link(c, j, transforms);
      if j + 1 < k {
        CycleDiverges(c, k, m, j + 1, transforms, mul, identity, fuel - 1);
      } else {
        CycleDiverges(c, k, m, m, transforms, mul, identity, fuel - 1);
      }
    }
  }

  /** Once the walk ends, more depth does not change its result. */
  lemma {:induction false} GlobalMatStable<M>(name: string, transforms: map<string, TransRec<M>>, mul: (M, M) -> M, identity: M, fuel: nat, more: nat)
    requires GlobalMat(name, transforms, mul, identity, fuel).Some? && fuel <= more
    decreases fuel
    ensures GlobalMat(name, transforms, mul, identity, more) == GlobalMat(name, transforms, mul, identity, fuel)
  {
    if name in transforms && transforms[name].parent != "" {
      GlobalMatStable(transforms[name].parent, transforms, mul, identity, fuel - 1, more - 1);
    }
  }

  /** `rank` witnesses that the parent chains are acyclic: following a
      parent link into the map strictly lowers the rank. */
  ghost predicate Ranked<M>(transforms: map<string, TransRec<M>>, rank: map<string, nat>) {
    forall n :: n in transforms ==>
      (n in rank
       && (transforms[n].parent != "" && transforms[n].parent in transforms ==>
             transforms[n].parent in rank && rank[transforms[n].parent] < rank[n]))
  }

  /** On acyclic chains the walk ends within rank + 2 steps. */
  lemma {:induction false} AcyclicTerminates<M>(name: string, transforms: map<string, TransRec<M>>, rank: map<string, nat>, mul: (M, M) -> M, identity: M, fuel: nat)
    requires Ranked(transforms, rank)
    requires fuel > 0 && (name in transforms ==> fuel > rank[name] + 1)
    ensures GlobalMat(name, transforms, mul, identity, fuel).Some?
    decreases fuel
  {
    if name in transforms && transforms[name].parent != "" {
      AcyclicTerminates(transforms[name].parent, transforms, rank, mul, identity, fuel - 1);
    }
  }

  /** A three-bone chain a <- b <- c composes as (local a * local b) * local c. */
  lemma ThreeBoneChain<M>(a: string, b: string, c: string, transforms: map<string, TransRec<M>>, mul: (M, M) -> M, identity: M, fuel: nat)
    requires a in transforms && b in transforms && c in transforms
    requires transforms[a].parent == "" && transforms[b].parent == a && transforms[c].parent == b
    requires a != "" && b != "" && fuel >= 3
    ensures GlobalMat(c, transforms, mul, identity, fuel)
      == Some(mul(mul(transforms[a].local, transforms[b].local), transforms[c].local))
  {
    assert GlobalMat(a, transforms, mul, identity, fuel - 2) == Some(transforms[a].local);
    assert GlobalMat(b, transforms, mul, identity, fuel - 1) == Some(mul(transforms[a].local, transforms[b].local));
  }

  // ---------------------------------------------------------------------
  // The per-directory bone index

  /** `bone_idx_map`: each bone's name -> (its entity, its position in the
      pose list); a later bone of the same name overwrites the entry. */
  function BoneIndexMap<M>(dirBones: seq<BoneEntity<M>>): (m: map<string, (Entity, nat)>)
    ensures forall n :: n in m <==> exists i :: 0 <= i < |dirBones| && dirBones[i].name == n
    ensures forall n :: n in m ==> m[n].1 < |dirBones| && dirBones[m[n].1].name == n && dirBones[m[n].1].entity == m[n].0
    ensures forall n :: n in m ==> forall j :: m[n].1 < j < |dirBones| ==> dirBones[j].name != n
  {
    var ps := seq(|dirBones|, i requires 0 <= i < |dirBones| => (dirBones[i].name, (dirBones[i].entity, i)));
    assert forall i :: 0 <= i < |ps| ==> ps[i].0 == dirBones[i].name && ps[i].1 == (dirBones[i].entity, i);
    LastWins(ps)
  }

  /** `poses`: the inverse global matrix of every bone of the directory, in
      order, or `None` when some parent walk does not end. */
  function Poses<M>(dirBones: seq<BoneEntity<M>>, transforms: map<string, TransRec<M>>, mul: (M, M) -> M, identity: M, inverse: M -> M, fuel: nat): (r: Option<seq<M>>)
    ensures r.Some? ==> |r.value| == |dirBones|
    ensures r.Some? <==> forall i :: 0 <= i < |dirBones| ==> GlobalMat(dirBones[i].name, transforms, mul, identity, fuel).Some?
    ensures r.Some? ==> forall i :: 0 <= i < |dirBones| ==> r.value[i] == inverse(GlobalMat(dirBones[i].name, transforms, mul, identity, fuel).value)
  {
    if dirBones == [] then Some([])
    else
      assert forall i :: 0 <= i < |dirBones| - 1 ==> Init(dirBones)[i] == dirBones[i];
      match Poses(Init(dirBones), transforms, mul, identity, inverse, fuel)
      case None => None
      case Some(ps) =>
        match GlobalMat(dirBones[|dirBones| - 1].name, transforms, mul, identity, fuel)
        case None => None
        case Some(g) => Some(ps + [inverse(g)])
  }

  /** Every index in the bone index map points into the pose list. */
  lemma IndicesInRange<M>(dirBones: seq<BoneEntity<M>>, transforms: map<string, TransRec<M>>, mul: (M, M) -> M, identity: M, inverse: M -> M, fuel: nat, n: string)
    requires Poses(dirBones, transforms, mul, identity, inverse, fuel).Some?
    requires n in BoneIndexMap(dirBones)
    ensures BoneIndexMap(dirBones)[n].1 < |Poses(dirBones, transforms, mul, identity, inverse, fuel).value|
  {
  }

  // ---------------------------------------------------------------------
  // The per-mesh joint list

  /** One entry of `mesh.bones`: a bone name and its matrix. */
  datatype MeshBone<M> = MeshBone(name: string, trans: M)

  /** A joint: a bone entity, or `Entity::PLACEHOLDER`. */
  datatype Joint = Joint(entity: Entity) | Placeholder

  /** A mesh is skinned when at least one of its bone names is non-empty. */
  predicate IsSkinned<M>(bones: seq<MeshBone<M>>) {
    exists i :: 0 <= i < |bones| && bones[i].name != ""
  }

  /** The joint list and pose list of one mesh: the lookup of each bone
      name in the index, in `mesh.bones` order, with (PLACEHOLDER, IDENTITY)
      for a name no bone of the directory carries. */
  function BindJoints<M>(bones: seq<MeshBone<M>>, index: map<string, (Entity, nat)>, identity: M): (r: (seq<Joint>, seq<M>))
    ensures |r.0| == |bones| && |r.1| == |bones|
    ensures forall i :: 0 <= i < |bones| && bones[i].name in index ==> r.0[i] == Joint(index[bones[i].name].0) && r.1[i] == bones[i].trans
    ensures forall i :: 0 <= i < |bones| && bones[i].name !in index ==> r.0[i] == Placeholder && r.1[i] == identity
  {
    if bones == [] then ([], [])
    else
      var (joints, poses) := BindJoints(Init(bones), index, identity);
      var b := bones[|bones| - 1];
      assert forall i :: 0 <= i < |bones| - 1 ==> Init(bones)[i] == bones[i];
      if b.name in index then (joints + [Joint(index[b.name].0)], poses + [b.trans])
      else (joints + [Placeholder], poses + [identity])
  }

  /** A mesh entity still without a `SkinnedMesh`, with the bones of its `Mesh`. */
  datatype UnskinnedMesh<M> = UnskinnedMesh(entity: Entity, name: string, bones: seq<MeshBone<M>>)

  /** The `SkinnedMesh` component inserted on a mesh entity. */
  datatype SkinnedMesh<M> = SkinnedMesh(mesh: Entity, joints: seq<Joint>, inverseBindposes: seq<M>)

  /** The components inserted for the unskinned meshes, in query order;
      meshes whose bone names are all empty are skipped. */
  function BindMeshes<M(!new)>(meshes: seq<UnskinnedMesh<M>>, index: map<string, (Entity, nat)>, identity: M): (r: seq<SkinnedMesh<M>>)
    ensures forall s :: s in r ==>
      exists m :: (m in meshes && IsSkinned(m.bones) && s.mesh == m.entity
                   && (s.joints, s.inverseBindposes) == BindJoints(m.bones, index, identity))
    ensures forall m :: m in meshes && IsSkinned(m.bones) ==> SkinnedMesh(m.entity, BindJoints(m.bones, index, identity).0, BindJoints(m.bones, index, identity).1) in r
  {
    if meshes == [] then []
    else
      var m := meshes[0];
      var (joints, poses) := BindJoints(m.bones, index, identity);
      (if IsSkinned(m.bones) then [SkinnedMesh(m.entity, joints, poses)] else []) + BindMeshes(meshes[1..], index, identity)
  }

  /** One `UpdateSkinnedMeshes(dir)` event: build the bone index of the
      directory, compute the poses (which must terminate), then bind every
      unskinned mesh. `None` stands for a parent walk that never ends. */
  function UpdateSkinnedMeshes<M(!new)>(dir: string, bones: seq<BoneEntity<M>>, meshes: seq<UnskinnedMesh<M>>, mul: (M, M) -> M, identity: M, inverse: M -> M, fuel: nat): (r: Option<seq<SkinnedMesh<M>>>)
    ensures r.None? <==> (exists i :: 0 <= i < |DirBones(bones, dir)|
                            && GlobalMat(DirBones(bones, dir)[i].name, TransformsMap(DirBones(bones, dir)), mul, identity, fuel).None?)
    ensures r.Some? ==> forall s :: s in r.value ==>
      exists m :: m in meshes && IsSkinned(m.bones) && s.mesh == m.entity && |s.joints| == |m.bones| == |s.inverseBindposes|
    ensures r.Some? ==> forall m :: m in meshes && IsSkinned(m.bones) ==> exists s :: s in r.value && s.mesh == m.entity
    ensures r.Some? ==> r.value == BindMeshes(meshes, BoneIndexMap(DirBones(bones, dir)), identity)
  {
    var dirBones := DirBones(bones, dir);
    match Poses(dirBones, TransformsMap(dirBones), mul, identity, inverse, fuel)
    case None =>
      var i :| 0 <= i < |dirBones| && GlobalMat(dirBones[i].name, TransformsMap(dirBones), mul, identity, fuel).None?;
      assert GlobalMat(DirBones(bones, dir)[i].name, TransformsMap(DirBones(bones, dir)), mul, identity, fuel).None?;
      None
    case Some(_) => Some(BindMeshes(meshes, BoneIndexMap(dirBones), identity))
  }

  /** A mesh bone bound to a real joint names a bone of the same directory
      and takes its entity. */
  lemma JointsFromDirectory<M(!new)>(dir: string, bones: seq<BoneEntity<M>>, mb: seq<MeshBone<M>>, identity: M, i: nat)
    requires i < |mb|
    ensures var index := BoneIndexMap(DirBones(bones, dir));
            var r := BindJoints(mb, index, identity);
            r.0[i].Joint? ==> exists b :: b in bones && b.dir == dir && b.name == mb[i].name && r.0[i].entity == b.entity
  {
    var dirBones := DirBones(bones, dir);
    var index := BoneIndexMap(dirBones);
    if mb[i].name in index {
      var k := index[mb[i].name].1;
      assert dirBones[k] in dirBones;
    }
  }

  // ---------------------------------------------------------------------
  // Twist bones (`update_skinned_meshes_ik`)

  /** `CloneTransform(source)` inserted on `target`. */
  datatype CloneTransform = CloneTransform(target: Entity, source: Entity)

  /** `bone_map`: name -> entity for the bones of one directory. */
  function BoneMap<M>(dirBones: seq<BoneEntity<M>>): (m: map<string, Entity>)
    ensures forall n :: n in m <==> exists i :: 0 <= i < |dirBones| && dirBones[i].name == n
    ensures forall n :: n in m ==> exists i :: 0 <= i < |dirBones| && dirBones[i].name == n && dirBones[i].entity == m[n]
                                    && forall j :: i < j < |dirBones| ==> dirBones[j].name != n
  {
    var ps := seq(|dirBones|, i requires 0 <= i < |dirBones| => (dirBones[i].name, dirBones[i].entity));
    assert forall i :: 0 <= i < |ps| ==> ps[i].0 == dirBones[i].name && ps[i].1 == dirBones[i].entity;
    LastWins(ps)
  }

  const UpperArmL := "bone_L-upperArm.mesh"
  const UpperTwistL := "bone_L-upperTwist1.mesh"
  const ForeArmL := "bone_L-foreArm.mesh"
  const ForeTwistL := "bone_L-foreTwist1.mesh"
  const UpperArmR := "bone_R-upperArm.mesh"
  const UpperTwistR := "bone_R-upperTwist1.mesh"
  const ForeArmR := "bone_R-foreArm.mesh"
  const ForeTwistR := "bone_R-foreTwist1.mesh"

  predicate HasLeft(m: map<string, Entity>) {
    UpperArmL in m && UpperTwistL in m && ForeArmL in m && ForeTwistL in m
  }

  predicate HasRight(m: map<string, Entity>) {
    UpperArmR in m && UpperTwistR in m && ForeArmR in m && ForeTwistR in m
  }

  /** The twist edits for one event. Each side is all or nothing: its four
      bones must all be found, and a missing left bone ends the event before
      the right side is looked at. */
  function TwistEdits(m: map<string, Entity>): (r: seq<CloneTransform>)
    ensures |r| == 0 || |r| == 2 || |r| == 4
    ensures |r| > 0 <==> HasLeft(m)
    ensures |r| == 4 <==> HasLeft(m) && HasRight(m)
    ensures |r| > 0 ==> r[..2] == [CloneTransform(m[UpperTwistL], m[UpperArmL]), CloneTransform(m[ForeTwistL], m[ForeArmL])]
    ensures |r| == 4 ==> r[2..] == [CloneTransform(m[UpperTwistR], m[UpperArmR]), CloneTransform(m[ForeTwistR], m[ForeArmR])]
  {
    if !HasLeft(m) then []
    else
      var left := [CloneTransform(m[UpperTwistL], m[UpperArmL]), CloneTransform(m[ForeTwistL], m[ForeArmL])];
      if !HasRight(m) then left
      else left + [CloneTransform(m[UpperTwistR], m[UpperArmR]), CloneTransform(m[ForeTwistR], m[ForeArmR])]
  }

  /** The (twist bone, arm bone) name pairs the twist rule copies between. */
  const TwistPairs: set<(string, string)> := {(UpperTwistL, UpperArmL), (ForeTwistL, ForeArmL), (UpperTwistR, UpperArmR), (ForeTwistR, ForeArmR)}

  /** Some bone of the directory carries this name and entity. */
  ghost predicate DirBone<M(!new)>(bones: seq<BoneEntity<M>>, dir: string, name: string, entity: Entity) {
    exists b :: b in bones && b.dir == dir && b.name == name && b.entity == entity
  }

  lemma BoneOfMap<M(!new)>(bones: seq<BoneEntity<M>>, dir: string, n: string)
    requires n in BoneMap(DirBones(bones, dir))
    ensures DirBone(bones, dir, n, BoneMap(DirBones(bones, dir))[n])
  {
    var d := DirBones(bones, dir);
    var i :| 0 <= i < |d| && d[i].name == n && d[i].entity == BoneMap(d)[n];
    assert d[i] in d;
  }

  /** Some bone of the directory carries this name. */
  ghost predicate DirHas<M(!new)>(bones: seq<BoneEntity<M>>, dir: string, name: string) {
    exists b :: b in bones && b.dir == dir && b.name == name
  }

  /** A name is in the directory's bone map iff a bone of the directory carries it. */
  lemma BoneMapHas<M(!new)>(bones: seq<BoneEntity<M>>, dir: string, n: string)
    ensures n in BoneMap(DirBones(bones, dir)) <==> DirHas(bones, dir, n)
  {
    var d := DirBones(bones, dir);
    if DirHas(bones, dir, n) {
      var b :| b in bones && b.dir == dir && b.name == n;
      assert b in d;
    }
    if n in BoneMap(d) {
      var i :| 0 <= i < |d| && d[i].name == n;
      assert d[i] in d;
    }
  }

  /** The four left bones are all in the directory. */
  ghost predicate DirHasLeft<M(!new)>(bones: seq<BoneEntity<M>>, dir: string) {
    DirHas(bones, dir, UpperArmL) && DirHas(bones, dir, UpperTwistL) && DirHas(bones, dir, ForeArmL) && DirHas(bones, dir, ForeTwistL)
  }

  /** The four right bones are all in the directory. */
  ghost predicate DirHasRight<M(!new)>(bones: seq<BoneEntity<M>>, dir: string) {
    DirHas(bones, dir, UpperArmR) && DirHas(bones, dir, UpperTwistR) && DirHas(bones, dir, ForeArmR) && DirHas(bones, dir, ForeTwistR)
  }

  /** The all-or-nothing rule at the directory level: a side is copied iff
      its four bones are bones of the directory. */
  lemma TwistSidesFromDirectory<M(!new)>(bones: seq<BoneEntity<M>>, dir: string)
    ensures HasLeft(BoneMap(DirBones(bones, dir))) <==> DirHasLeft(bones, dir)
    ensures HasRight(BoneMap(DirBones(bones, dir))) <==> DirHasRight(bones, dir)
  {
    BoneMapHas(bones, dir, UpperArmL);
    BoneMapHas(bones, dir, UpperTwistL);
    BoneMapHas(bones, dir, ForeArmL);
    BoneMapHas(bones, dir, ForeTwistL);
    BoneMapHas(bones, dir, UpperArmR);
    BoneMapHas(bones, dir, UpperTwistR);
    BoneMapHas(bones, dir, ForeArmR);
    BoneMapHas(bones, dir, ForeTwistR);
  }

  /** For any name map whose entries are bones of the directory, every
      twist edit makes a twist bone of the directory copy its arm bone. */
  lemma TwistEditsSound<M(!new)>(m: map<string, Entity>, bones: seq<BoneEntity<M>>, dir: string)
    requires forall n :: n in m ==> DirBone(bones, dir, n, m[n])
    ensures forall e :: e in TwistEdits(m) ==>
      exists p :: p in TwistPairs && DirBone(bones, dir, p.0, e.target) && DirBone(bones, dir, p.1, e.source)
  {
    var r := TwistEdits(m);
    forall e | e in r
      ensures exists p :: p in TwistPairs && DirBone(bones, dir, p.0, e.target) && DirBone(bones, dir, p.1, e.source)
    {
      var k :| 0 <= k < |r| && r[k] == e;
      var p;
      if k < 2 {
        assert r[..2][k] == e;
        p := if k == 0 then (UpperTwistL, UpperArmL) else (ForeTwistL, ForeArmL);
      } else {
        assert r[2..][k - 2] == e;
        p := if k == 2 then (UpperTwistR, UpperArmR) else (ForeTwistR, ForeArmR);
      }
      assert e == CloneTransform(m[p.0], m[p.1]);
    }
  }

  /** Every twist edit makes a twist bone of the directory copy its arm bone. */
  lemma TwistEditsFromDirectory<M(!new)>(bones: seq<BoneEntity<M>>, dir: string)
    ensures forall e :: e in TwistEdits(BoneMap(DirBones(bones, dir))) ==>
      exists p :: p in TwistPairs && DirBone(bones, dir, p.0, e.target) && DirBone(bones, dir, p.1, e.source)
  {
    var m := BoneMap(DirBones(bones, dir));
    forall n | n in m
      ensures DirBone(bones, dir, n, m[n])
    {
      BoneOfMap(bones, dir, n);
    }
    TwistEditsSound(m, bones, dir);
  }

  /** One `UpdateSkinnedMeshesIk(dir)` event: every edit makes a twist bone
      of the directory copy the transform of its arm bone in the same
      directory; there are edits iff the four left bones are in the
      directory, and four iff the four right ones are too. */
  function UpdateSkinnedMeshesIk<M(!new)>(dir: string, bones: seq<BoneEntity<M>>): (r: seq<CloneTransform>)
    ensures forall e :: e in r ==>
      exists p :: p in TwistPairs && DirBone(bones, dir, p.0, e.target) && DirBone(bones, dir, p.1, e.source)
    ensures |r| == 0 || |r| == 2 || |r| == 4
    ensures |r| > 0 <==> DirHasLeft(bones, dir)
    ensures |r| == 4 <==> DirHasLeft(bones, dir) && DirHasRight(bones, dir)
  {
    TwistEditsFromDirectory(bones, dir);
    TwistSidesFromDirectory(bones, dir);
    TwistEdits(BoneMap(DirBones(bones, dir)))
  }
}
