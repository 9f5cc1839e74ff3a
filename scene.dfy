/** The parsed milo objects the engine glue consumes, reduced to the fields
    its rules read, and the `MiloObject` component every placed entity
    carries (core/pikaxe_bevy/src/components.rs). Matrices, vertices and
    bitmaps are left abstract. */
module Scene {
  import opened Common

  /** Material blend mode; only `kBlendSrcAlpha` is ever tested. */
  datatype Blend = BlendSrcAlpha | OtherBlend(code: nat)

  /** Material depth mode; only `kZModeDisable` is ever tested. */
  datatype ZMode = ZModeDisable | OtherZMode(code: nat)

  /** One entry of an object directory. The five kinds that can sit in the
      transform hierarchy carry their `parent` field; the others do not. */
  datatype Object =
    | BandPlacer(name: string, parent: string)
    | Cam(name: string, parent: string)
    | CharClipSamples(name: string)
    | CharHair(name: string)
    | Group(name: string, parent: string)
    | Mesh(name: string, parent: string, vertCount: nat, faceCount: nat, mat: string)
    | Mat(name: string, blend: Blend, zMode: ZMode, diffuseTex: string, normalMap: string, emissiveMap: string)
    | Tex(name: string, hasBitmap: bool)
    | Trans(name: string, parent: string)
    | OtherObject(name: string, typeName: string)

  /** The kind-specific `parent` field (BandPlacer, Cam, Mesh, Group, Trans). */
  function KindParent(o: Object): (r: Option<string>)
    ensures r.Some? <==> (o.BandPlacer? || o.Cam? || o.Mesh? || o.Group? || o.Trans?)
    ensures r.Some? ==> r.value == o.parent
  {
    match o
    case BandPlacer(_, p) => Some(p)
    case Cam(_, p) => Some(p)
    case Group(_, p) => Some(p)
    case Mesh(_, p, _, _, _) => Some(p)
    case Trans(_, p) => Some(p)
    case _ => None
  }

  /** The `MiloObject { id, name, dir }` component. */
  datatype MiloObject = MiloObject(id: nat, name: string, dir: string)
}
