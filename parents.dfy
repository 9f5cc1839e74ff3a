/** `update_milo_object_parents` (core/pikaxe_bevy/src/plugins.rs): after a
    batch of milo objects has been placed under the root, every placed
    object that is not flagged `ParentOverride` is given a `ChildOf` edit
    naming either the entity of its named parent or the root.

    The ECS query becomes a snapshot sequence of rows; the deferred
    `Commands` become the returned list of edits, and `log::warn!` becomes
    a returned list of the parent names that could not be found. */
module Parents {
  import opened Common
  import opened Scene

  /** One row of the query `(Entity, &MiloObject, Has<ParentOverride>,
      Option<&CustomParent>)`, with the object already looked up in
      `MiloState.objects`. */
  datatype Placed = Placed(entity: Entity, obj: Object, parentOverride: bool, customParent: Option<string>)

  /** `commands.entity(child).insert(ChildOf(parent))` */
  datatype Edit = ChildOf(child: Entity, parent: Entity)

  /** A parent name is honoured only if non-empty and not the object's own name. */
  predicate NamesParent(p: string, name: string) {
    p != "" && p != name
  }

  /** The parent a row declares, by the source's precedence: a valid
      kind-specific `parent` field wins over a valid `CustomParent`. */
  function DeclaredParent(q: Placed): Option<string> {
    var kind := KindParent(q.obj);
    if kind.Some? && NamesParent(kind.value, q.obj.name) then kind
    else if q.customParent.Some? && NamesParent(q.customParent.value, q.obj.name) then q.customParent
    else None
  }

  /** The names appearing in a snapshot. */
  function Names(objs: seq<Placed>): set<string> {
    set q | q in objs :: q.obj.name
  }

  /** No two rows share a name (names are unique within a load batch). */
  predicate UniqueNames(objs: seq<Placed>) {
    forall i, j :: 0 <= i < j < |objs| ==> objs[i].obj.name != objs[j].obj.name
  }

  /** No two rows share an entity, and none of them is the root. */
  predicate DistinctEntities(objs: seq<Placed>, root: Entity) {
    (forall i, j :: 0 <= i < j < |objs| ==> objs[i].entity != objs[j].entity)
    && (forall i :: 0 <= i < |objs| ==> objs[i].entity != root)
  }

  /** The (name, entity) pair the `entity_map` fold inserts for each row, in row order. */
  function NamedEntities(objs: seq<Placed>): (ps: seq<(string, Entity)>)
    ensures |ps| == |objs|
    ensures forall i :: 0 <= i < |objs| ==> ps[i] == (objs[i].obj.name, objs[i].entity)
  {
    seq(|objs|, i requires 0 <= i < |objs| => (objs[i].obj.name, objs[i].entity))
  }

  /** The `entity_map` fold: `insert(name, entity)` row by row, so a name
      carried by several rows ends up with the entity of the last of them. */
  function EntityMap(objs: seq<Placed>): (m: map<string, Entity>)
    ensures m.Keys == Names(objs)
    ensures m == LastWins(NamedEntities(objs))
  {
    if objs == [] then map[]
    else
      var q := Last(objs);
      EntityMapStep(objs);
      EntityMap(Init(objs))[q.obj.name := q.entity]
  }

  /** One more row adds its name and inserts its (name, entity) pair. */
  lemma EntityMapStep(objs: seq<Placed>)
    requires objs != []
    ensures Names(objs) == Names(Init(objs)) + {Last(objs).obj.name}
    ensures LastWins(NamedEntities(objs)) == LastWins(NamedEntities(Init(objs)))[Last(objs).obj.name := Last(objs).entity]
  {
    var q := Last(objs);
    assert objs == Init(objs) + [q];
    assert NamedEntities(objs) == NamedEntities(Init(objs)) + [(q.obj.name, q.entity)];
    LastWinsSnoc(NamedEntities(Init(objs)), (q.obj.name, q.entity));
  }

  /** One step of the `parent_map` fold: insert the valid `CustomParent`,
      then insert the valid kind-specific parent over it. */
  function ParentStep(m: map<string, string>, q: Placed): (r: map<string, string>)
    ensures r.Keys <= m.Keys + {q.obj.name}
    ensures forall n :: n in m && n != q.obj.name ==> n in r && r[n] == m[n]
    ensures DeclaredParent(q).Some? ==> q.obj.name in r && r[q.obj.name] == DeclaredParent(q).value
    ensures DeclaredParent(q).None? ==> r == m
  {
    var name := q.obj.name;
    var m1 := if q.customParent.Some? && NamesParent(q.customParent.value, name) then m[name := q.customParent.value] else m;
    var kind := KindParent(q.obj);
    if kind.Some? && NamesParent(kind.value, name) then m1[name := kind.value] else m1
  }

  /** The (name, parent) pairs the `parent_map` fold inserts for one row:
      its valid `CustomParent`, then its valid kind-specific parent. */
  function RowParents(q: Placed): seq<(string, string)> {
    var name := q.obj.name;
    var kind := KindParent(q.obj);
    (if q.customParent.Some? && NamesParent(q.customParent.value, name) then [(name, q.customParent.value)] else [])
    + (if kind.Some? && NamesParent(kind.value, name) then [(name, kind.value)] else [])
  }

  /** All the inserts of the `parent_map` fold, row by row. */
  function ParentPairs(objs: seq<Placed>): seq<(string, string)> {
    if objs == [] then [] else ParentPairs(Init(objs)) + RowParents(Last(objs))
  }

  /** One fold step is the row's inserts, applied in order. */
  lemma ParentStepInserts(ps: seq<(string, string)>, q: Placed)
    ensures ParentStep(LastWins(ps), q) == LastWins(ps + RowParents(q))
  {
    var name := q.obj.name;
    var kind := KindParent(q.obj);
    var a := if q.customParent.Some? && NamesParent(q.customParent.value, name) then [(name, q.customParent.value)] else [];
    var b := if kind.Some? && NamesParent(kind.value, name) then [(name, kind.value)] else [];
    assert RowParents(q) == a + b;
    assert ps + (a + b) == (ps + a) + b;
    if a != [] {
      LastWinsSnoc(ps, a[0]);
    } else {
      assert ps + a == ps;
    }
    if b != [] {
      LastWinsSnoc(ps + a, b[0]);
    } else {
      assert (ps + a) + b == ps + a;
    }
  }

  /** The `parent_map` fold: object name -> declared parent name. A name
      carried by several rows ends up with the last parent inserted for it. */
  function ParentMap(objs: seq<Placed>): (m: map<string, string>)
    ensures m.Keys <= Names(objs)
    ensures m == LastWins(ParentPairs(objs))
  {
    if objs == [] then map[]
    else
      assert objs == Init(objs) + [Last(objs)];
      ParentStepInserts(ParentPairs(Init(objs)), Last(objs));
      ParentStep(ParentMap(Init(objs)), Last(objs))
  }

  /** The entity a row is attached to: its parent's entity, or the root. */
  function NewParent(q: Placed, entities: map<string, Entity>, parents: map<string, string>, root: Entity): (r: Entity)
    ensures r == root || r in entities.Values
  {
    if q.obj.name in parents && parents[q.obj.name] in entities then entities[parents[q.obj.name]] else root
  }

  /** The edits the loop issues for the rows `objs`, in row order. */
  function EditsFor(objs: seq<Placed>, entities: map<string, Entity>, parents: map<string, string>, root: Entity): seq<Edit> {
    if objs == [] then []
    else
      var q := Last(objs);
      EditsFor(Init(objs), entities, parents, root)
        + (if q.parentOverride then [] else [ChildOf(q.entity, NewParent(q, entities, parents, root))])
  }

  /** The parent names the loop warns about ("Can't find trans"), in row order. */
  function WarningsFor(objs: seq<Placed>, entities: map<string, Entity>, parents: map<string, string>): seq<string> {
    if objs == [] then []
    else
      var q := Last(objs);
      WarningsFor(Init(objs), entities, parents)
        + (if !q.parentOverride && q.obj.name in parents && parents[q.obj.name] !in entities then [parents[q.obj.name]] else [])
  }

  /** The edits of one run: one per non-overridden row, in row order, each
      naming the parent the rule prescribes for that row. */
  function Resolve(objs: seq<Placed>, root: Entity): (r: seq<Edit>)
    ensures Children(r) == Reparented(objs)
    ensures r == ExpectedEdits(objs, objs, root)
  {
    EditsFollowRows(objs, EntityMap(objs), ParentMap(objs), root);
    EditsAreExpected(objs, objs, root);
    EditsFor(objs, EntityMap(objs), ParentMap(objs), root)
  }

  /** The warnings of one run: for each non-overridden row, in row order,
      the recorded parent name when it names no row of the snapshot. */
  function Warnings(objs: seq<Placed>): (r: seq<string>)
    ensures r == UnknownParents(objs, objs)
  {
    WarningsAreUnknown(objs, objs);
    WarningsFor(objs, EntityMap(objs), ParentMap(objs))
  }

  /** The system itself: nothing happens unless a milo was just loaded;
      otherwise both maps are built from the snapshot first and then one
      edit is issued per non-overridden row. */
  method UpdateMiloObjectParents(milosUpdated: bool, objs: seq<Placed>, root: Entity)
    returns (edits: seq<Edit>, warnings: seq<string>)
    ensures !milosUpdated ==> edits == [] && warnings == []
    ensures milosUpdated ==> edits == Resolve(objs, root) && warnings == Warnings(objs)
  {
    edits, warnings := [], [];
    if !milosUpdated {
      return;
    }
    var entities := EntityMap(objs);
    var parents := ParentMap(objs);
    edits, warnings := ReparentRows(objs, entities, parents, root);
  }

  /** The loop of the system, over the two maps built beforehand. */
  method ReparentRows(objs: seq<Placed>, entities: map<string, Entity>, parents: map<string, string>, root: Entity)
    returns (edits: seq<Edit>, warnings: seq<string>)
    ensures edits == EditsFor(objs, entities, parents, root)
    ensures warnings == WarningsFor(objs, entities, parents)
  {
    edits, warnings := [], [];
    var i := 0;
    while i < |objs|
      invariant 0 <= i <= |objs|
      invariant edits == EditsFor(objs[..i], entities, parents, root)
      invariant warnings == WarningsFor(objs[..i], entities, parents)
    {
      var q := objs[i];
      assert Init(objs[..i + 1]) == objs[..i];
      if !q.parentOverride {
        var parent := root;
        if q.obj.name in parents {
          var p := parents[q.obj.name];
          if p in entities {
            parent := entities[p];
          } else {
            warnings := warnings + [p];
          }
        }
        edits := edits + [ChildOf(q.entity, parent)];
      }
      i := i + 1;
    }
    assert objs[..i] == objs;
  }

  // ---------------------------------------------------------------------
  // Which rows get an edit

  /** The entities of the rows without `ParentOverride`, in row order. */
  function Reparented(objs: seq<Placed>): seq<Entity> {
    if objs == [] then []
    else Reparented(Init(objs)) + (if Last(objs).parentOverride then [] else [Last(objs).entity])
  }

  function Children(edits: seq<Edit>): seq<Entity> {
    if edits == [] then [] else Children(Init(edits)) + [Last(edits).child]
  }

  /** One edit per non-overridden row, in row order, and no other edit. */
  lemma {:induction false} EditsFollowRows(objs: seq<Placed>, entities: map<string, Entity>, parents: map<string, string>, root: Entity)
    ensures Children(EditsFor(objs, entities, parents, root)) == Reparented(objs)
  {
    if objs != [] {
      EditsFollowRows(Init(objs), entities, parents, root);
      var e := EditsFor(Init(objs), entities, parents, root);
      if Last(objs).parentOverride {
        assert EditsFor(objs, entities, parents, root) == e + [] == e;
        assert Reparented(objs) == Reparented(Init(objs)) + [] == Reparented(Init(objs));
      } else {
        var e' := e + [ChildOf(Last(objs).entity, NewParent(Last(objs), entities, parents, root))];
        assert EditsFor(objs, entities, parents, root) == e';
        assert Init(e') == e && Last(e').child == Last(objs).entity;
        assert Children(e') == Children(e) + [Last(objs).entity];
      }
    }
  }

  lemma {:induction false} ReparentedRows(objs: seq<Placed>, e: Entity)
    ensures e in Reparented(objs) <==> exists i :: 0 <= i < |objs| && objs[i].entity == e && !objs[i].parentOverride
  {
    if objs != [] {
      ReparentedRows(Init(objs), e);
      assert forall i :: 0 <= i < |objs| - 1 ==> Init(objs)[i] == objs[i];
    }
  }

  lemma {:induction false} ReparentedOnce(objs: seq<Placed>, root: Entity, i: nat)
    requires i < |objs| && !objs[i].parentOverride
    requires DistinctEntities(objs, root)
    ensures multiset(Reparented(objs))[objs[i].entity] == 1
  {
    if i == |objs| - 1 {
      ReparentedRows(Init(objs), objs[i].entity);
      assert forall j :: 0 <= j < |objs| - 1 ==> Init(objs)[j] == objs[j];
      assert objs[i].entity !in Reparented(Init(objs));
    } else {
      assert forall j :: 0 <= j < |objs| - 1 ==> Init(objs)[j] == objs[j];
      ReparentedOnce(Init(objs), root, i);
    }
  }

  /** A row carrying `ParentOverride` is never reparented. */
  lemma OverriddenNeverReparented(objs: seq<Placed>, root: Entity, i: nat)
    requires i < |objs| && objs[i].parentOverride
    requires DistinctEntities(objs, root)
    ensures objs[i].entity !in Children(Resolve(objs, root))
  {
    EditsFollowRows(objs, EntityMap(objs), ParentMap(objs), root);
    ReparentedRows(objs, objs[i].entity);
  }

  /** Every other row receives exactly one `ChildOf`. */
  lemma OthersReparentedOnce(objs: seq<Placed>, root: Entity, i: nat)
    requires i < |objs| && !objs[i].parentOverride
    requires DistinctEntities(objs, root)
    ensures multiset(Children(Resolve(objs, root)))[objs[i].entity] == 1
  {
    EditsFollowRows(objs, EntityMap(objs), ParentMap(objs), root);
    ReparentedOnce(objs, root, i);
  }

  // ---------------------------------------------------------------------
  // Which parent an edit names

  /** The entity of the last row named `n`, searching back from the end. */
  function LastEntity(objs: seq<Placed>, n: string): (r: Option<Entity>)
    ensures r.None? <==> n !in Names(objs)
    ensures r.Some? ==> exists i :: 0 <= i < |objs| && objs[i].obj.name == n && objs[i].entity == r.value
  {
    if objs == [] then None
    else
      assert forall i :: 0 <= i < |objs| - 1 ==> Init(objs)[i] == objs[i];
      assert objs == Init(objs) + [Last(objs)];
      if Last(objs).obj.name == n then Some(Last(objs).entity) else LastEntity(Init(objs), n)
  }

  /** The parent declared by the last row named `n` that declares one. */
  function LastDeclared(objs: seq<Placed>, n: string): (r: Option<string>)
    ensures r.Some? ==> NamesParent(r.value, n)
    ensures r.Some? ==> exists i :: 0 <= i < |objs| && objs[i].obj.name == n && DeclaredParent(objs[i]) == r
  {
    if objs == [] then None
    else
      assert forall i :: 0 <= i < |objs| - 1 ==> Init(objs)[i] == objs[i];
      var q := Last(objs);
      if q.obj.name == n && DeclaredParent(q).Some? then DeclaredParent(q) else LastDeclared(Init(objs), n)
  }

  /** The entity map holds, for each name, the entity of its last row. */
  lemma {:induction false} EntityMapIsLastEntity(objs: seq<Placed>, n: string)
    ensures n in EntityMap(objs) <==> LastEntity(objs, n).Some?
    ensures n in EntityMap(objs) ==> EntityMap(objs)[n] == LastEntity(objs, n).value
  {
    if objs != [] {
      EntityMapIsLastEntity(Init(objs), n);
    }
  }

  /** The parent map holds, for each name, the parent declared by the last
      row of that name that declares one. */
  lemma {:induction false} ParentMapIsLastDeclared(objs: seq<Placed>, n: string)
    ensures n in ParentMap(objs) <==> LastDeclared(objs, n).Some?
    ensures n in ParentMap(objs) ==> ParentMap(objs)[n] == LastDeclared(objs, n).value
  {
    if objs != [] {
      ParentMapIsLastDeclared(Init(objs), n);
    }
  }

  /** With unique names, the entity map sends each row's name to its entity. */
  lemma {:induction false} EntityMapUnique(objs: seq<Placed>, i: nat)
    requires i < |objs| && UniqueNames(objs)
    ensures EntityMap(objs)[objs[i].obj.name] == objs[i].entity
  {
    if i < |objs| - 1 {
      assert forall j :: 0 <= j < |objs| - 1 ==> Init(objs)[j] == objs[j];
      EntityMapUnique(Init(objs), i);
    }
  }

  /** With unique names, the parent map holds exactly the declared parents. */
  lemma {:induction false} ParentMapUnique(objs: seq<Placed>, i: nat)
    requires i < |objs| && UniqueNames(objs)
    ensures objs[i].obj.name in ParentMap(objs) <==> DeclaredParent(objs[i]).Some?
    ensures DeclaredParent(objs[i]).Some? ==> ParentMap(objs)[objs[i].obj.name] == DeclaredParent(objs[i]).value
  {
    assert forall j :: 0 <= j < |objs| - 1 ==> Init(objs)[j] == objs[j];
    if i < |objs| - 1 {
      ParentMapUnique(Init(objs), i);
    } else {
      assert objs[i].obj.name !in Names(Init(objs));
    }
  }

  /** The parent the rule prescribes for row `q` of the snapshot `objs`.
      The parent name recorded for `q`'s name is the one declared by the
      last row of that name that declares one, so a row declaring nothing
      inherits the parent of a same-named row. That name resolves to the
      entity of the last row carrying it. With no recorded parent, or one
      naming no row, the parent is the root. */
  function ExpectedParent(objs: seq<Placed>, q: Placed, root: Entity): Entity {
    match LastDeclared(objs, q.obj.name)
    case None => root
    case Some(p) =>
      match LastEntity(objs, p)
      case Some(e) => e
      case None => root
  }

  /** The lookups of the loop implement the rule, for any names. */
  lemma ParentRule(objs: seq<Placed>, q: Placed, root: Entity)
    ensures NewParent(q, EntityMap(objs), ParentMap(objs), root) == ExpectedParent(objs, q, root)
  {
    ParentMapIsLastDeclared(objs, q.obj.name);
    match LastDeclared(objs, q.obj.name)
    case None =>
    case Some(p) => EntityMapIsLastEntity(objs, p);
  }

  /** The edits the rule prescribes for `rows`, judged against the snapshot `objs`. */
  function ExpectedEdits(rows: seq<Placed>, objs: seq<Placed>, root: Entity): seq<Edit> {
    if rows == [] then []
    else
      var q := Last(rows);
      ExpectedEdits(Init(rows), objs, root) + (if q.parentOverride then [] else [ChildOf(q.entity, ExpectedParent(objs, q, root))])
  }

  lemma {:induction false} EditsAreExpected(rows: seq<Placed>, objs: seq<Placed>, root: Entity)
    ensures EditsFor(rows, EntityMap(objs), ParentMap(objs), root) == ExpectedEdits(rows, objs, root)
  {
    if rows != [] {
      EditsAreExpected(Init(rows), objs, root);
      ParentRule(objs, Last(rows), root);
    }
  }

  /** The warning the rule prescribes for row `q`: its recorded parent name
      when that names no row of the snapshot. */
  function UnknownParent(objs: seq<Placed>, q: Placed): seq<string> {
    if q.parentOverride then []
    else
      match LastDeclared(objs, q.obj.name)
      case None => []
      case Some(p) => if p in Names(objs) then [] else [p]
  }

  /** The warnings the rule prescribes for `rows`, in row order. */
  function UnknownParents(rows: seq<Placed>, objs: seq<Placed>): seq<string> {
    if rows == [] then [] else UnknownParents(Init(rows), objs) + UnknownParent(objs, Last(rows))
  }

  lemma {:induction false} WarningsAreUnknown(rows: seq<Placed>, objs: seq<Placed>)
    ensures WarningsFor(rows, EntityMap(objs), ParentMap(objs)) == UnknownParents(rows, objs)
  {
    if rows != [] {
      WarningsAreUnknown(Init(rows), objs);
      ParentMapIsLastDeclared(objs, Last(rows).obj.name);
    }
  }

  lemma {:induction false} EditForRow(objs: seq<Placed>, entities: map<string, Entity>, parents: map<string, string>, root: Entity, i: nat)
    requires i < |objs| && !objs[i].parentOverride
    ensures ChildOf(objs[i].entity, NewParent(objs[i], entities, parents, root)) in EditsFor(objs, entities, parents, root)
  {
    if i < |objs| - 1 {
      assert Init(objs)[i] == objs[i];
      EditForRow(Init(objs), entities, parents, root, i);
    }
  }

  /** The edit a non-overridden row receives names the prescribed parent. */
  lemma ResolvedParent(objs: seq<Placed>, i: nat, root: Entity)
    requires i < |objs| && !objs[i].parentOverride
    ensures ChildOf(objs[i].entity, ExpectedParent(objs, objs[i], root)) in Resolve(objs, root)
  {
    ParentRule(objs, objs[i], root);
    EditForRow(objs, EntityMap(objs), ParentMap(objs), root, i);
  }

  lemma {:induction false} WarningForRow(objs: seq<Placed>, entities: map<string, Entity>, parents: map<string, string>, i: nat)
    requires i < |objs| && !objs[i].parentOverride
    requires objs[i].obj.name in parents && parents[objs[i].obj.name] !in entities
    ensures parents[objs[i].obj.name] in WarningsFor(objs, entities, parents)
  {
    if i < |objs| - 1 {
      assert Init(objs)[i] == objs[i];
      WarningForRow(Init(objs), entities, parents, i);
    }
  }

  /** A recorded parent that names no row of the snapshot falls back to the
      root and is reported. */
  lemma UnknownParentWarns(objs: seq<Placed>, i: nat, root: Entity)
    requires i < |objs| && !objs[i].parentOverride
    requires LastDeclared(objs, objs[i].obj.name).Some? && LastDeclared(objs, objs[i].obj.name).value !in Names(objs)
    ensures ChildOf(objs[i].entity, root) in Resolve(objs, root)
    ensures LastDeclared(objs, objs[i].obj.name).value in Warnings(objs)
  {
    ResolvedParent(objs, i, root);
    ParentMapIsLastDeclared(objs, objs[i].obj.name);
    WarningForRow(objs, EntityMap(objs), ParentMap(objs), i);
  }

  /** A row is never attached to itself, whatever the names. */
  lemma NewParentNotSelf(objs: seq<Placed>, i: nat, root: Entity)
    requires i < |objs| && DistinctEntities(objs, root)
    ensures NewParent(objs[i], EntityMap(objs), ParentMap(objs), root) != objs[i].entity
  {
    var entities, parents := EntityMap(objs), ParentMap(objs);
    var name := objs[i].obj.name;
    if name in parents && parents[name] in entities {
      ParentMapNamesParent(objs, name);
      var p := parents[name];
      EntityMapIsLastEntity(objs, p);
      var j :| 0 <= j < |objs| && objs[j].obj.name == p && objs[j].entity == entities[p];
      assert j != i;
    }
  }

  lemma {:induction false} EditsNeverSelf(rows: seq<Placed>, entities: map<string, Entity>, parents: map<string, string>, root: Entity)
    requires forall i :: 0 <= i < |rows| ==> NewParent(rows[i], entities, parents, root) != rows[i].entity
    ensures forall e :: e in EditsFor(rows, entities, parents, root) ==> e.parent != e.child
  {
    if rows != [] {
      assert forall i :: 0 <= i < |rows| - 1 ==> Init(rows)[i] == rows[i];
      EditsNeverSelf(Init(rows), entities, parents, root);
    }
  }

  /** No edit ever makes an object its own parent. */
  lemma NeverOwnParent(objs: seq<Placed>, root: Entity)
    requires DistinctEntities(objs, root)
    ensures forall e :: e in Resolve(objs, root) ==> e.parent != e.child
  {
    forall i | 0 <= i < |objs|
      ensures NewParent(objs[i], EntityMap(objs), ParentMap(objs), root) != objs[i].entity
    {
      NewParentNotSelf(objs, i, root);
    }
    EditsNeverSelf(objs, EntityMap(objs), ParentMap(objs), root);
  }

  /** Every entry of the parent map names some other object. */
  lemma {:induction false} ParentMapNamesParent(objs: seq<Placed>, n: string)
    requires n in ParentMap(objs)
    ensures ParentMap(objs)[n] != n
  {
    if objs != [] {
      if n in ParentMap(Init(objs)) {
        ParentMapNamesParent(Init(objs), n);
      }
    }
  }

  // ---------------------------------------------------------------------
  // Applying the edits

  /** The live parent links after applying a batch of edits in order. */
  function Apply(edits: seq<Edit>, parents: map<Entity, Entity>): map<Entity, Entity> {
    if edits == [] then parents else Apply(Init(edits), parents)[Last(edits).child := Last(edits).parent]
  }

  lemma {:induction false} ApplyOverwrites(edits: seq<Edit>, parents: map<Entity, Entity>)
    ensures Apply(edits, parents) == parents + Apply(edits, map[])
  {
    if edits != [] {
      ApplyOverwrites(Init(edits), parents);
    }
  }

  lemma {:induction false} ChildOfEdit(edits: seq<Edit>, e: Edit)
    requires e in edits
    ensures e.child in Children(edits)
  {
    if e != Last(edits) {
      assert edits == Init(edits) + [Last(edits)];
      ChildOfEdit(Init(edits), e);
    }
  }

  /** A child named by exactly one edit ends up with that edit's parent. */
  lemma {:induction false} ApplyOnce(edits: seq<Edit>, parents: map<Entity, Entity>, c: Entity, x: Entity)
    requires ChildOf(c, x) in edits && multiset(Children(edits))[c] == 1
    ensures c in Apply(edits, parents) && Apply(edits, parents)[c] == x
  {
    var l := Last(edits);
    assert edits == Init(edits) + [l];
    assert multiset(Children(edits)) == multiset(Children(Init(edits))) + multiset{l.child};
    if l.child == c {
      if ChildOf(c, x) != l {
        ChildOfEdit(Init(edits), ChildOf(c, x));
      }
    } else {
      ApplyOnce(Init(edits), parents, c, x);
    }
  }

  /** After the edits are applied, every non-overridden row hangs under the
      parent the rule prescribes. */
  lemma AppliedParent(objs: seq<Placed>, root: Entity, parents: map<Entity, Entity>, i: nat)
    requires i < |objs| && !objs[i].parentOverride
    requires DistinctEntities(objs, root)
    ensures objs[i].entity in Apply(Resolve(objs, root), parents)
    ensures Apply(Resolve(objs, root), parents)[objs[i].entity] == ExpectedParent(objs, objs[i], root)
  {
    ResolvedParent(objs, i, root);
    OthersReparentedOnce(objs, root, i);
    ApplyOnce(Resolve(objs, root), parents, objs[i].entity, ExpectedParent(objs, objs[i], root));
  }

  /** Running resolution twice on the same snapshot is a no-op the second time. */
  lemma ApplyIdempotent(objs: seq<Placed>, root: Entity, parents: map<Entity, Entity>)
    ensures var edits := Resolve(objs, root);
            Apply(edits, Apply(edits, parents)) == Apply(edits, parents)
  {
    var edits := Resolve(objs, root);
    ApplyOverwrites(edits, parents);
    ApplyOverwrites(edits, Apply(edits, parents));
    assert parents + Apply(edits, map[]) + Apply(edits, map[]) == parents + Apply(edits, map[]);
  }
}
