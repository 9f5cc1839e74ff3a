/** The preview app's decisions (apps/preview_ui/src/main.rs): which loader
    a dropped or opened file goes to, the fly-camera enable rule, the mesh
    statistics, the persisted window size and when closing the primary
    window exits. Opening an ark or a milo, saving settings and the GUI are
    foreign; their outcomes are parameters. */
module Preview {
  import opened Common

  // ---------------------------------------------------------------------
  // File type

  /** The "full extension": the file name from its first '.' on, or the
      whole name when it has none. `None` is the `unwrap` on a path with
      no (UTF-8) file name. */
  function Extension(fileName: Option<string>): (r: Option<string>)
    ensures r.Some? <==> fileName.Some?
    ensures r.Some? ==> (|r.value| <= |fileName.value|
      && fileName.value == fileName.value[..|fileName.value| - |r.value|] + r.value
      && '.' !in fileName.value[..|fileName.value| - |r.value|])
    ensures r.Some? && '.' in fileName.value ==> |r.value| > 0 && r.value[0] == '.'
    ensures r.Some? && '.' !in fileName.value ==> r.value == fileName.value
  {
    match fileName
    case None => None
    case Some(n) =>
      match IndexOf(n, '.')
      case None => assert n[..0] == []; Some(n)
      case Some(i) => assert n == n[..i] + n[i..]; Some(n[i..])
  }

  datatype FileKind = ArkHeader | MiloFile | UnknownFile

  /** "hdr" anywhere in the extension opens an ark and is tested first;
      otherwise "milo", "gh" or "rnd" open a milo. Case-sensitive. */
  function Dispatch(ext: string): (k: FileKind)
    ensures k == ArkHeader <==> Contains(ext, "hdr")
    ensures k == MiloFile <==> !Contains(ext, "hdr") && (Contains(ext, "milo") || Contains(ext, "gh") || Contains(ext, "rnd"))
  {
    if Contains(ext, "hdr") then ArkHeader
    else if Contains(ext, "milo") || Contains(ext, "gh") || Contains(ext, "rnd") then MiloFile
    else UnknownFile
  }

  /** Only the extension is tested: whatever the part before the first
      '.' contains, the file is dispatched by what follows it. */
  lemma DispatchIgnoresStem(stem: string, ext: string)
    requires '.' !in stem && |ext| > 0 && ext[0] == '.'
    ensures Extension(Some(stem + ext)) == Some(ext)
  {
    var n := stem + ext;
    assert n[|stem|] == '.';
    var i := IndexOf(n, '.');
    assert i.Some?;
    assert forall k :: 0 <= k < |stem| ==> n[k] == stem[k] && n[k] != '.';
    assert n[..i.value + 1][i.value] == '.';
    assert i.value == |stem|;
    assert n[|stem|..] == ext;
  }

  /** The file name has an extension dispatched as an ark header and the
      ark opened. */
  predicate ArkDone<A>(fileName: Option<string>, arkOpened: Option<A>)
  {
    Extension(fileName).Some? && Dispatch(Extension(fileName).value) == ArkHeader && arkOpened.Some?
  }

  /** The file name has an extension dispatched as a milo file and the
      milo opened. */
  predicate MiloDone<M, S>(fileName: Option<string>, miloOpened: Option<(M, S)>)
  {
    Extension(fileName).Some? && Dispatch(Extension(fileName).value) == MiloFile && miloOpened.Some?
  }

  /** Once the extension is known, the two outcomes are decided by its
      dispatch and by whether the open succeeded. */
  lemma OpenOutcome<A, M, S>(fileName: Option<string>, arkOpened: Option<A>, miloOpened: Option<(M, S)>)
    requires fileName.Some?
    ensures Extension(fileName).Some?
    ensures ArkDone(fileName, arkOpened) <==> Dispatch(Extension(fileName).value) == ArkHeader && arkOpened.Some?
    ensures MiloDone(fileName, miloOpened) <==> Dispatch(Extension(fileName).value) == MiloFile && miloOpened.Some?
  {
  }

  /** Application events this file emits. */
  datatype AppEvent = SelectMiloEntry(entry: Option<string>)

  /** The parts of `AppState` that opening a file touches, over the
      ark, ark tree, milo and system info types. */
  class AppState<A, R, M, S> {
    var openFilePath: Option<string>
    var ark: Option<A>
    var root: Option<R>
    var milo: Option<M>
    var systemInfo: Option<S>

    constructor()
      ensures openFilePath == None && ark == None && root == None && milo == None && systemInfo == None
    {
      openFilePath := None;
      ark := None;
      root := None;
      milo := None;
      systemInfo := None;
    }

    /** `open_file`. `arkOpened` is what `Ark::from_path` returns, `tree`
        the tree built from it, and `miloOpened` what
        `open_and_unpack_milo` returns. The open path is cleared first and
        set again only by a successful open; `ok` is false on the
        file-name `unwrap` panic. */
    method OpenFile(path: string, fileName: Option<string>, arkOpened: Option<A>, tree: R,
                    miloOpened: Option<(M, S)>) returns (ok: bool, events: seq<AppEvent>)
      modifies this
      ensures ok <==> fileName.Some?
      ensures openFilePath == if ArkDone(fileName, arkOpened) || MiloDone(fileName, miloOpened) then Some(path) else None
      ensures ark == if ArkDone(fileName, arkOpened) then arkOpened else old(ark)
      ensures root == if ArkDone(fileName, arkOpened) then Some(tree) else old(root)
      ensures milo == if MiloDone(fileName, miloOpened) then Some(miloOpened.value.0) else old(milo)
      ensures systemInfo == if MiloDone(fileName, miloOpened) then Some(miloOpened.value.1) else old(systemInfo)
      ensures events == if MiloDone(fileName, miloOpened) then [SelectMiloEntry(None)] else []
    {
      openFilePath := None;
      events := [];
      var ext := Extension(fileName);
      if ext.None? {
        return false, [];
      }
      ok := true;
      var kind := Dispatch(ext.value);
      OpenOutcome(fileName, arkOpened, miloOpened);
      if kind == ArkHeader {
        OpenArk(path, arkOpened, tree);
      } else if kind == MiloFile {
        events := OpenMilo(path, miloOpened);
      }
    }

    /** The "hdr" branch: a successful `Ark::from_path` replaces the ark
        and its tree and records the path; a failure changes nothing. */
    method OpenArk(path: string, arkOpened: Option<A>, tree: R)
      modifies this
      ensures openFilePath == if arkOpened.Some? then Some(path) else old(openFilePath)
      ensures ark == if arkOpened.Some? then arkOpened else old(ark)
      ensures root == if arkOpened.Some? then Some(tree) else old(root)
      ensures milo == old(milo) && systemInfo == old(systemInfo)
    {
      if arkOpened.Some? {
        root := Some(tree);
        ark := arkOpened;
        openFilePath := Some(path);
      }
    }

    /** The milo branch: a successful `open_and_unpack_milo` replaces the
        milo and system info, records the path and emits
        `SelectMiloEntry(None)`; a failure changes nothing. */
    method OpenMilo(path: string, miloOpened: Option<(M, S)>) returns (events: seq<AppEvent>)
      modifies this
      ensures openFilePath == if miloOpened.Some? then Some(path) else old(openFilePath)
      ensures milo == if miloOpened.Some? then Some(miloOpened.value.0) else old(milo)
      ensures systemInfo == if miloOpened.Some? then Some(miloOpened.value.1) else old(systemInfo)
      ensures ark == old(ark) && root == old(root)
      ensures events == if miloOpened.Some? then [SelectMiloEntry(None)] else []
    {
      events := [];
      if miloOpened.Some? {
        milo := Some(miloOpened.value.0);
        systemInfo := Some(miloOpened.value.1);
        openFilePath := Some(path);
        events := [SelectMiloEntry(None)];
      }
    }
  }

  // ---------------------------------------------------------------------
  // Fly camera

  datatype KeyCode = KeyW | KeyA | KeyS | KeyD | Space | ShiftLeft | OtherKey(code: nat)

  /** The movement keys, in the order they are checked. */
  const ControlKeys: seq<KeyCode> := [KeyW, KeyA, KeyS, KeyD, Space, ShiftLeft]

  function AnyPressed(keys: seq<KeyCode>, pressed: set<KeyCode>): (r: bool)
    ensures r <==> exists k :: k in keys && k in pressed
  {
    if keys == [] then false
    else keys[0] in pressed || AnyPressed(keys[1..], pressed)
  }

  /** `is_camera_button_down`: W, A, S, D, Space or left Shift is held. */
  function IsCameraButtonDown(pressed: set<KeyCode>): (r: bool)
    ensures r <==> (KeyW in pressed || KeyA in pressed || KeyS in pressed
                    || KeyD in pressed || Space in pressed || ShiftLeft in pressed)
  {
    AnyPressed(ControlKeys, pressed)
  }

  /** What a camera renders to. */
  datatype CamTarget = PrimaryTarget | WindowTarget(window: Entity) | OtherTarget

  /** A window with its egui pointer state. */
  datatype WindowInfo = WindowInfo(entity: Entity, focused: bool, isPrimary: bool,
                                   wantsPointer: bool, pointerOverArea: bool)

  datatype FlyCam = FlyCam(target: CamTarget, enabled: bool, sensitivity: real)

  /** The first focused window, if any. */
  function FocusedWindow(windows: seq<WindowInfo>): (r: Option<WindowInfo>)
    ensures r.None? <==> forall i :: 0 <= i < |windows| ==> !windows[i].focused
    ensures r.Some? ==> exists i :: 0 <= i < |windows| && windows[i] == r.value && r.value.focused
                          && forall j :: 0 <= j < i ==> !windows[j].focused
  {
    if windows == [] then None
    else if windows[0].focused then Some(windows[0])
    else
      assert forall i :: 1 <= i < |windows| ==> windows[1..][i - 1] == windows[i];
      var r := FocusedWindow(windows[1..]);
      assert r.Some? ==> exists i :: 1 <= i < |windows| && windows[i] == r.value
                          && forall j :: 0 <= j < i ==> !windows[j].focused;
      r
  }

  /** A camera belongs to the window: the primary target for the primary
      window, that window's entity for any other. */
  predicate CamMatchesWindow(w: WindowInfo, target: CamTarget) {
    (w.isPrimary && target == PrimaryTarget)
    || (!w.isPrimary && target.WindowTarget? && target.window == w.entity)
  }

  /** The camera update for the focused window `w`. */
  function UpdatedCam(c: FlyCam, w: WindowInfo, keyDown: bool, mouseDown: bool): (r: FlyCam)
    ensures r.target == c.target
    ensures r.enabled ==> w.focused && CamMatchesWindow(w, c.target)
  {
    FlyCam(c.target,
           !w.wantsPointer && !w.pointerOverArea && (keyDown || mouseDown)
             && CamMatchesWindow(w, c.target) && w.focused,
           if mouseDown then 3.0 else 0.0)
  }

  /** A camera flies only while it belongs to the focused window, egui
      does not claim the pointer and a movement key or the left mouse
      button is held; it turns only while the mouse button is held. */
  lemma FlyRule(c: FlyCam, w: WindowInfo, keyDown: bool, mouseDown: bool)
    requires w.focused
    ensures UpdatedCam(c, w, keyDown, mouseDown).enabled <==>
      (CamMatchesWindow(w, c.target) && !w.wantsPointer && !w.pointerOverArea && (keyDown || mouseDown))
    ensures UpdatedCam(c, w, keyDown, mouseDown).sensitivity > 0.0 <==> mouseDown
    ensures UpdatedCam(c, w, keyDown, mouseDown).target == c.target
  {
  }

  /** `control_camera`: with no focused window nothing changes; otherwise
      every camera is updated for the first focused window. */
  method ControlCamera(windows: seq<WindowInfo>, pressed: set<KeyCode>, mouseDown: bool, cams: seq<FlyCam>)
    returns (r: seq<FlyCam>)
    ensures FocusedWindow(windows).None? ==> r == cams
    ensures FocusedWindow(windows).Some? ==> |r| == |cams| && forall i :: 0 <= i < |cams| ==>
      r[i] == UpdatedCam(cams[i], FocusedWindow(windows).value, IsCameraButtonDown(pressed), mouseDown)
  {
    var focused := FocusedWindow(windows);
    if focused.None? {
      return cams;
    }
    var w := focused.value;
    var keyDown := IsCameraButtonDown(pressed);
    r := [];
    var i := 0;
    while i < |cams|
      invariant 0 <= i <= |cams| && |r| == i
      invariant forall j :: 0 <= j < i ==> r[j] == UpdatedCam(cams[j], w, keyDown, mouseDown)
    {
      var c := cams[i];
      var matches := (w.isPrimary && c.target == PrimaryTarget)
        || (!w.isPrimary && c.target.WindowTarget? && c.target.window == w.entity);
      var sensitivity := if mouseDown then 3.0 else 0.0;
      var enabled := !w.wantsPointer && !w.pointerOverArea && (keyDown || mouseDown) && (matches && w.focused);
      r := r + [FlyCam(c.target, enabled, sensitivity)];
      i := i + 1;
    }
  }

  // ---------------------------------------------------------------------
  // Mesh statistics

  /** The counts carried by a `WorldMesh` component. */
  datatype WorldMesh = WorldMesh(name: string, vertCount: nat, faceCount: nat)

  function TotalVerts(ms: seq<WorldMesh>): nat {
    if ms == [] then 0 else TotalVerts(Init(ms)) + Last(ms).vertCount
  }

  function TotalFaces(ms: seq<WorldMesh>): nat {
    if ms == [] then 0 else TotalFaces(Init(ms)) + Last(ms).faceCount
  }

  /** The totals add up over any split of the meshes, so they do not
      depend on how the query's results are grouped. */
  lemma {:induction false} TotalsSplit(a: seq<WorldMesh>, b: seq<WorldMesh>)
    ensures TotalVerts(a + b) == TotalVerts(a) + TotalVerts(b)
    ensures TotalFaces(a + b) == TotalFaces(a) + TotalFaces(b)
    decreases |b|
  {
    if b == [] {
      assert a + b == a;
    } else {
      assert Init(a + b) == a + Init(b) && Last(a + b) == Last(b);
      TotalsSplit(a, Init(b));
    }
  }

  /** Taking one mesh out of the list takes it out of the multiset. */
  lemma MultisetRemove(y: seq<WorldMesh>, k: nat)
    requires k < |y|
    ensures multiset(y[..k] + y[k + 1..]) == multiset(y) - multiset{y[k]}
  {
    assert y == y[..k] + [y[k]] + y[k + 1..];
    assert multiset(y) == multiset(y[..k]) + multiset{y[k]} + multiset(y[k + 1..]);
  }

  /** Taking one mesh out of the list takes its counts out of the totals. */
  lemma {:induction false} TotalsRemove(y: seq<WorldMesh>, k: nat)
    requires k < |y|
    ensures TotalVerts(y) == TotalVerts(y[..k] + y[k + 1..]) + y[k].vertCount
    ensures TotalFaces(y) == TotalFaces(y[..k] + y[k + 1..]) + y[k].faceCount
    decreases |y|
  {
    var rest := y[..k] + y[k + 1..];
    if k == |y| - 1 {
      assert rest == Init(y);
    } else {
      var front := Init(y);
      TotalsRemove(front, k);
      assert front[k] == y[k];
      assert rest == (front[..k] + front[k + 1..]) + [Last(y)];
      assert Init(rest) == front[..k] + front[k + 1..] && Last(rest) == Last(y);
    }
  }

  /** The totals do not depend on the order the query yields the meshes in:
      any two orderings of the same meshes give the same counts. */
  lemma {:induction false} TotalsOfPermutation(x: seq<WorldMesh>, y: seq<WorldMesh>)
    requires multiset(x) == multiset(y)
    ensures TotalVerts(x) == TotalVerts(y)
    ensures TotalFaces(x) == TotalFaces(y)
    decreases |x|
  {
    if x == [] {
      assert |y| == |multiset(y)| == 0;
    } else {
      var l := Last(x);
      assert x == Init(x) + [l];
      assert multiset(Init(x)) == multiset(x) - multiset{l};
      assert l in multiset(y);
      var k :| 0 <= k < |y| && y[k] == l;
      MultisetRemove(y, k);
      TotalsRemove(y, k);
      TotalsOfPermutation(Init(x), y[..k] + y[k + 1..]);
    }
  }

  /** `detect_meshes`: the vertex and face totals over all world meshes. */
  method DetectMeshes(ms: seq<WorldMesh>) returns (vertexCount: nat, faceCount: nat)
    ensures vertexCount == TotalVerts(ms) && faceCount == TotalFaces(ms)
  {
    vertexCount, faceCount := 0, 0;
    var i := 0;
    while i < |ms|
      invariant 0 <= i <= |ms|
      invariant vertexCount == TotalVerts(ms[..i]) && faceCount == TotalFaces(ms[..i])
    {
      assert Init(ms[..i + 1]) == ms[..i] && Last(ms[..i + 1]) == ms[i];
      vertexCount := vertexCount + ms[i].vertCount;
      faceCount := faceCount + ms[i].faceCount;
      i := i + 1;
    }
    assert ms[..i] == ms;
  }

  // ---------------------------------------------------------------------
  // Window settings

  /** A settings snapshot as written by `save_settings`. */
  datatype Saved = Saved(maximized: bool, width: real, height: real)

  /** The window fields of `AppSettings`, with the snapshots saved so far. */
  class AppSettings {
    var maximized: bool
    var windowWidth: real
    var windowHeight: real
    var saved: seq<Saved>

    constructor(maximized: bool, width: real, height: real)
      ensures this.maximized == maximized && windowWidth == width && windowHeight == height && saved == []
    {
      this.maximized := maximized;
      windowWidth := width;
      windowHeight := height;
      saved := [];
    }

    function Snapshot(): Saved
      reads this
    {
      Saved(maximized, windowWidth, windowHeight)
    }

    /** The snapshots saved for a run of resize events while not
        maximized: one per event, in order, with that event's size. */
    static function ResizeLog(events: seq<(real, real)>): (r: seq<Saved>)
      ensures |r| == |events|
    {
      seq(|events|, i requires 0 <= i < |events| => Saved(false, events[i].0, events[i].1))
    }

    /** `window_resized`. A change of the maximized state only records the
        new state and saves once; while maximized nothing happens;
        otherwise each resize event is stored and saved in turn. */
    method WindowResized(maximizedNow: bool, events: seq<(real, real)>)
      modifies this
      ensures maximized == maximizedNow
      ensures old(maximized) != maximizedNow ==>
        windowWidth == old(windowWidth) && windowHeight == old(windowHeight)
        && saved == old(saved) + [Snapshot()]
      ensures old(maximized) == maximizedNow && maximizedNow ==>
        windowWidth == old(windowWidth) && windowHeight == old(windowHeight) && saved == old(saved)
      ensures old(maximized) == maximizedNow && !maximizedNow ==>
        |saved| == |old(saved)| + |events|
        && (events == [] ==> windowWidth == old(windowWidth) && windowHeight == old(windowHeight))
        && (events != [] ==> windowWidth == Last(events).0 && windowHeight == Last(events).1)
        && (forall i :: 0 <= i < |events| ==> saved[|old(saved)| + i] == Saved(false, events[i].0, events[i].1))
        && saved == old(saved) + ResizeLog(events)
    {
      if maximized != maximizedNow {
        maximized := maximizedNow;
        saved := saved + [Snapshot()];
        return;
      }
      if maximizedNow {
        return;
      }
      var i := 0;
      while i < |events|
        invariant 0 <= i <= |events|
        invariant !maximized && |saved| == |old(saved)| + i
        invariant saved[..|old(saved)|] == old(saved)
        invariant i == 0 ==> windowWidth == old(windowWidth) && windowHeight == old(windowHeight)
        invariant i > 0 ==> windowWidth == events[i - 1].0 && windowHeight == events[i - 1].1
        invariant forall j :: 0 <= j < i ==> saved[|old(saved)| + j] == Saved(false, events[j].0, events[j].1)
      {
        windowWidth := events[i].0;
        windowHeight := events[i].1;
        saved := saved + [Snapshot()];
        i := i + 1;
      }
      assert saved[|old(saved)|..] == ResizeLog(events);
      assert saved == saved[..|old(saved)|] + saved[|old(saved)|..];
    }
  }

  /** `window_closed`: when the primary window goes away, the windows
      without `PrimaryWindow` are queried and exit is requested as soon as
      one of them is found, that is, exactly when some other window is
      still open. */
  function WindowClosed(windows: seq<WindowInfo>): (exit: bool)
    ensures exit <==> exists i :: 0 <= i < |windows| && !windows[i].isPrimary
  {
    if windows == [] then false
    else
      assert forall i :: 1 <= i < |windows| ==> windows[1..][i - 1] == windows[i];
      !windows[0].isPrimary || WindowClosed(windows[1..])
  }
}
