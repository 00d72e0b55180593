/** WPEWaylandSubsurface: creation that can fail anywhere, and the teardown Wayland demands. */
module Subsurface {

  /** 0 is the null handle. Handles are never reused. */
  type Handle = nat

  datatype Kind =
    | RegistryKind | CompositorKind | SubcompositorKind | SurfaceKind | SubsurfaceKind
    | EglWindowKind | EglContextKind | EglSurfaceKind

  datatype Object = Object(kind: Kind, handle: Handle)

  /** The platform as a monitor: what exists, and whether every call so far respected the rules. */
  datatype World = World(
    next: Handle,
    live: set<Object>,            // created and not destroyed
    names: set<Handle>,           // GL names, which belong to the context
    queue: Handle,                // the private event queue
    queued: set<Object>,          // live proxies on the private queue
    roles: map<Object, Object>,   // live subsurface -> its surface, live EGL surface -> its window
    shown: Rect,                  // position of the subsurface, size of the EGL window
    current: Handle,              // the current context
    attempts: nat,                // creation attempts
    swaps: nat,                   // frames drawn, each a commit of the surface
    rules: bool)                  // no call so far used a dead handle or destroyed out of order
  {
    function Create(kind: Kind, ok: bool): World {
      if ok then this.(next := next + 1, live := live + {Object(kind, next)}) else this
    }

    function CreateQueue(): World {
      this.(next := next + 1, queue := next)
    }

    /** A proxy made from one that lives on the private queue starts there too. */
    function CreateQueued(kind: Kind, ok: bool): World {
      if ok then Create(kind, ok).(queued := queued + {Object(kind, next)}) else this
    }

    function CreateRole(kind: Kind, ok: bool, of: Object): World {
      if ok then Create(kind, ok).(roles := roles[Object(kind, next) := of]) else this
    }

    function CreateName(ok: bool): World {
      if ok then this.(next := next + 1, names := names + {next}, rules := rules && current != 0) else this
    }

    /** Binding a GL name needs a current context; name 0 stands for no object. */
    function UseName(h: Handle): World {
      this.(rules := rules && current != 0 && (h == 0 || h in names))
    }

    function Use(kind: Kind, h: Handle): World {
      this.(rules := rules && Object(kind, h) in live)
    }

    function SetPosition(h: Handle, x: int, y: int): World {
      Use(SubsurfaceKind, h).(shown := shown.(x := x, y := y))
    }

    function CreateWindow(surface: Handle, ok: bool, width: int, height: int): World {
      var w := Use(SurfaceKind, surface).Create(EglWindowKind, ok);
      if ok then w.(shown := shown.(width := width, height := height)) else w
    }

    function ResizeWindow(h: Handle, width: int, height: int): World {
      Use(EglWindowKind, h).(shown := shown.(width := width, height := height))
    }

    /** What still has a role on an object, and the current context, must be gone or unbound first. */
    function Destroy(kind: Kind, h: Handle): World {
      var o := Object(kind, h);
      this.(rules := rules && o in live && o !in roles.Values && !(kind == EglContextKind && h == current),
            live := live - {o}, queued := queued - {o}, roles := roles - {o},
            names := if kind == EglContextKind then {} else names)
    }

    function Swap(h: Handle): World {
      Use(EglSurfaceKind, h).(swaps := swaps + 1)
    }

    /** glDelete* acts on the current context; without one it does nothing. */
    function DeleteName(h: Handle): World {
      if current == 0 then this else this.(rules := rules && h in names, names := names - {h})
    }

    function MakeCurrent(context: Handle): World {
      this.(rules := rules && (context == 0 || Object(EglContextKind, context) in live), current := context)
    }

    function ToPrivateQueue(kind: Kind, h: Handle): World {
      Use(kind, h).(queued := queued + {Object(kind, h)})
    }

    function ToDefaultQueue(kind: Kind, h: Handle): World {
      Use(kind, h).(queued := queued - {Object(kind, h)})
    }

    /** No live proxy may stay on a destroyed queue. */
    function DestroyQueue(): World {
      this.(rules := rules && queue != 0 && queued == {}, queue := 0)
    }
  }

  function Made(ok: bool, w: World): Handle {
    if ok then w.next else 0
  }

  /** A new subsurface is at 0, 0. */
  const FIRST_WORLD := World(1, {}, {}, 0, {}, map[], NO_RECT, 0, 0, 0, true)

  datatype Rect = Rect(x: int, y: int, width: int, height: int)

  datatype Interface = Compositor | Subcompositor | Foreign

  /** A registry event and whether wl_registry_bind succeeds for it. */
  datatype Announcement = Announcement(iface: Interface, bindOk: bool)

  /** The outcome of every platform call that ensureCreated may make. */
  datatype Outcomes = Outcomes(
    native: bool, display: bool, parent: bool, queue: bool, announced: seq<Announcement>,
    surface: bool, subsurface: bool, eglDisplay: bool, config: bool, context: bool, eglWindow: bool,
    eglSurface: bool, makeCurrent: bool, imageTarget: bool, program: bool, texture: bool)

  datatype Sub = Sub(
    valid: bool, attempted: bool,
    compositor: Handle, subcompositor: Handle, surface: Handle, subsurface: Handle, eglWindow: Handle,
    eglDisplay: bool, eglContext: Handle, eglSurface: Handle, program: Handle, texture: Handle,
    geometry: Rect, applied: Rect,
    world: World)

  const NO_RECT := Rect(0, 0, 0, 0)
  const NEW_SUB := Sub(false, false, 0, 0, 0, 0, 0, false, 0, 0, 0, 0, NO_RECT, NO_RECT, FIRST_WORLD)

  // ----- The methods as functions of the state

  function OnRegistryGlobal(s: Sub, a: Announcement): Sub {
    match a.iface
    case Compositor => s.(compositor := Made(a.bindOk, s.world),
                          world := s.world.CreateQueued(CompositorKind, a.bindOk))
    case Subcompositor => s.(subcompositor := Made(a.bindOk, s.world),
                             world := s.world.CreateQueued(SubcompositorKind, a.bindOk))
    case Foreign => s
  }

  function Roundtrip(s: Sub, announced: seq<Announcement>): Sub {
    if announced == [] then s
    else OnRegistryGlobal(Roundtrip(s, announced[..|announced| - 1]), announced[|announced| - 1])
  }

  /** The private queue with the registry on it. */
  function OpenRegistry(w: World): World {
    w.CreateQueue().Create(RegistryKind, true).ToPrivateQueue(RegistryKind, w.next + 1)
  }

  function MoveToDefault(w: World, kind: Kind, h: Handle): World {
    if h != 0 then w.ToDefaultQueue(kind, h) else w
  }

  function CloseRegistry(s: Sub, registry: Handle): Sub {
    var w := MoveToDefault(MoveToDefault(s.world, CompositorKind, s.compositor), SubcompositorKind, s.subcompositor);
    s.(world := w.Destroy(RegistryKind, registry).DestroyQueue())
  }

  function BindGlobals(s: Sub, o: Outcomes): Sub {
    if !o.queue then s
    else CloseRegistry(Roundtrip(s.(world := OpenRegistry(s.world)), o.announced), s.world.next + 1)
  }

  function CreateSurfaces(s: Sub, o: Outcomes): Sub {
    var a := s.(surface := Made(o.surface, s.world),
                world := s.world.Use(CompositorKind, s.compositor).Create(SurfaceKind, o.surface));
    var ok := o.surface && o.subsurface;
    a.(subsurface := Made(ok, a.world),
       world := a.world.Use(SubcompositorKind, a.subcompositor)
                .CreateRole(SubsurfaceKind, ok, Object(SurfaceKind, a.surface)))
  }

  /** set_desync, place_below, set_position */
  function Position(s: Sub): Sub {
    var w := s.world.Use(SubsurfaceKind, s.subsurface);
    s.(world := if s.geometry.width > 0 then w.SetPosition(s.subsurface, s.geometry.x, s.geometry.y) else w)
  }

  function SetupContext(s: Sub, o: Outcomes): Sub {
    s.(eglDisplay := true, eglContext := Made(o.context, s.world), world := s.world.Create(EglContextKind, o.context))
  }

  function AtLeastOne(n: int): int {
    if n > 0 then n else 1
  }

  function SetupWindow(s: Sub, o: Outcomes): Sub {
    var width, height := AtLeastOne(s.geometry.width), AtLeastOne(s.geometry.height);
    s.(eglWindow := Made(o.eglWindow, s.world), world := s.world.CreateWindow(s.surface, o.eglWindow, width, height))
  }

  function SetupEglSurface(s: Sub, o: Outcomes): Sub {
    s.(eglSurface := Made(o.eglSurface, s.world),
       world := s.world.Use(EglWindowKind, s.eglWindow)
                .CreateRole(EglSurfaceKind, o.eglSurface, Object(EglWindowKind, s.eglWindow)))
  }

  function Activate(s: Sub): Sub {
    s.(world := s.world.Use(EglSurfaceKind, s.eglSurface).MakeCurrent(s.eglContext))
  }

  function SetupNames(s: Sub, o: Outcomes): Sub {
    var e := s.(program := Made(o.program, s.world), world := s.world.CreateName(o.program));
    e.(texture := Made(o.texture, e.world), world := e.world.CreateName(o.texture))
  }

  /** Up to the first failing call. */
  function SetupEgl(s: Sub, o: Outcomes): Sub {
    if !o.eglDisplay || !o.config then s.(eglDisplay := o.eglDisplay)
    else if !o.context then SetupContext(s, o)
    else if !o.eglWindow then SetupWindow(SetupContext(s, o), o)
    else
      var t := SetupEglSurface(SetupWindow(SetupContext(s, o), o), o);
      if !o.eglSurface || !o.makeCurrent then t
      else if !o.imageTarget then Activate(t)
      else SetupNames(Activate(t), o)
  }

  predicate EglReady(o: Outcomes) {
    o.eglDisplay && o.config && o.context && o.eglWindow && o.eglSurface && o.makeCurrent && o.imageTarget
  }

  function EnsureCreated(s: Sub, window: bool, o: Outcomes): Sub {
    if s.valid || s.attempted || !window then s
    else
      var a := s.(attempted := true, world := s.world.(attempts := s.world.attempts + 1));
      if !o.native || !o.display || !o.parent then a
      else
        var b := BindGlobals(a, o);
        if !o.queue || b.compositor == 0 || b.subcompositor == 0 then b
        else
          var c := CreateSurfaces(b, o);
          if c.surface == 0 || c.subsurface == 0 then c
          else
            var d := SetupEgl(Position(c), o);
            if !EglReady(o) then Destroy(d) else d.(applied := d.geometry, valid := true)
  }

  predicate Usable(r: Rect) {
    r.width > 0 && r.height > 0
  }

  function SetGeometry(s: Sub, r: Rect): Sub {
    var t := s.(geometry := r);
    if !t.valid || r == t.applied then t
    else
      var w := if t.subsurface != 0 then t.world.SetPosition(t.subsurface, r.x, r.y) else t.world;
      var x := if t.eglWindow != 0 && Usable(r) then w.ResizeWindow(t.eglWindow, r.width, r.height) else w;
      t.(applied := r, world := x)
  }

  /** Binds the texture, the program and the texture again, and swaps. */
  function Draw(w: World, s: Sub): World {
    w.UseName(s.texture).UseName(s.program).UseName(s.texture).Swap(s.eglSurface)
  }

  function Present(s: Sub, image: bool, currentOk: bool): Sub {
    if !s.valid || !image then s
    else
      var w := s.world.Use(EglSurfaceKind, s.eglSurface).Use(EglContextKind, s.eglContext);
      s.(world := if currentOk then Draw(w.MakeCurrent(s.eglContext), s) else w)
  }

  function DestroyIf(w: World, kind: Kind, h: Handle): World {
    if h != 0 then w.Destroy(kind, h) else w
  }

  function DeleteNames(w: World, s: Sub): World {
    var x := if s.texture != 0 then w.DeleteName(s.texture) else w;
    if s.program != 0 then x.DeleteName(s.program) else x
  }

  /** The EGL half of destroy(): unbind, delete names, surface, context. */
  function DestroyEgl(s: Sub): World {
    if !s.eglDisplay then s.world
    else
      var w := DeleteNames(s.world.MakeCurrent(0), s);
      DestroyIf(DestroyIf(w, EglSurfaceKind, s.eglSurface), EglContextKind, s.eglContext)
  }

  function DestroyWayland(w: World, s: Sub): World {
    var x := DestroyIf(DestroyIf(w, EglWindowKind, s.eglWindow), SubsurfaceKind, s.subsurface);
    var y := DestroyIf(DestroyIf(x, SurfaceKind, s.surface), SubcompositorKind, s.subcompositor);
    DestroyIf(y, CompositorKind, s.compositor)
  }

  /** Every owned field null, and no longer valid. */
  function Cleared(s: Sub, w: World): Sub {
    Sub(false, s.attempted, 0, 0, 0, 0, 0, s.eglDisplay, 0, 0, 0, 0, s.geometry, s.applied, w)
  }

  function Destroy(s: Sub): Sub {
    Cleared(s, DestroyWayland(DestroyEgl(s), s))
  }

  // ----- The invariant

  function One(kind: Kind, h: Handle): set<Object> {
    if h == 0 then {} else {Object(kind, h)}
  }

  /** Everything that exists, by the fields that refer to it. */
  function Owned(s: Sub): set<Object> {
    One(CompositorKind, s.compositor) + One(SubcompositorKind, s.subcompositor) + One(SurfaceKind, s.surface) +
    One(SubsurfaceKind, s.subsurface) + One(EglWindowKind, s.eglWindow) + One(EglContextKind, s.eglContext) +
    One(EglSurfaceKind, s.eglSurface)
  }

  function RoleOf(kind: Kind, h: Handle, of: Object): map<Object, Object> {
    if h == 0 then map[] else map[Object(kind, h) := of]
  }

  function RolesOf(s: Sub): map<Object, Object> {
    RoleOf(SubsurfaceKind, s.subsurface, Object(SurfaceKind, s.surface)) +
    RoleOf(EglSurfaceKind, s.eglSurface, Object(EglWindowKind, s.eglWindow))
  }

  function NameSet(s: Sub): set<Handle> {
    (if s.program == 0 then {} else {s.program}) + (if s.texture == 0 then {} else {s.texture})
  }

  ghost predicate Numbered(w: World) {
    w.next > 0 && forall o :: o in w.live ==> o.handle < w.next
  }

  /** Fields and platform agree: nothing leaked, nothing dead is referred to. */
  ghost predicate Settled(s: Sub) {
    var w := s.world;
    && w.rules && w.queue == 0 && w.queued == {} && Numbered(w)
    && w.live == Owned(s) && w.roles == RolesOf(s) && w.names == NameSet(s)
    && (w.current == 0 || w.current == s.eglContext)
    && (s.subsurface != 0 ==> s.surface != 0)
    && (s.eglSurface != 0 ==> s.eglWindow != 0)
    && (w.names != {} ==> s.eglContext != 0)
    && (s.eglSurface != 0 || s.eglContext != 0 ==> s.eglDisplay)
    && (s.valid ==> s.attempted && s.subsurface != 0 && s.eglSurface != 0 && s.eglContext != 0)
    && (s.valid ==> s.applied == s.geometry)
    && w.attempts == (if s.attempted then 1 else 0)
    && (!s.attempted ==> Owned(s) == {})
  }

  /** A successful bind is never repeated for the same interface. */
  predicate BoundOnce(announced: seq<Announcement>) {
    forall i, j :: 0 <= i < j < |announced| && announced[i].bindOk && announced[i].iface != Foreign
                   ==> announced[i].iface != announced[j].iface
  }

  lemma SurfaceSettled(s: Sub, ok: bool)
    requires Settled(s) && s.attempted && !s.valid && s.compositor != 0 && s.surface == 0
    ensures Settled(s.(surface := Made(ok, s.world),
                       world := s.world.Use(CompositorKind, s.compositor).Create(SurfaceKind, ok)))
  {
  }

  lemma SubsurfaceSettled(s: Sub, ok: bool)
    requires Settled(s) && s.attempted && !s.valid && s.subcompositor != 0 && s.subsurface == 0
             && (ok ==> s.surface != 0)
    ensures Settled(s.(subsurface := Made(ok, s.world),
                       world := s.world.Use(SubcompositorKind, s.subcompositor)
                                .CreateRole(SubsurfaceKind, ok, Object(SurfaceKind, s.surface))))
  {
  }

  lemma CreateSurfacesSettled(s: Sub, o: Outcomes)
    requires Settled(s) && s.attempted && !s.valid && s.compositor != 0 && s.subcompositor != 0
    requires s.surface == 0 && s.subsurface == 0
    ensures Settled(CreateSurfaces(s, o))
  {
    SurfaceSettled(s, o.surface);
    var a := s.(surface := Made(o.surface, s.world),
                world := s.world.Use(CompositorKind, s.compositor).Create(SurfaceKind, o.surface));
    assert o.surface ==> a.surface != 0;
    hide Settled;
    SubsurfaceSettled(a, o.surface && o.subsurface);
  }

  lemma SetupContextSettled(s: Sub, o: Outcomes)
    requires Settled(s) && s.attempted && !s.valid && s.eglContext == 0
    ensures Settled(SetupContext(s, o))
  {
  }

  lemma SetupWindowSettled(s: Sub, o: Outcomes)
    requires Settled(s) && s.attempted && !s.valid && s.surface != 0 && s.eglWindow == 0
    ensures Settled(SetupWindow(s, o))
  {
  }

  lemma SetupEglSurfaceSettled(s: Sub, o: Outcomes)
    requires Settled(s) && s.attempted && !s.valid && s.eglWindow != 0 && s.eglSurface == 0 && s.eglDisplay
    ensures Settled(SetupEglSurface(s, o))
  {
  }

  lemma ActivateSettled(s: Sub)
    requires Settled(s) && s.eglSurface != 0 && s.eglContext != 0
    ensures Settled(Activate(s)) && Activate(s).world.current == s.eglContext
  {
  }

  lemma SetupNamesSettled(s: Sub, o: Outcomes)
    requires Settled(s) && s.world.current == s.eglContext != 0 && s.program == 0 && s.texture == 0
    ensures Settled(SetupNames(s, o))
  {
  }

  ghost predicate NoEgl(s: Sub) {
    s.eglContext == 0 && s.eglWindow == 0 && s.eglSurface == 0 && s.program == 0 && s.texture == 0
  }

  lemma SetupEglSettled(s: Sub, o: Outcomes)
    requires Settled(s) && s.attempted && !s.valid && s.surface != 0 && s.subsurface != 0 && NoEgl(s)
    ensures var t := SetupEgl(s, o);
            && Settled(t) && t.attempted && !t.valid && t.subsurface == s.subsurface
            && (EglReady(o) ==> t.eglContext != 0 && t.eglSurface != 0)
  {
    hide Settled;
    if o.eglDisplay && o.config {
      SetupContextSettled(s, o);
      if o.context {
        NumberedContext(s, o);
        var a := SetupContext(s, o);
        SetupWindowSettled(a, o);
        if o.eglWindow {
          var b := SetupWindow(a, o);
          NumberedWindow(a, o);
          SetupEglSurfaceSettled(b, o);
          if o.eglSurface && o.makeCurrent {
            var c := SetupEglSurface(b, o);
            NumberedEglSurface(b, o);
            ActivateSettled(c);
            if o.imageTarget {
              SetupNamesSettled(Activate(c), o);
            }
          }
        }
      }
    } else {
      DisplayOnlySettled(s, o.eglDisplay);
    }
  }

  lemma DisplayOnlySettled(s: Sub, display: bool)
    requires Settled(s) && NoEgl(s)
    ensures Settled(s.(eglDisplay := display))
  {
  }

  lemma NumberedContext(s: Sub, o: Outcomes)
    requires Settled(s) && o.context
    ensures SetupContext(s, o).eglContext != 0
  {
  }

  lemma NumberedWindow(s: Sub, o: Outcomes)
    requires Settled(s) && o.eglWindow
    ensures SetupWindow(s, o).eglWindow != 0
  {
  }

  lemma NumberedEglSurface(s: Sub, o: Outcomes)
    requires Settled(s) && o.eglSurface
    ensures SetupEglSurface(s, o).eglSurface != 0
  {
  }

  lemma PositionSettled(s: Sub)
    requires Settled(s) && s.subsurface != 0
    ensures Settled(Position(s)) && Position(s) == s.(world := Position(s).world)
  {
  }

  // ----- Teardown, one object at a time

  /** `s` without its names; they die with the context, since no context is current when they are deleted. */
  lemma UnbindSettled(s: Sub)
    requires Settled(s) && s.eglDisplay
    ensures var w := s.world.MakeCurrent(0);
            DeleteNames(w, s) == w && Settled(s.(valid := false, world := w))
  {
  }

  lemma RolesDrop(s: Sub, t: Sub, o: Object)
    requires
      || (o == Object(EglSurfaceKind, s.eglSurface) && t.eglSurface == 0 && t.subsurface == s.subsurface
          && t.surface == s.surface)
      || (o == Object(SubsurfaceKind, s.subsurface) && t.subsurface == 0 && t.eglSurface == s.eglSurface
          && t.eglWindow == s.eglWindow)
      || (o == Object(EglWindowKind, s.eglWindow) && s.eglSurface == t.eglSurface == 0 && t.subsurface == s.subsurface
          && t.surface == s.surface)
      || (o == Object(SurfaceKind, s.surface) && s.subsurface == t.subsurface == 0 && t.eglSurface == s.eglSurface
          && t.eglWindow == s.eglWindow)
    ensures RolesOf(t) == RolesOf(s) - {o} && o !in RolesOf(s).Values
  {
  }

  lemma DropEglSurface(s: Sub)
    requires Settled(s) && !s.valid
    ensures Settled(s.(eglSurface := 0, world := DestroyIf(s.world, EglSurfaceKind, s.eglSurface)))
  {
    hide RolesOf;
    var o := Object(EglSurfaceKind, s.eglSurface);
    var t := s.(eglSurface := 0, world := DestroyIf(s.world, EglSurfaceKind, s.eglSurface));
    assert Owned(t) == Owned(s) - {o};
    RolesDrop(s, t, o);
  }

  lemma DropContext(s: Sub)
    requires Settled(s) && !s.valid && s.world.current == 0
    ensures Settled(s.(eglContext := 0, program := 0, texture := 0,
                       world := DestroyIf(s.world, EglContextKind, s.eglContext)))
  {
  }

  lemma DropWindow(s: Sub)
    requires Settled(s) && !s.valid && s.eglSurface == 0
    ensures Settled(s.(eglWindow := 0, world := DestroyIf(s.world, EglWindowKind, s.eglWindow)))
  {
    hide RolesOf;
    var o := Object(EglWindowKind, s.eglWindow);
    var t := s.(eglWindow := 0, world := DestroyIf(s.world, EglWindowKind, s.eglWindow));
    assert Owned(t) == Owned(s) - {o};
    RolesDrop(s, t, o);
  }

  lemma DropSubsurface(s: Sub)
    requires Settled(s) && !s.valid
    ensures Settled(s.(subsurface := 0, world := DestroyIf(s.world, SubsurfaceKind, s.subsurface)))
  {
    hide RolesOf;
    var o := Object(SubsurfaceKind, s.subsurface);
    var t := s.(subsurface := 0, world := DestroyIf(s.world, SubsurfaceKind, s.subsurface));
    assert Owned(t) == Owned(s) - {o};
    RolesDrop(s, t, o);
  }

  lemma DropSurface(s: Sub)
    requires Settled(s) && !s.valid && s.subsurface == 0
    ensures Settled(s.(surface := 0, world := DestroyIf(s.world, SurfaceKind, s.surface)))
  {
    hide RolesOf;
    var o := Object(SurfaceKind, s.surface);
    var t := s.(surface := 0, world := DestroyIf(s.world, SurfaceKind, s.surface));
    assert Owned(t) == Owned(s) - {o};
    RolesDrop(s, t, o);
  }

  lemma GlobalsHaveNoRole(s: Sub, t: Sub, o: Object)
    requires o.kind == CompositorKind || o.kind == SubcompositorKind
    requires t.surface == s.surface && t.subsurface == s.subsurface && t.eglWindow == s.eglWindow
             && t.eglSurface == s.eglSurface
    ensures RolesOf(t) == RolesOf(s) == RolesOf(s) - {o} && o !in RolesOf(s).Values
  {
  }

  lemma DropSubcompositor(s: Sub)
    requires Settled(s) && !s.valid
    ensures Settled(s.(subcompositor := 0, world := DestroyIf(s.world, SubcompositorKind, s.subcompositor)))
  {
    hide RolesOf;
    var o := Object(SubcompositorKind, s.subcompositor);
    var t := s.(subcompositor := 0, world := DestroyIf(s.world, SubcompositorKind, s.subcompositor));
    assert Owned(t) == Owned(s) - {o};
    GlobalsHaveNoRole(s, t, o);
  }

  lemma DropCompositor(s: Sub)
    requires Settled(s) && !s.valid
    ensures Settled(s.(compositor := 0, world := DestroyIf(s.world, CompositorKind, s.compositor)))
  {
    hide RolesOf;
    var o := Object(CompositorKind, s.compositor);
    var t := s.(compositor := 0, world := DestroyIf(s.world, CompositorKind, s.compositor));
    assert Owned(t) == Owned(s) - {o};
    GlobalsHaveNoRole(s, t, o);
  }

  /** destroy() leaves nothing behind and breaks no rule on the way, from any state a run can reach. */
  lemma DestroySettled(s: Sub)
    requires Settled(s)
    ensures var t := Destroy(s);
            Settled(t) && t.world.live == {} && t.world.names == {} && t.attempted == s.attempted && !t.valid
  {
    hide Settled;
    var a := s;
    if s.eglDisplay {
      UnbindSettled(s);
      a := s.(valid := false, world := s.world.MakeCurrent(0));
      DropEglSurface(a);
      a := a.(eglSurface := 0, world := DestroyIf(a.world, EglSurfaceKind, a.eglSurface));
      DropContext(a);
      a := a.(eglContext := 0, program := 0, texture := 0, world := DestroyIf(a.world, EglContextKind, a.eglContext));
    } else {
      NothingWithoutDisplay(s);
    }
    DropWindow(a);
    a := a.(eglWindow := 0, world := DestroyIf(a.world, EglWindowKind, a.eglWindow));
    DropSubsurface(a);
    a := a.(subsurface := 0, world := DestroyIf(a.world, SubsurfaceKind, a.subsurface));
    DropSurface(a);
    a := a.(surface := 0, world := DestroyIf(a.world, SurfaceKind, a.surface));
    DropSubcompositor(a);
    a := a.(subcompositor := 0, world := DestroyIf(a.world, SubcompositorKind, a.subcompositor));
    DropCompositor(a);
    a := a.(compositor := 0, world := DestroyIf(a.world, CompositorKind, a.compositor));
    assert a == Destroy(s);
    EmptySettled(a);
  }

  lemma NothingWithoutDisplay(s: Sub)
    requires Settled(s) && !s.eglDisplay
    ensures s.eglContext == 0 && s.eglSurface == 0 && s.program == 0 && s.texture == 0 && !s.valid
  {
  }

  lemma EmptySettled(s: Sub)
    requires Settled(s) && Owned(s) == {} && NameSet(s) == {}
    ensures s.world.live == {} && s.world.names == {}
  {
  }

  // ----- Binding the globals

  /** While the registry is open: what was bound so far is all there is, and it is all on the private queue. */
  ghost predicate Binding(s: Sub, registry: Handle, announced: seq<Announcement>) {
    var w := s.world;
    var bound := One(CompositorKind, s.compositor) + One(SubcompositorKind, s.subcompositor)
      + {Object(RegistryKind, registry)};
    && w.rules && w.queue != 0 && Numbered(w) && registry != 0
    && w.live == bound && w.queued == bound && w.roles == map[] && w.names == {} && w.current == 0
    && (s.compositor != 0 <==> Announcement(Compositor, true) in announced)
    && (s.subcompositor != 0 <==> Announcement(Subcompositor, true) in announced)
  }

  ghost predicate Untouched(s: Sub) {
    && !s.valid && s.compositor == 0 && s.subcompositor == 0 && s.surface == 0 && s.subsurface == 0
    && NoEgl(s)
  }

  /** The fields that binding does not write. */
  ghost predicate OnlyGlobals(s: Sub, t: Sub) {
    t == s.(compositor := t.compositor, subcompositor := t.subcompositor, world := t.world)
    && t.world.attempts == s.world.attempts && t.world.shown == s.world.shown && t.world.next >= s.world.next
  }

  lemma {:induction false} RoundtripBinding(s: Sub, registry: Handle, announced: seq<Announcement>)
    requires Binding(s, registry, []) && BoundOnce(announced)
    ensures Binding(Roundtrip(s, announced), registry, announced) && OnlyGlobals(s, Roundtrip(s, announced))
  {
    if announced != [] {
      var init, a := announced[..|announced| - 1], announced[|announced| - 1];
      assert announced == init + [a];
      assert forall i :: 0 <= i < |init| ==> init[i] == announced[i];
      RoundtripBinding(s, registry, init);
      OneMore(Roundtrip(s, init), registry, init, a);
    }
  }

  lemma OneMore(s: Sub, registry: Handle, init: seq<Announcement>, a: Announcement)
    requires Binding(s, registry, init) && BoundOnce(init + [a])
    ensures Binding(OnRegistryGlobal(s, a), registry, init + [a])
  {
    if a.iface != Foreign {
      FirstBind(init, a);
    }
  }

  lemma FirstBind(init: seq<Announcement>, a: Announcement)
    requires BoundOnce(init + [a]) && a.iface != Foreign
    ensures Announcement(a.iface, true) !in init
  {
    var all := init + [a];
    assert forall i :: 0 <= i < |init| ==> all[i] == init[i];
    assert all[|init|] == a;
  }

  lemma OpenBinding(s: Sub)
    requires Settled(s) && Untouched(s)
    ensures Binding(s.(world := OpenRegistry(s.world)), s.world.next + 1, [])
  {
  }

  lemma CloseSettled(s: Sub, registry: Handle, announced: seq<Announcement>)
    requires Binding(s, registry, announced) && s.surface == 0 && s.subsurface == 0 && NoEgl(s)
    requires s.attempted && !s.valid && s.world.attempts == 1
    ensures Settled(CloseRegistry(s, registry))
  {
  }

  lemma BindGlobalsSettled(s: Sub, o: Outcomes)
    requires Settled(s) && Untouched(s) && s.attempted && BoundOnce(o.announced)
    ensures var t := BindGlobals(s, o);
            Settled(t) && t.attempted && !t.valid && t.surface == 0 && t.subsurface == 0 && NoEgl(t)
  {
    hide Binding, BoundOnce;
    if o.queue {
      var t := s.(world := OpenRegistry(s.world));
      OpenBinding(s);
      RoundtripBinding(t, s.world.next + 1, o.announced);
      CloseSettled(Roundtrip(t, o.announced), s.world.next + 1, o.announced);
    }
  }

  /** A proxy on the private queue that no field refers to any more. */
  ghost predicate Stray(s: Sub) {
    Numbered(s.world) && exists o :: IsStray(s, o)
  }

  ghost predicate IsStray(s: Sub, o: Object) {
    && o in s.world.queued && o in s.world.live && o.kind != RegistryKind && o.handle != 0
    && o != Object(CompositorKind, s.compositor) && o != Object(SubcompositorKind, s.subcompositor)
  }

  lemma StrayStays(s: Sub, a: Announcement)
    requires Stray(s)
    ensures Stray(OnRegistryGlobal(s, a))
  {
    var t := OnRegistryGlobal(s, a);
    var o :| IsStray(s, o);
    assert IsStray(t, o) && Numbered(t.world);
  }

  lemma StrayAppears(s: Sub, registry: Handle, init: seq<Announcement>, a: Announcement)
    requires Binding(s, registry, init) && BoundOnce(init) && !BoundOnce(init + [a])
    ensures Stray(OnRegistryGlobal(s, a))
  {
    var all := init + [a];
    var i, j :| 0 <= i < j < |all| && all[i].bindOk && all[i].iface != Foreign && all[i].iface == all[j].iface;
    assert forall k :: 0 <= k < |init| ==> all[k] == init[k];
    assert j == |init|;
    assert Announcement(a.iface, true) in init;
    var t := OnRegistryGlobal(s, a);
    var o := if a.iface == Compositor then Object(CompositorKind, s.compositor)
      else Object(SubcompositorKind, s.subcompositor);
    assert a.iface != Foreign && o in s.world.live && o in s.world.queued && o.handle != 0;
    assert o in t.world.queued && o in t.world.live && Numbered(t.world);
    assert IsStray(t, o);
  }

  lemma {:induction false} RoundtripStray(s: Sub, registry: Handle, announced: seq<Announcement>)
    requires Binding(s, registry, []) && !BoundOnce(announced)
    ensures Stray(Roundtrip(s, announced))
  {
    hide Binding, Stray;
    var init, a := announced[..|announced| - 1], announced[|announced| - 1];
    assert announced == init + [a];
    if BoundOnce(init) {
      RoundtripBinding(s, registry, init);
      StrayAppears(Roundtrip(s, init), registry, init, a);
    } else {
      RoundtripStray(s, registry, init);
      StrayStays(Roundtrip(s, init), a);
    }
  }

  lemma StrayBreaksQueue(s: Sub, registry: Handle)
    requires Stray(s)
    ensures !CloseRegistry(s, registry).world.rules
  {
    var o :| IsStray(s, o);
    var w := MoveToDefault(MoveToDefault(s.world, CompositorKind, s.compositor), SubcompositorKind, s.subcompositor);
    assert o in w.queued && o in w.Destroy(RegistryKind, registry).queued;
  }

  /** Binding keeps the queue rule exactly when no successful bind is repeated. */
  lemma BindGlobalsCleanIff(s: Sub, o: Outcomes)
    requires Settled(s) && Untouched(s) && s.attempted && o.queue
    ensures BindGlobals(s, o).world.rules <==> BoundOnce(o.announced)
  {
    hide Binding, Stray, BoundOnce;
    if BoundOnce(o.announced) {
      BindGlobalsSettled(s, o);
    } else {
      OpenBinding(s);
      RoundtripStray(s.(world := OpenRegistry(s.world)), s.world.next + 1, o.announced);
      StrayBreaksQueue(Roundtrip(s.(world := OpenRegistry(s.world)), o.announced), s.world.next + 1);
    }
  }

  // ----- Whole lifetimes

  datatype Action =
    | Ensure(window: bool, outcomes: Outcomes)
    | Resize(rect: Rect)
    | Show(image: bool, currentOk: bool)

  function Step(s: Sub, a: Action): Sub {
    match a
    case Ensure(window, o) => EnsureCreated(s, window, o)
    case Resize(r) => SetGeometry(s, r)
    case Show(image, currentOk) => Present(s, image, currentOk)
  }

  function Run(s: Sub, actions: seq<Action>): Sub
    decreases |actions|
  {
    if actions == [] then s else Run(Step(s, actions[0]), actions[1..])
  }

  predicate ReachesGlobals(o: Outcomes) {
    o.native && o.display && o.parent && o.queue
  }

  predicate IsAttempt(a: Action) {
    a.Ensure? && a.window
  }

  /** An attempt that reaches the globals repeats no successful bind. */
  predicate BindsOnce(a: Action) {
    IsAttempt(a) && ReachesGlobals(a.outcomes) ==> BoundOnce(a.outcomes.announced)
  }

  /** The first attempt of the run, which is the only one that does anything, repeats no successful bind. */
  predicate FirstBindsOnce(actions: seq<Action>)
    decreases |actions|
  {
    actions == [] || (if IsAttempt(actions[0]) then BindsOnce(actions[0]) else FirstBindsOnce(actions[1..]))
  }

  /** Between two public calls: nothing yet, finished, or given up. */
  ghost predicate Stable(s: Sub) {
    Settled(s) && (!s.attempted ==> Untouched(s))
  }

  lemma EnsureCreatedStable(s: Sub, window: bool, o: Outcomes)
    requires Stable(s) && (window && ReachesGlobals(o) ==> BoundOnce(o.announced))
    ensures Stable(EnsureCreated(s, window, o))
  {
    hide Settled, BoundOnce;
    if !s.valid && !s.attempted && window {
      var a := s.(attempted := true, world := s.world.(attempts := s.world.attempts + 1));
      AttemptSettled(s);
      if o.native && o.display && o.parent {
        if o.queue {
          BindGlobalsSettled(a, o);
        }
        var b := BindGlobals(a, o);
        if b.compositor != 0 && b.subcompositor != 0 {
          CreateSurfacesSettled(b, o);
          var c := CreateSurfaces(b, o);
          if c.surface != 0 && c.subsurface != 0 {
            PositionSettled(c);
            SetupEglSettled(Position(c), o);
            var d := SetupEgl(Position(c), o);
            if EglReady(o) {
              ValidSettled(d);
            } else {
              DestroySettled(d);
            }
          }
        }
      }
    }
  }

  lemma AttemptSettled(s: Sub)
    requires Settled(s) && Untouched(s) && !s.attempted
    ensures Settled(s.(attempted := true, world := s.world.(attempts := s.world.attempts + 1)))
  {
  }

  lemma ValidSettled(s: Sub)
    requires Settled(s) && s.attempted && s.subsurface != 0 && s.eglSurface != 0 && s.eglContext != 0
    ensures Settled(s.(applied := s.geometry, valid := true))
  {
  }

  lemma StepStable(s: Sub, a: Action)
    requires Stable(s) && (s.attempted || BindsOnce(a))
    ensures Stable(Step(s, a)) && Step(s, a).attempted == (s.attempted || IsAttempt(a))
  {
    hide EnsureCreated, BoundOnce;
    match a
    case Ensure(window, o) =>
      if s.attempted {
        AttemptedOnce(s, a);
      } else {
        EnsureCreatedStable(s, window, o);
        AttemptMade(s, window, o);
      }
    case Resize(r) =>
    case Show(image, currentOk) =>
  }

  lemma {:induction false} RunStable(s: Sub, actions: seq<Action>)
    requires Stable(s) && (s.attempted || FirstBindsOnce(actions))
    ensures Stable(Run(s, actions))
    decreases |actions|
  {
    hide Stable, Step, BindsOnce;
    if actions != [] {
      NoAttempt(actions[0]);
      StepStable(s, actions[0]);
      RunStable(Step(s, actions[0]), actions[1..]);
    }
  }

  lemma NoAttempt(a: Action)
    ensures IsAttempt(a) || BindsOnce(a)
  {
  }

  /** Whatever fails, in any order of public calls: no dead handle is used, nothing is destroyed before
      what depends on it, no proxy stays on the destroyed queue, at most one creation is attempted, and
      after the destructor everything that was created has been destroyed. */
  lemma LifetimeSafe(actions: seq<Action>)
    requires FirstBindsOnce(actions)
    ensures var w := Destroy(Run(NEW_SUB, actions)).world;
            w.rules && w.live == {} && w.names == {} && w.attempts <= 1
  {
    hide Run, Destroy, FirstBindsOnce;
    RunStable(NEW_SUB, actions);
    DestroySettled(Run(NEW_SUB, actions));
  }

  // ----- The condition is exact

  lemma DestroyKeepsFault(s: Sub)
    requires !s.world.rules
    ensures !Destroy(s).world.rules
  {
    assert !DestroyEgl(s).rules;
    WaylandKeepsFault(DestroyEgl(s), s);
  }

  lemma WaylandKeepsFault(w: World, s: Sub)
    requires !w.rules
    ensures !DestroyWayland(w, s).rules
  {
  }

  lemma SetupKeepsFault(s: Sub, o: Outcomes)
    requires !s.world.rules
    ensures !SetupEgl(s, o).world.rules
  {
  }

  lemma RestOfCreationKeepsFault(s: Sub, o: Outcomes)
    requires !s.valid && !s.attempted && ReachesGlobals(o)
    requires !BindGlobals(s.(attempted := true, world := s.world.(attempts := s.world.attempts + 1)), o).world.rules
    ensures var t := EnsureCreated(s, true, o); !t.world.rules && t.attempted
  {
    hide BindGlobals, SetupEgl, Destroy;
    var b := BindGlobals(s.(attempted := true, world := s.world.(attempts := s.world.attempts + 1)), o);
    OnlyGlobalsBound(s.(attempted := true, world := s.world.(attempts := s.world.attempts + 1)), o);
    var c := CreateSurfaces(b, o);
    assert !c.world.rules && !Position(c).world.rules;
    SetupKeepsFault(Position(c), o);
    SetupKeepsAttempt(Position(c), o);
    var d := SetupEgl(Position(c), o);
    DestroyKeepsFault(d);
    assert Destroy(d).attempted == d.attempted by { DestroyKeepsAttempt(d); }
  }

  lemma DestroyKeepsAttempt(s: Sub)
    ensures Destroy(s).attempted == s.attempted
  {
    hide DestroyWayland, DestroyEgl;
  }

  lemma SetupKeepsAttempt(s: Sub, o: Outcomes)
    ensures SetupEgl(s, o).attempted == s.attempted
  {
  }

  lemma OnlyGlobalsBound(s: Sub, o: Outcomes)
    ensures BindGlobals(s, o).attempted == s.attempted
  {
    RoundtripWritesGlobals(s.(world := OpenRegistry(s.world)), o.announced);
  }

  lemma {:induction false} RoundtripWritesGlobals(s: Sub, announced: seq<Announcement>)
    ensures OnlyGlobals(s, Roundtrip(s, announced))
  {
    if announced != [] {
      RoundtripWritesGlobals(s, announced[..|announced| - 1]);
    }
  }

  lemma {:induction false} RunKeepsFault(s: Sub, actions: seq<Action>)
    requires !s.world.rules && s.attempted
    ensures !Run(s, actions).world.rules
    decreases |actions|
  {
    if actions != [] {
      hide EnsureCreated;
      assert EnsureAgain(s, actions[0]) by { AttemptedOnce(s, actions[0]); }
      RunKeepsFault(Step(s, actions[0]), actions[1..]);
    }
  }

  predicate EnsureAgain(s: Sub, a: Action) {
    a.Ensure? ==> EnsureCreated(s, a.window, a.outcomes) == s
  }

  lemma AttemptedOnce(s: Sub, a: Action)
    requires s.attempted
    ensures EnsureAgain(s, a)
  {
  }

  lemma {:induction false} RunFaults(s: Sub, actions: seq<Action>)
    requires Stable(s) && !s.attempted && !FirstBindsOnce(actions)
    ensures !Run(s, actions).world.rules
    decreases |actions|
  {
    hide Stable, EnsureCreated, BoundOnce, BindGlobals;
    var a, rest := actions[0], actions[1..];
    if IsAttempt(a) {
      StableAttempt(s);
      BindGlobalsCleanIff(s.(attempted := true, world := s.world.(attempts := s.world.attempts + 1)), a.outcomes);
      RestOfCreationKeepsFault(s, a.outcomes);
      RunKeepsFault(Step(s, a), rest);
    } else {
      NoAttempt(a);
      StepStable(s, a);
      RunFaults(Step(s, a), rest);
    }
  }

  lemma StableAttempt(s: Sub)
    requires Stable(s) && !s.attempted
    ensures !s.valid && Untouched(s)
    ensures Settled(s.(attempted := true, world := s.world.(attempts := s.world.attempts + 1)))
  {
    AttemptSettled(s);
  }

  /** A whole lifetime, of any public calls, respects every rule exactly when its first attempt repeats no
      successful bind for the same interface. */
  lemma LifetimeSafeIff(actions: seq<Action>)
    ensures Destroy(Run(NEW_SUB, actions)).world.rules <==> FirstBindsOnce(actions)
  {
    hide Destroy, Run, FirstBindsOnce;
    if FirstBindsOnce(actions) {
      LifetimeSafe(actions);
    } else {
      RunFaults(NEW_SUB, actions);
      DestroyKeepsFault(Run(NEW_SUB, actions));
    }
  }

  lemma AttemptMade(s: Sub, window: bool, o: Outcomes)
    requires !s.valid && !s.attempted
    ensures EnsureCreated(s, window, o).attempted == window
  {
    hide SetupEgl, Destroy, BindGlobals;
    var a := s.(attempted := true, world := s.world.(attempts := s.world.attempts + 1));
    OnlyGlobalsBound(a, o);
    var c := CreateSurfaces(BindGlobals(a, o), o);
    SetupKeepsAttempt(Position(c), o);
    DestroyKeepsAttempt(SetupEgl(Position(c), o));
  }

  // ----- What an attempt leaves behind, by what failed

  predicate Offers(o: Outcomes, iface: Interface) {
    ReachesGlobals(o) && Announcement(iface, true) in o.announced
  }

  predicate AllSucceeds(o: Outcomes) {
    Offers(o, Compositor) && Offers(o, Subcompositor) && o.surface && o.subsurface && EglReady(o)
  }

  /** The kinds of objects that are alive after an attempt: the globals stay when a surface is missing, and
      everything goes when the EGL setup fails. */
  function Remaining(o: Outcomes): set<Kind> {
    var globals :=
      (if Offers(o, Compositor) then {CompositorKind} else {}) +
      (if Offers(o, Subcompositor) then {SubcompositorKind} else {});
    if !Offers(o, Compositor) || !Offers(o, Subcompositor) || !o.surface then globals
    else if !o.subsurface then globals + {SurfaceKind}
    else if !EglReady(o) then {}
    else globals + {SurfaceKind, SubsurfaceKind, EglWindowKind, EglContextKind, EglSurfaceKind}
  }

  function HandleOf(s: Sub, kind: Kind): Handle {
    match kind
    case CompositorKind => s.compositor
    case SubcompositorKind => s.subcompositor
    case SurfaceKind => s.surface
    case SubsurfaceKind => s.subsurface
    case EglWindowKind => s.eglWindow
    case EglContextKind => s.eglContext
    case EglSurfaceKind => s.eglSurface
    case RegistryKind => 0
  }

  /** Alive are exactly the objects of the kinds `kinds`, one of each, and the fields hold their handles. */
  ghost predicate Holds(s: Sub, kinds: set<Kind>) {
    && (forall kind :: HandleOf(s, kind) != 0 <==> kind in kinds)
    && (forall o :: o in s.world.live <==> o.kind in kinds && o.handle == HandleOf(s, o.kind))
  }

  lemma BoundHandles(s: Sub, o: Outcomes)
    requires Settled(s) && Untouched(s) && s.attempted && o.queue && BoundOnce(o.announced)
    ensures var t := BindGlobals(s, o);
            && (t.compositor != 0 <==> Announcement(Compositor, true) in o.announced)
            && (t.subcompositor != 0 <==> Announcement(Subcompositor, true) in o.announced)
  {
    hide BoundOnce, Roundtrip, OpenRegistry, Settled;
    var t := s.(world := OpenRegistry(s.world));
    OpenBinding(s);
    RoundtripBinding(t, s.world.next + 1, o.announced);
    assert Binding(Roundtrip(t, o.announced), s.world.next + 1, o.announced);
  }

  lemma SettledHolds(s: Sub, kinds: set<Kind>)
    requires Settled(s) && forall kind :: HandleOf(s, kind) != 0 <==> kind in kinds
    ensures Holds(s, kinds)
  {
    forall o
      ensures o in Owned(s) <==> HandleOf(s, o.kind) != 0 && o.handle == HandleOf(s, o.kind)
    {
      OwnedByKind(s, o);
    }
  }

  lemma OwnedByKind(s: Sub, o: Object)
    ensures o in Owned(s) <==> HandleOf(s, o.kind) != 0 && o.handle == HandleOf(s, o.kind)
  {
  }

  /** The first attempt, whatever was called before it: when it succeeds, and what exists afterwards. */
  lemma AttemptOutcome(before: seq<Action>, o: Outcomes)
    requires forall a :: a in before ==> !IsAttempt(a)
    requires BindsOnce(Ensure(true, o))
    ensures var s := Step(Run(NEW_SUB, before), Ensure(true, o));
            && (s.valid <==> AllSucceeds(o))
            && Holds(s, Remaining(o))
            && (!s.valid ==> s.world.names == {} && s.program == 0 && s.texture == 0)
            && (s.valid ==> (s.program != 0 <==> o.program) && (s.texture != 0 <==> o.texture))
  {
    hide EnsureCreated, BoundOnce, Holds, Remaining;
    RunBefore(NO_RECT, before);
    assert NEW_SUB.(geometry := NO_RECT) == NEW_SUB;
    AttemptFromNew(Last(NO_RECT, before), o);
  }

  lemma AttemptFromNew(r: Rect, o: Outcomes)
    requires BindsOnce(Ensure(true, o))
    ensures var s := EnsureCreated(NEW_SUB.(geometry := r), true, o);
            && (s.valid <==> AllSucceeds(o))
            && Holds(s, Remaining(o))
            && (!s.valid ==> s.world.names == {} && s.program == 0 && s.texture == 0)
            && (s.valid ==> (s.program != 0 <==> o.program) && (s.texture != 0 <==> o.texture))
  {
    hide BindGlobals, SetupEgl, CreateSurfaces, Position, Destroy, BoundOnce, Settled, Holds, EglReady;
    var a := NEW_SUB.(geometry := r, attempted := true, world := FIRST_WORLD.(attempts := 1));
    FreshSettled(r);
    if ReachesGlobals(o) {
      var b := BindGlobals(a, o);
      BindGlobalsSettled(a, o);
      BoundHandles(a, o);
      if Offers(o, Compositor) && Offers(o, Subcompositor) {
        CreateSurfacesSettled(b, o);
        SurfaceHandles(b, o);
        var c := CreateSurfaces(b, o);
        if o.surface && o.subsurface {
          PositionSettled(c);
          SetupEglSettled(Position(c), o);
          var d := SetupEgl(Position(c), o);
          if EglReady(o) {
            NextPositive(Position(c));
            SetupHandles(Position(c), o);
            ValidSettled(d);
            SettledHolds(d.(applied := d.geometry, valid := true), Remaining(o));
          } else {
            DestroySettled(d);
            DestroyedClears(d);
            SettledHolds(Destroy(d), {});
          }
        } else {
          SettledHolds(c, Remaining(o));
          NoNames(c);
        }
      } else {
        SettledHolds(b, Remaining(o));
        NoNames(b);
      }
    } else {
      NoQueue(a, o);
      assert Remaining(o) == {};
      SettledHolds(a, {});
      NoNames(a);
    }
  }

  lemma NoQueue(s: Sub, o: Outcomes)
    ensures !o.queue ==> BindGlobals(s, o) == s
  {
  }

  lemma FreshSettled(r: Rect)
    ensures var a := NEW_SUB.(geometry := r, attempted := true, world := FIRST_WORLD.(attempts := 1));
            Settled(a) && Untouched(a)
  {
  }

  lemma NextPositive(s: Sub)
    requires Settled(s)
    ensures s.world.next > 0
  {
  }

  lemma NoNames(s: Sub)
    requires Settled(s) && NoEgl(s)
    ensures s.world.names == {}
  {
  }

  lemma DestroyedClears(s: Sub)
    ensures var t := Destroy(s);
            (forall kind :: HandleOf(t, kind) == 0) && t.program == 0 && t.texture == 0 && !t.valid
  {
    hide DestroyWayland, DestroyEgl;
  }

  lemma SurfaceHandles(s: Sub, o: Outcomes)
    requires Settled(s) && NoEgl(s) && !s.valid
    ensures var t := CreateSurfaces(s, o);
            && (t.surface != 0 <==> o.surface) && (t.subsurface != 0 <==> o.surface && o.subsurface)
            && t.compositor == s.compositor && t.subcompositor == s.subcompositor && NoEgl(t) && NoEgl(Position(t))
            && Position(t).surface == t.surface && Position(t).subsurface == t.subsurface && !t.valid
            && Position(t).compositor == t.compositor && Position(t).subcompositor == t.subcompositor
            && Position(t).attempted == s.attempted && !Position(t).valid
  {
  }

  lemma SetupHandles(s: Sub, o: Outcomes)
    requires s.world.next > 0 && EglReady(o)
    ensures var t := SetupEgl(s, o);
            && t.eglContext != 0 && t.eglWindow != 0 && t.eglSurface != 0
            && (t.program != 0 <==> o.program) && (t.texture != 0 <==> o.texture)
            && t.surface == s.surface && t.subsurface == s.subsurface
            && t.compositor == s.compositor && t.subcompositor == s.subcompositor
  {
  }

  /** EGL setup stops at its first failing call: what exists then, what is current, and which names are made. */
  lemma SetupStopsAtFailure(s: Sub, o: Outcomes)
    requires NoEgl(s) && s.world.next > 0
    ensures var t := SetupEgl(s, o);
            var c1 := o.eglDisplay && o.config && o.context;
            var c2 := c1 && o.eglWindow;
            var c3 := c2 && o.eglSurface;
            && (t.eglContext != 0 <==> c1) && (t.eglWindow != 0 <==> c2) && (t.eglSurface != 0 <==> c3)
            && (t.eglDisplay <==> o.eglDisplay)
            && t.world.current == (if c3 && o.makeCurrent then t.eglContext else s.world.current)
            && (t.program != 0 <==> EglReady(o) && o.program) && (t.texture != 0 <==> EglReady(o) && o.texture)
  {
  }

  // ----- Frames

  /** How many of the calls drew a frame, counted from outside. */
  function Drawn(valid: bool, actions: seq<Action>): nat
    decreases |actions|
  {
    if actions == [] then 0
    else
      var a, rest := actions[0], Drawn(valid, actions[1..]);
      if valid && a.Show? && a.image && a.currentOk then rest + 1 else rest
  }

  lemma StepSwaps(s: Sub, a: Action)
    requires s.attempted
    ensures var t := Step(s, a);
            && t.attempted && t.valid == s.valid
            && t.world.swaps == s.world.swaps + (if s.valid && a.Show? && a.image && a.currentOk then 1 else 0)
            && (s.valid && a.Show? && a.image && a.currentOk ==> t.world.current == s.eglContext)
  {
    hide EnsureCreated;
    AttemptedOnce(s, a);
  }

  /** After the attempt every image that is shown with the context current is drawn, if the attempt succeeded,
      and nothing else is. */
  lemma {:induction false} ShownImagesAreDrawn(s: Sub, actions: seq<Action>)
    requires s.attempted
    ensures Run(s, actions).world.swaps == s.world.swaps + Drawn(s.valid, actions)
    decreases |actions|
  {
    hide Step;
    if actions != [] {
      StepSwaps(s, actions[0]);
      ShownImagesAreDrawn(Step(s, actions[0]), actions[1..]);
    }
  }

  // ----- Geometry: what the platform was told, against the last rectangle

  /** The stored rectangle counts as applied from creation on, so it is not sent again. */
  lemma GeometryCurrent(actions: seq<Action>)
    requires FirstBindsOnce(actions)
    ensures var s := Run(NEW_SUB, actions); s.valid ==> s.applied == s.geometry
  {
    hide Run, FirstBindsOnce;
    RunStable(NEW_SUB, actions);
  }

  /** The last rectangle set, starting from `r`. */
  function Last(r: Rect, actions: seq<Action>): Rect
    decreases |actions|
  {
    if actions == [] then r else Last(if actions[0].Resize? then actions[0].rect else r, actions[1..])
  }

  /** The last rectangle set that has a size, starting from `r`. */
  function LastUsable(r: Rect, actions: seq<Action>): Rect
    decreases |actions|
  {
    if actions == [] then r
    else LastUsable(if actions[0].Resize? && Usable(actions[0].rect) then actions[0].rect else r, actions[1..])
  }

  predicate Changes(r: Rect, actions: seq<Action>) {
    exists a :: a in actions && a.Resize? && a.rect != r
  }

  /** What present() draws for: the rectangle, at least one pixel wide and high. */
  function Viewport(r: Rect): Rect {
    r.(width := AtLeastOne(r.width), height := AtLeastOne(r.height))
  }

  ghost predicate Created(s: Sub) {
    s.valid && s.applied == s.geometry && s.subsurface != 0 && s.eglWindow != 0
  }

  lemma StepCreated(s: Sub, a: Action)
    requires Created(s)
    ensures var t := Step(s, a);
            && Created(t) && t.geometry == Last(s.geometry, [a])
            && t.world.shown ==
               if !a.Resize? || a.rect == s.geometry then s.world.shown
               else Rect(a.rect.x, a.rect.y, if Usable(a.rect) then a.rect.width else s.world.shown.width,
                         if Usable(a.rect) then a.rect.height else s.world.shown.height)
  {
    assert [a][1..] == [];
    if a.Ensure? {
      AlreadyValid(s, a.window, a.outcomes);
    }
  }

  lemma AlreadyValid(s: Sub, window: bool, o: Outcomes)
    requires s.valid
    ensures EnsureCreated(s, window, o) == s
  {
  }

  lemma {:induction false} NoChange(r: Rect, actions: seq<Action>)
    requires !Changes(r, actions)
    ensures Last(r, actions) == r
    decreases |actions|
  {
    if actions != [] {
      assert actions[0] in actions;
      assert !Changes(r, actions[1..]);
      NoChange(r, actions[1..]);
    }
  }

  /** Any further calls on a created object: the window has the last usable size, and the position is the
      last one as soon as the rectangle ever changed. */
  lemma {:induction false} RunCreated(s: Sub, actions: seq<Action>)
    requires Created(s) && (Usable(s.geometry) ==> SameSize(s.world.shown, s.geometry))
    ensures var t := Run(s, actions);
            && Created(t) && t.geometry == Last(s.geometry, actions)
            && SameSize(t.world.shown, LastUsable(s.world.shown, actions))
            && SamePosition(t.world.shown, if Changes(s.geometry, actions) then t.geometry else s.world.shown)
    decreases |actions|
  {
    hide Step, Created;
    if actions != [] {
      var a, rest := actions[0], actions[1..];
      var t := Step(s, a);
      StepCreated(s, a);
      RunCreated(t, rest);
      SizesOnly(t.world.shown, if a.Resize? && Usable(a.rect) then a.rect else s.world.shown, rest);
      if !Changes(t.geometry, rest) {
        NoChange(t.geometry, rest);
      }
      FirstChange(s.geometry, a, rest);
    }
  }

  lemma FirstChange(r: Rect, a: Action, rest: seq<Action>)
    ensures Changes(r, [a] + rest) <==> (a.Resize? && a.rect != r) || Changes(r, rest)
  {
    var all := [a] + rest;
    assert a in all && forall b :: b in rest ==> b in all;
  }

  lemma {:induction false} LastIsUsable(r: Rect, size: Rect, actions: seq<Action>)
    requires Usable(r) ==> SameSize(size, r)
    ensures Usable(Last(r, actions)) ==> SameSize(LastUsable(size, actions), Last(r, actions))
    decreases |actions|
  {
    if actions != [] {
      var a := actions[0];
      LastIsUsable(if a.Resize? then a.rect else r, if a.Resize? && Usable(a.rect) then a.rect else size, actions[1..]);
    }
  }

  lemma {:induction false} SizesOnly(p: Rect, q: Rect, actions: seq<Action>)
    requires SameSize(p, q)
    ensures SameSize(LastUsable(p, actions), LastUsable(q, actions))
    decreases |actions|
  {
    if actions != [] {
      var a := actions[0];
      var usable := a.Resize? && Usable(a.rect);
      SizesOnly(if usable then a.rect else p, if usable then a.rect else q, actions[1..]);
    }
  }

  predicate SameSize(p: Rect, q: Rect) {
    p.width == q.width && p.height == q.height
  }

  predicate SamePosition(p: Rect, q: Rect) {
    p.x == q.x && p.y == q.y
  }

  /** Before the first attempt only the rectangle changes. */
  lemma {:induction false} RunBefore(r: Rect, actions: seq<Action>)
    requires forall a :: a in actions ==> !IsAttempt(a)
    ensures Run(NEW_SUB.(geometry := r), actions) == NEW_SUB.(geometry := Last(r, actions))
    decreases |actions|
  {
    if actions != [] {
      var a := actions[0];
      assert a in actions;
      assert Step(NEW_SUB.(geometry := r), a) == NEW_SUB.(geometry := if a.Resize? then a.rect else r);
      hide Step;
      RunBefore(if a.Resize? then a.rect else r, actions[1..]);
    }
  }

  /** Where a surface is right after its creation, and how big its window is. */
  function Initially(r: Rect): Rect {
    Viewport(if r.width > 0 then r else r.(x := 0, y := 0))
  }

  lemma CreationShows(r: Rect, o: Outcomes)
    requires EnsureCreated(NEW_SUB.(geometry := r), true, o).valid
    ensures var s := EnsureCreated(NEW_SUB.(geometry := r), true, o);
            Created(s) && s.geometry == r && s.world.shown == Initially(r)
  {
    hide BindGlobals, SetupEgl, CreateSurfaces, Position, Destroy;
    var a := NEW_SUB.(geometry := r, attempted := true, world := FIRST_WORLD.(attempts := 1));
    var b := BindGlobals(a, o);
    OnlyGlobalsWritten(a, o);
    DestroyedInvalid(SetupEgl(Position(CreateSurfaces(b, o)), o));
    assert !b.valid && !CreateSurfaces(b, o).valid by { NeverValid(a, o); }
    SurfacesShow(b, o);
    SetupShows(Position(CreateSurfaces(b, o)), o);
  }

  lemma DestroyedInvalid(s: Sub)
    ensures !Destroy(s).valid
  {
    hide DestroyWayland, DestroyEgl;
  }

  lemma OnlyGlobalsWritten(s: Sub, o: Outcomes)
    ensures var t := BindGlobals(s, o);
            && t.geometry == s.geometry && t.world.shown == s.world.shown && t.world.next >= s.world.next
  {
    RoundtripWritesGlobals(s.(world := OpenRegistry(s.world)), o.announced);
  }

  lemma SurfacesShow(s: Sub, o: Outcomes)
    requires s.world.shown == NO_RECT && s.world.next > 0
    ensures var t := Position(CreateSurfaces(s, o));
            && t.geometry == s.geometry && t.subsurface == CreateSurfaces(s, o).subsurface && t.world.next > 0
            && SamePosition(t.world.shown, Initially(s.geometry))
  {
  }

  lemma SetupShows(s: Sub, o: Outcomes)
    requires EglReady(o) && s.world.next > 0
    ensures var t := SetupEgl(s, o);
            && t.geometry == s.geometry && t.subsurface == s.subsurface && t.eglWindow != 0
            && SamePosition(t.world.shown, s.world.shown) && SameSize(t.world.shown, Viewport(s.geometry))
  {
  }

  lemma {:induction false} StaysInvalid(s: Sub, actions: seq<Action>)
    requires s.attempted && !s.valid
    ensures !Run(s, actions).valid
    decreases |actions|
  {
    if actions != [] {
      hide EnsureCreated;
      AttemptedOnce(s, actions[0]);
      assert EnsureAgain(s, actions[0]);
      StaysInvalid(Step(s, actions[0]), actions[1..]);
    }
  }

  /** Over every run: where a valid surface is and how big its window is, and exactly when that is what the
      last rectangle asks for. The position stays at the origin while the rectangle it was created with has
      no width and never changes; the window keeps the last size it could use. */
  lemma PlatformGeometryIff(before: seq<Action>, o: Outcomes, after: seq<Action>)
    requires forall a :: a in before ==> !IsAttempt(a)
    ensures var r := Last(NO_RECT, before);
            var s := Run(Step(Run(NEW_SUB, before), Ensure(true, o)), after);
            s.valid ==>
              && s.geometry == Last(r, after)
              && (SamePosition(s.world.shown, s.geometry)
                  <==> r.width > 0 || SamePosition(r, NO_RECT) || Changes(r, after))
              && (SameSize(s.world.shown, Viewport(s.geometry))
                  <==> SameSize(LastUsable(Viewport(r), after), Viewport(s.geometry)))
              && (Usable(s.geometry) ==> s.world.shown == s.geometry)
  {
    hide Run, EnsureCreated, Created;
    var r := Last(NO_RECT, before);
    RunBefore(NO_RECT, before);
    assert NEW_SUB.(geometry := NO_RECT) == NEW_SUB;
    var s := Step(NEW_SUB.(geometry := r), Ensure(true, o));
    AttemptMade(NEW_SUB.(geometry := r), true, o);
    if s.valid {
      CreationShows(r, o);
      RunCreated(s, after);
      SizesOnly(s.world.shown, Viewport(r), after);
      LastIsUsable(r, Viewport(r), after);
      if !Changes(r, after) {
        NoChange(r, after);
      }
    } else {
      StaysInvalid(s, after);
    }
  }

  /** Every call succeeds. */
  const ALL_OK := Outcomes(true, true, true, true, [Announcement(Compositor, true), Announcement(Subcompositor, true)],
                           true, true, true, true, true, true, true, true, true, true, true)

  lemma AllOkCreates(r: Rect)
    ensures EnsureCreated(NEW_SUB.(geometry := r), true, ALL_OK).valid
  {
    hide BindGlobals, SetupEgl, Destroy;
    var a := NEW_SUB.(geometry := r, attempted := true, world := FIRST_WORLD.(attempts := 1));
    AllOkBinds(a);
    OnlyGlobalsWritten(a, ALL_OK);
    var c := CreateSurfaces(BindGlobals(a, ALL_OK), ALL_OK);
    assert c.surface != 0 && c.subsurface != 0;
  }

  lemma AllOkBinds(s: Sub)
    requires s == NEW_SUB.(geometry := s.geometry, attempted := true, world := FIRST_WORLD.(attempts := 1))
    ensures BindGlobals(s, ALL_OK).compositor != 0 && BindGlobals(s, ALL_OK).subcompositor != 0
  {
    var t := s.(world := OpenRegistry(s.world));
    assert Settled(s) && Untouched(s);
    OpenBinding(s);
    assert BoundOnce(ALL_OK.announced);
    assert ALL_OK.announced[0] == Announcement(Compositor, true);
    assert ALL_OK.announced[1] == Announcement(Subcompositor, true);
    hide Roundtrip, BoundOnce, OpenRegistry, Settled;
    RoundtripBinding(t, s.world.next + 1, ALL_OK.announced);
    assert Binding(Roundtrip(t, ALL_OK.announced), s.world.next + 1, ALL_OK.announced);
  }

  lemma RunOne(s: Sub, a: Action)
    ensures Run(s, [a]) == Step(s, a)
  {
    hide Step;
    assert [a][1..] == [];
  }

  lemma CreatedWith(r: Rect)
    ensures var s := Run(NEW_SUB, [Resize(r), Ensure(true, ALL_OK)]);
            Created(s) && s.geometry == r && s.world.shown == Initially(r)
  {
    hide EnsureCreated;
    assert Step(NEW_SUB, Resize(r)) == NEW_SUB.(geometry := r);
    assert [Resize(r), Ensure(true, ALL_OK)][1..] == [Ensure(true, ALL_OK)];
    RunOne(NEW_SUB.(geometry := r), Ensure(true, ALL_OK));
    AllOkCreates(r);
    CreationShows(r, ALL_OK);
  }

  /** A rectangle without a width that was set before the creation is never sent: the surface stays at 0, 0,
      also when the same rectangle is set again. */
  lemma PositionNeverSent()
    ensures var r := Rect(10, 20, 0, 0);
            var s := Run(NEW_SUB, [Resize(r), Ensure(true, ALL_OK)]);
            && s.valid && s.geometry == s.applied == r && s.world.shown == Rect(0, 0, 1, 1)
            && Step(s, Resize(r)) == s
  {
    hide EnsureCreated, Run;
    CreatedWith(Rect(10, 20, 0, 0));
  }

  /** A rectangle without a size moves the surface and counts as applied, but the window keeps its size. */
  lemma SizeNeverSent()
    ensures var r, q := Rect(0, 0, 300, 200), Rect(5, 5, 0, 0);
            var s := Step(Run(NEW_SUB, [Resize(r), Ensure(true, ALL_OK)]), Resize(q));
            && s.valid && s.geometry == s.applied == q && s.world.shown == Rect(5, 5, 300, 200)
            && Viewport(q) == Rect(5, 5, 1, 1)
  {
    hide EnsureCreated, Run;
    var r, q := Rect(0, 0, 300, 200), Rect(5, 5, 0, 0);
    CreatedWith(r);
    StepCreated(Run(NEW_SUB, [Resize(r), Ensure(true, ALL_OK)]), Resize(q));
    assert [Resize(q)][1..] == [];
  }

  // ----- The object

  class WaylandSubsurface {
    var valid: bool
    var attempted: bool
    var compositor: Handle
    var subcompositor: Handle
    var surface: Handle
    var subsurface: Handle
    var eglWindow: Handle
    var eglDisplay: bool
    var eglContext: Handle
    var eglSurface: Handle
    var program: Handle
    var texture: Handle
    var geometry: Rect
    var applied: Rect
    var world: World   // the other side of every call

    ghost function Now(): Sub
      reads this
    {
      Sub(valid, attempted, compositor, subcompositor, surface, subsurface, eglWindow, eglDisplay, eglContext,
          eglSurface, program, texture, geometry, applied, world)
    }

    constructor ()
      ensures Now() == NEW_SUB
    {
      valid, attempted := false, false;
      compositor, subcompositor, surface, subsurface := 0, 0, 0, 0;
      eglWindow, eglContext, eglSurface, program, texture := 0, 0, 0, 0, 0;
      eglDisplay := false;
      geometry, applied := NO_RECT, NO_RECT;
      world := FIRST_WORLD;
    }

    method OnGlobal(a: Announcement)
      modifies this
      ensures Now() == OnRegistryGlobal(old(Now()), a)
    {
      if a.iface == Compositor {
        compositor := Made(a.bindOk, world);
        world := world.CreateQueued(CompositorKind, a.bindOk);
      } else if a.iface == Subcompositor {
        subcompositor := Made(a.bindOk, world);
        world := world.CreateQueued(SubcompositorKind, a.bindOk);
      }
    }

    method BindAll(o: Outcomes) returns (ok: bool)
      modifies this
      ensures Now() == BindGlobals(old(Now()), o)
      ensures ok <==> o.queue && compositor != 0 && subcompositor != 0
    {
      hide OpenRegistry, CloseRegistry;
      if !o.queue {
        return false;
      }
      var registry := world.next + 1;
      world := OpenRegistry(world);
      ghost var start := Now();
      for i := 0 to |o.announced|
        invariant Now() == Roundtrip(start, o.announced[..i])
      {
        assert o.announced[..i + 1][..i] == o.announced[..i];
        OnGlobal(o.announced[i]);
      }
      assert o.announced[..|o.announced|] == o.announced;
      Close(registry);
      return compositor != 0 && subcompositor != 0;
    }

    method Close(registry: Handle)
      modifies this`world
      ensures Now() == CloseRegistry(old(Now()), registry)
    {
      if compositor != 0 {
        world := world.ToDefaultQueue(CompositorKind, compositor);
      }
      if subcompositor != 0 {
        world := world.ToDefaultQueue(SubcompositorKind, subcompositor);
      }
      world := world.Destroy(RegistryKind, registry);
      world := world.DestroyQueue();
    }

    method MakeContext(o: Outcomes)
      modifies this
      ensures Now() == SetupContext(old(Now()), o)
    {
      hide World.Create;
      eglDisplay := true;
      eglContext := Made(o.context, world);
      world := world.Create(EglContextKind, o.context);
    }

    method MakeWindow(o: Outcomes)
      modifies this
      ensures Now() == SetupWindow(old(Now()), o)
    {
      hide World.CreateWindow;
      var width, height := AtLeastOne(geometry.width), AtLeastOne(geometry.height);
      eglWindow := Made(o.eglWindow, world);
      world := world.CreateWindow(surface, o.eglWindow, width, height);
    }

    method MakeEglSurface(o: Outcomes)
      modifies this
      ensures Now() == SetupEglSurface(old(Now()), o)
    {
      hide World.CreateRole, World.Use;
      eglSurface := Made(o.eglSurface, world);
      world := world.Use(EglWindowKind, eglWindow)
               .CreateRole(EglSurfaceKind, o.eglSurface, Object(EglWindowKind, eglWindow));
    }

    method MakeNames(o: Outcomes)
      modifies this
      ensures Now() == SetupNames(old(Now()), o)
    {
      hide World.CreateName;
      program := Made(o.program, world);
      world := world.CreateName(o.program);
      texture := Made(o.texture, world);
      world := world.CreateName(o.texture);
    }

    /** setupEgl */
    method CreateEgl(o: Outcomes) returns (ok: bool)
      modifies this
      ensures Now() == SetupEgl(old(Now()), o)
      ensures ok <==> EglReady(o)
    {
      hide SetupContext, SetupWindow, SetupEglSurface, SetupNames, World.Use, World.MakeCurrent;
      if !o.eglDisplay || !o.config {
        eglDisplay := o.eglDisplay;
        return false;
      }
      MakeContext(o);
      if !o.context {
        return false;
      }
      MakeWindow(o);
      if !o.eglWindow {
        return false;
      }
      MakeEglSurface(o);
      if !o.eglSurface || !o.makeCurrent {
        return false;
      }
      world := world.Use(EglSurfaceKind, eglSurface).MakeCurrent(eglContext);
      if !o.imageTarget {
        return false;
      }
      MakeNames(o);
      return true;
    }

    method MakeSurfaces(o: Outcomes)
      modifies this
      ensures Now() == CreateSurfaces(old(Now()), o)
    {
      hide World.Create, World.Use, World.CreateRole;
      surface := Made(o.surface, world);
      world := world.Use(CompositorKind, compositor).Create(SurfaceKind, o.surface);
      subsurface := Made(o.surface && o.subsurface, world);
      world := world.Use(SubcompositorKind, subcompositor)
                    .CreateRole(SubsurfaceKind, o.surface && o.subsurface, Object(SurfaceKind, surface));
    }

    method Place()
      modifies this`world
      ensures Now() == Position(old(Now()))
    {
      hide World.Use, World.SetPosition;
      world := world.Use(SubsurfaceKind, subsurface);
      if geometry.width > 0 {
        world := world.SetPosition(subsurface, geometry.x, geometry.y);
      }
    }

    method Ensure(window: bool, o: Outcomes) returns (ok: bool)
      modifies this
      ensures Now() == EnsureCreated(old(Now()), window, o)
      ensures ok == valid
    {
      hide BindGlobals, CreateSurfaces, Position, SetupEgl, Destroy;
      if valid {
        return true;
      }
      if attempted || !window {
        return valid;
      }
      attempted := true;
      world := world.(attempts := world.attempts + 1);
      if !o.native || !o.display || !o.parent {
        return false;
      }
      NeverValid(Now(), o);
      var bound := BindAll(o);
      if !bound {
        return false;
      }
      MakeSurfaces(o);
      if surface == 0 || subsurface == 0 {
        return false;
      }
      Place();
      var ready := CreateEgl(o);
      if !ready {
        TearDown();
        return false;
      }
      applied := geometry;
      valid := true;
      return true;
    }

    method Resize(r: Rect)
      modifies this
      ensures Now() == SetGeometry(old(Now()), r)
    {
      geometry := r;
      if !valid || r == applied {
        return;
      }
      if subsurface != 0 {
        world := world.SetPosition(subsurface, r.x, r.y);
      }
      if eglWindow != 0 && r.width > 0 && r.height > 0 {
        world := world.ResizeWindow(eglWindow, r.width, r.height);
      }
      applied := r;
    }

    method Show(image: bool, currentOk: bool)
      modifies this`world
      ensures Now() == Present(old(Now()), image, currentOk)
    {
      if !valid || !image {
        return;
      }
      world := world.Use(EglSurfaceKind, eglSurface).Use(EglContextKind, eglContext);
      if !currentOk {
        return;
      }
      world := world.MakeCurrent(eglContext);
      world := world.UseName(texture);
      world := world.UseName(program).UseName(texture);
      world := world.Swap(eglSurface);
    }

    method TearDownEgl()
      modifies this`world
      ensures world == DestroyEgl(old(Now()))
    {
      hide World.MakeCurrent, World.DeleteName, World.Destroy;
      if !eglDisplay {
        return;
      }
      world := world.MakeCurrent(0);
      if texture != 0 {
        world := world.DeleteName(texture);
      }
      if program != 0 {
        world := world.DeleteName(program);
      }
      if eglSurface != 0 {
        world := world.Destroy(EglSurfaceKind, eglSurface);
      }
      if eglContext != 0 {
        world := world.Destroy(EglContextKind, eglContext);
      }
    }

    method ClearFields()
      modifies this
      ensures Now() == Cleared(old(Now()), old(world))
    {
      ClearEgl();
      ClearProxies();
      valid := false;
    }

    method ClearEgl()
      modifies this
      ensures Now() == old(Now()).(texture := 0, program := 0, eglSurface := 0, eglContext := 0, eglWindow := 0)
    {
      texture, program := 0, 0;
      eglSurface, eglContext, eglWindow := 0, 0, 0;
    }

    method ClearProxies()
      modifies this
      ensures Now() == old(Now()).(subsurface := 0, surface := 0, subcompositor := 0, compositor := 0)
    {
      subsurface, surface := 0, 0;
      subcompositor, compositor := 0, 0;
    }

    /** destroy(), which is also the whole destructor. */
    method TearDown()
      modifies this
      ensures Now() == Destroy(old(Now()))
      ensures !valid
    {
      hide DestroyEgl, DestroyWayland, Cleared;
      ghost var was := Now();
      TearDownEgl();
      OnlyWorldDiffers(world, Now(), was);
      DestroyProxies();
      ghost var left := world;
      OnlyWorldDiffers(left, Now(), was);
      ClearedInvalid(was, left);
      ClearFields();
    }

    method DestroyProxies()
      modifies this`world
      ensures world == DestroyWayland(old(world), old(Now()))
    {
      hide World.Destroy;
      if eglWindow != 0 {
        world := world.Destroy(EglWindowKind, eglWindow);
      }
      if subsurface != 0 {
        world := world.Destroy(SubsurfaceKind, subsurface);
      }
      if surface != 0 {
        world := world.Destroy(SurfaceKind, surface);
      }
      if subcompositor != 0 {
        world := world.Destroy(SubcompositorKind, subcompositor);
      }
      if compositor != 0 {
        world := world.Destroy(CompositorKind, compositor);
      }
    }
  }

  lemma OnlyWorldDiffers(w: World, s: Sub, t: Sub)
    requires s.(world := w) == t.(world := w)
    ensures DestroyWayland(w, s) == DestroyWayland(w, t) && Cleared(s, w) == Cleared(t, w)
  {
    hide World.Destroy;
  }

  lemma ClearedInvalid(s: Sub, w: World)
    ensures !Cleared(s, w).valid && Cleared(s, w).world == w
  {
  }

  /** Nothing before the last line of ensureCreated makes the object valid. */
  lemma NeverValid(s: Sub, o: Outcomes)
    requires !s.valid
    ensures var b := BindGlobals(s, o);
            var c := CreateSurfaces(b, o);
            && !b.valid && !c.valid && !Position(c).valid && !SetupEgl(Position(c), o).valid
  {
    BindKeepsValid(s, o);
    SetupKeepsValid(Position(CreateSurfaces(BindGlobals(s, o), o)), o);
  }

  lemma BindKeepsValid(s: Sub, o: Outcomes)
    ensures BindGlobals(s, o).valid == s.valid
  {
    RoundtripWritesGlobals(s.(world := OpenRegistry(s.world)), o.announced);
  }

  lemma SetupKeepsValid(s: Sub, o: Outcomes)
    ensures SetupEgl(s, o).valid == s.valid
  {
  }
}
