/**
  The panel controller: an element that is shown and hidden through a class on a
  target element, closed by a click outside, a link inside, the Escape key or a swipe,
  and opened or closed by any link on the page that points at the panel's id.

  The page is reduced to what the controller reads and writes: the class list of the
  target element, the touch origin kept on the panel, and the deferred work it hands to
  the browser's timers. A timer is a record in `pending`; when the host fires one, what
  it does (scrolling, resetting forms, navigating) is appended to `performed`.
*/
module Panel {
  import opened Wrappers
  import Swipe

  /** An element of the page: its `id` attribute and its class list. */
  class Element {
    const id: Option<string>
    var classes: set<string>

    constructor (id: Option<string>, classes: set<string>)
      ensures this.id == id && this.classes == classes
    {
      this.id := id;
      this.classes := classes;
    }
  }

  /** The configuration after the caller's options are merged over the defaults. */
  datatype Config = Config(
    delay: nat,
    hideOnClick: bool,
    hideOnEscape: bool,
    hideOnSwipe: bool,
    resetScroll: bool,
    resetForms: bool,
    side: Option<string>,
    target: Element,
    visibleClass: string)

  /** The caller's options; `None` is an option left unspecified. */
  datatype Options = Options(
    delay: Option<nat>,
    hideOnClick: Option<bool>,
    hideOnEscape: Option<bool>,
    hideOnSwipe: Option<bool>,
    resetScroll: Option<bool>,
    resetForms: Option<bool>,
    side: Option<string>,
    target: Option<Element>,
    visibleClass: Option<string>)

  const NoOptions: Options := Options(None, None, None, None, None, None, None, None, None)

  /** Without options a panel has no delay, every behaviour off, no side, itself as the
      target, and the class "visible". */
  lemma Defaults(panel: Element)
    ensures Merge(panel, NoOptions) == Config(0, false, false, false, false, false, None, panel, "visible")
  {
  }

  /** The options merged over the defaults: each option given by the caller wins, each one
      left out keeps its default (no delay, every behaviour off, no side, the panel itself
      as target, and the class "visible"). */
  function Merge(panel: Element, user: Options): (c: Config)
    ensures user.delay.Some? ==> c.delay == user.delay.value
    ensures user.delay.None? ==> c.delay == 0
    ensures user.hideOnClick.Some? ==> c.hideOnClick == user.hideOnClick.value
    ensures user.hideOnClick.None? ==> !c.hideOnClick
    ensures user.hideOnEscape.Some? ==> c.hideOnEscape == user.hideOnEscape.value
    ensures user.hideOnEscape.None? ==> !c.hideOnEscape
    ensures user.hideOnSwipe.Some? ==> c.hideOnSwipe == user.hideOnSwipe.value
    ensures user.hideOnSwipe.None? ==> !c.hideOnSwipe
    ensures user.resetScroll.Some? ==> c.resetScroll == user.resetScroll.value
    ensures user.resetScroll.None? ==> !c.resetScroll
    ensures user.resetForms.Some? ==> c.resetForms == user.resetForms.value
    ensures user.resetForms.None? ==> !c.resetForms
    ensures c.side == user.side
    ensures user.target.Some? ==> c.target == user.target.value
    ensures user.target.None? ==> c.target == panel
    ensures user.visibleClass.Some? ==> c.visibleClass == user.visibleClass.value
    ensures user.visibleClass.None? ==> c.visibleClass == "visible"
  {
    Config(
      user.delay.GetOr(0),
      user.hideOnClick.GetOr(false),
      user.hideOnEscape.GetOr(false),
      user.hideOnSwipe.GetOr(false),
      user.resetScroll.GetOr(false),
      user.resetForms.GetOr(false),
      user.side,
      user.target.GetOr(panel),
      user.visibleClass.GetOr("visible"))
  }

  // ---------------------------------------------------------------------------
  // Events, timers and what the timers do.

  /** What the handlers have asked of an event: `preventDefault` and `stopPropagation`. */
  datatype EventFlags = EventFlags(defaultPrevented: bool, propagationStopped: bool)

  const NoFlags: EventFlags := EventFlags(false, false)
  const Suppressed: EventFlags := EventFlags(true, true)

  /** Where a click or touch end happens: inside the panel or elsewhere on the page. */
  datatype Site = InPanel | OnPage

  /** The link a click lands on: its `href` and `target` attributes. */
  datatype Anchor = Anchor(href: Option<string>, target: Option<string>)

  /** A touch point, in page coordinates (CSS pixels, which may be fractional). */
  datatype Point = Point(pageX: real, pageY: real)

  /** The panel's layout at a touch move: scroll offset, outer height, scroll height. */
  datatype Layout = Layout(scrollTop: real, outerHeight: real, scrollHeight: real)

  /** Deferred work: the cleanup after a hide, or following a clicked link. */
  datatype Job = ResetAfterHide | FollowLink(href: string, target: Option<string>)

  /** A one-shot timer: the job and the delay, in milliseconds, it was armed with. */
  datatype Timer = Timer(delay: nat, job: Job)

  /** What a fired timer does to the page. */
  datatype Action = ScrollToTop | ResetForms | OpenWindow(url: string) | SetLocation(url: string)

  const EscapeKeyCode: int := 27

  /** Extra wait before following a link, so that the panel is hidden first. */
  const NavigationLag: nat := 10

  /** The fragment that addresses the panel: `#` and its id. A panel without an id is
      addressed by "#undefined", which is what string concatenation makes of it. */
  function SelfFragment(id: Option<string>): (r: string)
    ensures |r| > 0 && r[0] == '#'
    ensures id.Some? ==> r[1..] == id.value
    ensures id.None? ==> r[1..] == "undefined"
  {
    "#" + id.GetOr("undefined")
  }

  /** The `href` values the hide-on-click handler leaves alone: none, empty, a bare `#`,
      or the panel's own fragment. */
  function IgnoredHref(href: Option<string>, fragment: string): (r: bool)
    ensures href.None? || href == Some(fragment) ==> r
    ensures !r ==> href.Some? && |href.value| > 0 && href.value != "#"
    ensures href.Some? && href.value != "" && href.value != "#" && href.value != fragment ==> !r
  {
    href == None || href == Some("") || href == Some("#") || href == Some(fragment)
  }

  /** Following a link: a new window for target `_blank`, the current page otherwise. */
  function Navigation(href: string, target: Option<string>): (a: Action)
    ensures a.OpenWindow? || a.SetLocation?
    ensures a.url == href
    ensures a.OpenWindow? <==> target == Some("_blank")
  {
    if target == Some("_blank") then OpenWindow(href) else SetLocation(href)
  }

  /** What a timer does when it fires. The cleanup after a hide scrolls the panel back
      to the top only with `resetScroll`, resets its forms only with `resetForms`, and
      never navigates; a link timer navigates exactly once. */
  function JobActions(c: Config, job: Job): (acts: seq<Action>)
    ensures job.ResetAfterHide? ==> (ScrollToTop in acts <==> c.resetScroll)
    ensures job.ResetAfterHide? ==> (ResetForms in acts <==> c.resetForms)
    ensures job.ResetAfterHide? ==> forall a :: a in acts ==> a == ScrollToTop || a == ResetForms
    ensures job.FollowLink? ==> acts == [Navigation(job.href, job.target)]
  {
    match job
    case ResetAfterHide =>
      (if c.resetScroll then [ScrollToTop] else []) + (if c.resetForms then [ResetForms] else [])
    case FollowLink(href, target) =>
      [Navigation(href, target)]
  }

  /** The rubber-band guard of a touch move that is not a dismissing swipe: the panel is
      scrolled above its top and the finger moves down, or the panel is scrolled to its
      bottom (within two pixels) and the finger moves up. */
  function RubberBand(l: Layout, diffY: real): (r: bool)
    ensures diffY == 0.0 ==> !r
    ensures diffY < 0.0 ==> (r <==> l.scrollTop < 0.0)
    ensures diffY > 0.0 ==> (r <==> Swipe.Abs(l.scrollHeight - l.scrollTop - l.outerHeight) < 2.0)
  {
    var ts := l.scrollHeight - l.scrollTop;
    var th := l.outerHeight;
    (l.scrollTop < 0.0 && diffY < 0.0) || (ts > th - 2.0 && ts < th + 2.0 && diffY > 0.0)
  }

  /** jQuery's `toggleClass` for a single class name. */
  function ToggleClass(classes: set<string>, c: string): (r: set<string>)
    ensures c in r <==> c !in classes
    ensures r - {c} == classes - {c}
  {
    if c in classes then classes - {c} else classes + {c}
  }

  /** Toggling twice gives back the class list it started from. */
  lemma ToggleClassTwice(classes: set<string>, c: string)
    ensures ToggleClass(ToggleClass(classes, c), c) == classes
  {
  }

  // ---------------------------------------------------------------------------
  // The controller bound to one element.

  class Panel {
    /** The element the controller is bound to. */
    const self: Element
    const config: Config
    /** The touch origin; both coordinates are set and cleared together. */
    var touchPosX: Option<real>
    var touchPosY: Option<real>
    /** Timers armed and not yet fired, in the order they were armed. */
    var pending: seq<Timer>
    /** What fired timers have done, in the order they did it. */
    var performed: seq<Action>

    ghost predicate Valid()
      reads this
    {
      touchPosX.None? <==> touchPosY.None?
    }

    /** The panel is shown exactly when its target carries the visible class. */
    predicate Visible()
      reads config.target
    {
      config.visibleClass in config.target.classes
    }

    /** Freshly bound: no touch in progress and no timer armed or fired. */
    predicate Idle()
      reads this
    {
      touchPosX == None && touchPosY == None && pending == [] && performed == []
    }

    function SelfLink(): string {
      SelfFragment(self.id)
    }

    /** Binds the controller to one element with the caller's options. */
    constructor (panel: Element, user: Options)
      ensures self == panel && config == Merge(panel, user)
      ensures Idle() && Valid()
    {
      self := panel;
      config := Merge(panel, user);
      touchPosX, touchPosY := None, None;
      pending, performed := [], [];
    }

    /** `_hide`: nothing at all when the panel is already hidden. Otherwise suppress the
        event it was called for (if any), remove the visible class, and arm exactly one
        cleanup timer for `delay`; nothing ever disarms it. */
    method Hide(ev: EventFlags, withEvent: bool) returns (ev': EventFlags)
      modifies this`pending, config.target`classes
      ensures !Visible()
      ensures !old(Visible()) ==>
        && ev' == ev
        && config.target.classes == old(config.target.classes)
        && pending == old(pending)
      ensures old(Visible()) ==>
        && ev' == (if withEvent then Suppressed else ev)
        && config.target.classes == old(config.target.classes) - {config.visibleClass}
        && pending == old(pending) + [Timer(config.delay, ResetAfterHide)]
    {
      if config.visibleClass !in config.target.classes {
        return ev;
      }
      ev' := if withEvent then Suppressed else ev;
      config.target.classes := config.target.classes - {config.visibleClass};
      pending := pending + [Timer(config.delay, ResetAfterHide)];
    }

    /** A click. Inside the panel the handlers bound to the panel run: first the ones
        delegated to the clicked link (hide-on-click, then the self link), then the one
        that stops every click from leaving the panel, so the page's handlers never see
        it. Elsewhere on the page, a link to the panel's fragment toggles the panel and
        stops the event before the page's own hide handler; any other click hides. */
    method Click(site: Site, anchor: Option<Anchor>) returns (ev: EventFlags)
      modifies this`pending, config.target`classes
      ensures site == InPanel ==> ev.propagationStopped
      // a link inside the panel that hide-on-click takes over: hide, then navigate later
      ensures site == InPanel && anchor.Some? && config.hideOnClick
              && !IgnoredHref(anchor.value.href, SelfLink()) ==>
        && ev == Suppressed
        && config.target.classes == old(config.target.classes) - {config.visibleClass}
        && pending == old(pending)
                      + (if old(Visible()) then [Timer(config.delay, ResetAfterHide)] else [])
                      + [Timer(config.delay + NavigationLag,
                               FollowLink(anchor.value.href.value, anchor.value.target))]
      // the panel's own fragment inside the panel: the class goes, and no timer is armed
      ensures site == InPanel && anchor.Some? && anchor.value.href == Some(SelfLink()) ==>
        && ev == Suppressed
        && config.target.classes == old(config.target.classes) - {config.visibleClass}
        && pending == old(pending)
      // any other click inside the panel changes nothing
      ensures site == InPanel
              && (anchor.Some? ==> anchor.value.href != Some(SelfLink())
                                   && (config.hideOnClick ==> IgnoredHref(anchor.value.href, SelfLink()))) ==>
        && ev == EventFlags(false, true)
        && config.target.classes == old(config.target.classes)
        && pending == old(pending)
      // the panel's fragment elsewhere on the page: toggle
      ensures site == OnPage && anchor.Some? && anchor.value.href == Some(SelfLink()) ==>
        && ev == Suppressed
        && config.target.classes == ToggleClass(old(config.target.classes), config.visibleClass)
        && pending == old(pending)
      // any other click on the page: hide
      ensures site == OnPage && !(anchor.Some? && anchor.value.href == Some(SelfLink())) ==>
        && ev == (if old(Visible()) then Suppressed else NoFlags)
        && config.target.classes == old(config.target.classes) - {config.visibleClass}
        && pending == old(pending) + (if old(Visible()) then [Timer(config.delay, ResetAfterHide)] else [])
    {
      ev := NoFlags;
      match site
      case InPanel =>
        if anchor.Some? {
          var a := anchor.value;
          // $this.on('click', 'a', ...) when hideOnClick
          if config.hideOnClick && !IgnoredHref(a.href, SelfLink()) {
            ev := Suppressed;
            var _ := Hide(NoFlags, false);
            pending := pending + [Timer(config.delay + NavigationLag, FollowLink(a.href.value, a.target))];
          }
          // $this.on('click', 'a[href="#id"]', ...)
          if a.href == Some(SelfLink()) {
            ev := Suppressed;
            config.target.classes := config.target.classes - {config.visibleClass};
          }
        }
        // $this.on('click touchend touchstart touchmove', ...): stopPropagation
        ev := ev.(propagationStopped := true);
      case OnPage =>
        if anchor.Some? && anchor.value.href == Some(SelfLink()) {
          // $body.on('click', 'a[href="#id"]', ...): delegated, so it runs first and its
          // stopPropagation keeps the body's own handler from running
          ev := Suppressed;
          config.target.classes := ToggleClass(config.target.classes, config.visibleClass);
        } else {
          // $body.on('click touchend', ...)
          ev := Hide(ev, true);
        }
    }

    /** A touch end: inside the panel it is only kept from reaching the page; on the page
        it hides the panel. */
    method TouchEnd(site: Site) returns (ev: EventFlags)
      modifies this`pending, config.target`classes
      ensures site == InPanel ==>
        && ev == EventFlags(false, true)
        && config.target.classes == old(config.target.classes)
        && pending == old(pending)
      ensures site == OnPage ==>
        && ev == (if old(Visible()) then Suppressed else NoFlags)
        && config.target.classes == old(config.target.classes) - {config.visibleClass}
        && pending == old(pending) + (if old(Visible()) then [Timer(config.delay, ResetAfterHide)] else [])
    {
      if site == InPanel {
        ev := EventFlags(false, true);
      } else {
        ev := Hide(NoFlags, true);
      }
    }

    /** A key press anywhere in the window: Escape hides the panel when `hideOnEscape`
        is set; any other key, or Escape without it, does nothing. */
    method KeyDown(keyCode: int) returns (ev: EventFlags)
      modifies this`pending, config.target`classes
      ensures config.hideOnEscape && keyCode == EscapeKeyCode ==>
        && ev == (if old(Visible()) then Suppressed else NoFlags)
        && config.target.classes == old(config.target.classes) - {config.visibleClass}
        && pending == old(pending) + (if old(Visible()) then [Timer(config.delay, ResetAfterHide)] else [])
      ensures !(config.hideOnEscape && keyCode == EscapeKeyCode) ==>
        && ev == NoFlags
        && config.target.classes == old(config.target.classes)
        && pending == old(pending)
    {
      ev := NoFlags;
      if config.hideOnEscape && keyCode == EscapeKeyCode {
        ev := Hide(ev, true);
      }
    }

    /** A touch start inside the panel records the first touch point as the origin. */
    method TouchStart(touches: seq<Point>) returns (ev: EventFlags)
      requires |touches| > 0
      modifies this`touchPosX, this`touchPosY
      ensures Valid()
      ensures touchPosX == Some(touches[0].pageX) && touchPosY == Some(touches[0].pageY)
      ensures ev == EventFlags(false, true)
    {
      touchPosX := Some(touches[0].pageX);
      touchPosY := Some(touches[0].pageY);
      ev := EventFlags(false, true);
    }

    /** A touch move inside the panel. Without an origin nothing happens. Otherwise the
        movement since the origin is classified; a dismissing swipe clears the origin and
        hides the panel. A movement that does not dismiss keeps the origin, and its default
        is prevented only at the rubber-band edges. The event never leaves the panel. */
    method TouchMove(touches: seq<Point>, layout: Layout) returns (ev: EventFlags)
      requires |touches| > 0
      requires Valid()
      modifies this`touchPosX, this`touchPosY, this`pending, config.target`classes
      ensures Valid()
      ensures ev.propagationStopped
      ensures old(touchPosX).None? ==>
        && ev == EventFlags(false, true)
        && touchPosX == None && touchPosY == None
        && config.target.classes == old(config.target.classes)
        && pending == old(pending)
      ensures old(touchPosX).Some? ==>
        var diffX := old(touchPosX).value - touches[0].pageX;
        var diffY := old(touchPosY).value - touches[0].pageY;
        if config.hideOnSwipe && Swipe.Dismisses(config.side, diffX, diffY) then
          && ev == Suppressed
          && touchPosX == None && touchPosY == None
          && config.target.classes == old(config.target.classes) - {config.visibleClass}
          && pending == old(pending) + (if old(Visible()) then [Timer(config.delay, ResetAfterHide)] else [])
        else
          && ev == EventFlags(RubberBand(layout, diffY), true)
          && touchPosX == old(touchPosX) && touchPosY == old(touchPosY)
          && config.target.classes == old(config.target.classes)
          && pending == old(pending)
    {
      ev := NoFlags;
      if touchPosX.Some? && touchPosY.Some? {
        var diffX := touchPosX.value - touches[0].pageX;
        var diffY := touchPosY.value - touches[0].pageY;
        var dismissed := false;
        if config.hideOnSwipe && Swipe.Dismisses(config.side, diffX, diffY) {
          touchPosX, touchPosY := None, None;
          var _ := Hide(NoFlags, false);
          // returning false from a jQuery handler prevents the default and stops propagation
          ev := Suppressed;
          dismissed := true;
        }
        if !dismissed && RubberBand(layout, diffY) {
          ev := Suppressed;
        }
      }
      // $this.on('click touchend touchstart touchmove', ...): stopPropagation
      ev := ev.(propagationStopped := true);
    }

    /** The host fires one armed timer: it leaves `pending` and its work is done. */
    method Fire(i: nat)
      requires i < |pending|
      modifies this`pending, this`performed
      ensures pending == old(pending[..i] + pending[i + 1..])
      ensures performed == old(performed) + JobActions(config, old(pending[i]).job)
    {
      performed := performed + JobActions(config, pending[i].job);
      pending := pending[..i] + pending[i + 1..];
    }
  }

  /** Two clicks on a page link to the panel's fragment give back the target's class
      list, and arm no timer. */
  method ToggleTwice(p: Panel, a: Anchor)
    requires a.href == Some(p.SelfLink())
    modifies p, p.config.target
    ensures p.config.target.classes == old(p.config.target.classes)
    ensures p.pending == old(p.pending)
  {
    var _ := p.Click(OnPage, Some(a));
    var _ := p.Click(OnPage, Some(a));
    ToggleClassTwice(old(p.config.target.classes), p.config.visibleClass);
  }

  /** Binding to a selection: nothing for an empty one, and for each element its own
      controller, all with the same options. */
  method Bind(elements: seq<Element>, user: Options) returns (panels: seq<Panel>)
    ensures |panels| == |elements|
    ensures forall i :: 0 <= i < |panels| ==>
      panels[i].self == elements[i] && panels[i].config == Merge(elements[i], user) && panels[i].Idle()
    ensures forall i, j :: 0 <= i < j < |panels| ==> panels[i] != panels[j]
  {
    panels := [];
    if |elements| == 0 {
      return;
    }
    for k := 0 to |elements|
      invariant |panels| == k
      invariant forall i :: 0 <= i < k ==> fresh(panels[i])
      invariant forall i :: 0 <= i < k ==>
        panels[i].self == elements[i] && panels[i].config == Merge(elements[i], user) && panels[i].Idle()
      invariant forall i, j :: 0 <= i < j < k ==> panels[i] != panels[j]
    {
      var p := new Panel(elements[k], user);
      panels := panels + [p];
    }
  }
}
