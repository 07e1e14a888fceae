/**
  The navigation state machine of `AppController` (controller.py). Views
  are abstract: the registry maps a name to a factory for a view class or
  to an instance of it, numbered in creation order, and the visible effect
  of a view's `show`, `hide` and `destroy` is recorded as an event trace.
  Only the second `show_view` of the class body (controller.py:96-102) is
  modelled, since Python keeps the last definition of a name.
 */
module Controller {
  import opened Wrappers
  import Frames
  import TextOrder

  datatype Entry = Factory(viewClass: string) | Instance(id: nat, viewClass: string)

  /** A Python dict from view name to entry: insertion-ordered, one entry per name. */
  type Registry = seq<(string, Entry)>

  datatype Event = Created(id: nat, viewClass: string) | Shown(id: nat) | Hidden(id: nat) | Destroyed(id: nat)

  datatype State = State(views: Registry, current: Option<nat>, loggedIn: bool, nextId: nat, trace: seq<Event>)

  const CaptchaClass := "CaptchaPage"

  function Names(v: Registry): (r: seq<string>)
    ensures |r| == |v|
    ensures forall i | 0 <= i < |v| :: r[i] == v[i].0
  {
    seq(|v|, i requires 0 <= i < |v| => v[i].0)
  }

  predicate Registered(v: Registry, name: string)
  {
    name in Names(v)
  }

  /** `views.get(name)`. */
  function Lookup(v: Registry, name: string): (r: Option<Entry>)
    ensures r.Some? <==> Registered(v, name)
    ensures Frames.Distinct(Names(v)) ==> forall i | 0 <= i < |v| && v[i].0 == name :: r == Some(v[i].1)
  {
    var k := TextOrder.IndexOf(Names(v), name);
    if k < |v| then Some(v[k].1) else None
  }

  /** `views[name] = e`: an existing key keeps its place, a new one goes last. */
  function Put(v: Registry, name: string, e: Entry): (r: Registry)
    ensures Lookup(r, name) == Some(e)
    ensures forall m | m != name :: Lookup(r, m) == Lookup(v, m)
    ensures Names(r) == if Registered(v, name) then Names(v) else Names(v) + [name]
    ensures Frames.Distinct(Names(v)) ==> Frames.Distinct(Names(r))
  {
    var k := TextOrder.IndexOf(Names(v), name);
    if k < |v| then
      var r := v[k := (name, e)];
      assert Names(r) == Names(v);
      r
    else
      var r := v + [(name, e)];
      assert Names(r) == Names(v) + [name];
      assert TextOrder.IndexOf(Names(r), name) == |v|;
      AppendLookup(v, name, e);
      r
  }

  lemma AppendLookup(v: Registry, name: string, e: Entry)
    ensures forall m | m != name :: Lookup(v + [(name, e)], m) == Lookup(v, m)
  {
    assert Names(v + [(name, e)]) == Names(v) + [name];
    forall m | m != name
      ensures Lookup(v + [(name, e)], m) == Lookup(v, m)
    {
      IndexOfExtend(Names(v), name, m);
    }
  }

  lemma IndexOfExtend(s: seq<string>, x: string, m: string)
    requires m != x
    ensures m in s ==> TextOrder.IndexOf(s + [x], m) == TextOrder.IndexOf(s, m)
    ensures m in s + [x] <==> m in s
  {
    var k := TextOrder.IndexOf(s, m);
    var j := TextOrder.IndexOf(s + [x], m);
    assert forall i | 0 <= i < |s| :: (s + [x])[i] == s[i];
    if k < |s| {
      assert (s + [x])[k] == m;
    }
  }

  /** `del views[name]`, for a name that is present. */
  function Remove(v: Registry, name: string): (r: Registry)
    requires Registered(v, name)
    ensures forall m | m != name :: Lookup(r, m) == Lookup(v, m)
    ensures Frames.Distinct(Names(v)) ==> Frames.Distinct(Names(r)) && !Registered(r, name)
    ensures forall m :: Registered(r, m) ==> Registered(v, m)
    ensures |r| == |v| - 1
  {
    var k := TextOrder.IndexOf(Names(v), name);
    RemoveSpec(v, k);
    v[..k] + v[k + 1..]
  }

  lemma RemoveSpec(v: Registry, k: nat)
    requires k < |v|
    ensures forall m | m != v[k].0 :: Lookup(v[..k] + v[k + 1..], m) == Lookup(v, m)
    ensures Frames.Distinct(Names(v)) ==> Frames.Distinct(Names(v[..k] + v[k + 1..])) && !Registered(v[..k] + v[k + 1..], v[k].0)
    ensures forall m :: Registered(v[..k] + v[k + 1..], m) ==> Registered(v, m)
  {
    var r := v[..k] + v[k + 1..];
    assert forall i | 0 <= i < k :: r[i] == v[i];
    assert forall i | k <= i < |r| :: r[i] == v[i + 1];
    forall m | m != v[k].0
      ensures Lookup(r, m) == Lookup(v, m)
    {
      RemoveLookup(v, k, m);
    }
  }

  lemma RemoveLookup(v: Registry, k: nat, m: string)
    requires k < |v| && v[k].0 != m
    ensures Lookup(v[..k] + v[k + 1..], m) == Lookup(v, m)
  {
    var r := v[..k] + v[k + 1..];
    RemoveIndex(v, k, m);
    var a := TextOrder.IndexOf(Names(v), m);
    if a < |v| {
      if a < k {
        assert r[a] == v[a];
      } else {
        assert r[a - 1] == v[a];
      }
    }
  }

  /** Where `m` sits among the names once entry `k` is removed. */
  lemma RemoveIndex(v: Registry, k: nat, m: string)
    requires k < |v| && v[k].0 != m
    ensures var a := TextOrder.IndexOf(Names(v), m);
      TextOrder.IndexOf(Names(v[..k] + v[k + 1..]), m) == if a < k then a else a - 1
  {
    var r := v[..k] + v[k + 1..];
    assert forall i | 0 <= i < |r| :: Names(r)[i] == (Names(v)[..k] + Names(v)[k + 1..])[i];
    assert Names(r) == Names(v)[..k] + Names(v)[k + 1..];
    IndexOfRemove(Names(v), k, m);
  }

  /** A position meeting the first-occurrence conditions is the one `IndexOf` finds. */
  lemma IndexOfUnique(s: seq<string>, x: string, c: nat)
    requires c <= |s| && (c < |s| ==> s[c] == x) && (c == |s| ==> x !in s)
    requires forall j | 0 <= j < c :: s[j] != x
    ensures TextOrder.IndexOf(s, x) == c
  {
  }

  /** Removing an entry other than `x` moves the first `x` back by one when it came later. */
  lemma IndexOfRemove(s: seq<string>, k: nat, x: string)
    requires k < |s| && s[k] != x
    ensures var a := TextOrder.IndexOf(s, x);
      TextOrder.IndexOf(s[..k] + s[k + 1..], x) == if a < k then a else a - 1
  {
    var t := s[..k] + s[k + 1..];
    var a := TextOrder.IndexOf(s, x);
    var c := if a < k then a else a - 1;
    assert forall j | 0 <= j < k :: t[j] == s[j];
    assert forall j | k <= j < |t| :: t[j] == s[j + 1];
    assert x in t <==> x in s by {
      if x in s { assert t[c] == x; }
      if x in t { var j :| 0 <= j < |t| && t[j] == x; assert j < k ==> s[j] == x; assert j >= k ==> s[j + 1] == x; }
    }
    IndexOfUnique(t, x, c);
  }

  /** The instance `current_view` refers to is hidden when there is one. */
  function HideCurrent(c: State): seq<Event>
  {
    if c.current.Some? then [Hidden(c.current.value)] else []
  }

  /** `AppController.__init__` (controller.py:4-11). */
  function Init(): (c: State)
    ensures !c.loggedIn && c.current.None?
    ensures Names(c.views) == ["captcha"]
    ensures Lookup(c.views, "captcha") == Some(Factory(CaptchaClass))
    ensures c.trace == []
  {
    State([], None, false, 0, []).(views := Put([], "captcha", Factory(CaptchaClass)))
  }

  /** `register_view` (controller.py:13-17): the name now holds a fresh factory. */
  function RegisterView(c: State, name: string, viewClass: string): (r: State)
    ensures Lookup(r.views, name) == Some(Factory(viewClass))
    ensures forall m | m != name :: Lookup(r.views, m) == Lookup(c.views, m)
    ensures Names(r.views) == if Registered(c.views, name) then Names(c.views) else Names(c.views) + [name]
    ensures r.current == c.current && r.loggedIn == c.loggedIn && r.trace == c.trace && r.nextId == c.nextId
  {
    c.(views := Put(c.views, name, Factory(viewClass)))
  }

  /**
    `get_view` (controller.py:19-27): an unregistered name gives None; a
    factory is called once and its instance replaces it in the registry.
   */
  function GetView(c: State, name: string): (r: (State, Option<nat>))
    ensures !Registered(c.views, name) ==> r == (c, None)
    ensures Registered(c.views, name) ==> r.1.Some? && Lookup(r.0.views, name) == Some(Instance(r.1.value, Lookup(c.views, name).value.viewClass))
    ensures forall id: nat, k :: Lookup(c.views, name) == Some(Instance(id, k)) ==> r == (c, Some(id))
    ensures forall k :: Lookup(c.views, name) == Some(Factory(k)) ==>
      && r.1 == Some(c.nextId)
      && r.0.nextId == c.nextId + 1
      && r.0.trace == c.trace + [Created(c.nextId, k)]
    ensures forall m | m != name :: Lookup(r.0.views, m) == Lookup(c.views, m)
    ensures Names(r.0.views) == Names(c.views)
    ensures r.0.current == c.current && r.0.loggedIn == c.loggedIn
  {
    match Lookup(c.views, name)
    case None => (c, None)
    case Some(Instance(id, _)) => (c, Some(id))
    case Some(Factory(k)) =>
      var id := c.nextId;
      (c.(views := Put(c.views, name, Instance(id, k)), nextId := id + 1, trace := c.trace + [Created(id, k)]), Some(id))
  }

  /** `name` is instantiated, it is the current view, and showing it was the last event. */
  predicate Showing(c: State, name: string)
  {
    && c.current.Some?
    && Lookup(c.views, name).Some?
    && Lookup(c.views, name).value == Instance(c.current.value, Lookup(c.views, name).value.viewClass)
    && |c.trace| > 0
    && c.trace[|c.trace| - 1] == Shown(c.current.value)
  }

  /**
    `show_view` (controller.py:96-102): hide the current view, make the
    named view current (None when it is not registered) and show it.
   */
  function ShowView(c: State, name: string): (r: State)
    ensures r.loggedIn == c.loggedIn
    ensures r.current.Some? <==> Registered(c.views, name)
    ensures Registered(c.views, name) <==> Showing(r, name)
    ensures !Registered(c.views, name) ==> r == c.(current := None, trace := c.trace + HideCurrent(c))
    ensures forall id: nat, k :: Lookup(c.views, name) == Some(Instance(id, k)) ==>
      r == c.(current := Some(id), trace := c.trace + HideCurrent(c) + [Shown(id)])
    ensures forall k :: Lookup(c.views, name) == Some(Factory(k)) ==>
      && r.current == Some(c.nextId)
      && r.nextId == c.nextId + 1
      && Lookup(r.views, name) == Some(Instance(c.nextId, k))
      && r.trace == c.trace + HideCurrent(c) + [Created(c.nextId, k), Shown(c.nextId)]
    ensures forall m | m != name :: Lookup(r.views, m) == Lookup(c.views, m)
    ensures Names(r.views) == Names(c.views)
  {
    var hidden := c.(trace := c.trace + HideCurrent(c));
    var (g, v) := GetView(hidden, name);
    var shown := if v.Some? then [Shown(v.value)] else [];
    g.(current := v, trace := g.trace + shown)
  }

  /** The events of hiding every instantiated view, in registry order; factories are skipped. */
  function HideInstances(v: Registry): (r: seq<Event>)
    ensures forall e | e in r :: e.Hidden?
    ensures forall id :: Hidden(id) in r <==> exists i | 0 <= i < |v| :: v[i].1.Instance? && v[i].1.id == id
    ensures |r| <= |v|
  {
    if |v| == 0 then []
    else
      var rest := HideInstances(v[1..]);
      assert forall i | 1 <= i < |v| :: v[1..][i - 1] == v[i];
      if v[0].1.Instance? then [Hidden(v[0].1.id)] + rest else rest
  }

  /**
    Hiding follows registry order: the events for a registry split in two
    are those of the first part followed by those of the second, and one
    entry contributes one `Hidden` event exactly when it is an instance.
   */
  lemma {:induction false} HideInstancesInOrder(v: Registry, w: Registry)
    ensures HideInstances(v + w) == HideInstances(v) + HideInstances(w)
    ensures |v| == 1 ==> HideInstances(v) == if v[0].1.Instance? then [Hidden(v[0].1.id)] else []
    decreases |v|
  {
    if |v| > 0 {
      assert (v + w)[1..] == v[1..] + w;
      HideInstancesInOrder(v[1..], w);
    } else {
      assert v + w == w;
    }
  }

  /**
    `reset_all_views` (controller.py:29-43): hide the instantiated views,
    forget the current view, log out, and show "login" if it is registered.
   */
  function ResetAllViews(c: State): (r: State)
    ensures !r.loggedIn
    ensures Registered(c.views, "login") <==> r.current.Some?
    ensures Registered(c.views, "login") <==> Showing(r, "login")
    ensures !Registered(c.views, "login") ==> r == c.(current := None, loggedIn := false, trace := c.trace + HideInstances(c.views))
    ensures Registered(c.views, "login") ==> |r.trace| > |c.trace| + |HideInstances(c.views)| && r.trace[..|c.trace| + |HideInstances(c.views)|] == c.trace + HideInstances(c.views)
    ensures forall m | m != "login" :: Lookup(r.views, m) == Lookup(c.views, m)
  {
    var cleared := c.(current := None, loggedIn := false, trace := c.trace + HideInstances(c.views));
    if Registered(c.views, "login") then
      var r := ShowView(cleared, "login");
      assert r.trace[..|cleared.trace|] == cleared.trace;
      r
    else cleared
  }

  /** `login_success` (controller.py:74-80): logged in, and the dashboard shown if registered. */
  function LoginSuccess(c: State): (r: State)
    ensures r.loggedIn
    ensures Registered(c.views, "dashboard") <==> Showing(r, "dashboard")
    ensures !Registered(c.views, "dashboard") ==> r.current.None?
  {
    ShowView(c.(loggedIn := true), "dashboard")
  }

  /** `logout` (controller.py:82-86): logged out, and the login view shown if registered. */
  function Logout(c: State): (r: State)
    ensures !r.loggedIn
    ensures Registered(c.views, "login") <==> Showing(r, "login")
    ensures !Registered(c.views, "login") ==> r.current.None?
  {
    ShowView(c.(loggedIn := false), "login")
  }

  /** `go_to_register` (controller.py:88-90). */
  function GoToRegister(c: State): (r: State)
    ensures r.loggedIn == c.loggedIn
    ensures Registered(c.views, "register") <==> Showing(r, "register")
    ensures !Registered(c.views, "register") ==> r.current.None?
  {
    ShowView(c, "register")
  }

  /** `go_to_login` (controller.py:92-94). */
  function GoToLogin(c: State): (r: State)
    ensures r.loggedIn == c.loggedIn
    ensures Registered(c.views, "login") <==> Showing(r, "login")
    ensures !Registered(c.views, "login") ==> r.current.None?
  {
    ShowView(c, "login")
  }

  /** The captcha entry goes away; an instance is destroyed first. */
  function DiscardCaptcha(c: State): (r: State)
    ensures !Registered(c.views, "captcha") ==> r == c
    ensures forall id: nat, k :: Lookup(c.views, "captcha") == Some(Instance(id, k)) ==> r.trace == c.trace + [Destroyed(id)]
    ensures forall k :: Lookup(c.views, "captcha") == Some(Factory(k)) ==> r.trace == c.trace
    ensures Frames.Distinct(Names(c.views)) ==> Frames.Distinct(Names(r.views)) && !Registered(r.views, "captcha")
    ensures forall m | m != "captcha" :: Lookup(r.views, m) == Lookup(c.views, m)
    ensures r.current == c.current && r.loggedIn == c.loggedIn && r.nextId == c.nextId
    ensures |c.trace| <= |r.trace| && r.trace[..|c.trace|] == c.trace
    ensures forall i | |c.trace| <= i < |r.trace| :: r.trace[i].Destroyed?
  {
    if Registered(c.views, "captcha") then
      var destroyed := match Lookup(c.views, "captcha") case Some(Instance(id, _)) => [Destroyed(id)] case _ => [];
      c.(views := Remove(c.views, "captcha"), trace := c.trace + destroyed)
    else c
  }

  /**
    `on_captcha_success` (controller.py:104-121): destroy and unregister the
    captcha view, register a fresh factory for it, clear the current view
    and show the dashboard.
   */
  function OnCaptchaSuccess(c: State): (r: State)
    ensures Lookup(r.views, "captcha") == Some(Factory(CaptchaClass))
    ensures Frames.Distinct(Names(c.views)) ==> Names(r.views)[|r.views| - 1] == "captcha"
    ensures r.loggedIn == c.loggedIn
    ensures Registered(c.views, "dashboard") <==> Showing(r, "dashboard")
    ensures !Registered(c.views, "dashboard") ==> r.current.None?
  {
    var renewed := RegisterView(DiscardCaptcha(c), "captcha", CaptchaClass).(current := None);
    RenewedCaptcha(c, renewed);
    ShowView(renewed, "dashboard")
  }

  /** The state `on_captcha_success` shows the dashboard from. */
  lemma RenewedCaptcha(c: State, renewed: State)
    requires renewed == RegisterView(DiscardCaptcha(c), "captcha", CaptchaClass).(current := None)
    ensures "captcha" != "dashboard"
    ensures Lookup(renewed.views, "dashboard") == Lookup(c.views, "dashboard")
    ensures Lookup(renewed.views, "captcha") == Some(Factory(CaptchaClass))
    ensures Frames.Distinct(Names(c.views)) ==>
      |renewed.views| > 0 && Names(renewed.views)[|renewed.views| - 1] == "captcha"
    ensures renewed.loggedIn == c.loggedIn && renewed.current.None?
  {
    assert |"captcha"| == 7 && |"dashboard"| == 9;
  }

  /**
    The view that was current before a captcha success is not hidden: the
    only events added are the destruction of the captcha instance and the
    creation and showing of the dashboard.
   */
  lemma OnCaptchaSuccessHidesNothing(c: State)
    ensures |c.trace| <= |OnCaptchaSuccess(c).trace|
    ensures OnCaptchaSuccess(c).trace[..|c.trace|] == c.trace
    ensures forall i | |c.trace| <= i < |OnCaptchaSuccess(c).trace| :: !OnCaptchaSuccess(c).trace[i].Hidden?
  {
    var tail := OnCaptchaSuccessAppends(c);
    AppendParts(c.trace, tail);
  }

  lemma AppendParts(a: seq<Event>, tail: seq<Event>)
    ensures (a + tail)[..|a|] == a
    ensures forall i | |a| <= i < |a + tail| :: (a + tail)[i] == tail[i - |a|]
  {
  }

  lemma OnCaptchaSuccessAppends(c: State) returns (tail: seq<Event>)
    ensures OnCaptchaSuccess(c).trace == c.trace + tail
    ensures forall e | e in tail :: !e.Hidden?
  {
    var d := DiscardCaptcha(c);
    var destroyed := DiscardCaptchaAppends(c);
    var renewed := RegisterView(d, "captcha", CaptchaClass).(current := None);
    var shown := ShowViewAppends(renewed, "dashboard");
    tail := destroyed + shown;
    assert HideCurrent(renewed) == [] && renewed.trace == d.trace;
    AppendAssoc(c.trace, destroyed, shown);
  }

  lemma AppendAssoc(a: seq<Event>, b: seq<Event>, c: seq<Event>)
    ensures a + b + [] + c == a + (b + c)
  {
  }

  /** Discarding the captcha appends nothing but its destruction. */
  lemma DiscardCaptchaAppends(c: State) returns (added: seq<Event>)
    ensures DiscardCaptcha(c).trace == c.trace + added
    ensures forall e | e in added :: e.Destroyed?
  {
    added := DiscardCaptcha(c).trace[|c.trace|..];
    assert DiscardCaptcha(c).trace == DiscardCaptcha(c).trace[..|c.trace|] + added;
  }

  /** `show_view` appends the hiding of the current view, then only creations and shows. */
  lemma ShowViewAppends(c: State, name: string) returns (added: seq<Event>)
    ensures ShowView(c, name).trace == c.trace + HideCurrent(c) + added
    ensures forall e | e in added :: e.Created? || e.Shown?
  {
    match Lookup(c.views, name)
    case None =>
      added := [];
    case Some(Instance(id, k)) =>
      added := [Shown(id)];
    case Some(Factory(k)) =>
      added := [Created(c.nextId, k), Shown(c.nextId)];
  }

  /** The registry `MainApp.__init__` builds before its reset (main.py:12-16). */
  function MainViews(): State
  {
    var c := Init();
    var c := RegisterView(c, "login", "LoginApp");
    var c := RegisterView(c, "register", "RegisterApp");
    RegisterView(c, "dashboard", "DashboardApp")
  }

  /** `MainApp.__init__` (main.py:10-18): the controller, three views, and a reset. */
  function Startup(): State
  {
    ResetAllViews(MainViews())
  }

  /** A second `get_view` of the same name returns the same instance and changes nothing. */
  lemma GetViewIdempotent(c: State, name: string)
    ensures GetView(GetView(c, name).0, name) == GetView(c, name)
  {
  }

  /** `show_view` never consults `logged_in`: the dashboard is shown whether or not a user logged in. */
  lemma ShowViewIgnoresLogin(c: State, name: string, b: bool)
    ensures ShowView(c.(loggedIn := b), name) == ShowView(c, name).(loggedIn := b)
  {
  }

  /** The shape `AppController` keeps: unique names, and each instance created exactly once with a fresh number. */
  ghost predicate Inv(c: State)
  {
    && Frames.Distinct(Names(c.views))
    && (forall i | 0 <= i < |c.trace| :: c.trace[i].id < c.nextId)
    && (forall i, j | 0 <= i < j < |c.trace| && c.trace[i].Created? && c.trace[j].Created? :: c.trace[i].id != c.trace[j].id)
    && (forall n | Registered(c.views, n) && Lookup(c.views, n).value.Instance? ::
          Created(Lookup(c.views, n).value.id, Lookup(c.views, n).value.viewClass) in c.trace)
    && (forall n, m | n != m && Registered(c.views, n) && Registered(c.views, m) &&
          Lookup(c.views, n).value.Instance? && Lookup(c.views, m).value.Instance? ::
          Lookup(c.views, n).value.id != Lookup(c.views, m).value.id)
    && (c.current.Some? ==> c.current.value < c.nextId)
  }

  lemma InitInv()
    ensures Inv(Init())
  {
  }

  lemma RegisterViewInv(c: State, name: string, viewClass: string)
    requires Inv(c)
    ensures Inv(RegisterView(c, name, viewClass))
  {
  }

  /** Appending events with ids below `nextId`, of which only the last may be a creation, keeps creations unique. */
  lemma ExtendTrace(c: State, more: seq<Event>, nextId: nat)
    requires Inv(c) && c.nextId <= nextId
    requires forall i | 0 <= i < |more| :: more[i].id < nextId
    requires forall i | 0 <= i < |more| && more[i].Created? :: more[i].id >= c.nextId
    requires forall i, j | 0 <= i < j < |more| && more[i].Created? && more[j].Created? :: more[i].id != more[j].id
    ensures forall i | 0 <= i < |c.trace + more| :: (c.trace + more)[i].id < nextId
    ensures forall i, j | 0 <= i < j < |c.trace + more| && (c.trace + more)[i].Created? && (c.trace + more)[j].Created? ::
      (c.trace + more)[i].id != (c.trace + more)[j].id
  {
    var t := c.trace + more;
    forall i, j | 0 <= i < j < |t| && t[i].Created? && t[j].Created?
      ensures t[i].id != t[j].id
    {
      if j >= |c.trace| && i < |c.trace| {
        assert t[i] == c.trace[i];
        assert t[j] == more[j - |c.trace|];
      } else if i >= |c.trace| {
        assert t[i] == more[i - |c.trace|];
        assert t[j] == more[j - |c.trace|];
      }
    }
  }

  /** Events that create nothing and name existing instances keep the invariant. */
  lemma AppendPassive(c: State, more: seq<Event>, cur: Option<nat>, b: bool)
    requires Inv(c)
    requires forall e | e in more :: !e.Created? && e.id < c.nextId
    requires cur.Some? ==> cur.value < c.nextId
    ensures Inv(c.(current := cur, loggedIn := b, trace := c.trace + more))
  {
    assert forall i | 0 <= i < |more| :: more[i] in more;
    ExtendTrace(c, more, c.nextId);
  }

  /** Instantiating the factory under `name` keeps the invariant. */
  lemma InstantiateInv(c: State, name: string, k: string)
    requires Inv(c) && Lookup(c.views, name) == Some(Factory(k))
    ensures Inv(GetView(c, name).0)
  {
    var r := GetView(c, name).0;
    var id := c.nextId;
    ExtendTrace(c, [Created(id, k)], id + 1);
    assert Created(id, k) in r.trace;
    forall n | Registered(r.views, n) && Lookup(r.views, n).value.Instance?
      ensures Created(Lookup(r.views, n).value.id, Lookup(r.views, n).value.viewClass) in r.trace
    {
      if n != name {
        assert Created(Lookup(c.views, n).value.id, Lookup(c.views, n).value.viewClass) in c.trace;
      }
    }
    forall n, m | n != m && Registered(r.views, n) && Registered(r.views, m) &&
        Lookup(r.views, n).value.Instance? && Lookup(r.views, m).value.Instance?
      ensures Lookup(r.views, n).value.id != Lookup(r.views, m).value.id
    {
      if n == name {
        OldInstanceBelow(c, m);
      } else if m == name {
        OldInstanceBelow(c, n);
      }
    }
  }

  /** A registered instance was created earlier, so its number is below `nextId`. */
  lemma OldInstanceBelow(c: State, n: string)
    requires Inv(c) && Registered(c.views, n) && Lookup(c.views, n).value.Instance?
    ensures Lookup(c.views, n).value.id < c.nextId
  {
    var e := Lookup(c.views, n).value;
    assert Created(e.id, e.viewClass) in c.trace;
    var i :| 0 <= i < |c.trace| && c.trace[i] == Created(e.id, e.viewClass);
  }

  lemma ShowViewInv(c: State, name: string)
    requires Inv(c)
    ensures Inv(ShowView(c, name))
  {
    match Lookup(c.views, name)
    case None =>
      AppendPassive(c, HideCurrent(c), None, c.loggedIn);
    case Some(Instance(id, k)) =>
      ShowInstanceInv(c, name, id, k);
    case Some(Factory(k)) =>
      ShowFactoryInv(c, name, k);
  }

  lemma ShowInstanceInv(c: State, name: string, id: nat, k: string)
    requires Inv(c) && Lookup(c.views, name) == Some(Instance(id, k))
    ensures Inv(ShowView(c, name))
  {
    var h := HideCurrent(c);
    AppendPassive(c, h, c.current, c.loggedIn);
    OldInstanceBelow(c, name);
    AppendPassive(c, h + [Shown(id)], Some(id), c.loggedIn);
    assert c.trace + (h + [Shown(id)]) == c.trace + h + [Shown(id)];
  }

  lemma ShowFactoryInv(c: State, name: string, k: string)
    requires Inv(c) && Lookup(c.views, name) == Some(Factory(k))
    ensures Inv(ShowView(c, name))
  {
    var h := HideCurrent(c);
    var hidden := c.(trace := c.trace + h);
    AppendPassive(c, h, c.current, c.loggedIn);
    InstantiateInv(hidden, name, k);
    var g := GetView(hidden, name).0;
    AppendPassive(g, [Shown(c.nextId)], Some(c.nextId), c.loggedIn);
  }

  lemma HideInstancesIds(c: State)
    requires Inv(c)
    ensures forall e | e in HideInstances(c.views) :: e.id < c.nextId
  {
    forall e | e in HideInstances(c.views)
      ensures e.id < c.nextId
    {
      var i :| 0 <= i < |c.views| && c.views[i].1.Instance? && c.views[i].1.id == e.id;
      var n := c.views[i].0;
      assert Lookup(c.views, n) == Some(c.views[i].1);
      assert Created(e.id, c.views[i].1.viewClass) in c.trace;
    }
  }

  lemma ResetAllViewsInv(c: State)
    requires Inv(c)
    ensures Inv(ResetAllViews(c))
  {
    HideInstancesIds(c);
    AppendPassive(c, HideInstances(c.views), None, false);
    if Registered(c.views, "login") {
      ShowViewInv(c.(current := None, loggedIn := false, trace := c.trace + HideInstances(c.views)), "login");
    }
  }

  lemma LoginSuccessInv(c: State)
    requires Inv(c)
    ensures Inv(LoginSuccess(c))
  {
    ShowViewInv(c.(loggedIn := true), "dashboard");
  }

  lemma LogoutInv(c: State)
    requires Inv(c)
    ensures Inv(Logout(c))
  {
    ShowViewInv(c.(loggedIn := false), "login");
  }

  /** Unregistering a name keeps the invariant. */
  lemma RemoveInv(c: State, name: string)
    requires Inv(c) && Registered(c.views, name)
    ensures Inv(c.(views := Remove(c.views, name)))
  {
  }

  lemma OnCaptchaSuccessInv(c: State)
    requires Inv(c)
    ensures Inv(OnCaptchaSuccess(c))
  {
    var d := DiscardCaptcha(c);
    if Registered(c.views, "captcha") {
      var e := Lookup(c.views, "captcha").value;
      var destroyed := if e.Instance? then [Destroyed(e.id)] else [];
      if e.Instance? {
        OldInstanceBelow(c, "captcha");
      }
      AppendPassive(c, destroyed, c.current, c.loggedIn);
      var c' := c.(trace := c.trace + destroyed);
      RemoveInv(c', "captcha");
      assert d == c'.(views := Remove(c'.views, "captcha"));
    }
    var renewed := RegisterView(d, "captcha", CaptchaClass);
    RegisterViewInv(d, "captcha", CaptchaClass);
    ShowViewInv(renewed.(current := None), "dashboard");
  }

  /** Registering a new name appends it. */
  lemma PutFresh(v: Registry, name: string, e: Entry)
    requires !Registered(v, name)
    ensures Put(v, name, e) == v + [(name, e)]
  {
  }

  lemma InitShape()
    ensures Init() == State([("captcha", Factory(CaptchaClass))], None, false, 0, [])
  {
    PutFresh([], "captcha", Factory(CaptchaClass));
  }

  /** Registering a name that is not yet present appends a factory and changes nothing else. */
  lemma RegisterFresh(c: State, name: string, viewClass: string)
    requires !Registered(c.views, name)
    ensures RegisterView(c, name, viewClass) == c.(views := c.views + [(name, Factory(viewClass))])
  {
    PutFresh(c.views, name, Factory(viewClass));
  }

  lemma MainViewsShape()
    ensures MainViews() == State(MainRegistry, None, false, 0, [])
  {
    InitShape();
    MainNamesDiffer();
    RegisterThree([("captcha", Factory(CaptchaClass))]);
  }

  /** The four view names have different lengths, so no two are equal. */
  lemma MainNamesDiffer()
    ensures forall i | 0 <= i < 1 :: [("captcha", Factory(CaptchaClass))][i].0 !in {"login", "register", "dashboard"}
  {
    assert |"captcha"| == 7 && |"login"| == 5 && |"register"| == 8 && |"dashboard"| == 9;
  }

  /** The three registrations of `MainApp.__init__` on a registry without those names. */
  lemma RegisterThree(v: Registry)
    requires forall i | 0 <= i < |v| :: v[i].0 != "login" && v[i].0 != "register" && v[i].0 != "dashboard"
    ensures RegisterView(RegisterView(RegisterView(State(v, None, false, 0, []), "login", "LoginApp"),
              "register", "RegisterApp"), "dashboard", "DashboardApp")
      == State(v + [("login", Factory("LoginApp"))] + [("register", Factory("RegisterApp"))] + [("dashboard", Factory("DashboardApp"))],
               None, false, 0, [])
  {
    var v1 := v + [("login", Factory("LoginApp"))];
    var v2 := v1 + [("register", Factory("RegisterApp"))];
    RegisterNew(v, "login", "LoginApp");
    AbsentAfter(v, "login", Factory("LoginApp"), "register");
    RegisterNew(v1, "register", "RegisterApp");
    AbsentAfter(v, "login", Factory("LoginApp"), "dashboard");
    AbsentAfter(v1, "register", Factory("RegisterApp"), "dashboard");
    RegisterNew(v2, "dashboard", "DashboardApp");
  }

  /** Appending an entry under another name keeps `name` absent. */
  lemma AbsentAfter(v: Registry, other: string, e: Entry, name: string)
    requires forall i | 0 <= i < |v| :: v[i].0 != name
    requires other != name
    ensures forall i | 0 <= i < |v| + 1 :: (v + [(other, e)])[i].0 != name
  {
  }

  /** Registering a name missing from a fresh controller's registry appends a factory. */
  lemma RegisterNew(v: Registry, name: string, viewClass: string)
    requires forall i | 0 <= i < |v| :: v[i].0 != name
    ensures RegisterView(State(v, None, false, 0, []), name, viewClass) == State(v + [(name, Factory(viewClass))], None, false, 0, [])
  {
    RegisterFresh(State(v, None, false, 0, []), name, viewClass);
  }

  lemma MainViewsInv()
    ensures Inv(MainViews())
  {
    var c0 := Init();
    InitInv();
    var c1 := RegisterView(c0, "login", "LoginApp");
    RegisterViewInv(c0, "login", "LoginApp");
    var c2 := RegisterView(c1, "register", "RegisterApp");
    RegisterViewInv(c1, "register", "RegisterApp");
    RegisterViewInv(c2, "dashboard", "DashboardApp");
  }

  /**
    After `MainApp.__init__` the login view is the only instance and is
    shown, nobody is logged in, and the registry holds the captcha, login,
    register and dashboard views in that order.
   */
  lemma StartupShowsLogin()
    ensures Inv(Startup())
    ensures Names(Startup().views) == ["captcha", "login", "register", "dashboard"]
    ensures Showing(Startup(), "login") && !Startup().loggedIn
    ensures Startup().trace == [Created(0, "LoginApp"), Shown(0)]
    ensures Lookup(Startup().views, "dashboard") == Some(Factory("DashboardApp"))
  {
    var c := MainViews();
    MainViewsInv();
    ResetAllViewsInv(c);
    MainViewsLookups();
    var cleared := c.(current := None, loggedIn := false, trace := c.trace + HideInstances(c.views));
    assert cleared == c.(loggedIn := false);
    assert Startup() == ShowView(cleared, "login");
  }

  lemma MainViewsLookups()
    ensures Names(MainViews().views) == ["captcha", "login", "register", "dashboard"]
    ensures Lookup(MainViews().views, "login") == Some(Factory("LoginApp"))
    ensures Lookup(MainViews().views, "dashboard") == Some(Factory("DashboardApp"))
    ensures HideInstances(MainViews().views) == []
    ensures MainViews().trace == [] && MainViews().nextId == 0 && MainViews().current.None?
  {
    MainViewsShape();
    MainRegistryLookups();
  }

  /** The registry `MainApp.__init__` builds, one registration at a time. */
  const MainRegistry: Registry :=
    [("captcha", Factory(CaptchaClass))] + [("login", Factory("LoginApp"))]
    + [("register", Factory("RegisterApp"))] + [("dashboard", Factory("DashboardApp"))]

  lemma MainRegistryLookups()
    ensures HideInstances(MainRegistry) == []
    ensures Names(MainRegistry) == ["captcha", "login", "register", "dashboard"]
    ensures Lookup(MainRegistry, "login") == Some(Factory("LoginApp"))
    ensures Lookup(MainRegistry, "dashboard") == Some(Factory("DashboardApp"))
  {
    assert Names(MainRegistry) == ["captcha", "login", "register", "dashboard"];
    assert Frames.Distinct(Names(MainRegistry));
    NoInstancesHideNothing(MainRegistry);
  }

  lemma NoInstancesHideNothing(v: Registry)
    requires forall i | 0 <= i < |v| :: v[i].1.Factory?
    ensures HideInstances(v) == []
  {
  }
}
