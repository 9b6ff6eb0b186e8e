/**
 * The background script's listeners as functions from a state to the next state, the reply and
 * the browser calls they make. Each handler runs to completion before the next event is taken.
 */
module Handlers {
  import opened Wrappers
  import opened TabRecords
  import opened Browser

  /** The in-memory cache `inactiveTabs` and the contents of the `inactiveTabs` object store. */
  datatype State = State(tabs: seq<TabRecord>, stored: seq<TabRecord>)

  /**
   * What the sender of a message gets back: `{success: true}`, `{success: false, error}`, the
   * list itself, a rejected promise, or nothing at all (a promise that never settles, or an
   * event that has no sender).
   */
  datatype Response =
    | Success
    | Failure(error: string)
    | TabList(tabs: seq<TabRecord>)
    | Rejected(error: string)
    | Unanswered

  /** A message from the popup: its `action` and its `index`, which may be absent. */
  datatype Message = Message(action: string, index: Option<int>)

  datatype Event = Received(message: Message) | Clicked(click: MenuClick)

  /** The effect of handling one event. */
  datatype Step = Step(state: State, response: Response, calls: seq<Call>)

  const InvalidIndex := "Invalid tab index"
  const NoActiveTab := "No active tab found"
  const UnknownAction := "Unknown action"

  /** JavaScript's `x || ''` on an optional string. */
  function OrEmpty(x: Option<string>): (r: string)
    ensures x.Some? ==> r == x.value
    ensures x.None? ==> r == ""
  {
    if x.Some? then x.value else ""
  }

  /** The record `hibernateTab` pushes for a tab. */
  function Capture(tab: Tab, now: int): (r: TabRecord)
    ensures r.url == tab.url && r.title == tab.title && r.timestamp == now
    ensures tab.favIconUrl.None? ==> r.favIconUrl == ""
    ensures tab.favIconUrl.Some? ==> r.favIconUrl == tab.favIconUrl.value
  {
    TabRecord(tab.url, tab.title, OrEmpty(tab.favIconUrl), now)
  }

  /** JavaScript's `linkText || linkUrl`: an absent or empty link text falls back to the url. */
  function LinkTitle(linkText: Option<string>, linkUrl: string): (r: string)
    ensures linkText.Some? && linkText.value != "" ==> r == linkText.value
    ensures linkText.None? || linkText.value == "" ==> r == linkUrl
  {
    if linkText.Some? && linkText.value != "" then linkText.value else linkUrl
  }

  /** The record the "hibernate-link" menu item pushes: the link, with the page's favicon. */
  function LinkRecord(click: MenuClick, now: int): (r: TabRecord)
    ensures r.url == click.linkUrl && r.timestamp == now
    ensures r.title == LinkTitle(click.linkText, click.linkUrl)
    ensures click.tab.favIconUrl.None? ==> r.favIconUrl == ""
    ensures click.tab.favIconUrl.Some? ==> r.favIconUrl == click.tab.favIconUrl.value
  {
    TabRecord(click.linkUrl, LinkTitle(click.linkText, click.linkUrl), OrEmpty(click.tab.favIconUrl), now)
  }

  /** The object store after `saveInactiveTabs`: the whole cache if the transaction commits. */
  function Saved(tabs: seq<TabRecord>, stored: seq<TabRecord>, save: SaveOutcome): (r: seq<TabRecord>)
    ensures save.Committed? ==> r == tabs
    ensures !save.Committed? ==> r == stored
  {
    if save.Committed? then tabs else stored
  }

  /** `index >= 0 && index < inactiveTabs.length`; an absent index fails both comparisons. */
  predicate InRange(index: Option<int>, n: nat): (r: bool)
    ensures r ==> index.Some? && 0 <= index.value < n
    ensures index.None? || n == 0 ==> !r
    ensures index.Some? && 0 <= index.value < n ==> r
  {
    index.Some? && 0 <= index.value < n
  }

  /** `loadInactiveTabs`: the cache is replaced by the store's contents, which are the reply. */
  function LoadStep(s: State, load: Status): (o: Step)
    ensures o.state.stored == s.stored && o.calls == []
    ensures load.Done? ==> o.state.tabs == o.state.stored && o.response == TabList(o.state.tabs)
    ensures load.Failed? ==> o.state == s && o.response == Rejected(load.message)
  {
    match load
    case Done => Step(State(s.stored, s.stored), TabList(s.stored), [])
    case Failed(m) => Step(s, Rejected(m), [])
  }

  /** `hibernateTab(tabId)`: look the tab up, push its record, save, then close the tab. */
  function HibernateTabStep(s: State, tabId: int, env: Env): (o: Step)
    ensures env.get.Err? ==> o == Step(s, Failure(env.get.message), [])
    ensures env.get.Ok? ==> |o.state.tabs| == |s.tabs| + 1 && o.state.tabs[..|s.tabs|] == s.tabs
    ensures env.get.Ok? ==> o.state.tabs[|s.tabs|] == Capture(env.get.value, env.now)
    ensures o.state.stored == (if env.get.Ok? && env.save.Committed? then o.state.tabs else s.stored)
    ensures o.calls == (if env.get.Ok? && env.save.Committed? then [RemoveTab(tabId)] else [])
    ensures o.response == Success <==> env.get.Ok? && env.save.Committed? && env.remove.Done?
    ensures o.response == Unanswered <==> env.get.Ok? && env.save.ClearFailed?
    ensures env.get.Ok? && env.save.Aborted? ==> o.response == Failure(env.save.message)
    ensures env.get.Ok? && env.save.Committed? && env.remove.Failed? ==>
      o.response == Failure(env.remove.message)
  {
    match env.get
    case Err(m) => Step(s, Failure(m), [])
    case Ok(tab) =>
      var tabs := s.tabs + [Capture(tab, env.now)];
      var next := State(tabs, Saved(tabs, s.stored, env.save));
      match env.save
      case ClearFailed => Step(next, Unanswered, [])
      case Aborted(m) => Step(next, Failure(m), [])
      case Committed =>
        var response := if env.remove.Done? then Success else Failure(env.remove.message);
        Step(next, response, [RemoveTab(tabId)])
  }

  /** `hibernateCurrentTab`: hibernate the first tab the query for the active tab returns. */
  function HibernateCurrentTabStep(s: State, env: Env): (o: Step)
    ensures env.query.Err? ==> o == Step(s, Failure(env.query.message), [])
    ensures env.query == Ok([]) ==> o == Step(s, Failure(NoActiveTab), [])
    ensures env.query.Ok? && env.query.value != [] ==> o == HibernateTabStep(s, env.query.value[0].id, env)
  {
    match env.query
    case Err(m) => Step(s, Failure(m), [])
    case Ok(found) =>
      if |found| > 0 then HibernateTabStep(s, found[0].id, env) else Step(s, Failure(NoActiveTab), [])
  }

  /** The "hibernate-link" menu item: push a record for the link and save; nothing is closed. */
  function HibernateLinkStep(s: State, click: MenuClick, env: Env): (o: Step)
    ensures |o.state.tabs| == |s.tabs| + 1 && o.state.tabs[..|s.tabs|] == s.tabs
    ensures o.state.tabs[|s.tabs|] == LinkRecord(click, env.now)
    ensures o.state.stored == (if env.save.Committed? then o.state.tabs else s.stored)
    ensures o.response == Unanswered && o.calls == []
  {
    var tabs := s.tabs + [LinkRecord(click, env.now)];
    Step(State(tabs, Saved(tabs, s.stored, env.save)), Unanswered, [])
  }

  /**
   * "restoreTab": splice the record out, save, then open its url. The record is removed before
   * the save and the new tab, and is not put back when either fails.
   */
  function RestoreStep(s: State, index: Option<int>, env: Env): (o: Step)
    ensures !InRange(index, |s.tabs|) ==> o == Step(s, Failure(InvalidIndex), [])
    ensures InRange(index, |s.tabs|) ==> o.state.tabs == RemoveAt(s.tabs, index.value)
    ensures o.state.tabs == s.tabs <==> !InRange(index, |s.tabs|)
    ensures InRange(index, |s.tabs|) ==>
      o.calls == (if env.save.Committed? then [CreateTab(s.tabs[index.value].url)] else [])
    ensures InRange(index, |s.tabs|) ==>
      o.state.stored == (if env.save.Committed? then o.state.tabs else s.stored)
    ensures o.response == Success <==>
      InRange(index, |s.tabs|) && env.save.Committed? && env.create.Done?
    ensures o.response == Unanswered <==> InRange(index, |s.tabs|) && env.save.ClearFailed?
    ensures InRange(index, |s.tabs|) && env.save.Aborted? ==> o.response == Failure(env.save.message)
    ensures InRange(index, |s.tabs|) && env.save.Committed? && env.create.Failed? ==>
      o.response == Failure(env.create.message)
  {
    if InRange(index, |s.tabs|) then
      var record := s.tabs[index.value];
      var tabs := RemoveAt(s.tabs, index.value);
      var next := State(tabs, Saved(tabs, s.stored, env.save));
      match env.save
      case ClearFailed => Step(next, Unanswered, [])
      case Aborted(m) => Step(next, Failure(m), [])
      case Committed =>
        var response := if env.create.Done? then Success else Failure(env.create.message);
        Step(next, response, [CreateTab(record.url)])
    else
      Step(s, Failure(InvalidIndex), [])
  }

  /**
   * "removeInactiveTab": splice the record out and save. The save's rejection is not caught,
   * so a failed save reaches the sender as a rejected promise.
   */
  function RemoveStep(s: State, index: Option<int>, env: Env): (o: Step)
    ensures !InRange(index, |s.tabs|) ==> o == Step(s, Failure(InvalidIndex), [])
    ensures InRange(index, |s.tabs|) ==> o.state.tabs == RemoveAt(s.tabs, index.value)
    ensures o.state.tabs == s.tabs <==> !InRange(index, |s.tabs|)
    ensures o.state.stored == (if InRange(index, |s.tabs|) && env.save.Committed? then o.state.tabs else s.stored)
    ensures o.calls == []
    ensures o.response == Success <==> InRange(index, |s.tabs|) && env.save.Committed?
    ensures InRange(index, |s.tabs|) && env.save.Aborted? ==> o.response == Rejected(env.save.message)
    ensures o.response.Rejected? ==> InRange(index, |s.tabs|) && env.save.Aborted?
    ensures o.response == Unanswered <==> InRange(index, |s.tabs|) && env.save.ClearFailed?
  {
    if InRange(index, |s.tabs|) then
      var tabs := RemoveAt(s.tabs, index.value);
      var next := State(tabs, Saved(tabs, s.stored, env.save));
      match env.save
      case ClearFailed => Step(next, Unanswered, [])
      case Aborted(m) => Step(next, Rejected(m), [])
      case Committed => Step(next, Success, [])
    else
      Step(s, Failure(InvalidIndex), [])
  }

  predicate KnownAction(action: string)
  {
    action in {"getInactiveTabs", "addTabToInactive", "restoreTab", "removeInactiveTab"}
  }

  /** The `runtime.onMessage` listener: route on `action`; anything else is answered, not dropped. */
  function Dispatch(s: State, m: Message, env: Env): (o: Step)
    ensures m.action == "getInactiveTabs" ==> o == LoadStep(s, env.load)
    ensures m.action == "addTabToInactive" ==> o == HibernateCurrentTabStep(s, env)
    ensures m.action == "restoreTab" ==> o == RestoreStep(s, m.index, env)
    ensures m.action == "removeInactiveTab" ==> o == RemoveStep(s, m.index, env)
    ensures !KnownAction(m.action) ==> o == Step(s, Failure(UnknownAction), [])
  {
    if m.action == "getInactiveTabs" then LoadStep(s, env.load)
    else if m.action == "addTabToInactive" then HibernateCurrentTabStep(s, env)
    else if m.action == "restoreTab" then RestoreStep(s, m.index, env)
    else if m.action == "removeInactiveTab" then RemoveStep(s, m.index, env)
    else Step(s, Failure(UnknownAction), [])
  }

  /** The `contextMenus.onClicked` listener; neither branch answers anyone. */
  function MenuStep(s: State, click: MenuClick, env: Env): (o: Step)
    ensures click.menuItemId == "hibernate-tab" ==>
      o.state == HibernateTabStep(s, click.tab.id, env).state &&
      o.calls == HibernateTabStep(s, click.tab.id, env).calls
    ensures click.menuItemId == "hibernate-link" ==> o == HibernateLinkStep(s, click, env)
    ensures click.menuItemId !in {"hibernate-tab", "hibernate-link"} ==> o == Step(s, Unanswered, [])
    ensures o.response == Unanswered
  {
    if click.menuItemId == "hibernate-tab" then
      var h := HibernateTabStep(s, click.tab.id, env);
      Step(h.state, Unanswered, h.calls)
    else if click.menuItemId == "hibernate-link" then HibernateLinkStep(s, click, env)
    else Step(s, Unanswered, [])
  }

  /** The two listeners: messages go to the router, clicks to the context-menu handler. */
  function Handle(s: State, e: Event, env: Env): (o: Step)
    ensures e.Received? ==> o == Dispatch(s, e.message, env)
    ensures e.Clicked? ==> o == MenuStep(s, e.click, env)
  {
    match e
    case Received(m) => Dispatch(s, m, env)
    case Clicked(c) => MenuStep(s, c, env)
  }

  /** The state after handling `events` one at a time, the k-th with the outcomes `envs[k]`. */
  function Run(s: State, events: seq<Event>, envs: seq<Env>): (r: State)
    requires |events| == |envs|
    ensures events == [] ==> r == s
    ensures (forall k :: 0 <= k < |envs| ==> !envs[k].save.Committed?) ==> r.stored == s.stored
    decreases |events|
  {
    if events == [] then s
    else
      Run(Handle(s, events[0], envs[0]).state, events[1..], envs[1..])
  }

  // ---------------------------------------------------------------------------------------
  // Persistence

  /** Saving then loading gives back the list that was saved, field for field. */
  lemma SaveLoadRoundTrip(tabs: seq<TabRecord>, stored: seq<TabRecord>, other: seq<TabRecord>)
    ensures LoadStep(State(other, Saved(tabs, stored, Committed)), Done).state.tabs == tabs
    ensures LoadStep(State(other, Saved(tabs, stored, Committed)), Done).response == TabList(tabs)
  {
  }

  /** The store only ever holds a whole copy of the cache: it is unchanged or equals the new cache. */
  lemma StepStoresWholeList(s: State, e: Event, env: Env)
    ensures var o := Handle(s, e, env).state; o.stored == s.stored || o.stored == o.tabs
  {
  }

  predicate Synced(s: State)
  {
    s.tabs == s.stored
  }

  /** While every save commits, cache and store agree after every event. */
  lemma StepKeepsSynced(s: State, e: Event, env: Env)
    requires Synced(s) && env.save.Committed?
    ensures Synced(Handle(s, e, env).state)
  {
  }

  lemma {:induction false} RunKeepsSynced(s: State, events: seq<Event>, envs: seq<Env>)
    requires |events| == |envs| && Synced(s)
    requires forall k :: 0 <= k < |envs| ==> envs[k].save.Committed?
    ensures Synced(Run(s, events, envs))
    decreases |events|
  {
    if events != [] {
      StepKeepsSynced(s, events[0], envs[0]);
      RunKeepsSynced(Handle(s, events[0], envs[0]).state, events[1..], envs[1..]);
    }
  }

  /** A save that does not commit leaves the store as it was, whatever the event. */
  lemma FailedSaveKeepsStore(s: State, e: Event, env: Env)
    requires !env.save.Committed?
    ensures Handle(s, e, env).state.stored == s.stored
  {
  }

  /**
   * From agreeing cache and store, a valid restore or remove whose save does not commit leaves
   * the store one record ahead of the cache: the record is gone from the cache only.
   */
  lemma FailedSaveDiverges(s: State, action: string, i: int, env: Env)
    requires Synced(s) && !env.save.Committed?
    requires action == "restoreTab" || action == "removeInactiveTab"
    requires 0 <= i < |s.tabs|
    ensures var o := Dispatch(s, Message(action, Some(i)), env).state;
      !Synced(o) && o.stored == s.stored && o.tabs == RemoveAt(s.stored, i)
  {
  }

  // ---------------------------------------------------------------------------------------
  // Timestamps. The store is keyed by `timestamp` and `getAll` returns records in key order;
  // both agree with the model's ordered list exactly when timestamps strictly increase.

  predicate OrderedBefore(s: State, t: int)
  {
    Ordered(s.tabs) && Ordered(s.stored) && StampedBefore(s.tabs, t) && StampedBefore(s.stored, t)
  }

  /** An event handled at time `now` keeps timestamps increasing and stamps nothing later than `now`. */
  lemma StepKeepsOrdered(s: State, e: Event, env: Env)
    requires OrderedBefore(s, env.now)
    ensures OrderedBefore(Handle(s, e, env).state, env.now + 1)
  {
    if env.get.Ok? {
      AppendKeepsOrdered(s.tabs, Capture(env.get.value, env.now));
    }
    match e
    case Clicked(click) =>
      AppendKeepsOrdered(s.tabs, LinkRecord(click, env.now));
    case Received(m) =>
      if InRange(m.index, |s.tabs|) {
        RemoveAtKeepsOrdered(s.tabs, m.index.value, env.now + 1);
      }
  }


  /** With a strictly increasing clock that starts after every existing record, the order is kept. */
  lemma {:induction false} RunKeepsOrdered(s: State, events: seq<Event>, envs: seq<Env>, start: int)
    requires |events| == |envs| && OrderedBefore(s, start)
    requires forall k :: 0 <= k < |envs| ==> start <= envs[k].now
    requires forall k :: 0 < k < |envs| ==> envs[k - 1].now < envs[k].now
    ensures Ordered(Run(s, events, envs).tabs) && Ordered(Run(s, events, envs).stored)
    decreases |events|
  {
    if events != [] {
      StepKeepsOrdered(s, events[0], envs[0]);
      var next := Handle(s, events[0], envs[0]).state;
      forall k | 0 <= k < |envs[1..]| ensures envs[0].now + 1 <= envs[1..][k].now {
        IncreasingFrom(envs, k + 1);
      }
      RunKeepsOrdered(next, events[1..], envs[1..], envs[0].now + 1);
    }
  }

  lemma {:induction false} IncreasingFrom(envs: seq<Env>, k: int)
    requires 0 < k < |envs|
    requires forall j :: 0 < j < |envs| ==> envs[j - 1].now < envs[j].now
    ensures envs[0].now < envs[k].now
    decreases k
  {
    if k > 1 {
      IncreasingFrom(envs, k - 1);
    }
  }

  // ---------------------------------------------------------------------------------------
  // Scenarios

  /** [A, B, C]: restoring index 1 leaves [A, C] and opens B's url. */
  lemma RestoreMiddle(a: TabRecord, b: TabRecord, c: TabRecord, env: Env)
    requires env.save.Committed? && env.create.Done?
    ensures var o := Dispatch(State([a, b, c], [a, b, c]), Message("restoreTab", Some(1)), env);
      o.response == Success && o.state == State([a, c], [a, c]) && o.calls == [CreateTab(b.url)]
  {
    var s := State([a, b, c], [a, b, c]);
    assert InRange(Some(1), |s.tabs|);
    assert RemoveAt([a, b, c], 1) == [a, c];
    var o := RestoreStep(s, Some(1), env);
    assert o.state == State([a, c], [a, c]);
  }

  /** An empty list: removing index 0 is refused and the list stays empty. */
  lemma RemoveFromEmpty(stored: seq<TabRecord>, env: Env)
    ensures var o := Dispatch(State([], stored), Message("removeInactiveTab", Some(0)), env);
      o.response == Failure(InvalidIndex) && o.state == State([], stored)
  {
  }
}
