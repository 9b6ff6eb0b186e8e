/**
 * The background script as an object: the module-level list `inactiveTabs`, the object store it
 * is saved to, and the browser calls made so far. Each method is one listener or helper of the
 * script, changes these fields in place, and is proved to have exactly the effect the matching
 * function of `Handlers` describes.
 */
module Background {
  import opened Wrappers
  import opened TabRecords
  import opened Browser
  import opened Handlers

  class BackgroundScript {
    /** The in-memory cache of hibernated tabs. */
    var inactiveTabs: seq<TabRecord>
    /** The records in the `inactiveTabs` object store. */
    var stored: seq<TabRecord>
    /** Every `tabs.remove` and `tabs.create` request made so far, oldest first. */
    var calls: seq<Call>

    function Model(): State
      reads this
    {
      State(inactiveTabs, stored)
    }

    /** Start-up: the cache starts empty and is then filled from the store, if the load succeeds. */
    constructor (persisted: seq<TabRecord>, load: Status)
      ensures inactiveTabs == (if load.Done? then persisted else [])
      ensures stored == persisted && calls == []
    {
      inactiveTabs := [];
      stored := persisted;
      calls := [];
      new;
      var _ := LoadInactiveTabs(load);
    }

    /** `saveInactiveTabs`: clear the store and add every record, in one transaction. */
    method SaveInactiveTabs(save: SaveOutcome)
      modifies this`stored
      ensures stored == Saved(inactiveTabs, old(stored), save)
    {
      if save.ClearFailed? {
        return;
      }
      var staged: seq<TabRecord> := [];
      var i := 0;
      while i < |inactiveTabs|
        invariant 0 <= i <= |inactiveTabs|
        invariant staged == inactiveTabs[..i]
      {
        staged := staged + [inactiveTabs[i]];
        i := i + 1;
      }
      if save.Committed? {
        stored := staged;
      }
    }

    /** `loadInactiveTabs`: replace the cache by the store's records and return them. */
    method LoadInactiveTabs(load: Status) returns (r: Response)
      modifies this`inactiveTabs
      ensures var o := LoadStep(old(Model()), load); Model() == o.state && r == o.response
    {
      match load
      case Failed(m) =>
        r := Rejected(m);
      case Done =>
        inactiveTabs := stored;
        r := TabList(inactiveTabs);
    }

    method HibernateTab(tabId: int, env: Env) returns (r: Response)
      modifies this
      ensures var o := HibernateTabStep(old(Model()), tabId, env);
        Model() == o.state && r == o.response && calls == old(calls) + o.calls
    {
      if env.get.Err? {
        r := Failure(env.get.message);
        return;
      }
      var tab := env.get.value;
      inactiveTabs := inactiveTabs + [Capture(tab, env.now)];
      SaveInactiveTabs(env.save);
      match env.save
      case ClearFailed =>
        r := Unanswered;
      case Aborted(m) =>
        r := Failure(m);
      case Committed =>
        calls := calls + [RemoveTab(tabId)];
        r := if env.remove.Done? then Success else Failure(env.remove.message);
    }

    method HibernateCurrentTab(env: Env) returns (r: Response)
      modifies this
      ensures var o := HibernateCurrentTabStep(old(Model()), env);
        Model() == o.state && r == o.response && calls == old(calls) + o.calls
    {
      match env.query
      case Err(m) =>
        r := Failure(m);
      case Ok(found) =>
        if |found| > 0 {
          r := HibernateTab(found[0].id, env);
        } else {
          r := Failure(NoActiveTab);
        }
    }

    method HibernateLink(click: MenuClick, env: Env)
      modifies this
      ensures var o := HibernateLinkStep(old(Model()), click, env);
        Model() == o.state && calls == old(calls) + o.calls
    {
      inactiveTabs := inactiveTabs + [LinkRecord(click, env.now)];
      SaveInactiveTabs(env.save);
    }

    method RestoreTab(index: Option<int>, env: Env) returns (r: Response)
      modifies this
      ensures var o := RestoreStep(old(Model()), index, env);
        Model() == o.state && r == o.response && calls == old(calls) + o.calls
    {
      if !(index.Some? && 0 <= index.value < |inactiveTabs|) {
        r := Failure(InvalidIndex);
        return;
      }
      var tabInfo := inactiveTabs[index.value];
      inactiveTabs := RemoveAt(inactiveTabs, index.value);
      SaveInactiveTabs(env.save);
      match env.save
      case ClearFailed =>
        r := Unanswered;
      case Aborted(m) =>
        r := Failure(m);
      case Committed =>
        calls := calls + [CreateTab(tabInfo.url)];
        r := if env.create.Done? then Success else Failure(env.create.message);
    }

    method RemoveInactiveTab(index: Option<int>, env: Env) returns (r: Response)
      modifies this
      ensures var o := RemoveStep(old(Model()), index, env);
        Model() == o.state && r == o.response && calls == old(calls) + o.calls
    {
      if !(index.Some? && 0 <= index.value < |inactiveTabs|) {
        r := Failure(InvalidIndex);
        return;
      }
      inactiveTabs := RemoveAt(inactiveTabs, index.value);
      SaveInactiveTabs(env.save);
      match env.save
      case ClearFailed =>
        r := Unanswered;
      case Aborted(m) =>
        r := Rejected(m);
      case Committed =>
        r := Success;
    }

    /** The `runtime.onMessage` listener. */
    method OnMessage(message: Message, env: Env) returns (r: Response)
      modifies this
      ensures var o := Dispatch(old(Model()), message, env);
        Model() == o.state && r == o.response && calls == old(calls) + o.calls
    {
      if message.action == "getInactiveTabs" {
        r := LoadInactiveTabs(env.load);
      } else if message.action == "addTabToInactive" {
        r := HibernateCurrentTab(env);
      } else if message.action == "restoreTab" {
        r := RestoreTab(message.index, env);
      } else if message.action == "removeInactiveTab" {
        r := RemoveInactiveTab(message.index, env);
      } else {
        r := Failure(UnknownAction);
      }
    }

    /** The `contextMenus.onClicked` listener; the result of `hibernateTab` is dropped. */
    method OnMenuClicked(click: MenuClick, env: Env)
      modifies this
      ensures var o := MenuStep(old(Model()), click, env);
        Model() == o.state && calls == old(calls) + o.calls
    {
      if click.menuItemId == "hibernate-tab" {
        var _ := HibernateTab(click.tab.id, env);
      } else if click.menuItemId == "hibernate-link" {
        HibernateLink(click, env);
      }
    }
  }
}
