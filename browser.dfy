/**
 * What the background script receives from the browser and the database. Every call it makes
 * to `browser.tabs` or to IndexedDB is modelled by its outcome, supplied as a parameter, and
 * `Date.now()` by a number.
 */
module Browser {
  import opened Wrappers

  /** The fields of a `tabs.Tab` that the script reads. */
  datatype Tab = Tab(id: int, url: string, title: string, favIconUrl: Option<string>)

  /** A settled promise: its value, or the rejection's `error.toString()`. */
  datatype Outcome<T> = Ok(value: T) | Err(message: string)

  /** A settled promise that carries no value. */
  datatype Status = Done | Failed(message: string)

  /**
   * How the save transaction ends: all records written, the transaction aborted with an error
   * after the clear, or the clear request itself failed (no error handler is attached yet, so
   * the save promise never settles). In every failing case nothing is written.
   */
  datatype SaveOutcome = Committed | Aborted(message: string) | ClearFailed

  /** The `info` and `tab` arguments of a context-menu click. */
  datatype MenuClick = MenuClick(menuItemId: string, linkUrl: string, linkText: Option<string>, tab: Tab)

  /** A request with an effect on the browser's windows. */
  datatype Call = RemoveTab(tabId: int) | CreateTab(url: string)

  /** The outcomes of the calls one handler makes, and the clock. */
  datatype Env = Env(
    query: Outcome<seq<Tab>>,  // tabs.query({active: true, currentWindow: true})
    get: Outcome<Tab>,         // tabs.get(tabId)
    remove: Status,            // tabs.remove(tabId)
    create: Status,            // tabs.create({url})
    save: SaveOutcome,         // saveInactiveTabs()
    load: Status,              // store.getAll() in loadInactiveTabs()
    now: int)                  // Date.now()
}
