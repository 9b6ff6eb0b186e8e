# Tab hibernation: the background script's store of hibernated tabs

This project models the background script of a browser extension that "hibernates" tabs. To
hibernate a tab is to record its url, title and favicon and then close it. A hibernated tab can
later be restored, which reopens its url, or removed.

The script keeps one ordered list of tab records in memory (`inactiveTabs`). It saves that
list, whole, to an IndexedDB object store and reads it back from there. A popup changes the list
through messages, and two context-menu items change it too. Records are addressed by their
position in the list, and the model does the same.

## Structure

- `wrappers.dfy` (`Wrappers`): `Option`, for values JavaScript may leave `undefined`.
- `records.dfy` (`TabRecords`): the `TabRecord` shape and `RemoveAt`, which is `splice(i, 1)`.
  It also defines `Ordered` (timestamps strictly increase along the list) and two lemmas that
  appending and splicing keep that order.
- `browser.dfy` (`Browser`): the outcomes of the calls the script makes, in an `Env` value
  supplied by the caller. These are `tabs.query`, `tabs.get`, `tabs.remove`, `tabs.create`,
  the save transaction and the load request. `Date.now()` is also part of `Env`. `Call` is the
  log of the requests that affect windows (`tabs.remove`, `tabs.create`).
- `handlers.dfy` (`Handlers`): each listener or helper as a pure function from a `State` (the
  cache and the store contents) to a `Step` (the next state, the reply and the window requests
  made). `Run` handles a sequence of events one at a time, as the single-threaded event loop
  does. The lemmas about whole traces are here.
- `background.dfy` (`Background`): class `BackgroundScript`. It has real fields `inactiveTabs`,
  `stored` and `calls`, and one method per function of the script. Each method changes the
  fields in place, and its `ensures` says the new fields, the reply and the new calls are
  exactly what the matching `Handlers` function gives. The save walks the list with a loop,
  like the `forEach` at background.js:47, and writes it to the store only if the transaction
  commits.

Behaviour worth knowing, all modelled:

- Which failures undo nothing. A record pushed by `hibernateTab` stays in the cache when the
  save or the close fails. A record spliced out by `restoreTab` or `removeInactiveTab` stays
  out when the save or the new tab fails.
- The save transaction writes either the whole list or nothing, so a failed save leaves the
  store as it was (`FailedSaveKeepsStore`). After a valid restore or
  remove, the store then still holds the record the cache has lost (`FailedSaveDiverges`).
- `getInactiveTabs` does not simply read the cache. It reloads the cache from the store, so
  after a failed save the next popup refresh drops the unsaved change.
- `removeInactiveTab` has no `catch`. A failed save reaches the popup as a rejected promise
  (`Rejected`), not as `{success: false}`.
- `saveInactiveTabs` attaches its error handler only after the clear request succeeds. If the
  clear request fails, the promise never settles, and the handler never answers
  (`ClearFailed`, `Unanswered`).
- An `index` that is absent fails both comparisons, so the reply is "Invalid tab index".
- The link title is `linkText || linkUrl`, so an empty link text also falls back to the url.
  `favIconUrl` is `|| ''`.
- A mutation whose save fails does not report success: `hibernateTab` and `restoreTab` answer
  `{success: false, error}`, and `removeInactiveTab` rejects.
- A close that fails after a committed save gives one `{success: false, error}`, and the record
  stays in the list.
- Records are addressed by raw position in the list, not by an identifier.

## Model

| member | source | states |
|---|---|---|
| TabRecords.RemoveAt | background.js:201 | splice(i, 1): one shorter; records before i unchanged; records after i shift down by one; the multiset loses exactly the removed record |
| TabRecords.AppendKeepsOrdered | background.js:98-103 | appending a record stamped after every existing one keeps timestamps strictly increasing |
| TabRecords.RemoveAtKeepsOrdered | background.js:230 | splicing out any record keeps timestamps strictly increasing and bounded |
| Handlers.OrEmpty | background.js:101 | JavaScript's `x or ''` on an optional string: a present value is kept, an absent one becomes '' |
| Handlers.Saved | background.js:42-59 | the store after a save: the whole cache if the transaction commits, otherwise the store as it was |
| Handlers.InRange | background.js:197 | the bounds check `index >= 0 && index < length`: true exactly for a present index inside the list; an absent index or an empty list is never in range |
| Handlers.Capture | background.js:98-103 | the pushed record has the tab's url and title and the current time; a present favicon is kept and a missing one becomes '' |
| Handlers.LinkTitle | background.js:163 | the title is the link text when present and non-empty, otherwise the link url |
| Handlers.LinkRecord | background.js:161-166 | a hibernated link's record: link url, LinkTitle, the page's favicon when present and '' otherwise, the current time |
| Handlers.LoadStep | background.js:65-82 | a successful load makes the cache equal to the store and replies with it; a failed load changes nothing and rejects; the store is never changed |
| Handlers.HibernateTabStep | background.js:92-121 | a failed lookup changes nothing and replies with its error; a found tab appends exactly one record at the end, earlier records unchanged; the store takes the whole list only if the save commits; the tab is closed only after a committed save; success iff lookup, save and close all succeed; a save or close failure keeps the record and replies with that error |
| Handlers.HibernateCurrentTabStep | background.js:124-136 | a failed query replies with its error and an empty query with "No active tab found", both changing nothing; otherwise the first tab found is hibernated |
| Handlers.HibernateLinkStep | background.js:159-175 | appends exactly one link record at the end, saves it, closes nothing and answers no one |
| Handlers.RestoreStep | background.js:193-221 | an out-of-range or absent index changes nothing and replies "Invalid tab index"; the list is unchanged iff the index is invalid; a valid index splices exactly that record out; its url is opened only after a committed save; success iff save and create succeed; a failure is not rolled back |
| Handlers.RemoveStep | background.js:224-241 | an out-of-range or absent index changes nothing and replies "Invalid tab index"; a valid index splices exactly that record out and no tab is touched; success iff the save commits; an aborted save rejects the reply |
| Handlers.Dispatch | background.js:179-248 | each of the four actions goes to its handler; any other action changes nothing and replies "Unknown action" |
| Handlers.MenuStep | background.js:152-176 | "hibernate-tab" has the effect of hibernateTab on the clicked tab; "hibernate-link" hibernates the link; any other item changes nothing; no click is answered |
| Handlers.Handle | background.js:152-248 | a message goes to the router and a context-menu click to the menu handler |
| Handlers.Run | background.js:179-248 | events handled one at a time; an empty trace changes nothing, and a trace in which no save commits never changes the store |
| Handlers.SaveLoadRoundTrip | background.js:37-82 | loading after a committed save gives back exactly the saved list, field for field |
| Handlers.StepStoresWholeList | background.js:42-49 | after any event the store is either unchanged or a copy of the whole new cache |
| Handlers.StepKeepsSynced | background.js:179-248 | if cache and store agree and the save commits, they agree after any event |
| Handlers.RunKeepsSynced | background.js:179-248 | over any trace of events whose saves all commit, cache and store stay equal |
| Handlers.FailedSaveKeepsStore | background.js:51-59 | a save that does not commit leaves the store unchanged, whatever the event |
| Handlers.FailedSaveDiverges | background.js:197-230 | from agreeing cache and store, a valid restore or remove whose save does not commit leaves them disagreeing: the store keeps the record, the cache has it spliced out |
| Handlers.StepKeepsOrdered | background.js:27 | an event handled at time now keeps both lists strictly ordered by timestamp, all stamped no later than now |
| Handlers.RunKeepsOrdered | background.js:27 | with a strictly increasing clock that starts after every existing record, both lists stay strictly ordered by timestamp over any trace |
| Handlers.RestoreMiddle | background.js:193-214 | [A, B, C] with restoreTab 1 succeeds, leaves [A, C] in cache and store, and opens B's url |
| Handlers.RemoveFromEmpty | background.js:224-240 | on an empty list, removeInactiveTab 0 replies "Invalid tab index" and the list stays empty |
| Background.BackgroundScript.constructor | background.js:85-89 | the cache starts empty and holds the stored records if the first load succeeds |
| Background.BackgroundScript.SaveInactiveTabs | background.js:37-62 | the loop copies the whole cache; the store becomes that copy if the transaction commits and is unchanged otherwise |
| Background.BackgroundScript.LoadInactiveTabs | background.js:65-82 | its effect and reply are those of LoadStep |
| Background.BackgroundScript.HibernateTab | background.js:92-121 | its effect, reply and window requests are those of HibernateTabStep |
| Background.BackgroundScript.HibernateCurrentTab | background.js:124-136 | its effect, reply and window requests are those of HibernateCurrentTabStep |
| Background.BackgroundScript.HibernateLink | background.js:159-175 | its effect is that of HibernateLinkStep |
| Background.BackgroundScript.RestoreTab | background.js:193-221 | its effect, reply and window requests are those of RestoreStep |
| Background.BackgroundScript.RemoveInactiveTab | background.js:224-241 | its effect and reply are those of RemoveStep |
| Background.BackgroundScript.OnMessage | background.js:179-248 | its effect, reply and window requests are those of Dispatch |
| Background.BackgroundScript.OnMenuClicked | background.js:152-176 | its effect and window requests are those of MenuStep |

## Left out

- The popup (popup/popup.js) is not part of this model. It only renders the replies and sends messages.
- Opening the database, the upgrade handler and the `url` index (background.js:9-34) are not modelled. A failure there shows up only as failing saves and loads.
- Key order of `getAll`: the store is keyed by `timestamp`, and `getAll` returns records in key order. The model returns them in the order saved. The two agree when timestamps strictly increase, and RunKeepsOrdered proves that they keep doing so under a strictly increasing clock. That clock is an assumption: `Date.now()` can repeat or go back.
- Duplicate timestamps make `store.add` fail and the transaction abort. The model does not derive this; it is one of the possible `Aborted` outcomes.
- Registering the context-menu items (background.js:139-149) is browser set-up and is not modelled.
- Asynchronous interleaving is not modelled: each handler runs to completion before the next event.
- Console logging is not modelled.
- `Date.now()` and every browser or database outcome are parameters (`Env`), not computed.
- HibernateTabStep: the tab `tabs.get` returns is a parameter and is not tied to the requested id.
- A non-numeric or fractional `index` is outside the model; the index is an optional integer.
- A tab whose `url` or `title` is `undefined` is outside the model; both are strings here.
- Error messages are whatever the failing call's `toString()` gives, carried as given.
