# Website analyzer: record list, record API and scraper fallbacks

A verified Dafny model of the three small pieces of logic in the website
analyzer. The app scrapes a website's brand name and description, stores them
in a `nurdd` table, and lets a dashboard search, edit and delete the stored
records.

- **Dashboard** (`dashboard.dfy`, frontend/app/dashboard/page.tsx). This is the
  component's state: `websites`, `loading`, `error`, `searchTerm`, `editingId`,
  `editingDescription`, `deleteId` and `updating`. It is a class with one field
  per `useState` hook. The class has:
  - methods for each handler (`fetchWebsites`, `handleEdit`, `handleSave`,
    `handleDelete`) and for the inline setters in the markup;
  - pure functions for the three list expressions: the search filter, the
    `map` applied on save and the `filter` applied on delete.

  Each handler receives the outcome of its `fetch` as a parameter. The outcome
  is a response with its `ok` flag, or a rejection whose reason is an `Error`
  or some other value. This is how `catch (err)` tells them apart.
- **Record API** (`records.dfy`, backend/index.js). The `nurdd` table is a
  class holding a sequence of rows. The GET `/api/data`, PUT `/api/nurdd/:id`
  and DELETE `/api/nurdd/:id` handlers are its methods. The store's queries
  are functions over the rows:
  - order by timestamp descending;
  - `update().eq()`;
  - `delete().eq()`;
  - the `.select()` of the affected rows.

  Whether the store reports an error is a parameter, `fault`, holding the
  store's message.
- **Scraper** (`scraper.dfy`, backend/scraper.py). The parsed page is a record
  of the optional strings its lookups produce. The brand and the description
  are each the first truthy value of a fixed list, as Python's `or` chains
  pick them. The emitted JSON object is a `map<string, string>`.
- `text.dfy` holds ASCII `toLowerCase` and `includes`. `lists.dfy` holds
  order-preserving sub-lists. `wrappers.dfy` holds `Option`, which stands for
  `null`, `undefined` and `None`.

Choices the model makes:
- The backend `timestamp` is an integer. The column is ordered
  chronologically, and an integer instant gives that order.
- A store query that reports an error is taken to change nothing (see `RecordApi.RecordTable.Update` and `RecordApi.RecordTable.Delete` under "## Left out").
- A fault and a missing row can both apply. The handlers test the fault
  first, and so does the model.

## Model

| member | source | states |
|---|---|---|
| `Text.Lower` | frontend/app/dashboard/page.tsx:111-112 | `toLowerCase` keeps the length, maps every character by ASCII lower-casing, and leaves no upper-case letter |
| `Text.LowerIdempotent` | frontend/app/dashboard/page.tsx:111-112 | lower-casing a lower-cased string changes nothing |
| `Text.IncludesAt` | frontend/app/dashboard/page.tsx:111-112 | `includes` holds exactly when the needle occurs at some index of the haystack |
| `Text.IncludesEmpty` | frontend/app/dashboard/page.tsx:111-112 | every string includes the empty string |
| `Lists.SubsequenceLength` | frontend/app/dashboard/page.tsx:171 | an order-preserving sub-list is no longer than its list |
| `Dashboard.Matches` | frontend/app/dashboard/page.tsx:110-112 | the filter callback: the lower-cased brand name or the lower-cased description includes the lower-cased term; an empty term matches every website |
| `Dashboard.FilterWebsites` | frontend/app/dashboard/page.tsx:109-113 | the filtered list is an order-preserving sub-list of `websites`; every kept row matches; a row is kept exactly when it matches, with its full multiplicity |
| `Dashboard.SearchIgnoresCase` | frontend/app/dashboard/page.tsx:109-113 | filtering by the lower-cased term equals filtering by the term |
| `Dashboard.FilterEmptyTerm` | frontend/app/dashboard/page.tsx:109-113 | an empty search term keeps every website, in order |
| `Dashboard.FilterCountBound` | frontend/app/dashboard/page.tsx:109-113 | the filtered list is never longer than `websites` |
| `Dashboard.View` | frontend/app/dashboard/page.tsx:175-183 | a spinner exactly while loading; otherwise a notice exactly when no website matches, "No websites match your search." for a non-empty term and "No websites analyzed yet." for an empty one; otherwise the non-empty filtered list (see also `ViewWithoutSearch`, `ViewWithSearch`) |
| `Dashboard.ViewWithoutSearch` | frontend/app/dashboard/page.tsx:175-183 | with no search term, "No websites analyzed yet." is shown exactly when the list is empty; otherwise every website is shown |
| `Dashboard.ViewWithSearch` | frontend/app/dashboard/page.tsx:180-182 | with a search term, "No websites match your search." is shown exactly when no website matches, and "nothing analyzed" never is |
| `Dashboard.SaveDescription` | frontend/app/dashboard/page.tsx:80 | same length and same ids in the same order; id, brandname, timestamp and url unchanged; rows with the saved id get the new description; all other rows unchanged |
| `Dashboard.SaveTwice` | frontend/app/dashboard/page.tsx:80 | saving the same description twice equals saving it once |
| `Dashboard.SaveAbsent` | frontend/app/dashboard/page.tsx:80 | saving under an id no row has changes nothing |
| `Dashboard.RemoveById` | frontend/app/dashboard/page.tsx:100 | the result is an order-preserving sub-list; no row with the id remains; every other row is kept with its multiplicity |
| `Dashboard.RemoveAbsent` | frontend/app/dashboard/page.tsx:100 | deleting an id no row has changes nothing |
| `Dashboard.RemoveTwice` | frontend/app/dashboard/page.tsx:100 | deleting the same id again changes nothing |
| `Dashboard.CaughtText` | frontend/app/dashboard/page.tsx:82-83 | `err instanceof Error ? err.message : fallback`: an Error gives its message, any other thrown value the handler's fallback; handleSave uses it at line 83, handleDelete at 103, fetchWebsites at 50 |
| `Dashboard.Raised` | frontend/app/dashboard/page.tsx:76-78 | the try block throws nothing exactly for an ok response; a response that is not ok throws `new Error` with the handler's message (also lines 44-46 and 96-98); a rejected fetch throws its reason |
| `Dashboard.DialogOpen` | frontend/app/dashboard/page.tsx:266 | `deleteId` is truthy: it is neither null nor the empty string (the same test opens the dialog at line 254) |
| `Dashboard.DashboardPage.constructor` | frontend/app/dashboard/page.tsx:32-39 | the initial state: no websites, loading, no error, empty search, nothing being edited or deleted, not updating |
| `Dashboard.DashboardPage.Filtered` | frontend/app/dashboard/page.tsx:109-113 | `filteredWebsites` over the current state: `FilterWebsites` of the current list and term, so an order-preserving sub-list of `websites` holding exactly the matching rows |
| `Dashboard.DashboardPage.BadgeCount` | frontend/app/dashboard/page.tsx:171 | the badge shows the filtered list's length; it is at most the number of websites, and equal to it without a search term |
| `Dashboard.DashboardPage.FetchWebsites` | frontend/app/dashboard/page.tsx:41-54 | on an ok response the list becomes the data; otherwise the list is kept and `error` gets the thrown message or the fallback; `loading` ends false either way |
| `Dashboard.DashboardPage.SetSearchTerm` | frontend/app/dashboard/page.tsx:152 | the search box sets the term |
| `Dashboard.DashboardPage.HandleEdit` | frontend/app/dashboard/page.tsx:60-63 | `editingId` becomes the website's id and `editingDescription` its current description |
| `Dashboard.DashboardPage.SetEditingDescription` | frontend/app/dashboard/page.tsx:203 | typing in the edit box sets `editingDescription` |
| `Dashboard.DashboardPage.CancelEdit` | frontend/app/dashboard/page.tsx:225 | the cancel button clears `editingId` |
| `Dashboard.DashboardPage.HandleSave` | frontend/app/dashboard/page.tsx:65-87 | ok response: the list is `SaveDescription` of the old list and `editingId` is cleared; not ok or rejected: the list and `editingId` are kept and `error` is "Failed to update website", the Error's message, or "Failed to update"; `updating` ends false; nothing else changes |
| `Dashboard.DashboardPage.RequestDelete` | frontend/app/dashboard/page.tsx:236 | a row's delete button sets `deleteId` to its id |
| `Dashboard.DashboardPage.CloseDeleteDialog` | frontend/app/dashboard/page.tsx:254 | closing or cancelling the dialog clears `deleteId` |
| `Dashboard.DashboardPage.HandleDelete` | frontend/app/dashboard/page.tsx:89-107 | ok response: the list is `RemoveById` of the old list and `deleteId` is cleared; not ok or rejected: the list and `deleteId` are kept and `error` is "Failed to delete website", the Error's message, or "Failed to delete"; `updating` ends false; nothing else changes |
| `Dashboard.DashboardPage.ConfirmDelete` | frontend/app/dashboard/page.tsx:266 | `deleteId && handleDelete(deleteId)`: a missing or empty `deleteId` changes nothing; otherwise ok removes the rows with that id, clears `deleteId` and keeps `error`, while not ok or rejected keeps the list and `deleteId` and sets `error` as `HandleDelete` does; `updating` ends false |
| `RecordApi.InsertByTimestamp` | backend/index.js:29 | inserting into a newest-first list keeps it newest first and adds exactly the one row |
| `RecordApi.OrderByTimestampDesc` | backend/index.js:26-29 | the ordered rows are a permutation of the table, newest first |
| `RecordApi.ListReply` | backend/index.js:24-33 | a store error gives 500 with its message; otherwise 200 with every row of the table, newest first |
| `RecordApi.ListNewerFirst` | backend/index.js:26-29 | of two rows with timestamps T1 < T2, the list shows T2's row before T1's |
| `RecordApi.Matching` | backend/index.js:42-43 | the selected rows are the table's rows with the id, in table order and with their multiplicity; the selection is empty exactly when no row has the id |
| `RecordApi.UpdateDescription` | backend/index.js:39-43 | same length; id, url, brandname and timestamp unchanged everywhere; rows with the id get the new description; other rows unchanged |
| `RecordApi.DeleteById` | backend/index.js:54-58 | the rest of the table: an order-preserving sub-list with no row of that id, every other row kept with its multiplicity |
| `RecordApi.UpdateReply` | backend/index.js:45-48 | 500 exactly on a store error; otherwise 404 with an error body exactly when nothing was updated; otherwise 200 with one of the updated rows, `data[0]` (which row it is: `FirstUpdated`, `UpdateOutcome`) |
| `RecordApi.DeleteReply` | backend/index.js:60-63 | 500 exactly on a store error; otherwise 404 with an error body exactly when nothing was deleted; otherwise 200 with `{message: "Data deleted"}` (against the table: `DeleteOutcome`) |
| `RecordApi.FirstIndex` | backend/index.js:48 | the index of the first row with the id: that row has the id and no earlier row does |
| `RecordApi.MatchingHead` | backend/index.js:48 | `data[0]` of a selection is the first row of the table with the id |
| `RecordApi.FirstUpdated` | backend/index.js:41-48 | the row an update answers with is the table's first row with the id, carrying the new description |
| `RecordApi.UpdateOutcome` | backend/index.js:45-48 | store error gives 500 with its message, tested first; no row with the id gives 404 "Website not found"; else 200 with the first matching row, its description replaced |
| `RecordApi.UpdateAbsent` | backend/index.js:39-46 | an update of an id no row has leaves the table unchanged |
| `RecordApi.DeleteOutcome` | backend/index.js:60-63 | store error gives 500 with its message, tested first; no row with the id gives 404 "Website not found"; else 200 `{message: "Data deleted"}`, never the row's content |
| `RecordApi.DeleteAbsent` | backend/index.js:54-61 | a delete of an id no row has leaves the table unchanged |
| `RecordApi.DeleteThenAgain` | backend/index.js:51-64 | after a delete, a second delete of the id gives 404 and changes nothing, and the list shows no row with that id |
| `RecordApi.RecordTable.constructor` | backend/index.js:12-15 | the table starts with the given rows |
| `RecordApi.RecordTable.List` | backend/index.js:24-33 | GET `/api/data` answers 500 with the store's message, or 200 with a newest-first permutation of the table |
| `RecordApi.RecordTable.Update` | backend/index.js:35-49 | on a store error the table is unchanged; otherwise it becomes `UpdateDescription` of the old table; an absent id leaves it unchanged; the response is the handler's decision on the updated selection |
| `RecordApi.RecordTable.Delete` | backend/index.js:51-64 | on a store error the table is unchanged; otherwise it becomes `DeleteById` of the old table; an absent id leaves it unchanged; the response is the handler's decision on the deleted selection |
| `Scraper.FirstTruthy` | backend/scraper.py:13-24 | an `or` chain yields the first truthy option, or the last operand when no option is truthy |
| `Scraper.FirstTruthyNonEmpty` | backend/scraper.py:13-24 | an `or` chain yields "" only when its last operand is "" |
| `Scraper.Brand` | backend/scraper.py:13-15 | the brand is the url or a non-empty site name or title (the order: `BrandOrder`) |
| `Scraper.Description` | backend/scraper.py:18-24 | the description is a non-empty meta or Open Graph description, the first paragraph's text, or the default text when there is no paragraph (the order: `DescriptionOrder`) |
| `Scraper.BrandOrder` | backend/scraper.py:13-15 | brand is the `og:site_name` content when non-empty, else the title string when non-empty, else the url |
| `Scraper.BrandNonEmpty` | backend/scraper.py:13-15 | a non-empty url gives a non-empty brand |
| `Scraper.DescriptionOrder` | backend/scraper.py:18-24 | description is the meta description when non-empty, else `og:description` when non-empty, else the first `<p>`'s text even when empty, else "No description found" |
| `Scraper.DescriptionEmpty` | backend/scraper.py:18-24 | an empty description comes only from a present but empty first paragraph |
| `Scraper.Scrape` | backend/scraper.py:6-32 | a failed request or a status error gives only `{"error": message}`; otherwise exactly the keys `brandname` and `description`, holding the two choices |
| `Scraper.OneShape` | backend/scraper.py:26-32 | exactly one of the two shapes is emitted; `error` is present exactly when `brandname` is absent |

## Left out

- The `/api/analyze` handler of backend/index.js is not modelled. It only echoes the request body. Its next line, `res.send(error)`, names a variable that is never declared, so it throws a ReferenceError and sends nothing. The handler has no scraper or insert flow.
- frontend/app/page.tsx is not part of this model. It is the submission form. Its URL checks are a blank test (`!url.trim()`, lines 39-42), made first, and then `validateUrl`, which is the platform's `new URL` parser and cannot be seen here (lines 25-32, 44-47).
- frontend/app/api/ is left out too. Its files forward HTTP requests to another backend. Two of them validate the request body, one check each: frontend/app/api/analyze/route.ts:10-12 answers 400 `{error: "URL is required"}` to a missing `url`, and frontend/app/api/websites/[id]/route.ts:11-13 answers 400 to a missing or empty description. Neither route is one the dashboard's handlers call, and both checks are out of scope.
- The Supabase client, Express, CORS, dotenv and `app.listen` are left out. The store is a sequence of rows. Its error is a parameter of each handler.
- `requests.get`, BeautifulSoup, `json.dumps`, `print` and `sys.argv` are left out. The page is a record of the values its lookups produce. The request's outcome, including the error `raise_for_status` raises, is a parameter.
- `get_text(strip=True)`: the first paragraph's text is given already stripped.
- `Text.Lower`: does not model Unicode's `toLowerCase`, because the Unicode case tables are outside the model. It lower-cases ASCII letters only.
- `toLocaleDateString` and the rendering of rows are left out. They are display only.
- React's asynchronous state updates are left out. The stale `websites` captured by `handleSave` and `handleDelete` is left out too, and so are concurrent requests against the store. Each handler runs to completion as one step, and `updating` is true only within that step. It is therefore false between steps, and the buttons it disables are never disabled.
- `RecordApi.RecordTable.Update`: a missing `description` in the request body is not modelled. The new description is always a string.
- The order in which the store returns the rows an update or delete selected is taken to be table order. The store does not promise any order there.
- `RecordApi.RecordTable.Update`: a store error is taken to leave the table unchanged. This is an assumption of the model, not a promise of the store. A transport error that arrives after the statement committed is not covered: the handler still answers 500, but the table did change.
- `RecordApi.RecordTable.Delete`: a store error is taken to leave the table unchanged, as for `Update`. A transport error that arrives after the delete committed is not covered: the handler answers 500, but the rows are gone.
