# Listings: property loading and category tabs

A Dafny model of the listing component of the just-home real-estate front-end
(`src/Components/Listings.jsx`). The component loads the `properties` table
once when it mounts. It keeps the rows in memory and shows them as cards under
four tabs: "All Properties", "Villa", "Apartment" and "Office".

The model has four modules:

- `Ascii` (`ascii.dfy`): the lower-casing used to compare a record's category
  with the tab.
- `Catalog` (`catalog.dfy`): the property record, the category filter, and an
  independent description of the filter. That description says the result
  reads strictly increasing positions of the loaded list, and those positions
  are exactly the matching ones. The filter is proved to be the only sequence
  that meets it. From this follow the subsequence, order and idempotence
  properties.
- `Listings` (`listings.dfy`): the component's state hooks as a `ViewState`
  record. `Fetch` is one load. `Select` is a tab click. `Render` picks between
  the spinner, the error view and the grid. `Run` is the component's life: one
  load at mount, then a sequence of tab clicks. Every state it reaches keeps
  the shown list in step with the active tab.
- `Scenarios` (`scenarios.dfy`): concrete histories of the component, proved about the model. A three-row load is filtered
  by "Villa" (matching both "Villa" and "villa") and then by "Apartment" (no
  match, so the empty notice shows). Empty and failed loads are also covered.

The backend query is an input value, `QueryOutcome`. It either answered with
optional rows and an optional error, or it threw. In the code the load state is
a `loading` flag plus an optional error string, not a single three-valued
state, and the model follows the code. The success branch does not write the
error at all. It is null only because the start of the load cleared it
(`BeginFetch`). The error view appears when the error string is truthy in
JavaScript terms: present and non-empty.

## Model

| member | source | states |
|---|---|---|
| Ascii.Lower | src/Components/Listings.jsx:62 | lower-casing keeps the length and maps each character through the ASCII letter mapping |
| Ascii.LowerIdempotent | src/Components/Listings.jsx:62 | lower-casing an already lower-cased string changes nothing |
| Catalog.KeepMatching | src/Components/Listings.jsx:61-63 | the filtered list is no longer than the loaded list and every kept record matches the tab ignoring case |
| Catalog.KeepMatchingEmbedding | src/Components/Listings.jsx:61-63 | the filter reads strictly increasing positions of the loaded list, and those are exactly the positions whose record matches |
| Catalog.KeepMatchingIsFilter | src/Components/Listings.jsx:61-63 | the filter result meets the filter description: matching records only, all of them, in original order |
| Catalog.FilterDescriptionUnique | src/Components/Listings.jsx:61-63 | any sequence that meets the filter description is the filter result, so the description determines it |
| Catalog.KeepMatchingCharacterised | src/Components/Listings.jsx:60-64 | a sequence is the filter result if and only if it meets the filter description |
| Catalog.KeepMatchingIdempotent | src/Components/Listings.jsx:61-63 | filtering a filtered list by the same tab returns it unchanged |
| Catalog.KeepMatchingIgnoresCase | src/Components/Listings.jsx:62 | two tabs that are equal up to case select the same records |
| Catalog.KeepMatchingByLoweredTab | src/Components/Listings.jsx:62 | filtering by a tab or by its lower-cased form selects the same records, since only `tab.toLowerCase()` is compared |
| Catalog.VisibleAll | src/Components/Listings.jsx:58-59 | under "All Properties" the shown list is exactly the loaded list |
| Catalog.VisibleOtherTab | src/Components/Listings.jsx:58-64 | under any other tab a list is shown if and only if it is exactly the matching records in original order |
| Catalog.VisibleSubsequence | src/Components/Listings.jsx:56-66 | under every tab the shown list is a subsequence of the loaded list and no longer than it |
| Catalog.VisibleIdempotent | src/Components/Listings.jsx:56-66 | applying a tab to the list it produced gives that list again |
| Catalog.SentinelIsCaseSensitive | src/Components/Listings.jsx:58-62 | "all properties" is not the sentinel although equal to it up to case, so it filters by category and can hide a "Villa" that the sentinel shows |
| Catalog.Visible | src/Components/Listings.jsx:58-64 | the shown list is never longer than the loaded list, is the loaded list under the exact sentinel, and holds only matching records under any other tab (fully specified by VisibleAll and VisibleOtherTab) |
| Listings.BeginFetch | src/Components/Listings.jsx:20-21 | starting a load raises the spinner and clears the error, leaving the lists and the tab alone |
| Listings.Complete | src/Components/Listings.jsx:27-52 | a settled query lowers the spinner, keeps the tab and gives both lists the same rows; a success loads the data, or no rows when it is null, and leaves the error untouched, a failure empties the lists and sets one of the two fixed messages |
| Listings.Fetch | src/Components/Listings.jsx:18-53 | after a load the spinner is down, the tab is kept, both lists hold the loaded rows, and the error is null on success, the backend message on a reported error, and the unexpected-error message on an exception |
| Listings.Toast | src/Components/Listings.jsx:27-47 | a notification is raised exactly when the load fails, and its text is one of the two fixed messages |
| Listings.ToastMatchesError | src/Components/Listings.jsx:27-47 | a notification is raised exactly when the load fails, with the same text the state keeps as its error |
| Listings.FetchSuccess | src/Components/Listings.jsx:36-40 | a successful load sets both lists to the data, or to empty when the data is null, and leaves no error |
| Listings.FetchBackendError | src/Components/Listings.jsx:27-35 | a reported backend error empties both lists and sets the backend message, even when data came with it |
| Listings.FetchThrew | src/Components/Listings.jsx:41-52 | an exception empties both lists and sets the unexpected-error message; the spinner ends down |
| Listings.Select | src/Components/Listings.jsx:56-66 | a tab click makes the tab active, keeps the loaded list, spinner and error, shows no more records than are loaded, and shows the whole loaded list under the sentinel |
| Listings.SelectShowsMatching | src/Components/Listings.jsx:58-64 | after a click the shown list is a subsequence of the loaded list, and under any other tab than the sentinel it is exactly the matching records in loaded order |
| Listings.SelectIdempotent | src/Components/Listings.jsx:56-66 | clicking the same tab twice is the same as clicking it once |
| Listings.SelectForgetsPrevious | src/Components/Listings.jsx:56-66 | the shown list depends only on the loaded list and the last tab clicked, not on earlier clicks |
| Listings.SelectAllRestores | src/Components/Listings.jsx:58-59 | clicking "All Properties" after any tab shows the whole loaded list again |
| Listings.Run | src/Components/Listings.jsx:11-71 | after the mount state, the single load and any clicks, the spinner is down, the loaded rows are the load's rows, and the active tab is the last one clicked or the sentinel before any click; each click is the tab button handler |
| Listings.InitialState | src/Components/Listings.jsx:11-15 | at mount the spinner shows, nothing is loaded, the error is null and the sentinel tab is active, with the shown list in step with it |
| Listings.RunSettled | src/Components/Listings.jsx:11-71 | after the load at mount and any clicks, the spinner is down, the shown list is the active tab's view of the loaded rows, the error is null exactly when the load succeeded, a failure leaves nothing loaded, and the only error texts are the two fixed messages |
| Listings.SelectKeepsSettled | src/Components/Listings.jsx:56-66 | a tab click preserves that settled invariant |
| Listings.FetchConsistentWhen | src/Components/Listings.jsx:36-40 | a load keeps the active tab but shows all rows, so the shown list follows the tab exactly when the tab is the sentinel or hides no loaded row |
| Listings.TabBar | src/Components/Listings.jsx:108-118 | the tab bar has one button per label, in display order |
| Listings.TabLabelsDistinct | src/Components/Listings.jsx:108 | the four tab labels are pairwise distinct |
| Listings.TabBarHighlight | src/Components/Listings.jsx:108-116 | a button is highlighted exactly when its label is the active tab, at most one is, and one is exactly when the active tab is one of the labels |
| Listings.Render | src/Components/Listings.jsx:73-180 | the spinner shows exactly while loading; an error view shows the truthy error text; the grid holds the shown list with the notice exactly when it is empty and the tab bar for the active tab (precedence fully stated by RenderPrecedence) |
| Listings.RenderPrecedence | src/Components/Listings.jsx:73-180 | the spinner shows exactly while loading, else the error view exactly when the error is truthy, with that text, else the grid of the shown list, with the empty notice exactly when the list is empty |
| Listings.RenderWhileLoading | src/Components/Listings.jsx:73-75 | once a load starts the spinner shows |
| Listings.RenderAfterFetch | src/Components/Listings.jsx:73-85 | after a failed load the error view shows the failure's message; after a success the grid shows the loaded rows, with the empty notice exactly when there are none |
| Listings.RenderAfterClick | src/Components/Listings.jsx:125-180 | after a successful load and clicks, the grid shows the last tab's records, with the empty notice exactly when none match |
| Scenarios.ThreeRowRun | src/Components/Listings.jsx:56-66 | rows Villa, Office, villa: the load shows all three, "Villa" shows both villas, "Apartment" shows none and the empty notice |
| Scenarios.EmptyLoadIsNotFailure | src/Components/Listings.jsx:27-40 | zero rows or null data give the grid with the empty notice and no error; a reported error gives the backend error view even with data |

## Left out

- The query itself (`supabase.from("properties").select("*").order("id")`) and its ordering by `id`. It is an external call, so its outcome is a parameter of `Fetch` and `Run`.
- Whether a raised toast is displayed. The component's only `ToastContainer` sits in the grid branch, so a failed load, which renders the error view, does not mount one here; the model records that the toast call is made, not that it is seen.
- Toast options, `console.error`, the `ToastContainer` configuration and the `Spinner2` component. They are side effects or markup. Only the toast's text is modelled, by `Listings.Toast`.
- The React `useState`/`useEffect` wiring. It is framework plumbing. State is an explicit record, and the single load at mount is the first step of `Run`.
- Asynchronous timing and overlapping loads. The code has no cancellation logic to model.
- The card markup and the per-card fields (title, address, price, image, rooms, area, status, featured flag). They are display passthrough, kept as an opaque `details` map.
- src/Components/StatSection.jsx. It is static markup with animations and counters and has no logic.
- A record whose `type` column is null, where `toLowerCase` would throw inside the click handler. The model's category is always a string.
- Falsy `data` values other than null (`data || []`). The backend returns an array or null.
- Ascii.Lower: models `toLowerCase` on ASCII letters only, because full Unicode case mapping is a runtime library table. Non-ASCII letters compare case-sensitively in the model.
