/**
 The listing component: its view state, the load of the property table,
 the tab selection, and what the component renders.

 The backend query is not modelled; its outcome is an input value. React's
 state hooks become an explicit `ViewState` record passed through pure
 transition functions.
 */
module Listings {
  import opened Catalog
  import Ascii

  /** A JavaScript value that may be `null`. */
  datatype Nullable<T> = Null | NonNull(value: T)

  /** The rows of a query answer, with `null` read as no rows (`data || []`). */
  function OrEmpty(data: Nullable<seq<Property>>): seq<Property> {
    if data.NonNull? then data.value else []
  }

  /** The error object a backend query reports, kept opaque. */
  datatype QueryError = QueryError(message: string)

  /**
   How the table query settled: it answered with rows (possibly null) and an
   error (possibly null), or the awaited call threw.
   */
  datatype QueryOutcome =
    | Answered(data: Nullable<seq<Property>>, error: Nullable<QueryError>)
    | Threw(reason: string)

  /** The component's state hooks. */
  datatype ViewState = ViewState(
    properties: seq<Property>,
    filtered: seq<Property>,
    loading: bool,
    error: Nullable<string>,
    activeTab: string)

  const BackendErrorMessage: string := "Failed to load properties. Please try again later."
  const UnexpectedErrorMessage: string := "An unexpected error occurred. Please try again later."

  /** The tab buttons, in display order. */
  const TabLabels: seq<string> := [AllTab, "Villa", "Apartment", "Office"]

  /** The state when the component mounts. */
  const Initial: ViewState := ViewState([], [], true, Null, AllTab)

  /** The outcome took the success branch: no error was reported and nothing threw. */
  predicate Succeeded(o: QueryOutcome) {
    o.Answered? && o.error.Null?
  }

  /** The rows a settled query leaves loaded: the data, or nothing when it was null or the load failed. */
  function LoadedRows(o: QueryOutcome): seq<Property> {
    if Succeeded(o) then OrEmpty(o.data) else []
  }

  // ---------------------------------------------------------------------
  // Loading.

  /** The start of a load: the spinner goes up and any earlier error is cleared. */
  function BeginFetch(s: ViewState): (r: ViewState)
    ensures r.loading && r.error == Null
    ensures r.properties == s.properties && r.filtered == s.filtered && r.activeTab == s.activeTab
  {
    s.(loading := true, error := Null)
  }

  /**
   How a settled query updates the state: the spinner goes down and both lists
   get the same rows. A failure empties them and sets its fixed message; the
   success branch leaves the error as it was.
   */
  function Complete(s: ViewState, o: QueryOutcome): (r: ViewState)
    ensures !r.loading && r.activeTab == s.activeTab
    ensures r.properties == r.filtered
    ensures Succeeded(o) ==> r.error == s.error && r.properties == OrEmpty(o.data)
    ensures !Succeeded(o) ==> r.properties == [] && r.error.NonNull?
    ensures !Succeeded(o) ==> r.error.value in {BackendErrorMessage, UnexpectedErrorMessage}
  {
    match o
    case Threw(_) =>
      s.(error := NonNull(UnexpectedErrorMessage), properties := [], filtered := [], loading := false)
    case Answered(data, err) =>
      if err.NonNull? then
        s.(error := NonNull(BackendErrorMessage), properties := [], filtered := [], loading := false)
      else
        s.(properties := OrEmpty(data), filtered := OrEmpty(data), loading := false)
  }

  /**
   One load, from the spinner going up to the query settling. Both lists
   hold the loaded rows, and the error is set exactly when the load failed.
   */
  function Fetch(s: ViewState, o: QueryOutcome): (r: ViewState)
    ensures !r.loading
    ensures r.activeTab == s.activeTab
    ensures r.properties == LoadedRows(o) && r.filtered == LoadedRows(o)
    ensures Succeeded(o) ==> r.error == Null
    ensures o.Answered? && o.error.NonNull? ==> r.error == NonNull(BackendErrorMessage)
    ensures o.Threw? ==> r.error == NonNull(UnexpectedErrorMessage)
  {
    Complete(BeginFetch(s), o)
  }

  /** The notification raised when a query settles: one of the two fixed texts on a failure, none on a success. */
  function Toast(o: QueryOutcome): (t: Nullable<string>)
    ensures t.NonNull? <==> !Succeeded(o)
    ensures t.NonNull? ==> t.value in {BackendErrorMessage, UnexpectedErrorMessage}
  {
    match o
    case Threw(_) => NonNull(UnexpectedErrorMessage)
    case Answered(_, err) => if err.NonNull? then NonNull(BackendErrorMessage) else Null
  }

  /** Every failure raises a notification with exactly the message the state keeps; a success raises none. */
  lemma ToastMatchesError(s: ViewState, o: QueryOutcome)
    ensures Toast(o) == Fetch(s, o).error
    ensures Toast(o).NonNull? <==> !Succeeded(o)
  {
  }

  /** A successful load fills both lists with the returned rows, or empties them when the data is null. */
  lemma FetchSuccess(s: ViewState, data: Nullable<seq<Property>>)
    ensures var r := Fetch(s, Answered(data, Null));
            && r.properties == r.filtered
            && r.properties == (if data.NonNull? then data.value else [])
            && r.error == Null && !r.loading
  {
  }

  /** A reported backend error clears both lists and keeps the backend message, whatever data came along. */
  lemma FetchBackendError(s: ViewState, data: Nullable<seq<Property>>, e: QueryError)
    ensures var r := Fetch(s, Answered(data, NonNull(e)));
            r.properties == [] && r.filtered == [] && r.error == NonNull(BackendErrorMessage) && !r.loading
  {
  }

  /** A thrown exception clears both lists and keeps the unexpected-error message. */
  lemma FetchThrew(s: ViewState, reason: string)
    ensures var r := Fetch(s, Threw(reason));
            r.properties == [] && r.filtered == [] && r.error == NonNull(UnexpectedErrorMessage) && !r.loading
  {
  }

  // ---------------------------------------------------------------------
  // Tab selection.

  /** Selecting a tab: it becomes active and the shown list is recomputed from the loaded list alone. */
  function Select(s: ViewState, tab: string): (r: ViewState)
    ensures r.activeTab == tab
    ensures r.properties == s.properties
    ensures r.loading == s.loading && r.error == s.error
    ensures |r.filtered| <= |s.properties|
    ensures tab == AllTab ==> r.filtered == s.properties
  {
    s.(activeTab := tab, filtered := Visible(s.properties, tab))
  }

  /**
   After a click the shown list is a subsequence of the loaded list, and under
   any tab but the sentinel it is exactly the records whose category matches
   the tab ignoring case, in their loaded order.
   */
  lemma SelectShowsMatching(s: ViewState, tab: string)
    ensures IsSubsequence(Select(s, tab).filtered, s.properties)
    ensures tab != AllTab ==> IsFilterOf(Select(s, tab).filtered, s.properties, tab)
  {
    VisibleSubsequence(s.properties, tab);
    KeepMatchingIsFilter(s.properties, tab);
  }

  /** Selecting the same tab twice is the same as selecting it once. */
  lemma SelectIdempotent(s: ViewState, tab: string)
    ensures Select(Select(s, tab), tab) == Select(s, tab)
  {
  }

  /** The shown list does not depend on what was shown before: only the loaded list and the tab count. */
  lemma SelectForgetsPrevious(s: ViewState, t1: string, t2: string)
    ensures Select(Select(s, t1), t2) == Select(s, t2)
  {
  }

  /** The sentinel shows every loaded record, whatever was selected before. */
  lemma SelectAllRestores(s: ViewState, previous: string)
    ensures Select(Select(s, previous), AllTab).filtered == s.properties
  {
  }

  // ---------------------------------------------------------------------
  // The component's life: one load at mount, then any number of tab clicks.

  /** The shown list is the active tab's view of the loaded list. */
  ghost predicate Consistent(s: ViewState) {
    s.filtered == Visible(s.properties, s.activeTab)
  }

  /** What every settled state keeps: the spinner is down, the shown list follows the tab, a failure leaves nothing loaded, and the only errors are the two fixed messages. */
  ghost predicate Settled(s: ViewState) {
    && !s.loading
    && Consistent(s)
    && (s.error.NonNull? ==> s.properties == [] && s.error.value in {BackendErrorMessage, UnexpectedErrorMessage})
  }

  /**
   The state after mounting, loading once with outcome `o`, and clicking the
   tabs `tabs` in order: the spinner is down, the loaded rows are those of the
   load, and the active tab is the last one clicked, or the sentinel before any click.
   */
  function Run(o: QueryOutcome, tabs: seq<string>): (r: ViewState)
    ensures !r.loading
    ensures r.properties == LoadedRows(o)
    ensures r.activeTab == (if |tabs| == 0 then AllTab else tabs[|tabs| - 1])
    decreases |tabs|
  {
    if |tabs| == 0 then Fetch(Initial, o)
    else Select(Run(o, tabs[..|tabs| - 1]), tabs[|tabs| - 1])
  }

  /** Every state the component reaches after its load keeps the settled invariant, with the loaded rows never changing. */
  lemma {:induction false} RunSettled(o: QueryOutcome, tabs: seq<string>)
    ensures Settled(Run(o, tabs))
    ensures Run(o, tabs).properties == LoadedRows(o)
    ensures Run(o, tabs).error == Null <==> Succeeded(o)
    ensures |tabs| > 0 ==> Run(o, tabs).activeTab == tabs[|tabs| - 1]
    decreases |tabs|
  {
    if |tabs| == 0 {
      VisibleAll(LoadedRows(o));
    } else {
      RunSettled(o, tabs[..|tabs| - 1]);
    }
  }

  /** Selecting a tab keeps the settled invariant. */
  lemma SelectKeepsSettled(s: ViewState, tab: string)
    requires Settled(s)
    ensures Settled(Select(s, tab))
  {
  }

  /**
   A load keeps the active tab but shows every row, so it leaves the shown list
   in step with the tab only when that tab is the sentinel or hides nothing.
   The component loads once, at mount, while the sentinel is active.
   */
  lemma FetchConsistentWhen(s: ViewState, o: QueryOutcome)
    ensures Consistent(Fetch(s, o)) <==>
            s.activeTab == AllTab || KeepMatching(LoadedRows(o), s.activeTab) == LoadedRows(o)
  {
  }

  // ---------------------------------------------------------------------
  // Rendering.

  datatype TabButton = TabButton(text: string, highlighted: bool)

  datatype Screen =
    | Spinner
    | ErrorView(message: string)
    | Grid(tabs: seq<TabButton>, cards: seq<Property>, showEmptyNotice: bool)

  /** JavaScript truthiness of the error state: present and not the empty string. */
  predicate HasError(s: ViewState) {
    s.error.NonNull? && s.error.value != ""
  }

  /** The tab bar: every label, highlighted when it is the active tab. */
  function TabBar(activeTab: string): (r: seq<TabButton>)
    ensures |r| == |TabLabels|
    ensures forall i :: 0 <= i < |r| ==> r[i].text == TabLabels[i]
  {
    seq(|TabLabels|, i requires 0 <= i < |TabLabels| => TabButton(TabLabels[i], TabLabels[i] == activeTab))
  }

  /**
   What the component shows: the spinner while loading, else the error, else
   the grid. The grid always holds the shown list, with the notice exactly
   when that list is empty, and a tab bar highlighting the active tab.
   */
  function Render(s: ViewState): (v: Screen)
    ensures v.Spinner? <==> s.loading
    ensures v.ErrorView? ==> HasError(s) && v.message == s.error.value
    ensures v.Grid? ==> v.cards == s.filtered && (v.showEmptyNotice <==> |v.cards| == 0)
    ensures v.Grid? ==> v.tabs == TabBar(s.activeTab)
  {
    if s.loading then Spinner
    else if HasError(s) then ErrorView(s.error.value)
    else Grid(TabBar(s.activeTab), s.filtered, |s.filtered| == 0)
  }

  /** The three screens and when each appears, in precedence order. */
  lemma RenderPrecedence(s: ViewState)
    ensures Render(s).Spinner? <==> s.loading
    ensures Render(s).ErrorView? <==> !s.loading && HasError(s)
    ensures Render(s).ErrorView? ==> Render(s).message == s.error.value
    ensures Render(s).Grid? <==> !s.loading && !HasError(s)
    ensures Render(s).Grid? ==> Render(s).cards == s.filtered
    ensures Render(s).Grid? ==> (Render(s).showEmptyNotice <==> s.filtered == [])
  {
  }

  /** At mount the spinner shows, nothing is loaded and the sentinel tab is active with the empty list in step with it. */
  lemma InitialState()
    ensures Render(Initial) == Spinner
    ensures Initial.activeTab == AllTab && Initial.properties == [] && Initial.error == Null
    ensures Consistent(Initial)
  {
  }

  /** The labels are pairwise distinct, so at most one button is highlighted. */
  lemma TabLabelsDistinct()
    ensures forall i, j :: 0 <= i < j < |TabLabels| ==> TabLabels[i] != TabLabels[j]
  {
    assert AllTab[0] == 'A';
  }

  /** Exactly the active tab's button is highlighted, and one is whenever the active tab is a label. */
  lemma TabBarHighlight(activeTab: string)
    ensures forall i :: 0 <= i < |TabLabels| ==> (TabBar(activeTab)[i].highlighted <==> TabLabels[i] == activeTab)
    ensures forall i, j :: 0 <= i < j < |TabLabels| ==> !(TabBar(activeTab)[i].highlighted && TabBar(activeTab)[j].highlighted)
    ensures (exists i :: 0 <= i < |TabLabels| && TabBar(activeTab)[i].highlighted) <==> activeTab in TabLabels
  {
    TabLabelsDistinct();
  }

  /** While a load is in flight the spinner shows. */
  lemma RenderWhileLoading(s: ViewState)
    ensures Render(BeginFetch(s)) == Spinner
  {
  }

  /** Once the load settles, a failure shows its message and a success shows the rows, with the notice exactly when there are none. */
  lemma RenderAfterFetch(s: ViewState, o: QueryOutcome)
    ensures !Succeeded(o) ==> Render(Fetch(s, o)) == ErrorView(Toast(o).value)
    ensures Succeeded(o) ==> Render(Fetch(s, o)).Grid?
    ensures Succeeded(o) ==> Render(Fetch(s, o)).cards == LoadedRows(o)
    ensures Succeeded(o) ==> (Render(Fetch(s, o)).showEmptyNotice <==> LoadedRows(o) == [])
  {
  }

  /** After a successful load, clicking a tab shows its matching records, and the notice exactly when none match. */
  lemma {:induction false} RenderAfterClick(o: QueryOutcome, tabs: seq<string>)
    requires Succeeded(o) && |tabs| > 0
    ensures var t := tabs[|tabs| - 1];
            && Render(Run(o, tabs)).Grid?
            && Render(Run(o, tabs)).cards == Visible(LoadedRows(o), t)
            && (Render(Run(o, tabs)).showEmptyNotice <==> Visible(LoadedRows(o), t) == [])
  {
    RunSettled(o, tabs);
  }
}
