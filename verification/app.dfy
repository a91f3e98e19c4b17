/** index.tsx: the application shell's navigation state. Every handler the shell passes
    down that changes this state is an event, including the category list's own category
    and search setters; the posts and the configuration it also holds are the other
    modules' business. */
module App {
  import opened Wrappers
  import opened Types
  import opened Listing

  datatype AppState = AppState(
    view: ViewMode,
    previousView: ViewMode,
    activePostId: Option<string>,
    authenticated: bool,
    editingPost: Option<Post>,
    selectedCategory: string,
    globalSearch: string)

  const Init := AppState(Home, Home, None, false, None, All, "")

  /** `navigateTo`: entering a post from the home page or the category list remembers that
      view; a non-empty id becomes the active post; the view is always the target. */
  function NavigateTo(st: AppState, target: ViewMode, id: Option<string>): (r: AppState)
    ensures r.view == target
    ensures r.authenticated == st.authenticated && r.editingPost == st.editingPost
    ensures r.selectedCategory == st.selectedCategory && r.globalSearch == st.globalSearch
    ensures r.activePostId != st.activePostId ==> id.Some? && id.value != "" && r.activePostId == id
    ensures r.previousView != st.previousView ==>
      target == PostView && (st.view == Home || st.view == Categories) && r.previousView == st.view
  {
    var previous := if target == PostView && (st.view == Home || st.view == Categories) then st.view else st.previousView;
    var active := if id.Some? && id.value != "" then id else st.activePostId;
    st.(view := target, previousView := previous, activePostId := active)
  }

  /** The views shown only to a signed-in administrator. */
  predicate Protected(v: ViewMode) {
    v == Dashboard || v == AdminDashboard || v == AdminEditor || v == Settings
  }

  /** The component the main area renders: a protected view needs authentication and the
      post view an active post; otherwise nothing is rendered. */
  function Screen(st: AppState): Option<ViewMode> {
    if Protected(st.view) && !st.authenticated then None
    else if st.view == PostView && st.activePostId.None? then None
    else Some(st.view)
  }

  /** The shell's handlers. Events raised by a component only act while that component is
      rendered. */
  datatype Event =
    | Navigate(target: ViewMode, id: Option<string>)  // navigation bar, "read", "view all"
    | Back                                            // the post view's back button
    | Login                                           // the login view's success callback
    | Logout
    | SelectCategory(category: string)                // the navigation bar's category menu
    | Search(query: string)                           // the home page's search box
    | Edit(post: Option<Post>)                        // the dashboard's edit and create buttons
    | Saved                                           // the editor's save callback
    | SetCategory(category: string)                   // the category list's tree and chips
    | SetSearch(query: string)                        // the category list's search box

  function Step(st: AppState, e: Event): AppState {
    match e
    case Navigate(target, id) => NavigateTo(st, target, id)
    case Back =>
      if Screen(st) == Some(PostView) then NavigateTo(st, st.previousView, None) else st
    case Login =>
      if Screen(st) == Some(AdminLogin) then NavigateTo(st.(authenticated := true), AdminDashboard, None) else st
    case Logout => NavigateTo(st.(authenticated := false), Home, None)
    case SelectCategory(c) => NavigateTo(st.(selectedCategory := c), Categories, None)
    case Search(q) =>
      if Screen(st) == Some(Home) then NavigateTo(st.(globalSearch := q), Categories, None) else st
    case Edit(p) =>
      if Screen(st) == Some(AdminDashboard) then NavigateTo(st.(editingPost := p), AdminEditor, None) else st
    case Saved =>
      if Screen(st) == Some(AdminEditor) then NavigateTo(st, AdminDashboard, None) else st
    case SetCategory(c) =>
      if Screen(st) == Some(Categories) then st.(selectedCategory := c) else st
    case SetSearch(q) =>
      if Screen(st) == Some(Categories) then st.(globalSearch := q) else st
  }

  function Replay(st: AppState, events: seq<Event>): AppState
    decreases |events|
  {
    if |events| == 0 then st else Replay(Step(st, events[0]), events[1..])
  }

  /** The remembered view is always the home page or the category list. */
  predicate Good(st: AppState) {
    st.previousView == Home || st.previousView == Categories
  }

  lemma StepKeepsGood(st: AppState, e: Event)
    requires Good(st)
    ensures Good(Step(st, e))
  {
  }

  /** Whatever happens, the back button of a post keeps leading to the home page or the
      category list. */
  lemma {:induction false} ReplayKeepsGood(st: AppState, events: seq<Event>)
    requires Good(st)
    ensures Good(Replay(st, events))
    decreases |events|
  {
    if |events| > 0 {
      StepKeepsGood(st, events[0]);
      ReplayKeepsGood(Step(st, events[0]), events[1..]);
    }
  }

  /** The app starts at home, signed out, remembering home; so every reachable state
      remembers a list view. */
  lemma ReachableGood(events: seq<Event>)
    ensures Init.view == Home && Init.previousView == Home && !Init.authenticated
    ensures Good(Replay(Init, events))
  {
    ReplayKeepsGood(Init, events);
  }

  /** Only the login event signs in. */
  lemma {:induction false} NoLoginNoAuth(st: AppState, events: seq<Event>)
    requires !st.authenticated
    requires forall k :: 0 <= k < |events| ==> events[k] != Login
    ensures !Replay(st, events).authenticated
    ensures var r := Replay(st, events); Screen(r).Some? ==> !Protected(Screen(r).value)
    decreases |events|
  {
    if |events| > 0 {
      NoLoginNoAuth(Step(st, events[0]), events[1..]);
    }
  }

  /** Logging out returns home and hides every protected view until the next login. */
  lemma LogoutLocks(st: AppState, events: seq<Event>)
    requires forall k :: 0 <= k < |events| ==> events[k] != Login
    ensures Step(st, Logout).view == Home && !Step(st, Logout).authenticated
    ensures var r := Replay(Step(st, Logout), events);
      Screen(r).Some? ==> !Protected(Screen(r).value)
  {
    NoLoginNoAuth(Step(st, Logout), events);
  }

  /** The category list's own setters only change its filter: the view, the remembered
      view, the active post and the session stay as they are, and the new category or
      query is taken exactly when the list is on screen. */
  lemma ListFiltersStay(st: AppState, e: Event)
    requires e.SetCategory? || e.SetSearch?
    ensures var r := Step(st, e);
      && r.view == st.view && r.previousView == st.previousView
      && r.activePostId == st.activePostId && r.authenticated == st.authenticated
      && r.editingPost == st.editingPost
      && (e.SetCategory? ==> (r.globalSearch == st.globalSearch
           && r.selectedCategory == if Screen(st) == Some(Categories) then e.category else st.selectedCategory))
      && (e.SetSearch? ==> (r.selectedCategory == st.selectedCategory
           && r.globalSearch == if Screen(st) == Some(Categories) then e.query else st.globalSearch))
  {
  }

  /** Opening a post from the home page or the category list and pressing back returns to
      that list, with the post still the active one. */
  lemma OpenThenBack(st: AppState, id: string)
    requires st.view == Home || st.view == Categories
    requires id != ""
    ensures var r := Replay(st, [Navigate(PostView, Some(id)), Back]);
      r.view == st.view && r.activePostId == Some(id) && r.previousView == st.view
  {
    var evs := [Navigate(PostView, Some(id)), Back];
    var reading := Step(st, Navigate(PostView, Some(id)));
    assert Screen(reading) == Some(PostView);
    assert evs[1..] == [Back] && [Back][1..] == [];
    assert Replay(st, evs) == Replay(reading, [Back]) == Step(reading, Back);
  }
}
