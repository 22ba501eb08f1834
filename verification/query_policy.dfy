/** The exclusion policy of the offline page excluder: which queries must not
    list the offline page, and which query is a direct request for it. */
module QueryPolicy {
  import opened Wrappers

  /** The flags of a WP_Query this component reads, plus its exclusion list.
      `queriedObjectId` is the query's queried object id, already cast to int. */
  datatype Query = Query(
    isSearch: bool,
    isPage: bool,
    isSingular: bool,
    isAdmin: bool,
    queriedObjectId: int,
    postNotIn: seq<int>
  )

  /** Id of the admin screen on which the nav-menus page is edited. */
  const NavMenusScreen: string := "nav-menus"

  /** A front-end request for exactly the offline page. */
  predicate IsOfflinePageQuery(q: Query, offlineId: int)
  {
    !q.isAdmin && q.isSingular && offlineId == q.queriedObjectId
  }

  /** The first-match-wins decision whether the offline page is to be kept out
      of the query's results. `customizerActive` says whether the customizer
      global is an object; `screenId` is the id of the current admin screen,
      None when no screen is resolvable. */
  function IsOkayToExclude(q: Query, offlineId: int, customizerActive: bool, screenId: Option<string>): (ok: bool)
    // Rule 1: every search hides the offline page, whatever else holds.
    ensures q.isSearch ==> ok
    // Rule 2: a customizer preview of anything but a page hides it.
    ensures customizerActive && !q.isPage ==> ok
    // Rule 3: in the back end only the nav-menus screen hides it.
    ensures !q.isSearch && !(customizerActive && !q.isPage) && q.isAdmin ==>
              (ok <==> screenId.Some? && screenId.value == NavMenusScreen)
    // Rule 4: a direct front-end request for the offline page is never blocked.
    ensures !q.isSearch && !(customizerActive && !q.isPage) && IsOfflinePageQuery(q, offlineId) ==> !ok
    // Rule 5: any other front-end query hides it iff it is a singular page query.
    ensures !q.isSearch && !(customizerActive && !q.isPage) && !q.isAdmin && !IsOfflinePageQuery(q, offlineId) ==>
              (ok <==> q.isPage && q.isSingular)
    // The same decision as an unordered disjunction: the offline-page rule only
    // matters for singular page queries, where it amounts to comparing ids.
    ensures ok <==>
              || q.isSearch
              || (customizerActive && !q.isPage)
              || (q.isAdmin && screenId == Some(NavMenusScreen))
              || (!q.isAdmin && q.isPage && q.isSingular && q.queriedObjectId != offlineId)
  {
    if q.isSearch then true
    else if customizerActive && !q.isPage then true
    else if q.isAdmin then screenId.Some? && screenId.value == NavMenusScreen
    else if IsOfflinePageQuery(q, offlineId) then false
    else q.isPage && q.isSingular
  }
}
