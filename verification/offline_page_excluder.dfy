/** The three callbacks of the offline page excluder, with everything they
    read from the host made explicit: the offline page id and the reserved
    option name from the manager, whether the customizer is active, and the
    current admin screen. */
module OfflinePageExcluder {
  import opened Wrappers
  import opened QueryPolicy
  import opened ExclusionList
  import opened OptionPattern
  import opened GlobalReplace

  /** What the excluder learns from its host on a call. `optionName` is the
      manager's option name, the `name` of the dropdown in which the offline
      page is chosen. */
  datatype Host = Host(offlineId: int, optionName: string, customizerActive: bool, screenId: Option<string>)

  /** The matcher of `<option .*? value="ID">.*?</option>` for page `id`,
      at the start of a text. */
  function OptionMatcher(id: int): string -> Option<nat>
  {
    t => MatchLen(t, Key(id))
  }

  /** Every match of the option pattern is a non-empty prefix of the rest of
      the text, so the scan takes each one as it stands. */
  lemma OptionMatchAt(s: string, id: int, i: nat)
    requires i <= |s|
    ensures MatchAt(s, OptionMatcher(id), i) == MatchLen(s[i..], Key(id))
  {
  }

  /** The `wp_dropdown_pages` filter. `argsName` is the `name` render
      argument, None when the arguments have no such key. */
  function ExcludeFromPageDropdown(html: string, argsName: Option<string>, host: Host): (r: string)
    // The dropdown that picks the offline page keeps it.
    ensures argsName == Some(host.optionName) ==> r == html
    // Any other dropdown loses exactly its leftmost matches of the option
    // pattern; every character outside them survives, in order.
    ensures argsName != Some(host.optionName) ==>
              forall sp :: LeftmostFrom(html, OptionMatcher(host.offlineId), sp, 0) ==> r == Outside(html, sp, 0)
    ensures !Occurs(Key(host.offlineId), html) ==> r == html
    ensures |r| <= |html|
  {
    if argsName == Some(host.optionName) then html
    else
      var m := OptionMatcher(host.offlineId);
      assert forall sp :: LeftmostFrom(html, m, sp, 0) ==> DeleteAll(html, m) == Outside(html, sp, 0) by {
        forall sp | LeftmostFrom(html, m, sp, 0) ensures DeleteAll(html, m) == Outside(html, sp, 0) {
          DeleteAllIsOutside(html, m, sp);
        }
      }
      assert !Occurs(Key(host.offlineId), html) ==> DeleteAll(html, m) == html by {
        if !Occurs(Key(host.offlineId), html) {
          NoKeyNoMatch(html, Key(host.offlineId));
          DeleteFromWithoutMatch(html, m, 0);
        }
      }
      DeleteAll(html, m)
  }

  /** Every text the filter deletes is an option span on a single line:
      it opens with `<option `, holds ` value="ID">` and ends with `</option>`.
      It may cover several option elements of that line, not only the one
      whose value is ID. */
  lemma MatchIsOptionSpan(t: string, id: int, n: nat)
    requires OptionMatcher(id)(t) == Some(n)
    ensures OptionSpanText(t[..n], Key(id))
  {
    KeyOnOneLine(id);
    MatchShape(t, Key(id), n);
  }

  /** The `parse_query` action: the query with the offline page added to its
      `post__not_in` list when the policy says so. */
  function ExcludeFromQuery(q: Query, host: Host): (r: Query)
    ensures !IsOkayToExclude(q, host.offlineId, host.customizerActive, host.screenId) ==> r == q
    // Only the exclusion list ever changes.
    ensures r.(postNotIn := q.postNotIn) == q
    ensures IsOkayToExclude(q, host.offlineId, host.customizerActive, host.screenId) ==>
              && host.offlineId in r.postNotIn
              && NoDuplicates(r.postNotIn)
              && (forall x :: x in r.postNotIn <==> x in q.postNotIn || x == host.offlineId)
              && (|q.postNotIn| == 0 ==> r.postNotIn == [host.offlineId])
  {
    if !IsOkayToExclude(q, host.offlineId, host.customizerActive, host.screenId) then q
    else q.(postNotIn := ExcludeId(q.postNotIn, host.offlineId))
  }

  /** Running the action twice leaves the query as running it once. */
  lemma ExcludeFromQueryIdempotent(q: Query, host: Host)
    ensures ExcludeFromQuery(ExcludeFromQuery(q, host), host) == ExcludeFromQuery(q, host)
  {
    ExcludeIdIdempotent(q.postNotIn, host.offlineId);
  }

  /** The `wp_head` action: whether the no-robots directive is emitted for the
      main query `current`. */
  function ShowNoRobotsOnOfflinePage(current: Query, host: Host): (emit: bool)
    ensures emit <==> !current.isAdmin && current.isSingular && current.queriedObjectId == host.offlineId
    // The page that carries the directive is still served: outside searches
    // and customizer previews of non-pages its query keeps its exclusion list.
    ensures emit && !current.isSearch && !(host.customizerActive && !current.isPage) ==>
              ExcludeFromQuery(current, host) == current
  {
    IsOfflinePageQuery(current, host.offlineId)
  }
}
