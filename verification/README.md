# Offline page excluder

A Dafny model of `WP_Offline_Page_Excluder`. This is the class of the PWA plugin that keeps the
site's default offline page out of page listings. It hooks three callbacks into WordPress:

- `exclude_from_page_dropdown` filters the HTML of a page dropdown. It deletes, with one
  `preg_replace`, every `<option .*? value="ID">.*?</option>` in which ID is the offline page id.
  The dropdown in which the offline page itself is chosen is left alone.
- `exclude_from_query` adds the offline page id to a query's `post__not_in` list when
  `is_okay_to_exclude` says so. It uses `array_unique(array_merge(list, [id]))`, or `[id]` when
  the list is empty.
- `show_no_robots_on_offline_page` emits the no-robots directive when the main query is a
  front-end singular request for the offline page (`is_offline_page_query`).

The model is split into modules that follow that structure:

- `QueryPolicy` (query_policy.dfy) holds the query flags the class reads and the decision
  `is_okay_to_exclude`. It is stated both as the source's ordered rules and as one unordered
  disjunction.
- `ExclusionList` (exclusion_list.dfy) models `array_unique` on sequences, defined by first
  occurrence. It includes a one-pass implementation with a set of values already seen, and the
  list update with its idempotence.
- `OptionPattern` (option_pattern.dfy) models one match of the dropdown pattern at the start of
  a text, as a backtracking matcher finds it. The first lazy group is tried with 0, 1, 2, …
  characters. For each of those, the second lazy group stops at the first `</option>`. `.` is
  any character but a line feed. The id is printed in decimal, with a `-` when negative.
- `GlobalReplace` (global_replace.dfy) models `preg_replace` with an empty replacement, for a
  matcher whose matches are non-empty. Only a non-empty match that fits in the text is
  taken, and `OfflinePageExcluder.OptionMatchAt` shows that every match of the option pattern is
  of that kind. It deletes the leftmost non-overlapping matches, and the result is proved to
  be exactly the characters outside those matches, in order.
- `OfflinePageExcluder` (offline_page_excluder.dfy) holds the three callbacks. What they read
  from WordPress is passed in a `Host` value: the offline page id, the manager's option name,
  whether the customizer is active, and the current screen id.
- `Scenarios` (scenarios.dfy) holds worked examples on small inputs, proved as lemmas.

The dropdown filter does not always remove only the option for the offline page. One might
expect filtering
`<option value="1">A</option><option value="42">Offline</option><option value="3">C</option>`
for page 42 to leave options 1 and 3. Under the pattern as written, it leaves only
`<option value="3">C</option>`.

The reason is that the pattern needs a space after `<option` and another before `value`. The
options in this example have only one. So the first match starts at the first option, and its
first lazy group runs over `value="1">A</option><option` up to the key ` value="42">`.
`Scenarios.DropdownScenario` proves this output. The model follows the code here. It also follows
the code in removing every match, not at most one.

## Model

| member | source | states |
|---|---|---|
| QueryPolicy.IsOkayToExclude | wp-includes/class-wp-offline-page-excluder.php:108-133 | A search is always excluded. A customizer preview of a non-page is always excluded. In the back end, exclusion happens iff a screen exists and its id is `nav-menus`. On the front end, a request for the offline page is not excluded, and any other query is excluded iff it is a singular page query. The result also equals an order-free disjunction of these cases. |
| QueryPolicy.IsOfflinePageQuery | wp-includes/class-wp-offline-page-excluder.php:91-98 | A query is for the offline page iff it is front-end, singular and its queried object id equals the offline page id. Its meaning is used in rule 4 of `QueryPolicy.IsOkayToExclude` (such a query is never excluded) and in the second ensures of `OfflinePageExcluder.ShowNoRobotsOnOfflinePage`. |
| ExclusionList.FirstIndex | wp-includes/class-wp-offline-page-excluder.php:68 | The index returned holds the value, and no earlier index does. |
| ExclusionList.Unique | wp-includes/class-wp-offline-page-excluder.php:68 | `array_unique` has no duplicates, and it holds exactly the values of its input. |
| ExclusionList.UniqueOrder | wp-includes/class-wp-offline-page-excluder.php:68 | `array_unique` lists the values in the order of their first occurrence in the input. |
| ExclusionList.UniqueOfDistinct | wp-includes/class-wp-offline-page-excluder.php:68 | Deduplicating a duplicate-free list returns it unchanged. |
| ExclusionList.ArrayUnique | wp-includes/class-wp-offline-page-excluder.php:68 | A single pass that keeps each value not seen before computes `Unique`. |
| ExclusionList.ExcludeId | wp-includes/class-wp-offline-page-excluder.php:65-71 | An empty list becomes `[id]`. The result always contains the id and has no duplicates. Its values are those of the old list plus the id. |
| ExclusionList.ExcludeIdIsUnique | wp-includes/class-wp-offline-page-excluder.php:65-71 | The new list is the deduplicated old list, followed by the id only when the id was absent. |
| ExclusionList.ExcludeIdIdempotent | wp-includes/class-wp-offline-page-excluder.php:65-71 | Adding the id a second time changes nothing. |
| OptionPattern.NatToDecimal | wp-includes/class-wp-offline-page-excluder.php:52 | The id is printed as a non-empty string of digits with no leading zero. |
| OptionPattern.DecimalRoundTrip | wp-includes/class-wp-offline-page-excluder.php:52 | Reading the printed digits back gives the id. |
| OptionPattern.IntToDecimal | wp-includes/class-wp-offline-page-excluder.php:52 | The id interpolated into the pattern is the text of an int: digits, with a leading `-` exactly when the id is negative. |
| OptionPattern.IntRoundTrip | wp-includes/class-wp-offline-page-excluder.php:52 | Reading the interpolated id back gives the id, for every int. |
| OptionPattern.IntToDecimalInjective | wp-includes/class-wp-offline-page-excluder.php:52 | Different ids print differently. |
| OptionPattern.KeyInjective | wp-includes/class-wp-offline-page-excluder.php:52 | Different ids give different keys ` value="ID">`, so the pattern names exactly one page id. |
| OptionPattern.KeyOnOneLine | wp-includes/class-wp-offline-page-excluder.php:52 | The literal ` value="ID">` holds no line feed. |
| OptionPattern.LazyClose | wp-includes/class-wp-offline-page-excluder.php:52 | The second lazy group ends at the first `</option>` that no line feed precedes. If there is none, no later closing tag fits either. |
| OptionPattern.LazyFit | wp-includes/class-wp-offline-page-excluder.php:52 | The first lazy group takes the shortest length after which the key and a closing tag fit, with the shortest second group for that length. If it finds nothing, no length fits. |
| OptionPattern.Groups | wp-includes/class-wp-offline-page-excluder.php:52 | A match at the start of a text opens with `<option `. Its two groups are the shortest that fit, in the matcher's order. If there is no match, no pair of groups fits. |
| OptionPattern.MatchLen | wp-includes/class-wp-offline-page-excluder.php:52 | A match is at least as long as the pattern's literals, and no longer than the text. |
| OptionPattern.MatchExists | wp-includes/class-wp-offline-page-excluder.php:52 | There is a match iff the text opens with `<option ` and some pair of group lengths fits behind it. |
| OptionPattern.MatchShape | wp-includes/class-wp-offline-page-excluder.php:52 | Every match is one line. It opens with `<option `, contains the key and ends with `</option>`. It may span several option elements of that line. |
| OptionPattern.MatchOccurs | wp-includes/class-wp-offline-page-excluder.php:52 | A match contains the key. |
| OptionPattern.NoKeyNoMatch | wp-includes/class-wp-offline-page-excluder.php:52 | If the key does not occur in the text, no match starts anywhere in it. |
| GlobalReplace.DeleteFrom | wp-includes/class-wp-offline-page-excluder.php:52 | Deleting matches from a suffix never makes it longer. |
| GlobalReplace.DeleteAll | wp-includes/class-wp-offline-page-excluder.php:52 | The replaced text is never longer than the input. |
| GlobalReplace.ScanFrom | wp-includes/class-wp-offline-page-excluder.php:52 | The scan's spans are exact matches, in order and without overlap. No match starts outside them. |
| GlobalReplace.Matches | wp-includes/class-wp-offline-page-excluder.php:52 | The matches of a global replace are the leftmost, non-overlapping ones over the whole text. |
| GlobalReplace.DeleteAllIsOutside | wp-includes/class-wp-offline-page-excluder.php:52 | Replacing every match with nothing leaves exactly the characters outside the leftmost matches, in their order. |
| GlobalReplace.DeleteFromWithoutMatch | wp-includes/class-wp-offline-page-excluder.php:52 | Where no match starts, the text is returned unchanged. |
| GlobalReplace.MatchAt | wp-includes/class-wp-offline-page-excluder.php:52 | A match the scan takes is a non-empty prefix of the rest of the text, and it is the matcher's own answer. |
| OfflinePageExcluder.OptionMatchAt | wp-includes/class-wp-offline-page-excluder.php:52 | At every position, the scan takes the option pattern's match exactly as the pattern gives it. |
| OfflinePageExcluder.ExcludeFromPageDropdown | wp-includes/class-wp-offline-page-excluder.php:46-53 | The dropdown named with the option name is returned unchanged. Any other dropdown loses exactly its leftmost option matches, and the rest survives in order. HTML without the id's key is unchanged. The output is never longer than the input. |
| OfflinePageExcluder.MatchIsOptionSpan | wp-includes/class-wp-offline-page-excluder.php:52 | Each deleted text is on one line. It opens with `<option `, contains ` value="ID">` for the offline page id and ends with `</option>`. It may span several option elements of that line, not only the offline page's. |
| OfflinePageExcluder.ExcludeFromQuery | wp-includes/class-wp-offline-page-excluder.php:60-72 | When the policy says no, the query is unchanged. Only `post__not_in` ever changes. When the policy says yes, the list contains the id, has no duplicates and keeps every old value, and an empty list becomes `[id]`. |
| OfflinePageExcluder.ExcludeFromQueryIdempotent | wp-includes/class-wp-offline-page-excluder.php:60-72 | Running the action a second time on its own result changes nothing. |
| OfflinePageExcluder.ShowNoRobotsOnOfflinePage | wp-includes/class-wp-offline-page-excluder.php:77-98 | No-robots is emitted iff the query is not in the back end, is singular and asks for the offline page's id. Outside searches and customizer previews of non-pages, such a query keeps its exclusion list. |
| Scenarios.FirstMatch | wp-includes/class-wp-offline-page-excluder.php:52 | In the three-option dropdown, the match at the first option ends after the option for page 42. |
| Scenarios.DropdownScenario | wp-includes/class-wp-offline-page-excluder.php:46-53 | The three-option dropdown filtered for page 42 becomes `<option value="3">C</option>`. |
| Scenarios.SearchScenario | wp-includes/class-wp-offline-page-excluder.php:60-72 | A search whose list is `[5]` gets `[5, 42]`. |
| Scenarios.OfflineVisitScenario | wp-includes/class-wp-offline-page-excluder.php:108-133 | A front-end visit to the offline page keeps its query unchanged and gets the no-robots directive. |

## Left out

- Hook registration in `init` (lines 32-36) and the constructor (lines 25-27) are left out. They
  only wire the callbacks to WordPress, and the model calls the callbacks directly.
- The `wp_no_robots()` output is a side effect. `ShowNoRobotsOnOfflinePage` returns whether it
  would be called.
- The manager, `WP_Offline_Page::OPTION_NAME`, `$wp_customize`, `get_current_screen()` and the
  global `$wp_query` come from outside the class. They become parameters: `Host.offlineId`,
  `Host.optionName`, `Host.customizerActive`, `Host.screenId` and the `current` query.
  `WP_Offline_Page` is not part of this model, so the option name's value is not fixed here.
- `WP_Query` is reduced to the flags the class reads and its `post__not_in` list.
  - `is_singular()` (line 95) and the `is_singular` property (line 132) are the same flag.
  - The queried object id is taken as already cast to int.
- A missing `name` render argument is `None`. Like PHP's `null`, it never equals the option name.
- PCRE is modelled only for this one pattern. The `preg_replace` failure result (`null` when the
  backtracking limit is hit) is not modelled.
- `array_unique` keeps its surviving elements' original PHP array keys, so the result can have
  gaps. The model's sequences drop the keys. `array_unique` also compares elements as strings;
  the list is taken to hold ints, for which that is plain equality.
- `empty()` on a `post__not_in` that is not an array (a scalar or a comma-separated string) is
  not modelled. The list is always a sequence of ints.
