# Employee directory: a verified model of the store and the list controllers

This project models the core of a small employee-directory web application.

**The store**
- It keeps employee records in memory and persists them under the `employees` key of the browser's storage.
- It notifies subscribed listeners after every successful save.
- It validates submitted data: required fields, e-mail and phone shape, date and age rules, the two enumerations, and three uniqueness rules.
- It answers searches, paginated queries and sorted copies.

**The screens on top of it**
- The list controller asks the store for one page at a time. When a deletion leaves it past the last page, it moves back to the last page.
- The older list controller draws its own pagination and never moves back.
- The pagination component decides which page buttons it lists and which clicks become `page-change` events.
- The table/card view toggle remembers the user's choice.
- The locale helpers pick the start-up language and switch languages.

**Files** (one module each)

| File | Module | Contents |
|---|---|---|
| `wrappers.dfy` | `Wrappers` | `Option` and `Result` |
| `text.dfy` | `Text` | JavaScript's `\s`, `trim`, ASCII `toLowerCase`, `includes` and string `<` |
| `dates.dfy` | `Dates` | calendar dates and the age rule |
| `employees.dfy` | `Employees` | records, `validateEmployee` and `normalizePhone`, the uniqueness invariant |
| `queries.dfy` | `Queries` | `search`, `getPaginated` and `sort`, as functions on a snapshot of the records |
| `store.dfy` | `Store` | the `EmployeeStore` class |
| `pagination.dfy` | `PaginationWidget` | the pagination component |
| `list_controls.dfy` | `ListControls` | the sort toggle and selection updates both controllers share |
| `employee_list.dfy` | `EmployeeListView` | the list controller |
| `legacy_employee_list.dfy` | `LegacyEmployeeListView` | the older list controller |
| `browser_storage.dfy` | `BrowserStorage` | the storage the view toggle and the locale helpers use |
| `view_toggle.dfy` | `ViewToggleComponent` | the view toggle |
| `locale_utils.dfy` | `LocaleUtils` | the locale helpers |

How state is modelled:
- Operations that update fields in place are methods of classes with `modifies` clauses. This covers the store, both controllers, the pagination component, the view toggle, the storage and the page/locale environment.
- Pure computations are functions with lemmas about them. This covers validation, phone normalisation, search, pagination, sorting and locale resolution.
- Each method is proved against such a function.

Where the code and the documentation of the application disagree, the model follows the code. The one exception is the same-person rule of validation: the store class applies it in its corrected form (see "## Findings" and "## Left out"). Otherwise:
- The phone pattern is checked on the raw submitted string.
- `normalizePhone` removes all JavaScript white space, not only spaces.
- `saveToStorage` notifies the listeners only when its write succeeds. A failed write is caught after the records changed in memory, so they stay changed but nobody is notified.

## Model

| member | source | states |
|---|---|---|
| Text.Trim | src/employee-store.js:48-71 | `trim` gives the empty string exactly when the input is all white space; otherwise the result starts and ends with a non-space |
| Text.TrimParts | src/employee-store.js:202-205 | the input is the leading white space, the trimmed text and the trailing white space, in that order |
| Text.TrimIdempotent | src/employee-store.js:202-205 | trimming twice is trimming once |
| Text.ToLowerIdempotent | src/employee-store.js:141-150 | lower-casing twice is lower-casing once |
| Text.StrLessTransitive | src/employee-store.js:306-307 | string `<`, as code-point order, is transitive |
| Text.StrLessTotal | src/employee-store.js:306-307 | of two different strings one is smaller |
| Dates.AgeAtLeastIffAnniversaryPassed | src/employee-store.js:89-103 | the age on a day is at least n exactly when the n-th birthday is not after that day |
| Dates.AgeMonotone | src/employee-store.js:89-103 | the age never decreases over time |
| Dates.AgeOnAnniversary | src/employee-store.js:89-103 | on the n-th birthday the age is n |
| Employees.EmailShapeHasNoSpace | src/employee-store.js:73-75 | an address matching `^[^\s@]+@[^\s@]+\.[^\s@]+$` contains no white space, is not empty, and trims to itself |
| Employees.NormalizePhone | src/employee-store.js:182-184 | the result is no longer than the input and contains none of the removed characters (white space, `-`, `(`, `)`) |
| Employees.NormalizePhoneConcat | src/employee-store.js:182-184 | normalising a concatenation is concatenating the normalised parts, so every kept character keeps its order |
| Employees.NormalizePhoneChar | src/employee-store.js:182-184 | one character is dropped exactly when it is one of the removed characters, and kept unchanged otherwise |
| Employees.NormalizePhoneKeeps | src/employee-store.js:182-184 | a string without removed characters is left unchanged |
| Employees.NormalizePhoneIdempotent | src/employee-store.js:182-184 | normalising twice is normalising once |
| Employees.NormalizePhoneTrim | src/employee-store.js:152-162 | the stored (trimmed) phone has the same normal form as the submitted one |
| Employees.NormalizePhoneExample | test/employee-store.test.js:28-31 | `'+1 (555) 123-4567'` normalises to `'+15551234567'` |
| Employees.RunChecks | src/employee-store.js:45-179 | the checks, run in the source's order without stopping, leave exactly the error object `ErrorsFrom` describes: under each key, the message of the last check that fired |
| Employees.NoErrorsIffNoneFires | src/employee-store.js:178 | the error object is empty exactly when no check fires |
| Employees.EmailChecks | src/employee-store.js:54-150 | the three e-mail checks together accept exactly a well-formed address that no other considered record has, ignoring case |
| Employees.PhoneChecks | src/employee-store.js:57-162 | the three phone checks together accept exactly a non-blank, well-formed phone whose normal form no other considered record has |
| Employees.DateChecks | src/employee-store.js:60-126 | the date checks together accept exactly two present dates: employment not in the future, birth before employment, at least 15 years old today and at employment |
| Employees.OtherChecks | src/employee-store.js:48-176 | the name, department, position and same-person checks together accept exactly non-blank names, a listed department and position, and no same person |
| Employees.ValidationNoneIffAcceptable | src/employee-store.js:45-179 | `validateEmployee` returns `null` exactly when every rule holds |
| Employees.Build | src/employee-store.js:200-210 | the stored record has the given id and the four text fields trimmed |
| Employees.AcceptedIsCompatible | src/employee-store.js:141-176 | under the corrected same-person rule, data the validation accepts, once stored, shares no e-mail, normalised phone or person with any considered record |
| Employees.AcceptedAddKeepsUnique | src/employee-store.js:194-215 | under the corrected same-person rule, appending accepted data under a fresh id keeps the ids, e-mails, phones and persons unique |
| Employees.AcceptedUpdateKeepsUnique | src/employee-store.js:217-243 | under the corrected same-person rule, replacing a record by data accepted for its id keeps the records unique |
| Employees.RemoveKeepsUnique | src/employee-store.js:245-255 | removing a record keeps the others unique |
| Employees.AsWrittenAgreesOnTrimmedNames | src/employee-store.js:164-176 | when the submitted names need no trimming, the same-person rule as written and the corrected one agree |
| Employees.AsWrittenAdmitsSamePerson | src/employee-store.js:164-176 | the rule as written accepts a second "John Doe" born on the same day, submitted as " John" |
| Employees.AsWrittenBreaksUniqueness | src/employee-store.js:194-215 | storing that record next to the first breaks the uniqueness invariant |
| Employees.CorrectedRefusesSamePerson | src/employee-store.js:164-176 | the corrected rule refuses the same sample |
| Queries.Filter | src/employee-store.js:263-269 | the filtered records are exactly the records that match the term, and no more of them than there were |
| Queries.FilterConcat | src/employee-store.js:263-269 | filtering keeps the store's order |
| Queries.Search | src/employee-store.js:257-270 | a blank query gives every record; any other query gives the records matching the lower-cased, untrimmed query |
| Queries.SearchMembers | src/employee-store.js:257-270 | a record is in the result exactly when it is stored and the query is blank or the record matches |
| Queries.SearchConcat | src/employee-store.js:257-270 | search results keep the store's order |
| Queries.CeilDiv | src/employee-store.js:275 | `Math.ceil(n / size)`: the least page count whose pages hold n items |
| Queries.JsSlice | src/employee-store.js:278 | `slice` with JavaScript's index clamping |
| Queries.Paginate | src/employee-store.js:272-289 | totals, page count, `hasNext`, `hasPrev` and at most `pageSize` items, for the page number exactly as given |
| Queries.PageItemsAreBlock | src/employee-store.js:276-278 | the items of page p (from 1 on) are the p-th block of `pageSize` search results |
| Queries.PageNonEmptyIffInRange | src/employee-store.js:272-289 | a page from 1 on has items exactly when it is not past the page count |
| Queries.PageZeroEmpty | src/employee-store.js:276-278 | page 0 is always empty |
| Queries.BlocksArePrefix | src/employee-store.js:276-278 | the first k pages, read in turn, are the first k·pageSize search results |
| Queries.PagesCoverResult | src/employee-store.js:272-289 | pages 1 to the page count list the whole search result, each record once |
| Queries.KeyTrichotomy | src/employee-store.js:306-308 | of two compared values, exactly one is smaller or they are equal |
| Queries.KeyNotBeforeTransitive | src/employee-store.js:306-308 | the comparator's "not before" is transitive in both directions |
| Queries.Compare | src/employee-store.js:291-309 | the comparator is 0 on equal values and negative exactly when the first value comes first in the chosen direction |
| Queries.SortBy | src/employee-store.js:291-312 | the result is a permutation of the records |
| Queries.SortBySorted | src/employee-store.js:291-312 | the result is sorted by the comparator |
| Queries.SortByStable | src/employee-store.js:291-312 | records with equal keys keep the store's order |
| Queries.SortByUnlistedIsIdentity | src/employee-store.js:291-312 | sorting by a field no record has leaves the order unchanged |
| Store.Load | src/employee-store.js:10-19 | the parsed records, or none when nothing is stored or the text does not parse |
| Store.FindIndex | src/employee-store.js:190-192 | the first index holding the id, or none exactly when no record has it |
| Store.FindIndexAppended | src/employee-store.js:194-215 | a record added under a fresh id is the one found by that id |
| Store.FindIndexUnique | src/employee-store.js:190-192 | with unique ids, the record found by an id is the only one with it |
| Store.EmployeeStore.constructor | src/employee-store.js:4-7 | the store starts with the stored records and no listeners |
| Store.EmployeeStore.SaveToStorage | src/employee-store.js:21-29 | a successful write persists the records and notifies every listener with them; a failed write changes nothing |
| Store.EmployeeStore.Subscribe | src/employee-store.js:31-34 | the listener is added to the set |
| Store.EmployeeStore.Unsubscribe | src/employee-store.js:31-34 | the returned function removes the listener |
| Store.EmployeeStore.ValidateEmployee | src/employee-store.js:45-179 | the result is the validation of the current records under the corrected same-person rule, and `null` exactly when every rule holds; on submitted names without surrounding white space it equals the source's validation |
| Store.EmployeeStore.GetAll | src/employee-store.js:186-188 | a copy of the records |
| Store.EmployeeStore.GetById | src/employee-store.js:190-192 | the first record with the id, or `undefined` exactly when no record has it |
| Store.EmployeeStore.Add | src/employee-store.js:194-215 | rejected data throws the error object and changes nothing; accepted data is appended trimmed under the fresh id and saved. Validation uses the corrected same-person rule, which agrees with the source's on names without surrounding white space; under it uniqueness is kept |
| Store.EmployeeStore.Update | src/employee-store.js:217-243 | an unknown id throws "not found" before validation; rejected data changes nothing; otherwise only that record is replaced, keeping its id, and saved. Validation uses the corrected same-person rule, which agrees with the source's on names without surrounding white space; under it uniqueness is kept |
| Store.EmployeeStore.Delete | src/employee-store.js:245-255 | an unknown id throws; otherwise exactly that record is removed, the others keep their order, and the records are saved |
| Store.EmployeeStore.Clear | src/employee-store.js:314-317 | no records, saved |
| Store.EmployeeStore.Search | src/employee-store.js:257-270 | the search over the current records |
| Store.EmployeeStore.GetPaginated | src/employee-store.js:272-289 | the page of the current records |
| Store.EmployeeStore.Sort | src/employee-store.js:291-312 | a sorted permutation of the records; the records themselves are unchanged |
| PaginationWidget.VisibleWindow | src/components/listElements/pagination.js:106-124 | the listed pages count up by one from the window's start |
| PaginationWidget.WindowInRange | src/components/listElements/pagination.js:106-124 | every listed page exists and the list counts up by one |
| PaginationWidget.WindowHoldsCurrent | src/components/listElements/pagination.js:106-124 | on an existing page the list holds it and has as many pages as fit: the smaller of the slot count and the page count |
| PaginationWidget.Pagination.constructor | src/components/listElements/pagination.js:13-19 | page 1 of 1, enabled, five slots |
| PaginationWidget.Pagination.HandlePageChange | src/components/listElements/pagination.js:87-104 | a `page-change` event is dispatched exactly when enabled, for an existing page other than the current one; nothing else changes |
| PaginationWidget.Pagination.GetVisiblePages | src/components/listElements/pagination.js:106-124 | the loop lists exactly the window |
| PaginationWidget.Drawing | src/components/listElements/pagination.js:126-168 | nothing is drawn below one page; otherwise one button per listed page |
| PaginationWidget.EnabledButtonsChangePage | src/components/listElements/pagination.js:126-168 | on an existing page, every enabled button other than the active one leads to a `page-change` event |
| PaginationWidget.DisabledButtonsDoNothing | src/components/listElements/pagination.js:126-168 | a disabled or active button never leads to one |
| ListControls.ToggleSort | src/components/listElements/employee-list.js:307-318 | the new field is the clicked one; the direction is ascending exactly for a new field or after a descending sort |
| ListControls.ToggleSortTwice | src/components/listElements/employee-list.js:307-318 | two clicks on the same header restore the direction |
| ListControls.Deselect | src/components/listElements/employee-list.js:347-356 | unchecking removes every occurrence of the id and keeps the other ids |
| ListControls.DeselectConcat | src/components/listElements/employee-list.js:347-356 | unchecking keeps the order of the other ids |
| ListControls.SelectThenDeselect | src/components/listElements/employee-list.js:347-356 | checking and then unchecking an id that was not selected restores the selection |
| ListControls.Ids | src/components/listElements/employee-list.js:358-365 | the ids of the records, position by position |
| EmployeeListView.ClampedPage | src/components/listElements/employee-list.js:285-292 | a page past an existing last page becomes the last page; any other page stays |
| EmployeeListView.ClampDecision | src/components/listElements/employee-list.js:285-292 | the test on the fetched page holds exactly when the page is past an existing last page, and that last page has items, so the reload moves at most once |
| EmployeeListView.LoadSettles | src/components/listElements/employee-list.js:278-299 | after a load from page 1 on, the page shown is empty exactly when nothing matches, and with no query exactly when the store is empty |
| EmployeeListView.EmployeeList.constructor | src/components/listElements/employee-list.js:25-37 | page 1 of nothing, ten per page, table view, first name ascending, nothing selected |
| EmployeeListView.EmployeeList.LoadEmployees | src/components/listElements/employee-list.js:278-299 | the current page becomes the clamped page, the shown page is that page of the search, and "No employees yet" shows exactly when there is no query and no record; sort, view and selection are unchanged |
| EmployeeListView.EmployeeList.HandleSearch | src/components/listElements/employee-list.js:301-305 | the new query, page 1, reloaded |
| EmployeeListView.EmployeeList.HandleSort | src/components/listElements/employee-list.js:307-318 | the toggled sort state, and the whole store sorted that way |
| EmployeeListView.EmployeeList.HandlePageChange | src/components/listElements/employee-list.js:320-323 | the asked-for page, clamped, reloaded |
| EmployeeListView.EmployeeList.HandleViewToggle | src/components/listElements/employee-list.js:325-327 | the reported view |
| EmployeeListView.EmployeeList.HandleDelete | src/components/listElements/employee-list.js:335-345 | nothing without confirmation; an unknown id is reported; otherwise exactly that record is removed, and the subscription reloads the page |
| EmployeeListView.EmployeeList.HandleSelectEmployee | src/components/listElements/employee-list.js:347-356 | checking appends the id; unchecking removes it |
| EmployeeListView.EmployeeList.HandleSelectAll | src/components/listElements/employee-list.js:358-365 | all shown ids, or none |
| LegacyEmployeeListView.LegacyWindow | src/components/employee-list.js:674-681 | the pages from max(1, c−2) to min(T, c+2), one by one |
| LegacyEmployeeListView.LegacyWindowInRange | src/components/employee-list.js:674-681 | at most five pages, all existing, counting up by one, none more than two from the current page |
| LegacyEmployeeListView.LegacyWindowHoldsCurrent | src/components/employee-list.js:674-681 | the window holds the current page exactly when it exists (page past the end: missing) |
| LegacyEmployeeListView.LegacyDrawing | src/components/employee-list.js:683-717 | Previous disabled exactly on page 1, Next exactly on the last page, the current page's button active |
| LegacyEmployeeListView.LegacyButtonsTargets | src/components/employee-list.js:683-717 | every numbered button and, on an existing page, every enabled arrow leads to an existing page; past the end Next stays enabled and leads further away |
| LegacyEmployeeListView.LegacyPastLastPageIsEmpty | src/components/employee-list.js:484-495 | a page past the last one is shown empty although the search has records |
| LegacyEmployeeListView.LegacyDeleteStrands | src/components/employee-list.js:530-542 | deleting one of eleven records, as seen from page 2, leaves ten records, one page, and page 2 empty |
| LegacyEmployeeListView.EmployeeList.constructor | src/components/employee-list.js:21-33 | the same defaults as the newer controller |
| LegacyEmployeeListView.EmployeeList.LoadEmployees | src/components/employee-list.js:484-495 | the page shown is the current page of the search, unclamped; it has items on an existing page, and past the last page "No employees yet" shows with no pagination |
| LegacyEmployeeListView.EmployeeList.HandleSearch | src/components/employee-list.js:497-501 | the new query, page 1, reloaded |
| LegacyEmployeeListView.EmployeeList.HandleSort | src/components/employee-list.js:503-513 | the toggled sort state, and the whole store sorted that way |
| LegacyEmployeeListView.EmployeeList.HandlePageChange | src/components/employee-list.js:515-518 | the asked-for page as it is, reloaded |
| LegacyEmployeeListView.EmployeeList.HandleViewToggle | src/components/employee-list.js:520-522 | the clicked mode |
| LegacyEmployeeListView.EmployeeList.HandleDelete | src/components/employee-list.js:530-542 | nothing without confirmation; an unknown id is reported; otherwise exactly that record is removed, and only the subscription reloads, unclamped |
| LegacyEmployeeListView.EmployeeList.HandleSelectEmployee | src/components/employee-list.js:544-552 | checking appends the id; unchecking removes it |
| LegacyEmployeeListView.EmployeeList.HandleSelectAll | src/components/employee-list.js:554-560 | all shown ids, or none |
| LegacyEmployeeListView.EmployeeList.RenderPaginationPages | src/components/employee-list.js:674-681 | the loop lists exactly the window |
| BrowserStorage.LookupIn | src/components/listElements/view-toggle.js:25-31 | `getItem`: the value exactly for a key that was set, otherwise `null` |
| BrowserStorage.SetThenGet | src/localization/locale-utils.js:13-19 | a written value is read back under its key, and no other key changes |
| BrowserStorage.WebStorage.GetItem | src/components/listElements/view-toggle.js:25-31 | the value, or the exception of an unavailable storage |
| BrowserStorage.WebStorage.SetItem | src/components/listElements/view-toggle.js:34-40 | the entry is written, or the call throws and nothing is written |
| ViewToggleComponent.InitialView | src/components/listElements/view-toggle.js:16 | the stored view when there is a non-empty one, otherwise `'table'` |
| ViewToggleComponent.Buttons | src/components/listElements/view-toggle.js:87-106 | one button per view, the current one active, all disabled with the component |
| ViewToggleComponent.ButtonsMatchGuard | src/components/listElements/view-toggle.js:72-106 | a click changes the view exactly on a button that is neither disabled nor active; of the two default buttons exactly one is active |
| ViewToggleComponent.ViewToggle.constructor | src/components/listElements/view-toggle.js:14-22 | the remembered view (or the table view when the storage fails), the two views, enabled, no events |
| ViewToggleComponent.ViewToggle.GetStoredView | src/components/listElements/view-toggle.js:25-31 | the remembered view, or `null` when the storage throws |
| ViewToggleComponent.ViewToggle.SetStoredView | src/components/listElements/view-toggle.js:34-40 | the view is remembered; a failed write changes nothing and throws nothing |
| ViewToggleComponent.ViewToggle.HandleViewChange | src/components/listElements/view-toggle.js:72-85 | while disabled or for the current view nothing changes and no event is sent; otherwise the view changes, is remembered, and one `view-change` event carries it |
| ViewToggleComponent.ChoiceRestored | src/components/listElements/view-toggle.js:14-40 | a view that was chosen and written is the one a later toggle starts in |
| ViewToggleComponent.DefaultIsTable | test/view-toggle.test.js:13-17 | with nothing remembered a toggle starts in the table view |
| LocaleUtils.HtmlLangOr | src/localization/locale-utils.js:5-7 | the page's language, or `'en'` when it is empty |
| LocaleUtils.ResolveLocale | src/localization/locale-utils.js:22-32 | the start-up locale is always `en` or `tr` |
| LocaleUtils.ResolvePriority | src/localization/locale-utils.js:22-32 | a supported remembered locale wins, then a supported page language, then `en` |
| LocaleUtils.ResolveStable | src/localization/locale-utils.js:22-38 | once the resolved locale is remembered, it resolves to itself whatever the page says |
| LocaleUtils.SwitchRemembered | src/localization/locale-utils.js:58-72 | after a remembered switch to a supported locale, the next start-up resolves to it |
| LocaleUtils.LocaleEnvironment.GetHtmlLang | src/localization/locale-utils.js:5-7 | the page's language, or `'en'` |
| LocaleUtils.LocaleEnvironment.SetHtmlLang | src/localization/locale-utils.js:9-11 | the page's language is set |
| LocaleUtils.LocaleEnvironment.GetStoredLocale | src/localization/locale-utils.js:13-15 | the remembered locale, `null`, or the storage's exception |
| LocaleUtils.LocaleEnvironment.SetStoredLocale | src/localization/locale-utils.js:17-19 | the locale is remembered under `'preferred-locale'`, or the call throws and nothing changes |
| LocaleUtils.LocaleEnvironment.InitializeLocale | src/localization/locale-utils.js:21-56 | an unreadable storage rejects before any change. Off target: on success the library and the page are switched, the target is remembered and one event is sent, and a failure stops the later steps. On target: the target is still remembered and the event still sent, and a failed write rejects |
| LocaleUtils.LocaleEnvironment.SwitchLocale | src/localization/locale-utils.js:58-72 | a library failure changes nothing; otherwise the library and the page follow, and on a successful write the locale is remembered and one event is sent |
| LocaleUtils.LocaleEnvironment.GetCurrentLocale | src/localization/locale-utils.js:74-76 | the library's active locale |

## Left out

- Storage and JSON: the store models what is persisted as a value (`Absent`, `Unparsable` or records); its JSON encoding and parsing are not modelled. A failed write is a `writeOk` flag. For the view toggle and the locale helpers, an unavailable storage is an `available` flag and a full quota is a `fits` flag.
- Id generation (`Date.now`, `Math.random`) is an id parameter that the caller guarantees no record has.
- Dates are calendar triples and "today" is a parameter. JavaScript's date-string parsing, invalid dates and time zones are not modelled.
- `toLowerCase` is modelled for ASCII letters only; Unicode case mapping is not modelled.
- Text.StrLess: string `<` is modelled as code-point order, not JavaScript's UTF-16 code-unit order. The two disagree when a character above U+FFFF (such as an emoji) meets one in U+E000..U+FFFF (such as a full-width letter) at the first difference: JavaScript puts the first one lower (its leading surrogate is below U+E000), the model puts it higher. So Queries.SortBy and Store.EmployeeStore.Sort order such names the other way from the source.
- The two regular expressions are written out as character predicates; general regular expressions are not modelled.
- The listeners' own code and exceptions thrown inside them are not modelled: a notification records which listeners were called with which records. A controller's subscription is a handle in the listener set.
- `confirm`, `alert`, `console.error`, `Router.go`, `requestUpdate`, the search box's debounce timer and the lifecycle hooks (`connectedCallback`/`disconnectedCallback`) are not modelled. A confirmation is a `confirmed` flag and an alert a returned `alerted` flag.
- The templates and styles are not modelled, except the enable/disable and active conditions of the buttons and the empty-state and pagination conditions.
- `addSampleDataIfEmpty` of the older controller is not modelled: it only seeds demonstration records through `add`.
- The localization library is not modelled (`src/localization/messages.js` is not part of this model). `setLocale` is an operation that succeeds exactly when its `loaded` flag says so and then makes the locale active; `getLocale` is the active-locale field. A failed `setLocale` is assumed to leave the active locale unchanged.
- `await`: the asynchronous steps of `initializeLocale` and `switchLocale` run to completion with nothing in between.
- Store.EmployeeStore.ValidateEmployee / Add / Update: the class validates with the corrected same-person rule, which compares the trimmed submitted names. The source compares them untrimmed, so it stores a second "John Doe" submitted as " John", which the class refuses. The two rules agree whenever the submitted names have no surrounding white space, and each of these methods says so in its contract. The source's own rule is `Employees.ValidationAsWritten`: `Employees.AsWrittenAdmitsSamePerson` and `Employees.AsWrittenBreaksUniqueness` show that it lets the sample through and breaks uniqueness. The uniqueness these methods keep holds under the corrected rule only.
- Store.EmployeeStore.GetPaginated: `pageSize` must be at least 1 (with 0 the source divides by zero). The fact that the items are a block of the search result lives in the lemma `Queries.PageItemsAreBlock`, not in this method's contract.
- EmployeeListView.EmployeeList and LegacyEmployeeListView.EmployeeList: `pageSize` is a constant 10, since neither controller ever reassigns it.
- Queries.SortBy: the language's stable sort is modelled by insertion sort. It is proved to be a sorted, stable permutation, which determines the result uniquely.
- Queries.KeyLess: values of different kinds (a string and `undefined`) are ordered by a fixed rank. Within one field every record gives the same kind.

## Findings

| source | as written | input that shows it | evidently intended | confidence | as-written member | corrected member |
|---|---|---|---|---|---|---|
| src/employee-store.js:164-176 | the same-person rule compares the submitted first and last names untrimmed with the stored names, which `add` and `update` trim | one record "John" "Doe" born 1990-01-01 is stored; `add` is called with first name " John", last name "Doe", the same birth date, and a new e-mail and phone | the names are compared as they will be stored: trimmed, then lower-cased | not executed | Employees.AsWrittenAdmitsSamePerson | Employees.CorrectedRefusesSamePerson |
| src/components/employee-list.js:484-495 | `loadEmployees` shows the current page as it is, even when it lies past the last page | eleven records, ten per page, on page 2; deleting the eleventh makes the subscription reload page 2, which is empty. "No employees yet" then replaces the table and the pagination while ten records exist | move to the last page, as the list controller in `src/components/listElements/employee-list.js:285-292` does | not executed | LegacyEmployeeListView.LegacyDeleteStrands | EmployeeListView.LoadSettles |
