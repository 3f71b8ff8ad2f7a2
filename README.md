# Users and Roles management screens, modelled in Dafny

The admin dashboard has two management screens. The Users screen
(`src/components/Users.jsx`) keeps a list of users, each with an id, a
name, an email, a role name and a status (Active or Inactive). The Roles
screen (`src/components/Roles.jsx`) keeps a list of roles, each with an
id, a name, a description and permissions drawn from read, write and
delete. Each screen:

- shows its list sorted by a clicked field and narrowed by a search term
  and categorical filters;
- lets the user add or edit a record in a modal form with a
  required-field check;
- deletes a record after confirmation.

The project has six modules:

- `Text` (`text.dfy`) models the three string operations the screens use:
  `toLowerCase`, `includes`, and the `<` comparison of strings. It proves
  that `Contains` agrees with the positional definition of a substring,
  and that `LexLess` is a strict total order matching the textbook
  lexicographic order.
- `Seqs` (`seqs.dfy`) models `Array.prototype.filter` (`Filter`) and the
  first-occurrence de-duplication of `[...new Set(xs)]` (`Dedup`). It
  states what each of them keeps.
- `ListView` (`listview.dfy`) models:
  - the sort state `{key, direction}` and the `handleSort` toggle rule;
  - the comparator both screens pass to `sort`;
  - the sort itself. ES2019 requires `Array.prototype.sort` to be stable
    (ECMA-262 10th edition, section 22.1.3.27), so the sort is modelled
    as a stable insertion sort. (That any other stable sort would order
    the rows the same way is a standard fact; it is not proved here.)

  Its proved properties: the sort is a permutation, is ordered, is
  stable, and commutes with filtering. Descending is the reverse of
  ascending when all keys differ. A concrete three-element example shows
  that with a tie it can fail to be.
- `Store` (`store.dfy`) models the operations on the id-keyed record
  list that both screens share: delete by id, replace by id, and the id
  of a new record.
- `Users` (`users.dfy`) and `Roles` (`roles.dfy`) each contain:
  - the screen's records;
  - the view functions (`sortedUsers` / `filteredUsers` / `uniqueRoles`,
    `sortedRoles` / `filteredRoles`), with lemmas;
  - the submit logic as the pure function `Commit`;
  - a class (`UsersScreen`, `RolesScreen`) whose fields are the
    component's state (the list, `showModal`, the record being edited,
    the form draft, `sortConfig`). Its methods are the event handlers,
    each ensuring the new state.

Sorting is modelled through a key function. The comparator compares the
lower-cased value of the selected field. When no field is selected it
answers 0 for every pair, which the model expresses as the constant key
"". The lemmas `ComparatorIsCompare` show that each screen's comparator,
written as in the source, is `ListView.Compare` on that key.

Two facts about the program are worth knowing:

- Clicking a sorted column again reverses the rows when no two records
  share the lower-cased value of that column. A tie between two
  different records can break this, because the stable sort keeps tied
  records in list order in both directions (`SortDescWithTies`).
- The id of a new record is `length + 1`. After a delete from the middle
  of the list it repeats an existing id (`Users.NewIdCanRepeat`).

## Model

| member | source | states |
|---|---|---|
| Text.Lower | src/components/Users.jsx:60-61 | `toLowerCase` keeps the length, turns each of 'A'..'Z' into the matching letter of 'a'..'z' and keeps every other character |
| Text.LowerEqualIffSameUpToCase | src/components/Users.jsx:60-65 | two values lower-case to the same key exactly when they have the same length and agree position by position up to ASCII case, so the comparator ties exactly those |
| Text.ContainsAt | src/components/Users.jsx:70-72 | `includes` holds exactly when the term occurs as a contiguous block at some position |
| Text.LexLessAt | src/components/Users.jsx:63-64 | string `<` is the lexicographic order: a proper prefix comes first, otherwise the first differing position decides |
| Text.LexLessTotal | src/components/Users.jsx:63-65 | of two strings, one is below the other or they are equal, so the comparator's final `return 0` is reached only on equal values |
| Text.LexLessTransitive | src/components/Users.jsx:63-64 | string `<` is transitive, so the comparator is a consistent ordering |
| Seqs.FilterSpec | src/components/Users.jsx:68 | `filter` returns a subsequence holding exactly the elements that pass, each as often as in the input |
| Seqs.FilterFilter | src/components/Users.jsx:68-78 | two filters in a row keep what their conjunction keeps, in either order |
| Seqs.DedupSpec | src/components/Users.jsx:80 | `[...new Set(xs)]` holds every element of `xs` once, nothing else, in first-occurrence order |
| ListView.Toggle | src/components/Users.jsx:49-55 | `handleSort(k)` sets the key to `k`; the direction is desc exactly when `k` was the key and the direction was asc |
| ListView.ToggleAlternates | src/components/Roles.jsx:67-73 | clicking the same key again flips the direction; a different key starts ascending |
| ListView.CompareSpec | src/components/Users.jsx:60-65 | the comparator is 0 exactly on equal values, is antisymmetric, is negative in asc exactly when `a < b`, and desc swaps the arguments |
| ListView.CompareTransitive | src/components/Users.jsx:63-65 | the comparator's "before or tied" relation is transitive |
| ListView.SortSpec | src/components/Users.jsx:57 | the sort returns a permutation of its input, ordered by the comparator |
| ListView.SortEqualKeys | src/components/Users.jsx:58 | when the comparator answers 0 everywhere, the sort leaves the list as it was |
| ListView.FilterSort | src/components/Users.jsx:57-78 | sorting then filtering gives the same sequence as filtering then sorting |
| ListView.SortStable | src/components/Users.jsx:57-66 | records sharing a key come out of the sort in their input order |
| ListView.SortDescIsReversedAsc | src/components/Users.jsx:63-64 | with pairwise distinct keys, descending is exactly the reverse of ascending |
| ListView.SortDescWithTies | src/components/Users.jsx:63-65 | with a tie ("b" and "B"), descending is not the reverse of ascending |
| Store.RemoveByIdSpec | src/components/Users.jsx:26 | delete keeps, in order, exactly the records whose id differs from the deleted one, and changes nothing when no record has that id |
| Store.FilterKeepsDistinctIds | src/components/Roles.jsx:44 | removing records keeps distinct ids distinct |
| Store.ReplaceByIdSpec | src/components/Users.jsx:38-40 | `map` replaces every record with the edited id and leaves the other positions unchanged |
| Store.ReplaceKeepsIds | src/components/Roles.jsx:56-58 | a replacement carrying the replaced id leaves the id column unchanged |
| Store.NextIdFresh | src/components/Users.jsx:42 | `length + 1` is a fresh id whenever every id lies in 1..length |
| Users.ComparatorIsCompare | src/components/Users.jsx:57-66 | the users comparator equals `Compare` on the lower-cased field, and is 0 when no key is set |
| Users.SortedUsersSpec | src/components/Users.jsx:57-66 | `sortedUsers` is a permutation of `users`, ordered by the lower-cased field in the chosen direction, stable on ties, and equal to `users` when no key is set |
| Users.SecondClickReverses | src/components/Users.jsx:49-66 | from any sort state, two clicks on the same column show reversed orders when no two users share the lower-cased value |
| Users.FilteredUsersSpec | src/components/Users.jsx:68-78 | `filteredUsers` is a subsequence of the sorted list with exactly the users whose name, email or role contains the lower-cased term and that pass the status and role filters |
| Users.NoCriteriaShowsAll | src/components/Users.jsx:13-16 | the initial empty search with both filters on "all" shows every user |
| Users.SearchThenCategories | src/components/Users.jsx:68-78 | applying the search and then the status and role filters gives the same rows as applying all three at once |
| Users.SortThenFilterIsFilterThenSort | src/components/Users.jsx:57-78 | filtering the sorted list equals sorting the filtered list |
| Users.UniqueRolesSpec | src/components/Users.jsx:80 | `uniqueRoles` lists every role of some user, once each, in first-occurrence order |
| Users.Commit | src/components/Users.jsx:30-43 | a missing name, email or role is refused. An edit keeps length and ids, puts the draft at the edited id and leaves the other users unchanged. A create appends one user with id length + 1 after the unchanged list |
| Users.CommitKeepsIdsDistinct | src/components/Users.jsx:37-42 | an edit keeps distinct ids distinct, and so does a create while ids lie in 1..length |
| Users.NewIdCanRepeat | src/components/Users.jsx:24-42 | after deleting id 2 from the seed users, a new user receives id 3, which is already taken |
| Users.SortByNameThenFilterStatus | src/components/Users.jsx:57-78 | John and Amy sorted by name give Amy, John; the Active filter then leaves John |
| Users.UsersScreen.constructor | src/components/Users.jsx:4-16 | the screen starts with the three seed users, the modal closed, a blank draft and no sort key |
| Users.UsersScreen.Edit | src/components/Users.jsx:18-22 | opens the form in edit mode on a copy of the user; the list and sort state are unchanged |
| Users.UsersScreen.Add | src/components/Users.jsx:92-96 | opens the form in create mode on a blank draft |
| Users.UsersScreen.Cancel | src/components/Users.jsx:245-249 | closes the form and resets the draft; the list is untouched |
| Users.UsersScreen.Delete | src/components/Users.jsx:24-28 | declined: nothing changes; confirmed: the list loses exactly the users with that id |
| Users.UsersScreen.Submit | src/components/Users.jsx:30-47 | while the form is open, refused drafts change nothing and report `ValidationError`; saved drafts set the list to `Commit(..)`, close the form and reset the draft |
| Users.UsersScreen.SortBy | src/components/Users.jsx:49-55 | the sort key becomes the clicked column; the direction follows the toggle rule; nothing else changes |
| Users.UsersScreen.SetName | src/components/Users.jsx:212 | while the form is open, the name input replaces the draft's name only and keeps the screen invariant |
| Users.UsersScreen.SetEmail | src/components/Users.jsx:220 | while the form is open, the email input replaces the draft's email only and keeps the screen invariant |
| Users.UsersScreen.SetRole | src/components/Users.jsx:226 | while the form is open, the role select replaces the draft's role only and keeps the screen invariant |
| Users.UsersScreen.SetStatus | src/components/Users.jsx:237 | while the form is open, the status select replaces the draft's status only and keeps the screen invariant |
| Roles.ComparatorIsCompare | src/components/Roles.jsx:75-84 | the roles comparator equals `Compare` on the lower-cased name, and is 0 when no key is set |
| Roles.SortedRolesSpec | src/components/Roles.jsx:75-84 | `sortedRoles` is a permutation of `roles`, ordered by lower-cased name in the chosen direction, stable on ties, and equal to `roles` when no key is set |
| Roles.SecondClickReverses | src/components/Roles.jsx:141-146 | from any sort state, two clicks on "Sort by Name" show reversed orders when no two names agree up to case |
| Roles.FilteredRolesSpec | src/components/Roles.jsx:86-98 | `filteredRoles` is a subsequence of the sorted list with exactly the roles that pass the search and permission tests |
| Roles.PermissionNamesSpec | src/components/Roles.jsx:94-95 | `permissions.includes(name)` holds exactly when the role holds that permission |
| Roles.PermissionSearchSpec | src/components/Roles.jsx:90-92 | the search matches a permission exactly when the term occurs in the name of one the role holds |
| Roles.PermissionFilterSpec | src/components/Roles.jsx:86-98 | with the filter on a permission, a role is shown exactly when it holds it and its name, description or a permission contains the term |
| Roles.NoCriteriaShowsAll | src/components/Roles.jsx:32-34 | the initial empty search with the filter on "all" shows every role |
| Roles.SortThenFilterIsFilterThenSort | src/components/Roles.jsx:75-98 | filtering the sorted list equals sorting the filtered list |
| Roles.ToggledSpec | src/components/Roles.jsx:216-228 | a checkbox change flips whether the permission is in the draft, keeps the other permissions in their order, and introduces no duplicate |
| Roles.NoDuplicatesFilter | src/components/Roles.jsx:226 | removing a permission with `filter` keeps a duplicate-free list duplicate-free |
| Roles.TickUntick | src/components/Roles.jsx:218-227 | ticking an unticked box and unticking it again restores the draft's permissions |
| Roles.Commit | src/components/Roles.jsx:48-61 | a missing name or description, or no permission, is refused. An edit keeps length and ids, puts the draft at the edited id and leaves the other roles unchanged. A create appends one role with id length + 1 |
| Roles.CommitKeepsWellFormed | src/components/Roles.jsx:50-61 | saving a duplicate-free draft keeps every stored role with at least one permission and none twice |
| Roles.SeedRolesWellFormed | src/components/Roles.jsx:4-23 | each seed role has at least one permission and none twice |
| Roles.RolesScreen.constructor | src/components/Roles.jsx:4-33 | the screen starts with the three seed roles, the modal closed, a blank draft and no sort key |
| Roles.RolesScreen.Edit | src/components/Roles.jsx:36-40 | opens the form in edit mode on a copy of a listed role |
| Roles.RolesScreen.Add | src/components/Roles.jsx:110-114 | opens the form in create mode on a blank draft |
| Roles.RolesScreen.Cancel | src/components/Roles.jsx:240-244 | closes the form and resets the draft; the list is untouched |
| Roles.RolesScreen.Delete | src/components/Roles.jsx:42-46 | declined: nothing changes; confirmed: the list loses exactly the roles with that id |
| Roles.RolesScreen.Submit | src/components/Roles.jsx:48-65 | while the form is open, refused drafts change nothing and report `ValidationError`; saved drafts set the list to `Commit(..)`, close the form, reset the draft and keep every role well formed |
| Roles.RolesScreen.SortBy | src/components/Roles.jsx:67-73 | the sort key becomes name; the direction follows the toggle rule; nothing else changes |
| Roles.RolesScreen.TogglePermission | src/components/Roles.jsx:212-228 | while the form is open, the draft's permissions become `Toggled(..)`; name and description are unchanged |
| Roles.RolesScreen.SetName | src/components/Roles.jsx:199 | while the form is open, the name input replaces the draft's name only and keeps the screen invariant |
| Roles.RolesScreen.SetDescription | src/components/Roles.jsx:206 | while the form is open, the description input replaces the draft's description only and keeps the screen invariant |

## Left out

- `src/components/Dashboard.jsx`, `src/components/Sidebar.jsx` and `src/App.jsx` are not part of this model. They hold static display data, router links and window-resize handling, with no list logic.
- Rendering, styling and `getSortIcon` (src/components/Users.jsx:82-85, src/components/Roles.jsx:100-103) are presentation only.
- Strings are sequences of characters, while JavaScript compares UTF-16 code units. The two orders agree on the Basic Multilingual Plane.
- `Text.Lower`: lower-cases ASCII letters only, not the full Unicode case mapping of `toLowerCase`.
- The browser's own form validation is not modelled. It covers the `required` inputs (src/components/Users.jsx:213, 221, 227; src/components/Roles.jsx:200, 207) and the `type="email"` format check (src/components/Users.jsx:216), and it refuses a submit before `handleSubmit` runs. The model keeps only the handler's own check. So `Submit` accepts drafts the browser would stop, such as an email without `@`, and reaches the `ValidationError` branch, which the browser's checks shield on the Users screen.
- `window.confirm` is the `confirmed` input of `Delete`. `alert` is the `ValidationError` result of `Submit`.
- React's batching of state updates is not modelled. Each handler is one atomic method.
- The search term and the filter selections are inputs of the view functions rather than fields of the screen classes. Their setters only store the typed value.
- The draft does not carry an id. After an edit the source's draft holds the user's id, but submit always overwrites it.
- Statuses and permissions are enumerations. The source stores them as strings, but only the values offered by the selects and checkboxes can reach the draft. The filters stay strings with the "all" sentinel.
- Users.UsersScreen.Edit: accepts any user. The button passes a listed one, and nothing the model proves depends on that.
- Roles.RolesScreen.Edit: requires a listed role, as only the cards of the list carry an Edit button (src/components/Roles.jsx:150-156). This lets the screen's invariant carry over to the draft.
