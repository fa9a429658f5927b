# Role list screen: pager arithmetic and controller

This project models the role-list screen of the Imly Studios admin front end
(`src/components/UserRoles/UserRole.js`). The screen shows a paginated,
searchable table of user roles from a remote role directory. The model
has four modules:

- `pagination.dfy`, module `TablePagination`: the pager buttons of
  `TablePaginationActions`. These are pure functions of `count`, `page` and
  `rowsPerPage`: the page each button asks for, when each button is
  disabled, and the page count and last page they are built on. Lemmas
  relate them to two reference definitions. `HasRows` says that page `p`
  has rows when `p * rowsPerPage < count`. `Pages` cuts a row list into
  pages.
- `user_roles.dfy`, module `UserRoleScreen`: the `UserRoles` component as a
  class. Its fields are the component's state (`roles`, `page`,
  `rowsPerPage`, `searchName`, `totalRoles`). Its methods are the handlers.
  Each method states the whole new state, the requests it sent, and what it
  wrote to the collaborators.
- `role_api.dfy`, module `RoleApi`: role records, queries, and the three
  endpoints the screen calls (`getAllRoles`, `getRoleById`, `deleteRole`)
  as request values. It also defines the reply type `Reply<T>`
  (`Ok(value)` or `Err`).
- `collaborators.dfy`, module `Collaborators`: the objects the screen
  writes to. These are the shared role-context slot read by the editor
  screen, the router, and the spreadsheet file writer.

The network is not modelled. Each handler receives the server's reply as a
parameter and appends the request it sent to the field `sent`. The rules
below can therefore be checked:

- which parameters go out (the page is sent 1-based, with `limit` and
  `search`);
- when rows are replaced (wholesale, only on success);
- that a failure changes nothing;
- that a refetch after delete, and the navigation after edit, happen only
  on success.

The effect that refetches when `[page, rowsPerPage, searchName]` changes is
the method `SyncEffect`. It runs after a render and compares the current
query with the one it last ran with. On the first render it always fetches.

In several places the code does not do what a reader might expect of such
a screen. The model follows the code:

- Changing the search text does not reset the page. Only changing the page
  size does (lines 173-176 and 310).
- The export calls `getAllRoles(0, totalRoles)`. Its `search` parameter
  takes the default `""`. So the export asks for the first `totalRoles`
  rows of the unfiltered list, even when `totalRoles` was counted under a
  non-empty search (`RoleApi.ExportRequest`).
- The page is never clamped after a delete. When the last row of the last
  page is deleted, the screen stays on a page past the new last page. The
  method `DeleteLastRowScenario` walks through this case.
- Nothing protects against stale replies. A reply is applied whenever it
  arrives (see Left out).

## Model

| member | source | states |
|---|---|---|
| `TablePagination.PageCount` | src/components/UserRoles/UserRole.js:92 | `Math.ceil(count / rowsPerPage)` is the least page count that covers all rows: `n * rowsPerPage >= count`, and one page fewer does not cover them |
| `TablePagination.PageCountIsCeiling` | src/components/UserRoles/UserRole.js:67 | any count satisfying both ceiling bounds equals `PageCount`, so the integer formula is exactly the ceiling |
| `TablePagination.BelowPageCountIffHasRows` | src/components/UserRoles/UserRole.js:92 | a page index is below the page count exactly when that page holds at least one row |
| `TablePagination.LastPage` | src/components/UserRoles/UserRole.js:66-68 | `Math.max(0, ceil - 1)` is never negative; it is 0 when `count = 0` and otherwise the page holding the last row |
| `TablePagination.LastPageIsLastWithRows` | src/components/UserRoles/UserRole.js:66-68 | every page with rows is at or before the last page, and the last page has rows when `count > 0` |
| `TablePagination.PageCountStep` | src/components/UserRoles/UserRole.js:92 | with more rows than one page holds, the page count is one more than the page count of the rows after the first page |
| `TablePagination.Pages` | src/components/UserRoles/UserRole.js:92 | reference paging of a row list: exactly `Math.ceil(count / rowsPerPage)` pages, each holding between 1 and `rowsPerPage` rows |
| `TablePagination.PagesCoverAll` | src/components/UserRoles/UserRole.js:54-68 | paging from the first page to the last shows every row exactly once, in order |
| `TablePagination.PageIsSlice` | src/components/UserRoles/UserRole.js:134-137 | page `p` is the slice of rows `p * rowsPerPage` up to `(p + 1) * rowsPerPage`, cut at the end of the list; `RoleApi.ListRequestNamesPage` ties this slice to the list request |
| `TablePagination.LastPageIsFinalPage` | src/components/UserRoles/UserRole.js:66-68 | for a non-empty list, the Last button's target is the index of the final page, and that page runs to the end of the list |
| `TablePagination.Target` | src/components/UserRoles/UserRole.js:54-68 | the page each click handler passes to `onPageChange`: Previous goes below and Next above the current page, First and Last are never negative, and Last lands on the page holding the last row (page 0 for an empty table) |
| `TablePagination.Disabled` | src/components/UserRoles/UserRole.js:72-104 | the four `disabled` props: First is disabled exactly when the page already is its target, Previous exactly when its target would be negative, and Next and Last exactly when no page after the current one holds rows |
| `TablePagination.ForwardDisabledIff` | src/components/UserRoles/UserRole.js:90-104 | Next and Last are disabled exactly when `page >= LastPage`, and Next is enabled exactly when page `page + 1` holds rows |
| `TablePagination.EnabledTarget` | src/components/UserRoles/UserRole.js:54-104 | an enabled button never asks for a negative page: First gives 0, Previous gives `page - 1 >= 0`, and Next and Last move forward without passing the last page |
| `TablePagination.EnabledTargetStaysInRange` | src/components/UserRoles/UserRole.js:54-104 | from a page in `[0, LastPage]`, every enabled button leads to a page in `[0, LastPage]` |
| `RoleApi.ListRequest` | src/components/UserRoles/UserRole.js:129-141 | the list request sends the page 1-based, so never as 0 |
| `RoleApi.QueryOfListRequest` | src/components/UserRoles/UserRole.js:134-139 | the query (page index, `limit`, `search`) can be read back from its request, so nothing is lost on the wire |
| `RoleApi.ListRequestOfQueryOf` | src/components/UserRoles/UserRole.js:134-139 | every list request with a 1-based page is the request of exactly the query read back from it |
| `RoleApi.ListRequestNamesPage` | src/components/UserRoles/UserRole.js:129-141 | a list request with wire page `page` and that `limit` names reference page `page - 1`: rows `(page - 1) * limit` up to `page * limit`, cut at the end of the list |
| `RoleApi.ExportRequest` | src/components/UserRoles/UserRole.js:236 | the export request is the pageIndex-0 query with `limit = totalRoles` and the default empty search, so wire page 1 |
| `Collaborators.RoleContext.SetRoleDetails` | src/components/UserRoles/UserRole.js:126 | the shared slot holds exactly the value written |
| `Collaborators.Navigator.Navigate` | src/components/UserRoles/UserRole.js:125 | `navigate` appends the route to the router's history |
| `Collaborators.SheetWriter.WriteFile` | src/components/UserRoles/UserRole.js:231 | `XLSX.writeFile` appends the workbook to the files written |
| `UserRoleScreen.UserRoles.constructor` | src/components/UserRoles/UserRole.js:120-124 | initial state: no rows, total 0, page 0, 10 rows per page, empty search, nothing sent |
| `UserRoleScreen.UserRoles.FetchRoles` | src/components/UserRoles/UserRole.js:155-167 | sends a list request with wire page `page + 1`, `limit = rowsPerPage` and `search = searchName`; on success replaces `roles` and `totalRoles` with the reply's `roles` and `totalItems`; on failure leaves both unchanged |
| `UserRoleScreen.UserRoles.SyncEffect` | src/components/UserRoles/UserRole.js:151-153 | fetches exactly when the query differs from the one the effect last ran with (always on first render); otherwise sends nothing and changes nothing |
| `UserRoleScreen.UserRoles.ChangePage` | src/components/UserRoles/UserRole.js:169-171 | the page becomes exactly the value given; nothing else changes |
| `UserRoleScreen.UserRoles.ChangeRowsPerPage` | src/components/UserRoles/UserRole.js:173-176 | the page size becomes the chosen option and the page resets to 0; the page size stays one of 10, 20, 25 |
| `UserRoleScreen.UserRoles.ChangeSearch` | src/components/UserRoles/UserRole.js:310 | only the search text changes; page and page size are untouched |
| `UserRoleScreen.UserRoles.ClickPager` | src/components/UserRoles/UserRole.js:54-104 | a disabled button leaves the page alone; an enabled one sets it to the button's target; a page within `[0, LastPage]` stays within it |
| `UserRoleScreen.UserRoles.EditClick` | src/components/UserRoles/UserRole.js:206-214 | sends `getRoleById(roleId)` (lines 179-190); only on success is the slot set to the fetched role and the editor route opened; on failure neither the slot nor the route changes |
| `UserRoleScreen.UserRoles.DeleteClick` | src/components/UserRoles/UserRole.js:217-224 | sends `deleteRole(roleId)` (lines 193-203); only on success does it refetch with the query in effect at delete time; on failure nothing more is sent and no rows change |
| `UserRoleScreen.UserRoles.ExportToExcel` | src/components/UserRoles/UserRole.js:227-232 | writes one workbook named `fileName.xlsx` with one sheet `Sheet1` holding the given rows |
| `UserRoleScreen.UserRoles.ExportClick` | src/components/UserRoles/UserRole.js:234-241 | sends the export request; only on success writes the returned rows to `userRoles.xlsx`; the screen's rows never change |
| `UserRoleScreen.UserRoles.AddClick` | src/components/UserRoles/UserRole.js:243-246 | sets the shared slot to null (`None`) and opens the editor route |

The client methods `UserRoleScreen.ResizeScenario` and
`UserRoleScreen.DeleteLastRowScenario` drive the class through two
sequences of steps and assert the outcome:

- `ResizeScenario`: 25 roles are shown ten per page. Choosing 20 rows per
  page sends page 1 with limit 20.
- `DeleteLastRowScenario`: 11 roles are shown ten per page. Deleting the
  only row of page 2 leaves the screen on page 2 of a one-page table.
  There, Next is disabled and Previous leads back.

## Left out

- HTTP through axios (the URLs, the transport, `response.data` parsing):
  each endpoint is a request value plus a reply parameter. Malformed
  payloads are not modelled: a reply whose `roles` is missing would crash
  the render, not the handler.
- Asynchrony and `useEffect` scheduling: every handler is one atomic step.
  In the source, a reply that arrives late can overwrite the result of a
  later query. Updates after unmount are not modelled either.
- `handleDeleteClick` does not await its `fetchRoles()` call. The model
  runs that refetch inside the same step.
- Rendering, styling, PropTypes, and the right-to-left icon swap, which
  changes icons, not behaviour. MUI's `TablePagination` is modelled only as
  the caller of the pager buttons and of the two change handlers.
- `console.log` and `console.error` output.
- The spreadsheet encoding done by `XLSX.utils.json_to_sheet` and
  `book_new`: a workbook is modelled as its file name, sheet name and rows.
- UserRoleScreen.UserRoles.ChangeRowsPerPage: takes the value after
  `parseInt(event.target.value, 10)` and requires it to be one of the
  offered sizes 10, 20, 25. Those are the only values the page-size
  selector can send. A non-numeric value (`NaN`) is not modelled.
- TablePagination.PageCount: models `Math.ceil(count / rowsPerPage)` as
  exact integer ceiling division on naturals with `rowsPerPage > 0`.
  Floating-point rounding for huge counts is not modelled.
- The editor screen that reads the shared slot, and the context provider
  that creates it: `src/Context/roleContext.js` is not part of this model.
  Its initial slot value is a constructor parameter of `RoleContext`.
- The server's behaviour, for example whether it clamps an out-of-range
  page, is not modelled: replies are arbitrary.
