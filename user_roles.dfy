/** The UserRoles screen controller: its query state (page, rowsPerPage,
    searchName), the rows it shows (roles, totalRoles), and the handlers that
    change them, call the role directory and hand a role to the editor.
    Every handler runs as one atomic step; the reply of each server call it
    makes is a parameter. */
module UserRoleScreen {
  import opened RoleApi
  import opened Collaborators
  import TablePagination

  /** The base name of the export file. */
  const ExportFileName := "userRoles"

  class UserRoles {
    var roles: seq<Role>
    var page: nat
    var rowsPerPage: nat
    var searchName: string
    var totalRoles: nat
    /** The query the fetch effect last ran with; None before the first render. */
    var effectQuery: Option<Query>
    /** Every request this screen has sent, oldest first. */
    var sent: seq<Request>

    const context: RoleContext
    const router: Navigator
    const writer: SheetWriter

    /** The page size is one the table offers. */
    ghost predicate Valid()
      reads this`rowsPerPage
    {
      rowsPerPage in TablePagination.RowsPerPageOptions
    }

    /** The query the fetch effect depends on: [page, rowsPerPage, searchName]. */
    function CurrentQuery(): Query
      reads this`page, this`rowsPerPage, this`searchName
    {
      Query(page, rowsPerPage, searchName)
    }

    /** The initial useState values: no rows, page 0, ten rows per page, no
        search, a total of 0; nothing sent yet. */
    constructor (context: RoleContext, router: Navigator, writer: SheetWriter)
      ensures Valid()
      ensures roles == [] && totalRoles == 0
      ensures CurrentQuery() == Query(0, 10, "")
      ensures effectQuery == None && sent == []
      ensures this.context == context && this.router == router && this.writer == writer
    {
      roles, page, rowsPerPage, searchName, totalRoles := [], 0, 10, "", 0;
      effectQuery, sent := None, [];
      this.context, this.router, this.writer := context, router, writer;
    }

    /** getAllRoles + fetchRoles: sends the current query, 1-based, and on
        success replaces the rows and the total with the reply's; on failure
        nothing but the request log changes. */
    method FetchRoles(reply: Reply<RolePage>)
      modifies this`roles, this`totalRoles, this`sent
      ensures sent == old(sent) + [ListRequest(CurrentQuery())]
      ensures reply.Ok? ==> roles == reply.value.roles && totalRoles == reply.value.totalItems
      ensures reply.Err? ==> roles == old(roles) && totalRoles == old(totalRoles)
    {
      sent := sent + [ListRequest(CurrentQuery())];
      match reply
      case Ok(result) =>
        roles := result.roles;
        totalRoles := result.totalItems;
      case Err =>
    }

    /** The effect bound to [page, rowsPerPage, searchName]: after a render it
        fetches when the query differs from the one it last ran with, which
        is always the case on the first render. */
    method SyncEffect(reply: Reply<RolePage>)
      modifies this`effectQuery, this`roles, this`totalRoles, this`sent
      ensures effectQuery == Some(CurrentQuery())
      ensures old(effectQuery) == Some(CurrentQuery()) ==>
                sent == old(sent) && roles == old(roles) && totalRoles == old(totalRoles)
      ensures old(effectQuery) != Some(CurrentQuery()) ==>
                sent == old(sent) + [ListRequest(CurrentQuery())]
      ensures old(effectQuery) != Some(CurrentQuery()) && reply.Ok? ==>
                roles == reply.value.roles && totalRoles == reply.value.totalItems
      ensures reply.Err? ==> roles == old(roles) && totalRoles == old(totalRoles)
    {
      if effectQuery != Some(CurrentQuery()) {
        effectQuery := Some(CurrentQuery());
        FetchRoles(reply);
      }
    }

    /** handleChangePage: the page becomes exactly the one asked for. */
    method ChangePage(newPage: nat)
      modifies this`page
      ensures page == newPage
    {
      page := newPage;
    }

    /** handleChangeRowsPerPage: the page size becomes the one chosen and the
        page goes back to 0. */
    method ChangeRowsPerPage(value: nat)
      requires value in TablePagination.RowsPerPageOptions
      modifies this`rowsPerPage, this`page
      ensures Valid()
      ensures rowsPerPage == value && page == 0
    {
      rowsPerPage := value;
      page := 0;
    }

    /** The search box's onChange: only the search text changes; the page
        stays where it was. */
    method ChangeSearch(text: string)
      modifies this`searchName
      ensures searchName == text
    {
      searchName := text;
    }

    /** A click on pager button `b` with the table's count, page and page size:
        a disabled button does nothing, an enabled one calls handleChangePage
        with its target, which is never negative, and from a page within
        [0, LastPage] stays within it. */
    method ClickPager(b: TablePagination.Button)
      requires Valid()
      modifies this`page
      ensures TablePagination.Disabled(b, totalRoles, old(page), rowsPerPage) ==> page == old(page)
      ensures !TablePagination.Disabled(b, totalRoles, old(page), rowsPerPage) ==>
                page == TablePagination.Target(b, totalRoles, old(page), rowsPerPage)
      ensures old(page) <= TablePagination.LastPage(totalRoles, rowsPerPage) ==>
                page <= TablePagination.LastPage(totalRoles, rowsPerPage)
    {
      if !TablePagination.Disabled(b, totalRoles, page, rowsPerPage) {
        TablePagination.EnabledTarget(b, totalRoles, page, rowsPerPage);
        ChangePage(TablePagination.Target(b, totalRoles, page, rowsPerPage));
      }
    }

    /** handleEditClick + getRoleById: asks for the role, and only when that
        succeeds puts it in the shared slot and then opens the editor; on
        failure neither the slot nor the route changes. */
    method EditClick(roleId: int, reply: Reply<Role>)
      modifies this`sent, context, router
      ensures sent == old(sent) + [GetRoleById(roleId)]
      ensures reply.Ok? ==> context.roleDetails == Some(reply.value)
                            && router.history == old(router.history) + [EditorRoute]
      ensures reply.Err? ==> context.roleDetails == old(context.roleDetails)
                             && router.history == old(router.history)
    {
      sent := sent + [GetRoleById(roleId)];
      match reply
      case Ok(role) =>
        context.SetRoleDetails(Some(role));
        router.Navigate(EditorRoute);
      case Err =>
    }

    /** handleDeleteClick + deleteRoleById: sends the delete and, only when it
        succeeds, refetches the current query (whose own reply is `refetch`);
        a failed delete sends nothing more and changes no rows. */
    method DeleteClick(roleId: int, reply: Reply<()>, refetch: Reply<RolePage>)
      modifies this`sent, this`roles, this`totalRoles
      ensures reply.Ok? ==> sent == old(sent) + [DeleteRole(roleId), ListRequest(CurrentQuery())]
      ensures reply.Err? ==> sent == old(sent) + [DeleteRole(roleId)]
      ensures reply.Ok? && refetch.Ok? ==>
                roles == refetch.value.roles && totalRoles == refetch.value.totalItems
      ensures reply.Err? || refetch.Err? ==> roles == old(roles) && totalRoles == old(totalRoles)
    {
      sent := sent + [DeleteRole(roleId)];
      if reply.Ok? {
        FetchRoles(refetch);
      }
    }

    /** exportToExcel: writes `data` as one sheet to `fileName`.xlsx. */
    method ExportToExcel(data: seq<Role>, fileName: string)
      modifies writer
      ensures writer.written == old(writer.written) + [Workbook(fileName + ".xlsx", "Sheet1", data)]
    {
      writer.WriteFile(Workbook(fileName + ".xlsx", "Sheet1", data));
    }

    /** handleExportUserRolesData: asks for page 1 with limit totalRoles and the
        default empty search, and only when that succeeds writes the returned
        rows to userRoles.xlsx; the screen's own rows do not change. */
    method ExportClick(reply: Reply<RolePage>)
      modifies this`sent, writer
      ensures sent == old(sent) + [ExportRequest(totalRoles)]
      ensures reply.Ok? ==> writer.written == old(writer.written)
                              + [Workbook("userRoles.xlsx", "Sheet1", reply.value.roles)]
      ensures reply.Err? ==> writer.written == old(writer.written)
    {
      sent := sent + [ExportRequest(totalRoles)];
      if reply.Ok? {
        assert ExportFileName + ".xlsx" == "userRoles.xlsx";
        ExportToExcel(reply.value.roles, ExportFileName);
      }
    }

    /** handleAddUserRoleClick: empties the shared slot, then opens the editor. */
    method AddClick()
      modifies context, router
      ensures context.roleDetails == None
      ensures router.history == old(router.history) + [EditorRoute]
    {
      context.SetRoleDetails(None);
      router.Navigate(EditorRoute);
    }
  }

  /** 25 roles, ten per page; choosing 20 rows per page sends page 1 with
      limit 20 and shows the reply. */
  method ResizeScenario(rows10: seq<Role>, rows20: seq<Role>)
  {
    var context := new RoleContext(None);
    var router := new Navigator();
    var writer := new SheetWriter();
    var screen := new UserRoles(context, router, writer);
    screen.SyncEffect(Ok(RolePage(rows10, 25)));
    assert screen.sent == [GetAllRoles(1, 10, "")];
    screen.ChangeRowsPerPage(20);
    screen.SyncEffect(Ok(RolePage(rows20, 25)));
    assert screen.sent == [GetAllRoles(1, 10, ""), GetAllRoles(1, 20, "")];
    assert screen.page == 0 && screen.roles == rows20;
  }

  /** Eleven roles, ten per page: deleting the only row of page 2 refetches
      page 2, which the server answers with no rows and a total of 10. The
      page is not moved back: it stays past the last page, Next and Last are
      disabled, and Previous leads back to page 1 (index 0). */
  method DeleteLastRowScenario(first10: seq<Role>, last: Role)
  {
    var context := new RoleContext(None);
    var router := new Navigator();
    var writer := new SheetWriter();
    var screen := new UserRoles(context, router, writer);
    screen.SyncEffect(Ok(RolePage(first10, 11)));
    screen.ClickPager(TablePagination.Next);
    assert screen.page == 1;
    screen.SyncEffect(Ok(RolePage([last], 11)));
    screen.DeleteClick(last.roleId, Ok(()), Ok(RolePage([], 10)));
    assert screen.sent[|screen.sent| - 1] == GetAllRoles(2, 10, "");
    assert screen.page == 1 && screen.totalRoles == 10 && screen.roles == [];
    assert screen.page > TablePagination.LastPage(10, 10);
    assert TablePagination.Disabled(TablePagination.Next, 10, 1, 10);
    screen.ClickPager(TablePagination.Previous);
    assert screen.page == 0;
  }
}
