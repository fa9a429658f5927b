/** The role directory as the role-list screen sees it: the role records, the
    three endpoints it calls (getAllRoles, getRoleById, deleteRole) as request
    values, and the reply each one can come back with. The transport itself
    is not modelled: each handler is given the reply as a parameter. */
module RoleApi {
  import opened TablePagination

  /** A role row as the server sends it (RoleID, RoleName, Status). */
  datatype Role = Role(roleId: int, roleName: string, status: string)

  /** The body of a successful getAllRoles reply. */
  datatype RolePage = RolePage(roles: seq<Role>, totalItems: nat)

  /** A value or JavaScript's null. */
  datatype Option<+T> = None | Some(value: T)

  /** A reply from the server: the payload, or a failed request. */
  datatype Reply<+T> = Ok(value: T) | Err

  /** The client-side query: 0-based page index, page size and search text. */
  datatype Query = Query(pageIndex: nat, pageSize: nat, search: string)

  /** A request as it goes out on the wire. */
  datatype Request =
    | GetAllRoles(page: nat, limit: nat, search: string)
    | GetRoleById(roleId: int)
    | DeleteRole(roleId: int)

  /** Reads the client query back from a getAllRoles request. */
  function QueryOf(r: Request): Query
    requires r.GetAllRoles? && r.page >= 1
  {
    Query(r.page - 1, r.limit, r.search)
  }

  /** The getAllRoles request for a query: the page goes out 1-based, so
      never as 0. */
  function ListRequest(q: Query): (r: Request)
    ensures r.GetAllRoles? && r.page >= 1
  {
    GetAllRoles(q.pageIndex + 1, q.pageSize, q.search)
  }

  /** Nothing of the query is lost on the wire: it reads back from its request. */
  lemma QueryOfListRequest(q: Query)
    ensures QueryOf(ListRequest(q)) == q
  {
  }

  /** Every getAllRoles request with a 1-based page is the request of exactly
      one query: the one QueryOf reads back. */
  lemma ListRequestOfQueryOf(r: Request)
    requires r.GetAllRoles? && r.page >= 1
    ensures ListRequest(QueryOf(r)) == r
  {
  }

  /** The export request: getAllRoles(0, totalRoles) with the default empty
      search, that is the first page of the unfiltered list, sized to hold
      `totalRoles` rows. */
  function ExportRequest(totalRoles: nat): (r: Request)
    ensures r == ListRequest(Query(0, totalRoles, ""))
    ensures r.page == 1 && r.limit == totalRoles && r.search == ""
  {
    GetAllRoles(1, totalRoles, "")
  }

  /** The rows a list request names: wire page `page` with `limit` rows per
      page is reference page `page - 1` of the full list, that is rows
      (page - 1) * limit up to page * limit, cut at the end of the list. */
  lemma ListRequestNamesPage<T>(all: seq<T>, q: Query)
    requires q.pageSize > 0 && HasRows(|all|, q.pageSize, q.pageIndex)
    ensures var r := ListRequest(q);
              r.page - 1 < |Pages(all, r.limit)| &&
              Pages(all, r.limit)[r.page - 1] == all[(r.page - 1) * r.limit .. Min(r.page * r.limit, |all|)]
  {
    PageIsSlice(all, q.pageSize, q.pageIndex);
  }
}
