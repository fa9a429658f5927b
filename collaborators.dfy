/** The three collaborators the role-list screen writes to: the shared role
    context that hands a role to the editor screen, the router, and the
    spreadsheet writer the export goes to. */
module Collaborators {
  import opened RoleApi

  /** The route of the role editor screen. */
  const EditorRoute := "/UserRoleform"

  /** The shared UserRoleContext slot: the role the editor should open, or
      None (null) for a new role. */
  class RoleContext {
    var roleDetails: Option<Role>

    constructor (initial: Option<Role>)
      ensures roleDetails == initial
    {
      roleDetails := initial;
    }

    /** setRoleDetails */
    method SetRoleDetails(v: Option<Role>)
      modifies this
      ensures roleDetails == v
    {
      roleDetails := v;
    }
  }

  /** The router: the routes navigated to, oldest first. */
  class Navigator {
    var history: seq<string>

    constructor ()
      ensures history == []
    {
      history := [];
    }

    /** navigate(route) */
    method Navigate(route: string)
      modifies this
      ensures history == old(history) + [route]
    {
      history := history + [route];
    }
  }

  /** A spreadsheet file: its name, its one sheet's name and the rows on it. */
  datatype Workbook = Workbook(fileName: string, sheetName: string, rows: seq<Role>)

  /** The spreadsheet library's file writer: the files written, oldest first. */
  class SheetWriter {
    var written: seq<Workbook>

    constructor ()
      ensures written == []
    {
      written := [];
    }

    /** XLSX.writeFile */
    method WriteFile(w: Workbook)
      modifies this
      ensures written == old(written) + [w]
    {
      written := written + [w];
    }
  }
}
