/**
 * The create-time validation of LinkedProject: a link from one project
 * (`db_project`) to another (`linked_db_project`) is refused when its own
 * project does not exist or when the same link is already stored.
 */
module LinkedProjects {
  import opened Wrappers

  const MissingProjectError: string := "Can not link project to not existing project"
  const AlreadyLinkedError: string := "Already linked with that project"

  /**
   * A stored row of the linked-projects table; a NULL foreign key is None.
   * The associations of the link being created are given the same way: the id
   * of the project the association loads, or None when it loads nothing.
   */
  datatype LinkRow = LinkRow(dbProjectId: Option<nat>, linkedDbProjectId: Option<nat>)

  /** SQL `column = ?` with the bound value: NULL on either side never matches. */
  predicate SqlEquals(column: Option<nat>, bound: Option<nat>) {
    column.Some? && bound.Some? && column.value == bound.value
  }

  /** `find(:first)` with both conditions finds a row. */
  predicate AlreadyLinked(existing: seq<LinkRow>, dbProject: Option<nat>, linkedDbProject: Option<nat>)
    ensures AlreadyLinked(existing, dbProject, linkedDbProject) <==>
      dbProject.Some? && linkedDbProject.Some? && LinkRow(dbProject, linkedDbProject) in existing
  {
    exists i :: 0 <= i < |existing| &&
      SqlEquals(existing[i].dbProjectId, dbProject) && SqlEquals(existing[i].linkedDbProjectId, linkedDbProject)
  }

  /** The messages the two independent checks add, in the order they are made. */
  function AppendedErrors(projectMissing: bool, alreadyLinked: bool): (errs: seq<string>)
    ensures MissingProjectError in errs <==> projectMissing
    ensures AlreadyLinkedError in errs <==> alreadyLinked
    ensures |errs| == (if projectMissing then 1 else 0) + (if alreadyLinked then 1 else 0)
    ensures projectMissing ==> errs[0] == MissingProjectError
    ensures alreadyLinked ==> errs[|errs| - 1] == AlreadyLinkedError
  {
    assert MissingProjectError[0] != AlreadyLinkedError[0];
    (if projectMissing then [MissingProjectError] else []) + (if alreadyLinked then [AlreadyLinkedError] else [])
  }

  /** The messages `validate_on_create` adds for a link with these associations. */
  function CreateErrors(dbProject: Option<nat>, linkedDbProject: Option<nat>, existing: seq<LinkRow>): (errs: seq<string>)
    ensures MissingProjectError in errs <==> dbProject.None?
    ensures AlreadyLinkedError in errs <==> AlreadyLinked(existing, dbProject, linkedDbProject)
  {
    AppendedErrors(dbProject.None?, AlreadyLinked(existing, dbProject, linkedDbProject))
  }

  /** A link passes exactly when its project exists and the pair is new. */
  lemma NoErrorsIff(dbProject: Option<nat>, linkedDbProject: Option<nat>, existing: seq<LinkRow>)
    ensures CreateErrors(dbProject, linkedDbProject, existing) == [] <==>
      dbProject.Some? && !AlreadyLinked(existing, dbProject, linkedDbProject)
  {
  }

  /** A stored link (a, b) rejects (a, b) only: neither its reverse nor (a, c). */
  lemma DuplicateCheckIsDirectional(a: nat, b: nat, c: nat)
    ensures AlreadyLinked([LinkRow(Some(a), Some(b))], Some(a), Some(b))
    ensures AlreadyLinked([LinkRow(Some(a), Some(b))], Some(b), Some(a)) <==> a == b
    ensures AlreadyLinked([LinkRow(Some(a), Some(b))], Some(a), Some(c)) <==> b == c
  {
  }

  /**
   * A missing project is bound as NULL, so the duplicate query finds nothing
   * and the missing-project message is the only one.
   */
  lemma MissingProjectIsOnlyError(linkedDbProject: Option<nat>, existing: seq<LinkRow>)
    ensures CreateErrors(None, linkedDbProject, existing) == [MissingProjectError]
  {
  }

  /** An existing project with a stored pair gets exactly the duplicate message. */
  lemma DuplicateIsOnlyError(p: nat, linkedDbProject: Option<nat>, existing: seq<LinkRow>)
    requires AlreadyLinked(existing, Some(p), linkedDbProject)
    ensures CreateErrors(Some(p), linkedDbProject, existing) == [AlreadyLinkedError]
  {
  }

  /** A link record and the error list of its validation. */
  class LinkedProject {
    var dbProject: Option<nat>
    var linkedDbProject: Option<nat>
    var errors: seq<string>

    constructor (dbProject: Option<nat>, linkedDbProject: Option<nat>)
      ensures this.dbProject == dbProject && this.linkedDbProject == linkedDbProject && errors == []
    {
      this.dbProject := dbProject;
      this.linkedDbProject := linkedDbProject;
      errors := [];
    }

    /** `validate_on_create`: append the messages of the two checks to the error list. */
    method ValidateOnCreate(existing: seq<LinkRow>)
      modifies this`errors
      ensures errors == old(errors) + CreateErrors(dbProject, linkedDbProject, existing)
    {
      if dbProject.None? {
        errors := errors + [MissingProjectError];
      }
      if AlreadyLinked(existing, dbProject, linkedDbProject) {
        errors := errors + [AlreadyLinkedError];
      }
    }
  }
}
