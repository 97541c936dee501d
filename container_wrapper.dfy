/**
 * ContainerWrapper: an immutable (title, id, parent id) triple for a node of a
 * server's content tree, with one distinguished root sentinel that has no title.
 */
module ContainerWrappers {
  import opened Wrappers
  import opened Upnp

  /** The id of the root of every content directory. */
  const ROOT_CONTAINER_ID: string := "0"

  /**
   * All fields are fixed at construction.  The Java root sentinel has a null
   * title; here its `title` is "" and is never returned, because `GetTitle`
   * refuses the root.
   */
  datatype ContainerWrapper = ContainerWrapper(
    title: string,
    id: string,
    parentId: string,
    isRootContainer: bool)

  /** The root sentinel: id "0", parent id "" (no parent), no title. */
  const ROOT_CONTAINER: ContainerWrapper := ContainerWrapper("", ROOT_CONTAINER_ID, "", true)

  /** `getId`. */
  function GetId(w: ContainerWrapper): string { w.id }

  /** `getParentID`. */
  function GetParentId(w: ContainerWrapper): string { w.parentId }

  /** `getTitle`: throws on the root sentinel, otherwise the title given at construction. */
  function GetTitle(w: ContainerWrapper): (r: Result<string>)
    ensures r == Err(UnsupportedOperation) <==> w.isRootContainer
    ensures r.Ok? <==> !w.isRootContainer
    ensures r.Ok? ==> r.value == w.title
  {
    if w.isRootContainer then Err(UnsupportedOperation) else Ok(w.title)
  }

  /** The public constructor taking a browse `Container`: copies its title, id and parent id. */
  function FromContainer(c: DidlContainer): (w: ContainerWrapper)
    ensures GetTitle(w) == Ok(c.title)
    ensures GetId(w) == c.id && GetParentId(w) == c.parentId
  {
    ContainerWrapper(c.title, c.id, c.parentId, false)
  }

  /** The public constructor taking the three strings. */
  function Create(title: string, id: string, parentId: string): (w: ContainerWrapper)
    ensures GetTitle(w) == Ok(title)
    ensures GetId(w) == id && GetParentId(w) == parentId
  {
    ContainerWrapper(title, id, parentId, false)
  }

  /** The root sentinel has id "0", parent id "" and answers `getTitle` by throwing. */
  lemma RootSentinel()
    ensures GetId(ROOT_CONTAINER) == "0" && GetParentId(ROOT_CONTAINER) == ""
    ensures GetTitle(ROOT_CONTAINER) == Err(UnsupportedOperation)
  {
  }

  /**
   * The root is the only wrapper without a title: whatever the public
   * constructors build has one, and differs from the root.
   */
  lemma OnlyRootHasNoTitle(c: DidlContainer, title: string, id: string, parentId: string)
    ensures FromContainer(c) != ROOT_CONTAINER && Create(title, id, parentId) != ROOT_CONTAINER
    ensures GetTitle(FromContainer(c)).Ok? && GetTitle(Create(title, id, parentId)).Ok?
  {
  }
}
