/**
 * FileBrowserAdapter: the row list shown by the file browser, and the
 * decisions its checkbox and Play button make.
 *
 * A row (`ListItem`) is the "up" row (neither container nor item), a container
 * row or an item row; container rows carry two flags filled in later: the
 * media found beneath the container and whether it is bookmarked.
 */
module FileBrowserAdapters {
  import opened Wrappers
  import opened Upnp
  import opened ContainerWrappers

  datatype ListItem = ListItem(
    container: Option<ContainerWrapper>,
    item: Option<DidlItem>,
    mediaItems: seq<DidlItem>,
    isBookmarked: bool)

  /** The shared "go up" row. */
  const PREVIOUS_CONTAINER_LIST_ITEM: ListItem := ListItem(None, None, [], false)

  predicate HoldsContainer(r: ListItem) { r.container.Some? }

  predicate IsPreviousContainerListItem(r: ListItem) { r.container.None? && r.item.None? }

  predicate HasMediaItems(r: ListItem) { |r.mediaItems| > 0 }

  /** The public constructor taking a container: a container row with no media, not bookmarked. */
  function ContainerRow(c: ContainerWrapper): (r: ListItem)
    ensures HoldsContainer(r) && !IsPreviousContainerListItem(r) && r.container.value == c
    ensures !HasMediaItems(r) && !r.isBookmarked
  {
    ListItem(Some(c), None, [], false)
  }

  /** The public constructor taking an item: an item row with no media, not bookmarked. */
  function ItemRow(i: DidlItem): (r: ListItem)
    ensures !HoldsContainer(r) && !IsPreviousContainerListItem(r) && r.item == Some(i)
    ensures !HasMediaItems(r) && !r.isBookmarked
  {
    ListItem(None, Some(i), [], false)
  }

  /**
   * `toString`, the row's label: "..." for the up row, otherwise the container's
   * title (which throws for the root sentinel) or the item's title.
   */
  function Label(r: ListItem): (s: Result<string>)
    ensures IsPreviousContainerListItem(r) ==> s == Ok("...")
    ensures HoldsContainer(r) ==> s == GetTitle(r.container.value)
    ensures !HoldsContainer(r) && r.item.Some? ==> s == Ok(r.item.value.title)
  {
    if IsPreviousContainerListItem(r) then Ok("...")
    else if HoldsContainer(r) then GetTitle(r.container.value)
    else Ok(r.item.value.title)
  }

  /** `equals`: container, item and media list; the bookmarked flag plays no part. */
  predicate RowEquals(a: ListItem, b: ListItem)
  {
    a.container == b.container && a.item == b.item && a.mediaItems == b.mediaItems
  }

  /** Two rows are equal exactly when they agree once their bookmark flags are made the same. */
  lemma RowEqualsIgnoresBookmark(a: ListItem, b: ListItem)
    ensures RowEquals(a, b) <==> a.(isBookmarked := b.isBookmarked) == b
    ensures RowEquals(a, a.(isBookmarked := !a.isBookmarked))
  {
  }

  /** Every row the constructors build is exactly one of: the up row, a container row, an item row. */
  lemma RowKinds(c: ContainerWrapper, i: DidlItem)
    ensures IsPreviousContainerListItem(PREVIOUS_CONTAINER_LIST_ITEM) && !HoldsContainer(PREVIOUS_CONTAINER_LIST_ITEM)
    ensures HoldsContainer(ContainerRow(c)) && !IsPreviousContainerListItem(ContainerRow(c))
    ensures !HoldsContainer(ItemRow(i)) && !IsPreviousContainerListItem(ItemRow(i))
    ensures Label(PREVIOUS_CONTAINER_LIST_ITEM) == Ok("...")
    ensures !c.isRootContainer ==> Label(ContainerRow(c)) == Ok(c.title)
    ensures Label(ItemRow(i)) == Ok(i.title)
  {
  }

  /**
   * What a checkbox change asks for: nothing, the bookmark-name dialog (with
   * the container title as hint, holding the container of the row as it was
   * when the box was checked), a bookmark removal, or an exception.
   */
  datatype CheckDecision =
    | Ignored
    | PromptForName(hint: string, container: ContainerWrapper)
    | RequestRemove(containerId: string)
    | Failed(error: Error)

  /**
   * The name a confirmed bookmark dialog passes on: the text typed, or the
   * container title when nothing was typed.  The title is only asked for when
   * nothing was typed, so only that case fails for the root container.
   */
  function BookmarkName(entered: string, c: ContainerWrapper): (r: Result<string>)
    ensures r.Err? <==> entered == "" && c.isRootContainer
    ensures r.Err? ==> r.error == UnsupportedOperation
    ensures r.Ok? && entered != "" ==> r.value == entered
    ensures r.Ok? && entered == "" ==> r.value == c.title
    ensures r.Ok? && c.title != "" ==> r.value != ""
  {
    if entered != "" then Ok(entered) else GetTitle(c)
  }

  class FileBrowserAdapter {
    /** The rows, in display order. */
    var items: seq<ListItem>
    /** Set while the code itself changes checkboxes, so that the change is not taken for a user's. */
    var modifyingCheckboxes: bool

    constructor ()
      ensures items == [] && !modifyingCheckboxes
    {
      items := [];
      modifyingCheckboxes := false;
    }

    method SetModifyingCheckboxes(b: bool)
      modifies this
      ensures modifyingCheckboxes == b && items == old(items)
    {
      modifyingCheckboxes := b;
    }

    /**
     * `onCheckedChanged` for the row at `position`: ignored while the flag is
     * set or for a row without a container; checking asks for a name (hint:
     * the container title), unchecking asks for removal.
     */
    method OnCheckedChanged(position: nat, isChecked: bool) returns (d: CheckDecision)
      requires modifyingCheckboxes || position < |items|
      ensures modifyingCheckboxes ==> d == Ignored
      ensures !modifyingCheckboxes && !HoldsContainer(items[position]) ==> d == Ignored
      ensures !modifyingCheckboxes && HoldsContainer(items[position]) ==>
        var c := items[position].container.value;
        d == (if !isChecked then RequestRemove(c.id)
              else if c.isRootContainer then Failed(UnsupportedOperation)
              else PromptForName(c.title, c))
    {
      if modifyingCheckboxes {
        return Ignored;
      }
      var row := items[position];
      if !HoldsContainer(row) {
        return Ignored;
      }
      var c := row.container.value;
      if isChecked {
        var hint := GetTitle(c);
        if hint.Err? {
          return Failed(hint.error);
        }
        d := PromptForName(hint.value, c);
      } else {
        d := RequestRemove(c.id);
      }
    }

    /**
     * The dialog's Cancel button: unchecks the box of row `position` with the
     * flag set, so the resulting checkbox change is ignored before the row is
     * looked at, and no removal is requested, whatever the rows are by then.
     */
    method CancelBookmarkDialog(position: nat) returns (d: CheckDecision)
      modifies this
      ensures d == Ignored
      ensures items == old(items) && !modifyingCheckboxes
    {
      SetModifyingCheckboxes(true);
      d := OnCheckedChanged(position, false);
      SetModifyingCheckboxes(false);
    }

    /**
     * The Play button of the row at `position`: the media list that goes to
     * `playItems`.  This is a pass-through; what reaches the listener is
     * stated by `FileBrowserFragment.OnPlayButton`.
     */
    method OnClick(position: nat) returns (media: seq<DidlItem>)
      requires position < |items|
      ensures media == items[position].mediaItems
      ensures HasMediaItems(items[position]) <==> media != []
    {
      media := items[position].mediaItems;
    }
  }
}
