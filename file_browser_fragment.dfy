/**
 * FileBrowserFragment: the browsing cursor over one device's content tree.
 *
 * It keeps the container map (id to wrapper, grown by browse responses), the
 * current container and, in its adapter, the displayed rows.  Everything it
 * asks of the outside world (browses, media checks, bookmark tasks, playing,
 * quitting) is appended to `requests`; the answers come back as calls of the
 * callback methods below, one at a time.
 */
module FileBrowser {
  import opened Wrappers
  import opened Upnp
  import opened ContainerWrappers
  import opened FileBrowserAdapters
  import opened Navigation

  class FileBrowserFragment {
    const deviceUdn: string
    const adapter: FileBrowserAdapter
    /** The device's friendly name or display string, known once the UPnP service is connected. */
    var deviceName: Option<string>
    /** The fragment is attached to its activity (so `getActivity()` and the listener are non-null). */
    var attached: bool
    var containerMap: map<string, ContainerWrapper>
    var currentContainer: ContainerWrapper
    var requests: seq<Request>

    ghost predicate Valid()
      reads this, adapter
    {
      && deviceUdn != ""
      && ROOT_CONTAINER_ID in containerMap
      && KeyedById(containerMap)
      && currentContainer.id in containerMap
      && WellFormedRows(adapter.items)
      && (forall r :: r in adapter.items && HoldsContainer(r) ==> r.container.value.id in containerMap)
    }

    /** What "back" would do now. */
    ghost function BackNow(): BackStep
      reads this
    {
      BackFrom(containerMap, currentContainer)
    }

    /**
     * `onCreate` and `onCreateView` for a non-empty UDN: the map holds ROOT
     * under "0", the current container is ROOT, and the rows are the up row
     * alone; with an initial container id, a "Bookmark" wrapper with parent
     * "-1" is filed under that id and becomes current.
     */
    constructor (udn: string, initialContainerId: Option<string>)
      requires udn != ""
      ensures Valid() && fresh(adapter)
      ensures deviceUdn == udn && attached && deviceName.None? && requests == []
      ensures adapter.items == [PREVIOUS_CONTAINER_LIST_ITEM] && !adapter.modifyingCheckboxes
      ensures initialContainerId.None? ==>
        containerMap == map[ROOT_CONTAINER_ID := ROOT_CONTAINER] && currentContainer == ROOT_CONTAINER
      ensures initialContainerId.Some? ==>
        var entry := BookmarkEntry(initialContainerId.value);
        containerMap == map[ROOT_CONTAINER_ID := ROOT_CONTAINER][entry.id := entry] && currentContainer == entry
    {
      deviceUdn := udn;
      var rows := new FileBrowserAdapter();
      rows.items := [PREVIOUS_CONTAINER_LIST_ITEM];
      adapter := rows;
      deviceName := None;
      attached := true;
      requests := [];
      var containers := map[ROOT_CONTAINER_ID := ROOT_CONTAINER];
      var current := ROOT_CONTAINER;
      if initialContainerId.Some? {
        var entry := BookmarkEntry(initialContainerId.value);
        containers := containers[GetId(entry) := entry];
        current := entry;
      }
      containerMap := containers;
      currentContainer := current;
    }

    /** `selectContainer`: the container becomes current at once, before its browse is answered. */
    method SelectContainer(c: ContainerWrapper)
      requires Valid() && c.id in containerMap
      modifies this
      ensures Valid()
      ensures currentContainer == c && requests == old(requests) + [Browse(c.id)]
      ensures containerMap == old(containerMap) && attached == old(attached) && deviceName == old(deviceName)
    {
      currentContainer := c;
      requests := requests + [Browse(GetId(c))];
    }

    /**
     * `onServiceConnected`, given what the registry returns for this UDN
     * (`None` when it knows no such device): throws a NullPointerException on
     * a missing device and an IllegalStateException on one without a
     * ContentDirectory; otherwise records its name and browses the current
     * container.
     */
    method OnServiceConnected(device: Option<Device>) returns (st: Status)
      requires Valid()
      requires device.Some? ==> device.value.udn == deviceUdn
      modifies this
      ensures Valid()
      ensures device.None? ==>
        st == Thrown(NullPointer) && deviceName == old(deviceName) && requests == old(requests)
      ensures device.Some? && !device.value.hasContentDirectory ==>
        st == Thrown(IllegalState) && deviceName == old(deviceName) && requests == old(requests)
      ensures device.Some? && device.value.hasContentDirectory ==>
        st == Done && deviceName == Some(DeviceName(device.value)) &&
        requests == old(requests) + [Browse(old(currentContainer).id)]
      ensures currentContainer == old(currentContainer) && containerMap == old(containerMap)
      ensures attached == old(attached)
    {
      if device.None? {
        return Thrown(NullPointer);
      }
      if !device.value.hasContentDirectory {
        return Thrown(IllegalState);
      }
      deviceName := Some(DeviceName(device.value));
      SelectContainer(currentContainer);
      st := Done;
    }

    /**
     * `onBackPressed`: at ROOT or a bookmark entry, tells the listener to quit
     * (if attached) and changes nothing else; otherwise throws when the parent
     * id is unknown, and selects the map's entry for it when it is known.
     */
    method OnBackPressed() returns (st: Status)
      requires Valid()
      modifies this
      ensures Valid()
      ensures old(BackNow()).Quit? ==>
        st == Done && currentContainer == old(currentContainer) &&
        requests == old(requests) + (if attached then [QuitFileBrowsing] else [])
      ensures old(BackNow()).Enter? ==>
        st == Done && currentContainer == old(BackNow()).target &&
        requests == old(requests) + [Browse(old(BackNow()).target.id)]
      ensures old(BackNow()).Fault? ==>
        st == Thrown(IllegalState) && currentContainer == old(currentContainer) && requests == old(requests)
      ensures containerMap == old(containerMap) && attached == old(attached) && deviceName == old(deviceName)
    {
      var parentId := GetParentId(currentContainer);
      if parentId == "" || parentId == BOOKMARK_PARENT_ID {
        if attached {
          requests := requests + [QuitFileBrowsing];
        }
        st := Done;
      } else {
        if parentId !in containerMap {
          return Thrown(IllegalState);
        }
        SelectContainer(containerMap[parentId]);
        st := Done;
      }
    }

    /** `playItems`: with a listener, hands the playable items' descriptors to it; without one, does nothing. */
    method PlayItems(items: seq<DidlItem>)
      requires Valid()
      modifies this
      ensures Valid()
      ensures requests == old(requests) + (if old(attached) then [PlayFiles(PlayDescriptors(items))] else [])
      ensures currentContainer == old(currentContainer) && containerMap == old(containerMap)
      ensures attached == old(attached) && deviceName == old(deviceName)
    {
      if !attached {
        return;
      }
      var media := ToPlayDescriptors(items);
      requests := requests + [PlayFiles(media)];
    }

    /**
     * The Play button of the row at `position`: the adapter hands the row's
     * media list to `playItems`, so the listener receives the descriptors of
     * that row's playable media, an empty list for a row without media.
     */
    method OnPlayButton(position: nat)
      requires Valid() && position < |adapter.items|
      modifies this
      ensures Valid()
      ensures requests == old(requests) +
        (if old(attached) then [PlayFiles(PlayDescriptors(old(adapter.items[position]).mediaItems))] else [])
      ensures old(attached) && !HasMediaItems(old(adapter.items[position])) ==>
        requests == old(requests) + [PlayFiles([])]
      ensures currentContainer == old(currentContainer) && containerMap == old(containerMap)
      ensures attached == old(attached) && deviceName == old(deviceName)
    {
      var media := adapter.OnClick(position);
      PlayItems(media);
    }

    /**
     * `onItemClick` on the row at `position`: the up row acts as "back", a
     * container row enters its container, an item row plays that one item.
     */
    method OnItemClick(position: nat) returns (st: Status)
      requires Valid() && position < |adapter.items|
      modifies this
      ensures Valid()
      ensures IsPreviousContainerListItem(old(adapter.items[position])) ==>
        && (old(BackNow()).Quit? ==>
              st == Done && currentContainer == old(currentContainer) &&
              requests == old(requests) + (if attached then [QuitFileBrowsing] else []))
        && (old(BackNow()).Enter? ==>
              st == Done && currentContainer == old(BackNow()).target &&
              requests == old(requests) + [Browse(old(BackNow()).target.id)])
        && (old(BackNow()).Fault? ==>
              st == Thrown(IllegalState) && currentContainer == old(currentContainer) && requests == old(requests))
      ensures HoldsContainer(old(adapter.items[position])) ==>
        st == Done && currentContainer == old(adapter.items[position]).container.value &&
        requests == old(requests) + [Browse(currentContainer.id)]
      ensures !IsPreviousContainerListItem(old(adapter.items[position])) && !HoldsContainer(old(adapter.items[position])) ==>
        st == Done && currentContainer == old(currentContainer) &&
        requests == old(requests) + (if attached then [PlayFiles(PlayDescriptors([old(adapter.items[position]).item.value]))] else [])
      ensures containerMap == old(containerMap) && attached == old(attached) && deviceName == old(deviceName)
    {
      var row := adapter.items[position];
      if IsPreviousContainerListItem(row) {
        st := OnBackPressed();
      } else if HoldsContainer(row) {
        assert row in adapter.items;
        SelectContainer(row.container.value);
        st := Done;
      } else {
        PlayItems([row.item.value]);
        st := Done;
      }
    }

    /**
     * `addBookmark`: starts a bookmark write for this device, with the
     * device's name; the database comes from the listener, so after a detach
     * this throws a NullPointerException and nothing is written.
     */
    method AddBookmark(bookmarkName: string, containerId: string) returns (st: Status)
      requires Valid()
      modifies this
      ensures Valid()
      ensures !old(attached) ==> st == Thrown(NullPointer) && requests == old(requests)
      ensures old(attached) ==>
        st == Done && requests == old(requests) + [WriteBookmark(deviceUdn, bookmarkName, containerId, deviceName)]
      ensures currentContainer == old(currentContainer) && containerMap == old(containerMap)
      ensures attached == old(attached) && deviceName == old(deviceName)
    {
      if !attached {
        return Thrown(NullPointer);
      }
      requests := requests + [WriteBookmark(deviceUdn, bookmarkName, containerId, deviceName)];
      st := Done;
    }

    /**
     * `removeBookmark`: starts the removal of this device's bookmark for the
     * container; after a detach it throws a NullPointerException instead.
     */
    method RemoveBookmark(containerId: string) returns (st: Status)
      requires Valid()
      modifies this
      ensures Valid()
      ensures !old(attached) ==> st == Thrown(NullPointer) && requests == old(requests)
      ensures old(attached) ==>
        st == Done && requests == old(requests) + [Navigation.RemoveBookmark(deviceUdn, containerId)]
      ensures currentContainer == old(currentContainer) && containerMap == old(containerMap)
      ensures attached == old(attached) && deviceName == old(deviceName)
    {
      if !attached {
        return Thrown(NullPointer);
      }
      requests := requests + [Navigation.RemoveBookmark(deviceUdn, containerId)];
      st := Done;
    }

    /**
     * The OK button of the bookmark-name dialog that checking a container row
     * opened (`d`, which holds that row's container as it was then): adds a
     * bookmark under the typed name, or under the container title when nothing
     * was typed.  Only an empty name for the root container, which has no
     * title, fails before `addBookmark` is reached; `OnCheckedChanged` never
     * prompts for the root container in the first place.
     */
    method ConfirmBookmarkName(d: CheckDecision, entered: string) returns (st: Status)
      requires Valid() && d.PromptForName?
      modifies this
      ensures Valid()
      ensures entered == "" && d.container.isRootContainer ==>
        st == Thrown(UnsupportedOperation) && requests == old(requests)
      ensures (entered != "" || !d.container.isRootContainer) && !old(attached) ==>
        st == Thrown(NullPointer) && requests == old(requests)
      ensures (entered != "" || !d.container.isRootContainer) && old(attached) ==>
        && st == Done
        && requests == old(requests) + [WriteBookmark(deviceUdn, if entered == "" then d.container.title else entered,
                                                      d.container.id, deviceName)]
      ensures currentContainer == old(currentContainer) && containerMap == old(containerMap)
      ensures attached == old(attached) && deviceName == old(deviceName)
    {
      var name := BookmarkName(entered, d.container);
      if name.Err? {
        return Thrown(name.error);
      }
      st := AddBookmark(name.value, GetId(d.container));
    }

    /** Sets the bookmark flag of every container row for `containerId`; nothing else changes. */
    method MarkRowsBookmarked(containerId: string)
      requires Valid()
      modifies adapter
      ensures Valid()
      ensures adapter.items == MarkBookmarked(old(adapter.items), containerId)
      ensures adapter.modifyingCheckboxes == old(adapter.modifyingCheckboxes)
    {
      ghost var before := adapter.items;
      var i := 0;
      while i < |adapter.items|
        invariant 0 <= i <= |adapter.items| == |before|
        invariant forall k :: 0 <= k < i ==>
          adapter.items[k] == if RowMatches(before[k], containerId) then before[k].(isBookmarked := true) else before[k]
        invariant forall k :: i <= k < |before| ==> adapter.items[k] == before[k]
        invariant adapter.modifyingCheckboxes == old(adapter.modifyingCheckboxes)
      {
        var row := adapter.items[i];
        if HoldsContainer(row) && GetId(row.container.value) == containerId {
          adapter.items := adapter.items[i := row.(isBookmarked := true)];
        }
        i := i + 1;
      }
      MarkBookmarkedProperties(before, containerId);
      assert adapter.items == MarkBookmarked(before, containerId);
      assert forall r :: r in adapter.items && HoldsContainer(r) ==> r.container.value.id in containerMap by {
        forall r | r in adapter.items && HoldsContainer(r) ensures r.container.value.id in containerMap {
          var k :| 0 <= k < |adapter.items| && adapter.items[k] == r;
          assert before[k] in before;
        }
      }
    }

    /** `onBookmarksReadFromDatabase`: throws unless exactly one bookmark came back; marks its container's rows. */
    method OnBookmarksReadFromDatabase(bookmarks: seq<Bookmark>) returns (st: Status)
      requires Valid()
      modifies adapter
      ensures Valid()
      ensures |bookmarks| != 1 ==> st == Thrown(IllegalState) && adapter.items == old(adapter.items)
      ensures |bookmarks| == 1 ==> st == Done && adapter.items == MarkBookmarked(old(adapter.items), bookmarks[0].containerId)
      ensures adapter.modifyingCheckboxes == old(adapter.modifyingCheckboxes)
    {
      if |bookmarks| != 1 {
        return Thrown(IllegalState);
      }
      MarkRowsBookmarked(bookmarks[0].containerId);
      st := Done;
    }

    /** `onBookmarksWriteTaskFinished`: on success marks the container's rows; on failure changes nothing. */
    method OnBookmarksWriteTaskFinished(success: bool, containerId: string)
      requires Valid()
      modifies adapter
      ensures Valid()
      ensures adapter.items == if success then MarkBookmarked(old(adapter.items), containerId) else old(adapter.items)
      ensures adapter.modifyingCheckboxes == old(adapter.modifyingCheckboxes)
    {
      if success {
        MarkRowsBookmarked(containerId);
      }
    }

    /** `onBookmarkRemoveTaskFinished`: whatever the count, only a notice; no flag is cleared. */
    method OnBookmarkRemoveTaskFinished(numRemoved: int)
      requires Valid()
      ensures Valid()
      ensures unchanged(this) && unchanged(adapter)
    {
    }

    /**
     * `SelectContainerBrowse.received`: when attached, the rows become those of
     * the response, each new container id is filed in the map (first write
     * wins), and each container gets a bookmark lookup and a media check.
     * The response is not compared with the current container.
     */
    method OnBrowseReceived(didl: DidlContent)
      requires Valid()
      modifies this, adapter
      ensures Valid()
      ensures old(attached) ==>
        && adapter.items == BrowseRows(didl)
        && containerMap == Merge(old(containerMap), didl.containers)
        && requests == old(requests) + FollowUps(deviceUdn, didl.containers)
      ensures !old(attached) ==>
        adapter.items == old(adapter.items) && containerMap == old(containerMap) && requests == old(requests)
      ensures currentContainer == old(currentContainer) && attached == old(attached) && deviceName == old(deviceName)
      ensures adapter.modifyingCheckboxes == old(adapter.modifyingCheckboxes)
    {
      if !attached {
        return;
      }
      ghost var map0 := containerMap;
      adapter.items := [PREVIOUS_CONTAINER_LIST_ITEM];
      AddContainerRows(didl.containers);
      AddItemRows(didl.items);
      BrowseKeepsRowsKnown(map0, didl);
      MergeKeepsEntries(map0, didl.containers);
      MergeKeyedById(map0, didl.containers);
    }

    /** The first loop of `received`: a row, a bookmark lookup, a map entry if new, and a media check per container. */
    method AddContainerRows(cs: seq<DidlContainer>)
      modifies this`containerMap, this`requests, adapter`items
      ensures adapter.items == old(adapter.items) + ContainerRows(cs)
      ensures containerMap == Merge(old(containerMap), cs)
      ensures requests == old(requests) + FollowUps(deviceUdn, cs)
    {
      ghost var rows0, map0, requests0 := adapter.items, containerMap, requests;
      var i := 0;
      while i < |cs|
        invariant 0 <= i <= |cs|
        invariant adapter.items == rows0 + ContainerRows(cs[..i])
        invariant containerMap == Merge(map0, cs[..i])
        invariant requests == requests0 + FollowUps(deviceUdn, cs[..i])
      {
        var c := cs[i];
        var row := ContainerRow(FromContainer(c));
        adapter.items := adapter.items + [row];
        requests := requests + [ReadBookmarks(deviceUdn, c.id)];
        if c.id !in containerMap {
          containerMap := containerMap[c.id := row.container.value];
        }
        requests := requests + [CheckForMediaItems(c.id)];
        assert cs[..i + 1][..i] == cs[..i];
        i := i + 1;
      }
      assert cs[..i] == cs;
    }

    /** The second loop of `received`: an item row per item. */
    method AddItemRows(items: seq<DidlItem>)
      modifies adapter`items
      ensures adapter.items == old(adapter.items) + ItemRows(items)
    {
      ghost var rows0 := adapter.items;
      var j := 0;
      while j < |items|
        invariant 0 <= j <= |items|
        invariant adapter.items == rows0 + ItemRows(items[..j])
      {
        adapter.items := adapter.items + [ItemRow(items[j])];
        assert items[..j + 1][..j] == items[..j];
        j := j + 1;
      }
      assert items[..j] == items;
    }

    /** `SelectContainerBrowse.failure`: only a notice; the rows, the map and the current container stay. */
    method OnBrowseFailure()
      requires Valid()
      ensures Valid()
      ensures unchanged(this) && unchanged(adapter)
    {
    }

    /**
     * `CheckForMediaItemsBrowse.received` for container `containerId`: when
     * attached and the response has items, every container row for that id
     * gets them as its media list; otherwise nothing changes.
     */
    method OnMediaCheckReceived(containerId: string, didl: DidlContent)
      requires Valid()
      modifies adapter
      ensures Valid()
      ensures adapter.items ==
        if attached && didl.items != [] then AttachMedia(old(adapter.items), containerId, didl.items)
        else old(adapter.items)
      ensures adapter.modifyingCheckboxes == old(adapter.modifyingCheckboxes)
    {
      if !attached || didl.items == [] {
        return;
      }
      ghost var before := adapter.items;
      var i := 0;
      while i < |adapter.items|
        invariant 0 <= i <= |adapter.items| == |before|
        invariant forall k :: 0 <= k < i ==>
          adapter.items[k] == if RowMatches(before[k], containerId) then before[k].(mediaItems := didl.items) else before[k]
        invariant forall k :: i <= k < |before| ==> adapter.items[k] == before[k]
        invariant adapter.modifyingCheckboxes == old(adapter.modifyingCheckboxes)
      {
        var row := adapter.items[i];
        if HoldsContainer(row) && GetId(row.container.value) == containerId {
          adapter.items := adapter.items[i := row.(mediaItems := didl.items)];
        }
        i := i + 1;
      }
      AttachMediaProperties(before, containerId, didl.items);
      assert adapter.items == AttachMedia(before, containerId, didl.items);
      forall r | r in adapter.items && HoldsContainer(r) ensures r.container.value.id in containerMap {
        var k :| 0 <= k < |adapter.items| && adapter.items[k] == r;
        assert before[k] in before;
      }
    }

    /** `onDetach`: the listener and the activity are gone; later callbacks see it. */
    method OnDetach()
      requires Valid()
      modifies this
      ensures Valid() && !attached
      ensures currentContainer == old(currentContainer) && containerMap == old(containerMap)
      ensures requests == old(requests) && deviceName == old(deviceName)
    {
      attached := false;
    }
  }

  /**
   * `newInstance` followed by `onCreate`: a null or empty UDN is refused with
   * an IllegalStateException; otherwise a fragment in its initial state.
   */
  method NewFileBrowserFragment(udn: Option<string>, initialContainerId: Option<string>)
    returns (r: Result<FileBrowserFragment>)
    ensures r.Err? <==> udn.None? || udn.value == ""
    ensures r.Err? ==> r.error == IllegalState
    ensures r.Ok? ==>
      && fresh(r.value) && r.value.Valid()
      && r.value.deviceUdn == udn.value
      && r.value.currentContainer == (if initialContainerId.Some? then BookmarkEntry(initialContainerId.value) else ROOT_CONTAINER)
  {
    if udn.None? || udn.value == "" {
      return Err(IllegalState);
    }
    var f := new FileBrowserFragment(udn.value, initialContainerId);
    r := Ok(f);
  }

  /**
   * The navigation round trip on the fragment itself: a browse answer for the
   * current container P whose containers all name P as parent, a click on the
   * row of any returned container, then "back" makes the map's entry for P
   * current again and browses it.
   */
  method EnterChildThenBack(f: FileBrowserFragment, didl: DidlContent, k: nat)
    requires f.Valid() && f.attached
    requires k < |didl.containers|
    requires forall c :: c in didl.containers ==> c.parentId == f.currentContainer.id
    requires f.currentContainer.id != "" && f.currentContainer.id != BOOKMARK_PARENT_ID
    modifies f, f.adapter
    ensures f.Valid()
    ensures f.currentContainer == old(f.containerMap[f.currentContainer.id])
    ensures |f.requests| > 0 && f.requests[|f.requests| - 1] == Browse(old(f.currentContainer.id))
  {
    ghost var m := f.containerMap;
    ghost var p := f.currentContainer;
    f.OnBrowseReceived(didl);
    BrowseRowsShape(didl);
    var st := f.OnItemClick(1 + k);
    RoundTrip(m, p, didl.containers, k);
    st := f.OnBackPressed();
  }
}
