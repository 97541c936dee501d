/**
 * The rules the file browser follows, as functions on values: how a browse
 * response grows the container map and rebuilds the rows, how the asynchronous
 * flag updates touch the rows, where "back" goes, and which items reach the
 * Cast sink.  The fragment class in module FileBrowser is proved against them.
 */
module Navigation {
  import opened Wrappers
  import opened Upnp
  import opened ContainerWrappers
  import opened FileBrowserAdapters

  /** Parent id of a container entered through a bookmark: "back" from it quits. */
  const BOOKMARK_PARENT_ID: string := "-1"

  /** Placeholder title of a container entered through a bookmark. */
  const BOOKMARK_TITLE: string := "Bookmark"

  /** The wrapper fabricated for a bookmark's container id. */
  function BookmarkEntry(id: string): (w: ContainerWrapper)
    ensures !w.isRootContainer && w.id == id && w.parentId == BOOKMARK_PARENT_ID
  {
    Create(BOOKMARK_TITLE, id, BOOKMARK_PARENT_ID)
  }

  /** Every entry of the container map is filed under its own id. */
  ghost predicate KeyedById(m: map<string, ContainerWrapper>)
  {
    forall k :: k in m ==> m[k].id == k
  }

  /** The ids of a list of containers. */
  ghost function Ids(cs: seq<DidlContainer>): set<string>
  {
    set i | 0 <= i < |cs| :: cs[i].id
  }

  // ---------------------------------------------------------------------------
  // The container map

  /** One container of a browse response: recorded only if its id is not known yet. */
  function AddIfAbsent(m: map<string, ContainerWrapper>, c: DidlContainer): map<string, ContainerWrapper>
  {
    if c.id in m then m else m[c.id := FromContainer(c)]
  }

  /** The container map after a browse response listing `cs`, in response order. */
  function Merge(m: map<string, ContainerWrapper>, cs: seq<DidlContainer>): map<string, ContainerWrapper>
    decreases |cs|
  {
    if cs == [] then m else AddIfAbsent(Merge(m, cs[..|cs| - 1]), cs[|cs| - 1])
  }

  /** The map only grows, and an entry once recorded (ROOT included) is never replaced. */
  lemma {:induction false} MergeKeepsEntries(m: map<string, ContainerWrapper>, cs: seq<DidlContainer>)
    ensures forall k :: k in m ==> k in Merge(m, cs) && Merge(m, cs)[k] == m[k]
    decreases |cs|
  {
    if cs != [] {
      MergeKeepsEntries(m, cs[..|cs| - 1]);
    }
  }

  /** After a browse, the map knows exactly the ids it knew plus the ids of the response's containers. */
  lemma {:induction false} MergeKeys(m: map<string, ContainerWrapper>, cs: seq<DidlContainer>)
    ensures Merge(m, cs).Keys == m.Keys + Ids(cs)
    decreases |cs|
  {
    if cs != [] {
      var init := cs[..|cs| - 1];
      MergeKeys(m, init);
      assert Ids(cs) == Ids(init) + {cs[|cs| - 1].id} by {
        forall x | x in Ids(cs) ensures x in Ids(init) + {cs[|cs| - 1].id} {
          var i :| 0 <= i < |cs| && cs[i].id == x;
          if i < |cs| - 1 { assert init[i] == cs[i]; }
        }
        forall x | x in Ids(init) ensures x in Ids(cs) {
          var i :| 0 <= i < |init| && init[i].id == x;
          assert cs[i] == init[i];
        }
      }
    }
  }

  /**
   * First write wins: a new id is recorded with the wrapper of its FIRST
   * occurrence in the response, so later duplicates cannot change its parent.
   */
  lemma {:induction false} MergeFirstWins(m: map<string, ContainerWrapper>, cs: seq<DidlContainer>, j: nat)
    requires j < |cs| && cs[j].id !in m
    requires forall i :: 0 <= i < j ==> cs[i].id != cs[j].id
    ensures cs[j].id in Merge(m, cs) && Merge(m, cs)[cs[j].id] == FromContainer(cs[j])
    decreases |cs|
  {
    var init := cs[..|cs| - 1];
    if j == |cs| - 1 {
      MergeKeys(m, init);
      forall i | 0 <= i < |init| ensures init[i].id != cs[j].id {
        assert init[i] == cs[i];
      }
      assert cs[j].id !in Ids(init);
    } else {
      assert init[j] == cs[j];
      MergeFirstWins(m, init, j);
    }
  }

  /** A map that already knows every id of a response is left as it is. */
  lemma {:induction false} MergeKnown(m: map<string, ContainerWrapper>, cs: seq<DidlContainer>)
    requires Ids(cs) <= m.Keys
    ensures Merge(m, cs) == m
    decreases |cs|
  {
    if cs != [] {
      var init := cs[..|cs| - 1];
      assert Ids(init) <= Ids(cs) by {
        forall x | x in Ids(init) ensures x in Ids(cs) {
          var i :| 0 <= i < |init| && init[i].id == x;
          assert cs[i] == init[i];
        }
      }
      MergeKnown(m, init);
      assert cs[|cs| - 1].id in Ids(cs);
    }
  }

  /** Receiving the same response twice records nothing the first one did not. */
  lemma MergeIdempotent(m: map<string, ContainerWrapper>, cs: seq<DidlContainer>)
    ensures Merge(Merge(m, cs), cs) == Merge(m, cs)
  {
    MergeKeys(m, cs);
    MergeKnown(Merge(m, cs), cs);
  }

  /** Every entry stays filed under its own id. */
  lemma {:induction false} MergeKeyedById(m: map<string, ContainerWrapper>, cs: seq<DidlContainer>)
    requires KeyedById(m)
    ensures KeyedById(Merge(m, cs))
    decreases |cs|
  {
    if cs != [] {
      MergeKeyedById(m, cs[..|cs| - 1]);
    }
  }

  /** A container that was unknown before the browse of P is recorded with P as its parent, if the server says so. */
  lemma {:induction false} MergeRecordsParent(m: map<string, ContainerWrapper>, cs: seq<DidlContainer>, parentId: string)
    requires forall c :: c in cs ==> c.parentId == parentId
    ensures forall k :: k in Merge(m, cs) && k !in m ==> Merge(m, cs)[k].parentId == parentId
    decreases |cs|
  {
    if cs != [] {
      MergeRecordsParent(m, cs[..|cs| - 1], parentId);
      assert cs[|cs| - 1] in cs;
    }
  }

  // ---------------------------------------------------------------------------
  // The rows

  /** One container row per container, in response order. */
  function ContainerRows(cs: seq<DidlContainer>): seq<ListItem>
    decreases |cs|
  {
    if cs == [] then [] else ContainerRows(cs[..|cs| - 1]) + [ContainerRow(FromContainer(cs[|cs| - 1]))]
  }

  /** One item row per item, in response order. */
  function ItemRows(items: seq<DidlItem>): seq<ListItem>
    decreases |items|
  {
    if items == [] then [] else ItemRows(items[..|items| - 1]) + [ItemRow(items[|items| - 1])]
  }

  /** The rows a successful browse displays. */
  function BrowseRows(d: DidlContent): seq<ListItem>
  {
    [PREVIOUS_CONTAINER_LIST_ITEM] + ContainerRows(d.containers) + ItemRows(d.items)
  }

  lemma {:induction false} ContainerRowsAt(cs: seq<DidlContainer>)
    ensures |ContainerRows(cs)| == |cs|
    ensures forall k :: 0 <= k < |cs| ==> ContainerRows(cs)[k] == ContainerRow(FromContainer(cs[k]))
    decreases |cs|
  {
    if cs != [] {
      ContainerRowsAt(cs[..|cs| - 1]);
    }
  }

  lemma {:induction false} ItemRowsAt(items: seq<DidlItem>)
    ensures |ItemRows(items)| == |items|
    ensures forall k :: 0 <= k < |items| ==> ItemRows(items)[k] == ItemRow(items[k])
    decreases |items|
  {
    if items != [] {
      ItemRowsAt(items[..|items| - 1]);
    }
  }

  /** The displayed rows: the up row first, then container rows, then item rows. */
  ghost predicate WellFormedRows(rows: seq<ListItem>)
  {
    && |rows| > 0
    && rows[0] == PREVIOUS_CONTAINER_LIST_ITEM
    && (forall i :: 0 < i < |rows| ==>
          && !IsPreviousContainerListItem(rows[i])
          && (HoldsContainer(rows[i]) <==> rows[i].item.None?)
          && (HoldsContainer(rows[i]) ==> !rows[i].container.value.isRootContainer))
    && (forall i, j :: 0 < i < j < |rows| && HoldsContainer(rows[j]) ==> HoldsContainer(rows[i]))
  }

  /** Where each returned container and item lands in the browse rows. */
  lemma BrowseRowsAt(d: DidlContent)
    ensures |BrowseRows(d)| == 1 + |d.containers| + |d.items|
    ensures BrowseRows(d)[0] == PREVIOUS_CONTAINER_LIST_ITEM
    ensures forall k :: 0 <= k < |d.containers| ==>
      BrowseRows(d)[1 + k] == ContainerRow(FromContainer(d.containers[k]))
    ensures forall k :: 0 <= k < |d.items| ==>
      BrowseRows(d)[1 + |d.containers| + k] == ItemRow(d.items[k])
  {
    ContainerRowsAt(d.containers);
    ItemRowsAt(d.items);
    var cr, ir := ContainerRows(d.containers), ItemRows(d.items);
    ThreePartsAt([PREVIOUS_CONTAINER_LIST_ITEM], cr, ir);
  }

  /** Indexing into the middle and last parts of a three-part concatenation. */
  lemma ThreePartsAt<T>(a: seq<T>, b: seq<T>, c: seq<T>)
    ensures forall k :: 0 <= k < |b| ==> (a + b + c)[|a| + k] == b[k]
    ensures forall k :: 0 <= k < |c| ==> (a + b + c)[|a| + |b| + k] == c[k]
  {
  }

  /**
   * A browse shows the up row, then one container row per returned container,
   * then one item row per returned item, in response order; new rows carry no
   * media and are not bookmarked.
   */
  lemma BrowseRowsShape(d: DidlContent)
    ensures |BrowseRows(d)| == 1 + |d.containers| + |d.items|
    ensures BrowseRows(d)[0] == PREVIOUS_CONTAINER_LIST_ITEM
    ensures forall k :: 0 <= k < |d.containers| ==>
      BrowseRows(d)[1 + k] == ContainerRow(FromContainer(d.containers[k]))
    ensures forall k :: 0 <= k < |d.items| ==>
      BrowseRows(d)[1 + |d.containers| + k] == ItemRow(d.items[k])
    ensures WellFormedRows(BrowseRows(d))
    ensures forall i :: 0 < i < |BrowseRows(d)| ==> (HoldsContainer(BrowseRows(d)[i]) <==> i <= |d.containers|)
  {
    BrowseRowsAt(d);
    var rows := BrowseRows(d);
    var n := |d.containers|;
    forall i | 0 < i < |rows|
      ensures && !IsPreviousContainerListItem(rows[i])
              && (HoldsContainer(rows[i]) <==> rows[i].item.None?)
              && (HoldsContainer(rows[i]) ==> !rows[i].container.value.isRootContainer)
              && (HoldsContainer(rows[i]) <==> i <= n)
    {
      if i <= n {
        assert rows[i] == ContainerRow(FromContainer(d.containers[i - 1]));
      } else {
        assert rows[i] == ItemRow(d.items[i - 1 - n]);
      }
    }
  }

  /** After a browse, every displayed container row names a container the map knows. */
  lemma BrowseKeepsRowsKnown(m: map<string, ContainerWrapper>, d: DidlContent)
    ensures WellFormedRows(BrowseRows(d))
    ensures forall r :: r in BrowseRows(d) && HoldsContainer(r) ==> r.container.value.id in Merge(m, d.containers)
  {
    BrowseRowsShape(d);
    MergeKeys(m, d.containers);
    var rows := BrowseRows(d);
    forall r | r in rows && HoldsContainer(r)
      ensures r.container.value.id in Merge(m, d.containers)
    {
      var k :| 0 <= k < |rows| && rows[k] == r;
      assert 0 < k <= |d.containers|;
      assert r.container.value.id == d.containers[k - 1].id;
    }
  }

  /** What a browse response makes the fragment ask for: per container, a bookmark lookup, then a media check. */
  function FollowUps(udn: string, cs: seq<DidlContainer>): seq<Request>
    decreases |cs|
  {
    if cs == [] then []
    else FollowUps(udn, cs[..|cs| - 1]) + [ReadBookmarks(udn, cs[|cs| - 1].id), CheckForMediaItems(cs[|cs| - 1].id)]
  }

  /** Each returned container gets exactly one bookmark lookup and one media check, in response order. */
  lemma {:induction false} FollowUpsAt(udn: string, cs: seq<DidlContainer>)
    ensures |FollowUps(udn, cs)| == 2 * |cs|
    ensures forall k :: 0 <= k < |cs| ==>
      FollowUps(udn, cs)[2 * k] == ReadBookmarks(udn, cs[k].id) &&
      FollowUps(udn, cs)[2 * k + 1] == CheckForMediaItems(cs[k].id)
    decreases |cs|
  {
    if cs != [] {
      FollowUpsAt(udn, cs[..|cs| - 1]);
    }
  }

  /** What the file browser asks of its collaborators (the UPnP control point, the bookmark tasks, its listener). */
  datatype Request =
    | Browse(containerId: string)
    | CheckForMediaItems(containerId: string)
    | ReadBookmarks(udn: string, containerId: string)
    | WriteBookmark(udn: string, name: string, containerId: string, deviceName: Option<string>)
    | RemoveBookmark(udn: string, containerId: string)
    | PlayFiles(media: seq<PlayDescriptor>)
    | QuitFileBrowsing

  // ---------------------------------------------------------------------------
  // Flags set on container rows by the asynchronous callbacks

  /** The row is a container row for container `id`. */
  predicate RowMatches(r: ListItem, id: string)
  {
    HoldsContainer(r) && r.container.value.id == id
  }

  /** The rows after a bookmark for container `id` is confirmed. */
  function MarkBookmarked(rows: seq<ListItem>, id: string): (r: seq<ListItem>)
    ensures |r| == |rows|
    ensures forall i :: 0 <= i < |rows| ==>
      r[i] == if RowMatches(rows[i], id) then rows[i].(isBookmarked := true) else rows[i]
    decreases |rows|
  {
    if rows == [] then []
    else
      var head := if RowMatches(rows[0], id) then rows[0].(isBookmarked := true) else rows[0];
      [head] + MarkBookmarked(rows[1..], id)
  }

  /** The rows after the media check of container `id` found `media`. */
  function AttachMedia(rows: seq<ListItem>, id: string, media: seq<DidlItem>): (r: seq<ListItem>)
    ensures |r| == |rows|
    ensures forall i :: 0 <= i < |rows| ==>
      r[i] == if RowMatches(rows[i], id) then rows[i].(mediaItems := media) else rows[i]
    decreases |rows|
  {
    if rows == [] then []
    else
      var head := if RowMatches(rows[0], id) then rows[0].(mediaItems := media) else rows[0];
      [head] + AttachMedia(rows[1..], id, media)
  }

  /**
   * Bookmark marking changes only the matching container rows, each only in its
   * bookmark flag (so every row stays equal to its old self), is idempotent, and
   * keeps the rows well formed.
   */
  lemma MarkBookmarkedProperties(rows: seq<ListItem>, id: string)
    ensures forall i :: 0 <= i < |rows| ==> RowEquals(MarkBookmarked(rows, id)[i], rows[i])
    ensures forall i :: 0 <= i < |rows| && RowMatches(rows[i], id) ==> MarkBookmarked(rows, id)[i].isBookmarked
    ensures MarkBookmarked(MarkBookmarked(rows, id), id) == MarkBookmarked(rows, id)
    ensures WellFormedRows(rows) ==> WellFormedRows(MarkBookmarked(rows, id))
  {
    var once := MarkBookmarked(rows, id);
    forall i | 0 <= i < |rows| ensures RowEquals(once[i], rows[i]) {
    }
    MarkBookmarkedIdempotent(rows, id);
    if WellFormedRows(rows) {
      MarkBookmarkedWellFormed(rows, id);
    }
  }

  /** Marking the same container twice is marking it once. */
  lemma MarkBookmarkedIdempotent(rows: seq<ListItem>, id: string)
    ensures MarkBookmarked(MarkBookmarked(rows, id), id) == MarkBookmarked(rows, id)
  {
    var once := MarkBookmarked(rows, id);
    var twice := MarkBookmarked(once, id);
    forall i | 0 <= i < |rows| ensures twice[i] == once[i] {
      assert RowMatches(once[i], id) == RowMatches(rows[i], id);
    }
  }

  /** Marking leaves every row's kind alone, so well-formed rows stay well formed. */
  lemma MarkBookmarkedWellFormed(rows: seq<ListItem>, id: string)
    requires WellFormedRows(rows)
    ensures WellFormedRows(MarkBookmarked(rows, id))
  {
    var once := MarkBookmarked(rows, id);
    assert once[0] == rows[0];
    forall i | 0 <= i < |rows| ensures once[i].container == rows[i].container && once[i].item == rows[i].item {
    }
  }

  /**
   * A media check changes only the matching container rows, each only in its
   * media list; with a non-empty result those rows then have media.
   */
  lemma AttachMediaProperties(rows: seq<ListItem>, id: string, media: seq<DidlItem>)
    ensures forall i :: 0 <= i < |rows| && !RowMatches(rows[i], id) ==> AttachMedia(rows, id, media)[i] == rows[i]
    ensures forall i :: 0 <= i < |rows| && RowMatches(rows[i], id) ==>
      AttachMedia(rows, id, media)[i].mediaItems == media &&
      AttachMedia(rows, id, media)[i].isBookmarked == rows[i].isBookmarked &&
      (media != [] ==> HasMediaItems(AttachMedia(rows, id, media)[i]))
    ensures WellFormedRows(rows) ==> WellFormedRows(AttachMedia(rows, id, media))
  {
  }

  /**
   * The two kinds of callback commute: whichever of a bookmark confirmation and
   * a media check completes first, the rows end up the same.
   */
  lemma FlagUpdatesCommute(rows: seq<ListItem>, bookmarkedId: string, mediaId: string, media: seq<DidlItem>)
    ensures MarkBookmarked(AttachMedia(rows, mediaId, media), bookmarkedId)
         == AttachMedia(MarkBookmarked(rows, bookmarkedId), mediaId, media)
  {
    var a := MarkBookmarked(AttachMedia(rows, mediaId, media), bookmarkedId);
    var b := AttachMedia(MarkBookmarked(rows, bookmarkedId), mediaId, media);
    assert forall i :: 0 <= i < |rows| ==> a[i] == b[i];
  }

  // ---------------------------------------------------------------------------
  // Back

  /** Where "back" leads: quit browsing, enter a known container, or an IllegalStateException. */
  datatype BackStep = Quit | Enter(target: ContainerWrapper) | Fault

  function BackFrom(m: map<string, ContainerWrapper>, current: ContainerWrapper): (s: BackStep)
    ensures s.Quit? <==> current.parentId == "" || current.parentId == BOOKMARK_PARENT_ID
    ensures s.Enter? ==> current.parentId in m && s.target == m[current.parentId]
    ensures s.Fault? <==> !s.Quit? && current.parentId !in m
  {
    var parentId := GetParentId(current);
    if parentId == "" || parentId == BOOKMARK_PARENT_ID then Quit
    else if parentId !in m then Fault
    else Enter(m[parentId])
  }

  /** "Back" from the root sentinel or from a bookmark entry quits, whatever the map holds. */
  lemma BackQuitsAtEntryPoints(m: map<string, ContainerWrapper>, bookmarkedId: string)
    ensures BackFrom(m, ROOT_CONTAINER) == Quit
    ensures BackFrom(m, BookmarkEntry(bookmarkedId)) == Quit
  {
  }

  /** When the map files entries under their ids, "back" enters the container whose id is the parent id. */
  lemma BackEntersParent(m: map<string, ContainerWrapper>, current: ContainerWrapper)
    requires KeyedById(m)
    ensures BackFrom(m, current).Enter? ==> BackFrom(m, current).target.id == current.parentId
  {
  }

  /**
   * The round trip: with P's id known to the map, a browse of P whose
   * containers all name P as parent, entering any child C, and then "back"
   * leads to the map's entry for P again (for a bookmark entry P, a further
   * "back" then quits).
   */
  lemma RoundTrip(m: map<string, ContainerWrapper>, p: ContainerWrapper, cs: seq<DidlContainer>, k: nat)
    requires p.id in m && p.id != "" && p.id != BOOKMARK_PARENT_ID
    requires forall c :: c in cs ==> c.parentId == p.id
    requires k < |cs|
    ensures BackFrom(Merge(m, cs), FromContainer(cs[k])) == Enter(m[p.id])
  {
    MergeKeepsEntries(m, cs);
    assert cs[k] in cs;
  }

  // ---------------------------------------------------------------------------
  // Playing

  /** The descriptors handed to the Cast sink: one per item with a first resource, in input order. */
  function PlayDescriptors(items: seq<DidlItem>): seq<PlayDescriptor>
    decreases |items|
  {
    if items == [] then []
    else
      var last := items[|items| - 1];
      PlayDescriptors(items[..|items| - 1]) +
        (if last.firstResource.Some? then [PlayDescriptor(last.firstResource.value, last.title)] else [])
  }

  /** The number of items that have a first resource. */
  function ResourceCount(items: seq<DidlItem>): (n: nat)
    ensures n <= |items|
    decreases |items|
  {
    if items == [] then 0
    else (if items[0].firstResource.Some? then 1 else 0) + ResourceCount(items[1..])
  }

  /** Playing a concatenation plays the two parts one after the other: input order is kept. */
  lemma {:induction false} PlayDescriptorsConcat(a: seq<DidlItem>, b: seq<DidlItem>)
    ensures PlayDescriptors(a + b) == PlayDescriptors(a) + PlayDescriptors(b)
    decreases |b|
  {
    if b == [] {
      assert a + b == a;
    } else {
      var init := b[..|b| - 1];
      assert (a + b)[..|a + b| - 1] == a + init;
      assert (a + b)[|a + b| - 1] == b[|b| - 1];
      PlayDescriptorsConcat(a, init);
    }
  }

  /** N items of which M have a first resource give exactly M descriptors. */
  lemma {:induction false} PlayDescriptorsCount(items: seq<DidlItem>)
    ensures |PlayDescriptors(items)| == ResourceCount(items)
    decreases |items|
  {
    if items != [] {
      assert items == [items[0]] + items[1..];
      PlayDescriptorsConcat([items[0]], items[1..]);
      assert [items[0]][..0] == [];
      PlayDescriptorsCount(items[1..]);
    }
  }

  /**
   * Every descriptor comes from an item with that URL as first resource and
   * that title, and every item with a first resource is played.
   */
  lemma {:induction false} PlayDescriptorsExact(items: seq<DidlItem>)
    ensures forall d :: d in PlayDescriptors(items) ==>
      exists i :: 0 <= i < |items| && items[i].firstResource == Some(d.url) && items[i].title == d.title
    ensures forall i :: 0 <= i < |items| && items[i].firstResource.Some? ==>
      PlayDescriptor(items[i].firstResource.value, items[i].title) in PlayDescriptors(items)
    decreases |items|
  {
    if items != [] {
      var init := items[..|items| - 1];
      PlayDescriptorsExact(init);
      forall d | d in PlayDescriptors(items)
        ensures exists i :: 0 <= i < |items| && items[i].firstResource == Some(d.url) && items[i].title == d.title
      {
        if d in PlayDescriptors(init) {
          var i :| 0 <= i < |init| && init[i].firstResource == Some(d.url) && init[i].title == d.title;
          assert items[i] == init[i];
        } else {
          assert items[|items| - 1].firstResource == Some(d.url);
        }
      }
      forall i | 0 <= i < |items| && items[i].firstResource.Some?
        ensures PlayDescriptor(items[i].firstResource.value, items[i].title) in PlayDescriptors(items)
      {
        if i < |items| - 1 {
          assert items[i] == init[i];
        }
      }
    }
  }

  /** The loop of `playItems` that converts items to Cast descriptors. */
  method ToPlayDescriptors(items: seq<DidlItem>) returns (media: seq<PlayDescriptor>)
    ensures media == PlayDescriptors(items)
  {
    media := [];
    var i := 0;
    while i < |items|
      invariant 0 <= i <= |items|
      invariant media == PlayDescriptors(items[..i])
    {
      var item := items[i];
      if item.firstResource.Some? {
        media := media + [PlayDescriptor(item.firstResource.value, item.title)];
      }
      assert items[..i + 1][..i] == items[..i];
      i := i + 1;
    }
    assert items[..i] == items;
  }
}
