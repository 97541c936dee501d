/**
 * MainActivity: the screen switcher.  At any time it shows either the
 * server browser or the file browser of one device; the two fragment fields
 * are swapped by guarded transitions that throw IllegalStateException when
 * they find the wrong fragment in place.
 */
module Activity {
  import opened Wrappers
  import opened Upnp
  import opened Navigation
  import opened FileBrowser

  /** The arguments a file browser is created with (`newInstance(udn, initialContainerId)`). */
  datatype FileBrowserArgs = FileBrowserArgs(udn: string, initialContainerId: Option<string>)

  /** Who handles the Back button. */
  datatype BackHandler = DelegateToFileBrowser | DefaultBack

  /** A bookmark query handed to the bookmark database: a device's UDN and a container-id pattern. */
  datatype BookmarkQuery = BookmarkQuery(udn: string, containerIdPattern: string)

  /** The container-id pattern that matches every container of a device. */
  const ANY_CONTAINER := "%"

  /** A `queueLoad` call on the Cast session: the items in queue order and the start index. */
  datatype QueueLoad = QueueLoad(items: seq<PlayDescriptor>, startIndex: nat)

  class MainActivity {
    /** `mServerBrowserFragment != null`. */
    var serverBrowser: bool
    /** `mFileBrowserFragment`, described by the arguments it was created with. */
    var fileBrowser: Option<FileBrowserArgs>
    /** The bookmark lists passed on to the server browser. */
    var forwardedBookmarks: seq<seq<Bookmark>>
    /** The bookmark queries started. */
    var bookmarkQueries: seq<BookmarkQuery>
    /** The queues sent to the Cast device. */
    var queueLoads: seq<QueueLoad>

    /** Exactly one of the two fragments exists. */
    ghost predicate ExactlyOne()
      reads this
    {
      serverBrowser != fileBrowser.Some?
    }

    /** A new activity: both fragment fields are null and nothing has been sent anywhere. */
    constructor ()
      ensures !serverBrowser && fileBrowser == None
      ensures forwardedBookmarks == [] && bookmarkQueries == [] && queueLoads == []
    {
      serverBrowser := false;
      fileBrowser := None;
      forwardedBookmarks := [];
      bookmarkQueries := [];
      queueLoads := [];
    }

    /** `onCreate`: throws when a server browser already exists, otherwise creates one. */
    method OnCreate() returns (st: Status)
      modifies this`serverBrowser
      ensures st == Done <==> !old(serverBrowser)
      ensures st != Done ==> st == Thrown(IllegalState)
      ensures serverBrowser
    {
      if serverBrowser {
        return Thrown(IllegalState);
      }
      serverBrowser := true;
      return Done;
    }

    /**
     * `startFileBrowserFragment`: needs the server browser and no file
     * browser, else throws and changes nothing; swaps the server browser out
     * for a new file browser.
     */
    method StartFileBrowserFragment(udn: string, initialContainerId: Option<string>) returns (st: Status)
      modifies this`serverBrowser, this`fileBrowser
      ensures st == Done <==> old(serverBrowser) && old(fileBrowser) == None
      ensures st == Done ==> !serverBrowser && fileBrowser == Some(FileBrowserArgs(udn, initialContainerId))
      ensures st == Done ==> ExactlyOne()
      ensures st != Done ==>
        st == Thrown(IllegalState) && serverBrowser == old(serverBrowser) && fileBrowser == old(fileBrowser)
    {
      if !serverBrowser {
        return Thrown(IllegalState);
      }
      if fileBrowser.Some? {
        return Thrown(IllegalState);
      }
      fileBrowser := Some(FileBrowserArgs(udn, initialContainerId));
      serverBrowser := false;
      return Done;
    }

    /**
     * `onQuitFileBrowsing`: needs a file browser and no server browser, else
     * throws and changes nothing; swaps the file browser out for a new server
     * browser.
     */
    method OnQuitFileBrowsing() returns (st: Status)
      modifies this`serverBrowser, this`fileBrowser
      ensures st == Done <==> old(fileBrowser).Some? && !old(serverBrowser)
      ensures st == Done ==> serverBrowser && fileBrowser == None
      ensures st == Done ==> ExactlyOne()
      ensures st != Done ==>
        st == Thrown(IllegalState) && serverBrowser == old(serverBrowser) && fileBrowser == old(fileBrowser)
    {
      if fileBrowser.None? {
        return Thrown(IllegalState);
      }
      if serverBrowser {
        return Thrown(IllegalState);
      }
      serverBrowser := true;
      fileBrowser := None;
      return Done;
    }

    /**
     * `onBackPressed`: the file browser handles Back when it exists, the
     * default handler otherwise; with exactly one fragment, that is exactly
     * when the server browser is shown.
     */
    method OnBackPressed() returns (h: BackHandler)
      ensures h == DelegateToFileBrowser <==> fileBrowser.Some?
      ensures ExactlyOne() ==> (h == DefaultBack <==> serverBrowser)
    {
      if fileBrowser.Some? {
        h := DelegateToFileBrowser;
      } else {
        h := DefaultBack;
      }
    }

    /**
     * `onServerSelected`: a device without a ContentDirectory only raises a
     * toast; otherwise the file browser starts at the device's UDN with no
     * initial container.
     */
    method OnServerSelected(device: Device) returns (st: Status)
      modifies this`serverBrowser, this`fileBrowser
      ensures !device.hasContentDirectory ==>
        st == Done && serverBrowser == old(serverBrowser) && fileBrowser == old(fileBrowser)
      ensures device.hasContentDirectory ==>
        && (st == Done <==> old(serverBrowser) && old(fileBrowser) == None)
        && (st == Done ==> !serverBrowser && fileBrowser == Some(FileBrowserArgs(device.udn, None)))
        && (st != Done ==> serverBrowser == old(serverBrowser) && fileBrowser == old(fileBrowser))
    {
      if !device.hasContentDirectory {
        return Done;
      }
      st := StartFileBrowserFragment(device.udn, None);
    }

    /** `requestBookmarksForDevice`: asks the database for every bookmark of the device. */
    method RequestBookmarksForDevice(device: Device)
      modifies this`bookmarkQueries
      ensures bookmarkQueries == old(bookmarkQueries) + [BookmarkQuery(device.udn, ANY_CONTAINER)]
    {
      bookmarkQueries := bookmarkQueries + [BookmarkQuery(device.udn, ANY_CONTAINER)];
    }

    /** `onBookmarkSelected`: the file browser starts at the bookmark's device and container. */
    method OnBookmarkSelected(bookmark: Bookmark) returns (st: Status)
      modifies this`serverBrowser, this`fileBrowser
      ensures st == Done <==> old(serverBrowser) && old(fileBrowser) == None
      ensures st == Done ==>
        !serverBrowser && fileBrowser == Some(FileBrowserArgs(bookmark.udn, Some(bookmark.containerId)))
      ensures st != Done ==> serverBrowser == old(serverBrowser) && fileBrowser == old(fileBrowser)
    {
      st := StartFileBrowserFragment(bookmark.udn, Some(bookmark.containerId));
    }

    /** `onBookmarksReadFromDatabase`: the list reaches the server browser only while it exists. */
    method OnBookmarksReadFromDatabase(bookmarks: seq<Bookmark>)
      modifies this`forwardedBookmarks
      ensures forwardedBookmarks == if serverBrowser then old(forwardedBookmarks) + [bookmarks] else old(forwardedBookmarks)
    {
      if serverBrowser {
        forwardedBookmarks := forwardedBookmarks + [bookmarks];
      }
    }

    /**
     * `playFiles`: without a Cast session nothing is loaded (a toast is
     * shown); otherwise the items, shuffled, are loaded as one queue starting
     * at index 0.  `shuffled` is the order `Collections.shuffle` produced.
     */
    method PlayFiles(items: seq<PlayDescriptor>, castSession: bool, shuffled: seq<PlayDescriptor>)
      requires multiset(shuffled) == multiset(items)
      modifies this`queueLoads
      ensures !castSession ==> queueLoads == old(queueLoads)
      ensures castSession ==> queueLoads == old(queueLoads) + [QueueLoad(shuffled, 0)]
      ensures castSession ==> multiset(queueLoads[|queueLoads| - 1].items) == multiset(items)
    {
      if !castSession {
        return;
      }
      queueLoads := queueLoads + [QueueLoad(shuffled, 0)];
    }
  }

  /** Launching the activity leaves exactly the server browser on screen. */
  method Launch() returns (a: MainActivity)
    ensures a.serverBrowser && a.fileBrowser == None && a.ExactlyOne()
  {
    a := new MainActivity();
    var st := a.OnCreate();
    assert st == Done;
  }

  /**
   * Selecting a content server and then quitting the file browser comes back
   * to the server browser, and every step succeeds.
   */
  method BrowseThenQuit(a: MainActivity, device: Device)
    requires a.serverBrowser && a.fileBrowser == None && device.hasContentDirectory
    modifies a
    ensures a.serverBrowser && a.fileBrowser == None
    ensures a.forwardedBookmarks == old(a.forwardedBookmarks) && a.queueLoads == old(a.queueLoads)
  {
    var st := a.OnServerSelected(device);
    assert st == Done && a.fileBrowser == Some(FileBrowserArgs(device.udn, None));
    var back := a.OnBackPressed();
    assert back == DelegateToFileBrowser;
    st := a.OnQuitFileBrowsing();
    assert st == Done;
  }

  /**
   * Back pressed while the file browser `f` is shown at one of its entry
   * points: the activity delegates to the fragment, the fragment asks its
   * listener to quit, and the activity, receiving that request, swaps back to
   * the server browser; the fragment's position is unchanged.
   */
  method BackOutOfFileBrowser(a: MainActivity, f: FileBrowserFragment) returns (st: Status)
    requires a.fileBrowser.Some? && !a.serverBrowser && a.fileBrowser.value.udn == f.deviceUdn
    requires f.Valid() && f.attached && f.BackNow().Quit?
    modifies a, f
    ensures f.requests == old(f.requests) + [QuitFileBrowsing]
    ensures f.currentContainer == old(f.currentContainer) && f.containerMap == old(f.containerMap)
    ensures st == Done && a.serverBrowser && a.fileBrowser == None && a.ExactlyOne()
  {
    var h := a.OnBackPressed();
    assert h == DelegateToFileBrowser;
    st := f.OnBackPressed();
    assert st == Done && f.requests[|f.requests| - 1] == QuitFileBrowsing;
    st := a.OnQuitFileBrowsing();
  }
}
