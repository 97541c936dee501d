# SimpleUPnP browsing core, modelled in Dafny

SimpleUPnP is an Android app. It finds UPnP media servers on the local
network, lets the user browse a server's content tree, keeps bookmarks of
containers in a local database, and sends audio items to a Cast device.
This project models the app's browsing core as Dafny classes and functions
and proves what that core promises:

- **ContainerWrapper** (`container_wrapper.dfy`): the immutable
  (title, id, parent id) node. It includes the root sentinel, which has no
  title.
- **FileBrowserAdapter** (`file_browser_adapter.dfy`): the displayed rows.
  There is the "..." up row, container rows and item rows. A container row
  carries a media list and a bookmark flag. The adapter also makes the
  checkbox and Play-button decisions.
- **FileBrowserFragment** (`navigation.dfy`, `file_browser_fragment.dfy`):
  the browsing cursor. It holds the container map, filed by id and grown
  first-write-wins by browse responses. It also holds the current container
  and the rows. The Back rule and the row-flag updates come from the
  bookmark and media-check callbacks. Playing converts items to Cast
  descriptors. `navigation.dfy` states the rules as functions with their
  lemmas. `file_browser_fragment.dfy` is the class whose methods and loops
  are proved against those rules.
- **ServerBrowserFragment** (`server_browser_fragment.dfy`): the device
  list. It has one entry per content server. A re-added device is replaced
  in place. After every change the list is sorted stably by label, using
  Java's `String.compareTo`, which compares UTF-16 code units (a character
  outside the Basic Multilingual Plane counts as its two surrogates, so it
  sorts before characters such as U+FF5E). The file also models the routing of registry
  events and the replay of cached devices when the UPnP service connects.
- **MainActivity** (`main_activity.dfy`): the screen switcher. It swaps
  between the server browser and one file browser through guarded
  transitions, so exactly one of the two exists.

Exceptions are modelled as values: `Status.Thrown`, `Result.Err` and
`BackStep.Fault`. Calls the fragment makes to the outside world are appended
to an outbox (`requests`, `queueLoads`, ...). These include browses, media
checks, bookmark tasks, playing and quitting. Answers from the outside world
arrive as calls of the callback methods, one at a time. Devices, browse
responses and bookmarks are input records (`upnp.dfy`). Their shapes come
from the UPnP ContentDirectory service as the cling library exposes it.

Some behaviours are modelled as the code writes them:

- A browse response is applied whatever container is current at the time.
  The code keeps no tag to tell a stale response from a fresh one, and
  neither does the model.
- Unchecking a bookmarked row starts the removal. The remove callback only
  reports a failure. It never clears the row's bookmark flag.
- Device lists are compared by device identity, which is the UDN.

## Model

| member | source | states |
|---|---|---|
| ContainerWrappers.GetTitle | app/src/main/java/com/stephenmcgruer/simpleupnp/fragments/ContainerWrapper.java:53-57 | throws UnsupportedOperation exactly for the root sentinel; otherwise returns the title given at construction |
| ContainerWrappers.FromContainer | app/src/main/java/com/stephenmcgruer/simpleupnp/fragments/ContainerWrapper.java:30-32 | a wrapper built from a browse container has that container's title, id and parent id |
| ContainerWrappers.Create | app/src/main/java/com/stephenmcgruer/simpleupnp/fragments/ContainerWrapper.java:34-36 | a wrapper built from three strings returns them from getTitle, getId and getParentID |
| ContainerWrappers.RootSentinel | app/src/main/java/com/stephenmcgruer/simpleupnp/fragments/ContainerWrapper.java:22-23 | ROOT has id "0" and parent id "", and getTitle on it throws |
| ContainerWrappers.OnlyRootHasNoTitle | app/src/main/java/com/stephenmcgruer/simpleupnp/fragments/ContainerWrapper.java:30-43 | neither public constructor can build the root sentinel, and both build wrappers that have a title |
| FileBrowserAdapters.ContainerRow | app/src/main/java/com/stephenmcgruer/simpleupnp/fragments/FileBrowserAdapter.java:171-184 | a container row holds the container, is not the up row, and starts with no media and no bookmark |
| FileBrowserAdapters.ItemRow | app/src/main/java/com/stephenmcgruer/simpleupnp/fragments/FileBrowserAdapter.java:175-184 | an item row holds no container, is not the up row, and starts with no media and no bookmark |
| FileBrowserAdapters.Label | app/src/main/java/com/stephenmcgruer/simpleupnp/fragments/FileBrowserAdapter.java:201-208 | the label is "..." for the up row, the container title (which throws for ROOT) for a container row, and the item title otherwise |
| FileBrowserAdapters.RowEqualsIgnoresBookmark | app/src/main/java/com/stephenmcgruer/simpleupnp/fragments/FileBrowserAdapter.java:186-194 | row equality compares container, item and media list only, so the bookmark flag never affects it |
| FileBrowserAdapters.RowKinds | app/src/main/java/com/stephenmcgruer/simpleupnp/fragments/FileBrowserAdapter.java:164-184 | each constructor builds exactly one kind of row (up row, container row or item row), labelled accordingly |
| FileBrowserAdapters.BookmarkName | app/src/main/java/com/stephenmcgruer/simpleupnp/fragments/FileBrowserAdapter.java:136-140 | the confirmed name is the typed text, or the container title when nothing was typed; only an empty name for ROOT fails, because the title is asked for only then |
| FileBrowserAdapters.FileBrowserAdapter.constructor | app/src/main/java/com/stephenmcgruer/simpleupnp/fragments/FileBrowserAdapter.java:53-58 | a new adapter has no rows and the programmatic-change flag is clear |
| FileBrowserAdapters.FileBrowserAdapter.SetModifyingCheckboxes | app/src/main/java/com/stephenmcgruer/simpleupnp/fragments/FileBrowserAdapter.java:159-161 | sets the programmatic-change flag and leaves the rows alone |
| FileBrowserAdapters.FileBrowserAdapter.OnCheckedChanged | app/src/main/java/com/stephenmcgruer/simpleupnp/fragments/FileBrowserAdapter.java:111-156 | ignored while the flag is set, before the row is read, or on a row without a container; checking prompts for a name with the title as hint and captures the row's container; unchecking requests removal of that container's bookmark |
| FileBrowserAdapters.FileBrowserAdapter.CancelBookmarkDialog | app/src/main/java/com/stephenmcgruer/simpleupnp/fragments/FileBrowserAdapter.java:143-152 | Cancel unchecks the box with the flag set, so the change is ignored for any row, even one no longer in the list, and nothing is removed; the flag is clear afterwards |
| FileBrowserAdapters.FileBrowserAdapter.OnClick | app/src/main/java/com/stephenmcgruer/simpleupnp/fragments/FileBrowserAdapter.java:96-108 | Play hands over the row's media list, which is non-empty exactly when the row has media |
| Navigation.BookmarkEntry | app/src/main/java/com/stephenmcgruer/simpleupnp/fragments/FileBrowserFragment.java:116-121 | a bookmark entry is a titled wrapper with the bookmarked id and parent id "-1" |
| Navigation.MergeKeepsEntries | app/src/main/java/com/stephenmcgruer/simpleupnp/fragments/FileBrowserFragment.java:333-335 | a browse never removes or replaces a map entry, ROOT included |
| Navigation.MergeKeys | app/src/main/java/com/stephenmcgruer/simpleupnp/fragments/FileBrowserFragment.java:327-335 | after a browse, the map's keys are the old keys plus the ids of the returned containers |
| Navigation.MergeFirstWins | app/src/main/java/com/stephenmcgruer/simpleupnp/fragments/FileBrowserFragment.java:333-335 | a new id is filed with the wrapper of its first occurrence in the response |
| Navigation.MergeKnown | app/src/main/java/com/stephenmcgruer/simpleupnp/fragments/FileBrowserFragment.java:333-335 | a response whose ids are all known leaves the map unchanged |
| Navigation.MergeIdempotent | app/src/main/java/com/stephenmcgruer/simpleupnp/fragments/FileBrowserFragment.java:333-335 | applying the same response twice gives the same map as applying it once |
| Navigation.MergeKeyedById | app/src/main/java/com/stephenmcgruer/simpleupnp/fragments/FileBrowserFragment.java:333-335 | every map entry stays filed under its own id |
| Navigation.MergeRecordsParent | app/src/main/java/com/stephenmcgruer/simpleupnp/fragments/FileBrowserFragment.java:333-335 | a container first learned from a browse of P is filed with parent P when the server reports P |
| Navigation.ContainerRowsAt | app/src/main/java/com/stephenmcgruer/simpleupnp/fragments/FileBrowserFragment.java:327-330 | one container row per returned container, in response order |
| Navigation.ItemRowsAt | app/src/main/java/com/stephenmcgruer/simpleupnp/fragments/FileBrowserFragment.java:342-344 | one item row per returned item, in response order |
| Navigation.BrowseRowsShape | app/src/main/java/com/stephenmcgruer/simpleupnp/fragments/FileBrowserFragment.java:324-344 | the rows are the up row, then the container rows, then the item rows; they are well formed, and a row holds a container exactly when it comes from the containers |
| Navigation.BrowseKeepsRowsKnown | app/src/main/java/com/stephenmcgruer/simpleupnp/fragments/FileBrowserFragment.java:324-335 | after a browse, every displayed container row names a container the map knows |
| Navigation.FollowUpsAt | app/src/main/java/com/stephenmcgruer/simpleupnp/fragments/FileBrowserFragment.java:331-339 | each returned container gets one bookmark lookup and then one media check, in response order |
| Navigation.MarkBookmarked | app/src/main/java/com/stephenmcgruer/simpleupnp/fragments/FileBrowserFragment.java:245-252 | marking sets the bookmark flag on exactly the container rows with the given id; other rows are unchanged |
| Navigation.AttachMedia | app/src/main/java/com/stephenmcgruer/simpleupnp/fragments/FileBrowserFragment.java:385-392 | the media check sets the media list on exactly the container rows with the checked id; other rows are unchanged |
| Navigation.MarkBookmarkedProperties | app/src/main/java/com/stephenmcgruer/simpleupnp/fragments/FileBrowserFragment.java:258-265 | marking keeps every row equal to its old self, flags every matching row, is idempotent and keeps the rows well formed |
| Navigation.AttachMediaProperties | app/src/main/java/com/stephenmcgruer/simpleupnp/fragments/FileBrowserFragment.java:385-392 | a media check changes only the media of matching rows, which then have media; the rows stay well formed |
| Navigation.FlagUpdatesCommute | app/src/main/java/com/stephenmcgruer/simpleupnp/fragments/FileBrowserFragment.java:245-265 | a bookmark confirmation and a media check give the same rows in either order |
| Navigation.BackFrom | app/src/main/java/com/stephenmcgruer/simpleupnp/fragments/FileBrowserFragment.java:280-295 | Back quits exactly when the parent id is "" or "-1"; otherwise it enters the map's entry for the parent, and it is an error when the parent id is unknown |
| Navigation.BackQuitsAtEntryPoints | app/src/main/java/com/stephenmcgruer/simpleupnp/fragments/FileBrowserFragment.java:112-121 | Back from ROOT or from a bookmark entry quits, whatever the map holds |
| Navigation.BackEntersParent | app/src/main/java/com/stephenmcgruer/simpleupnp/fragments/FileBrowserFragment.java:287-293 | when entries are filed by id, Back enters the container whose id is the current parent id |
| Navigation.RoundTrip | app/src/main/java/com/stephenmcgruer/simpleupnp/fragments/FileBrowserFragment.java:280-293 | enter P, browse it, enter any child C: Back from C leads to the map's entry for P |
| Navigation.ResourceCount | app/src/main/java/com/stephenmcgruer/simpleupnp/fragments/FileBrowserFragment.java:210-223 | the number of items that have a first resource, bounded by the number of items; `PlayDescriptorsCount` proves it is exactly the number of descriptors sent |
| Navigation.PlayDescriptorsConcat | app/src/main/java/com/stephenmcgruer/simpleupnp/fragments/FileBrowserFragment.java:210-223 | conversion keeps input order: converting a concatenation converts each part in turn |
| Navigation.PlayDescriptorsCount | app/src/main/java/com/stephenmcgruer/simpleupnp/fragments/FileBrowserFragment.java:210-223 | N items of which M have a first resource give exactly M descriptors |
| Navigation.PlayDescriptorsExact | app/src/main/java/com/stephenmcgruer/simpleupnp/fragments/FileBrowserFragment.java:210-223 | each descriptor carries the URL and title of an input item, and every item with a resource is converted |
| Navigation.ToPlayDescriptors | app/src/main/java/com/stephenmcgruer/simpleupnp/fragments/FileBrowserFragment.java:208-223 | the conversion loop builds exactly the descriptor list specified above |
| FileBrowser.FileBrowserFragment.constructor | app/src/main/java/com/stephenmcgruer/simpleupnp/fragments/FileBrowserFragment.java:104-121 | initial state: ROOT filed under "0" and current, the up row only; with an initial id, a bookmark entry under that id becomes current |
| FileBrowser.FileBrowserFragment.SelectContainer | app/src/main/java/com/stephenmcgruer/simpleupnp/fragments/FileBrowserFragment.java:297-302 | the container becomes current at once and a browse of its id is requested |
| FileBrowser.FileBrowserFragment.OnServiceConnected | app/src/main/java/com/stephenmcgruer/simpleupnp/fragments/FileBrowserFragment.java:165-181 | throws a NullPointerException when the registry has no device for the UDN (line 171 dereferences the lookup), an IllegalStateException without a ContentDirectory; otherwise records the device name and browses the current container |
| FileBrowser.FileBrowserFragment.OnBackPressed | app/src/main/java/com/stephenmcgruer/simpleupnp/fragments/FileBrowserFragment.java:280-295 | quits (when attached) at ROOT or a bookmark entry, enters the parent entry when it is known, and throws otherwise, as BackFrom says |
| FileBrowser.FileBrowserFragment.PlayItems | app/src/main/java/com/stephenmcgruer/simpleupnp/fragments/FileBrowserFragment.java:203-225 | with a listener, sends the descriptors of the playable items; without one, does nothing |
| FileBrowser.FileBrowserFragment.OnPlayButton | app/src/main/java/com/stephenmcgruer/simpleupnp/fragments/FileBrowserAdapter.java:96-108 | the Play button of a row sends, when attached, the descriptors of exactly that row's media list, an empty list for a row without media; nothing else changes |
| FileBrowser.FileBrowserFragment.OnItemClick | app/src/main/java/com/stephenmcgruer/simpleupnp/fragments/FileBrowserFragment.java:189-201 | the up row acts as Back, a container row enters its container, and an item row plays that one item |
| FileBrowser.FileBrowserFragment.AddBookmark | app/src/main/java/com/stephenmcgruer/simpleupnp/fragments/FileBrowserFragment.java:227-231 | when attached, requests a bookmark write with the device UDN, the name, the container id and the device name; after a detach, throws a NullPointerException and writes nothing |
| FileBrowser.FileBrowserFragment.RemoveBookmark | app/src/main/java/com/stephenmcgruer/simpleupnp/fragments/FileBrowserFragment.java:233-236 | when attached, requests removal of this device's bookmark for the container; after a detach, throws a NullPointerException and removes nothing |
| FileBrowser.FileBrowserFragment.ConfirmBookmarkName | app/src/main/java/com/stephenmcgruer/simpleupnp/fragments/FileBrowserAdapter.java:117-141 | OK on the dialog writes a bookmark for the container of the row captured when the box was checked, named by the typed text or by that container's title when nothing was typed; an empty name for ROOT throws before anything is written, and after a detach the write throws a NullPointerException |
| FileBrowser.FileBrowserFragment.MarkRowsBookmarked | app/src/main/java/com/stephenmcgruer/simpleupnp/fragments/FileBrowserFragment.java:245-252 | the row-scanning loop produces exactly MarkBookmarked of the old rows |
| FileBrowser.FileBrowserFragment.OnBookmarksReadFromDatabase | app/src/main/java/com/stephenmcgruer/simpleupnp/fragments/FileBrowserFragment.java:238-253 | throws unless exactly one bookmark came back; otherwise marks exactly that container's rows |
| FileBrowser.FileBrowserFragment.OnBookmarksWriteTaskFinished | app/src/main/java/com/stephenmcgruer/simpleupnp/fragments/FileBrowserFragment.java:255-270 | on success marks exactly that container's rows; on failure nothing changes |
| FileBrowser.FileBrowserFragment.OnBookmarkRemoveTaskFinished | app/src/main/java/com/stephenmcgruer/simpleupnp/fragments/FileBrowserFragment.java:272-278 | changes nothing, whatever the count; no flag is cleared |
| FileBrowser.FileBrowserFragment.OnBrowseReceived | app/src/main/java/com/stephenmcgruer/simpleupnp/fragments/FileBrowserFragment.java:316-347 | when attached, the rows become BrowseRows, the map becomes Merge, and the follow-up requests are issued; when detached, nothing changes |
| FileBrowser.FileBrowserFragment.AddContainerRows | app/src/main/java/com/stephenmcgruer/simpleupnp/fragments/FileBrowserFragment.java:327-340 | the container loop appends the rows, grows the map first-write-wins, and issues the follow-ups |
| FileBrowser.FileBrowserFragment.AddItemRows | app/src/main/java/com/stephenmcgruer/simpleupnp/fragments/FileBrowserFragment.java:342-344 | the item loop appends one item row per item |
| FileBrowser.FileBrowserFragment.OnBrowseFailure | app/src/main/java/com/stephenmcgruer/simpleupnp/fragments/FileBrowserFragment.java:354-366 | a failed browse leaves the rows, the map and the current container unchanged |
| FileBrowser.FileBrowserFragment.OnMediaCheckReceived | app/src/main/java/com/stephenmcgruer/simpleupnp/fragments/FileBrowserFragment.java:377-395 | when attached and the result is non-empty, attaches the media to exactly the matching rows; otherwise nothing changes |
| FileBrowser.FileBrowserFragment.OnDetach | app/src/main/java/com/stephenmcgruer/simpleupnp/fragments/FileBrowserFragment.java:158-163 | after detach, later callbacks see no activity or listener; nothing else changes |
| FileBrowser.NewFileBrowserFragment | app/src/main/java/com/stephenmcgruer/simpleupnp/fragments/FileBrowserFragment.java:94-121 | a null or empty UDN throws IllegalState; otherwise a valid fragment starting at ROOT or at the bookmark entry |
| FileBrowser.EnterChildThenBack | app/src/main/java/com/stephenmcgruer/simpleupnp/fragments/FileBrowserFragment.java:280-302 | on the fragment itself: after a browse of P, clicking a child and then pressing Back makes P's map entry current and browses it |
| ServerBrowser.LabelShape | app/src/main/java/com/stephenmcgruer/simpleupnp/fragments/ServerBrowserFragment.java:178-184 | the label is the device name, plus a trailing "*" exactly when the device is not fully hydrated |
| ServerBrowser.CompareToZero | app/src/main/java/com/stephenmcgruer/simpleupnp/fragments/ServerBrowserFragment.java:186-191 | compareTo on UTF-16 code units returns zero exactly on equal code-unit sequences |
| ServerBrowser.CompareToAntisymmetric | app/src/main/java/com/stephenmcgruer/simpleupnp/fragments/ServerBrowserFragment.java:186-191 | swapping the arguments negates compareTo on code units |
| ServerBrowser.CompareToTransitive | app/src/main/java/com/stephenmcgruer/simpleupnp/fragments/ServerBrowserFragment.java:186-191 | the at-most relation of compareTo on code units is transitive |
| ServerBrowser.CodeUnits | app/src/main/java/com/stephenmcgruer/simpleupnp/fragments/ServerBrowserFragment.java:186-191 | a character below U+10000 is one code unit, any other is two, and each unit is below 0x10000 |
| ServerBrowser.FirstUnitTellsLength | app/src/main/java/com/stephenmcgruer/simpleupnp/fragments/ServerBrowserFragment.java:186-191 | a character takes two code units exactly when its first unit is a high surrogate |
| ServerBrowser.CodeUnitsInjective | app/src/main/java/com/stephenmcgruer/simpleupnp/fragments/ServerBrowserFragment.java:186-191 | different characters have different code units |
| ServerBrowser.Utf16Injective | app/src/main/java/com/stephenmcgruer/simpleupnp/fragments/ServerBrowserFragment.java:186-191 | different labels have different code-unit sequences, so compareTo is zero only on equal labels |
| ServerBrowser.SurrogatesSortBeforeHighBmp | app/src/main/java/com/stephenmcgruer/simpleupnp/fragments/ServerBrowserFragment.java:186-191 | "\U{1F600}" sorts before "\U{FF5E}" by code units although its code point is larger |
| ServerBrowser.InsertByLabelContents | app/src/main/java/com/stephenmcgruer/simpleupnp/fragments/ServerBrowserFragment.java:220 | inserting adds exactly one entry |
| ServerBrowser.InsertByLabelSorted | app/src/main/java/com/stephenmcgruer/simpleupnp/fragments/ServerBrowserFragment.java:220 | inserting into a sorted list keeps it sorted |
| ServerBrowser.InsertByLabelStable | app/src/main/java/com/stephenmcgruer/simpleupnp/fragments/ServerBrowserFragment.java:220 | inserting keeps entries with equal sort keys (the labels' code units) in their order |
| ServerBrowser.SortByLabelIsStableSort | app/src/main/java/com/stephenmcgruer/simpleupnp/fragments/ServerBrowserFragment.java:220 | the sort gives a sorted, stable permutation of its input |
| ServerBrowser.StableSortsAgree | app/src/main/java/com/stephenmcgruer/simpleupnp/fragments/ServerBrowserFragment.java:186-191 | two sorted lists with the same entries per label, in the same order, are equal |
| ServerBrowser.StableSortUnique | app/src/main/java/com/stephenmcgruer/simpleupnp/fragments/ServerBrowserFragment.java:220 | every stable sort by label gives the same list as SortByLabel |
| ServerBrowser.SortedIsFixed | app/src/main/java/com/stephenmcgruer/simpleupnp/fragments/ServerBrowserFragment.java:237 | sorting an already sorted list changes nothing |
| ServerBrowser.IndexOf | app/src/main/java/com/stephenmcgruer/simpleupnp/fragments/ServerBrowserFragment.java:213 | getPosition returns the first entry equal to the wrapper, or -1 when there is none |
| ServerBrowser.RemoveThenInsert | app/src/main/java/com/stephenmcgruer/simpleupnp/fragments/ServerBrowserFragment.java:214-216 | remove followed by insert at the old position replaces the entry in place |
| ServerBrowser.IndexOfFinds | app/src/main/java/com/stephenmcgruer/simpleupnp/fragments/ServerBrowserFragment.java:213-214 | getPosition finds an entry exactly when the device's UDN is listed |
| ServerBrowser.InsertByLabelNoDuplicates | app/src/main/java/com/stephenmcgruer/simpleupnp/fragments/ServerBrowserFragment.java:220 | inserting a device not yet listed keeps the list duplicate-free |
| ServerBrowser.SortByLabelNoDuplicates | app/src/main/java/com/stephenmcgruer/simpleupnp/fragments/ServerBrowserFragment.java:220 | sorting keeps a duplicate-free list duplicate-free |
| ServerBrowser.SortKeeps | app/src/main/java/com/stephenmcgruer/simpleupnp/fragments/ServerBrowserFragment.java:220 | sorting yields a valid list with the same entries and UDNs |
| ServerBrowser.ReplaceKeeps | app/src/main/java/com/stephenmcgruer/simpleupnp/fragments/ServerBrowserFragment.java:214-216 | replacing an entry with an equal wrapper keeps the list duplicate-free and its UDNs unchanged |
| ServerBrowser.AppendKeeps | app/src/main/java/com/stephenmcgruer/simpleupnp/fragments/ServerBrowserFragment.java:217-218 | appending an unlisted device keeps the list duplicate-free and adds its UDN |
| ServerBrowser.AddKeepsValid | app/src/main/java/com/stephenmcgruer/simpleupnp/fragments/ServerBrowserFragment.java:205-220 | an add keeps the list sorted, duplicate-free and limited to content servers, and adds the UDN; the length grows only for a new device; a device without a ContentDirectory changes nothing |
| ServerBrowser.RehydrateReplaces | app/src/main/java/com/stephenmcgruer/simpleupnp/fragments/ServerBrowserFragment.java:212-216 | re-adding a listed device swaps its old entry for the new one; all other entries stay |
| ServerBrowser.RemoveDropsEntry | app/src/main/java/com/stephenmcgruer/simpleupnp/fragments/ServerBrowserFragment.java:236 | remove drops exactly the equal entry, when there is one |
| ServerBrowser.RemoveAtKeeps | app/src/main/java/com/stephenmcgruer/simpleupnp/fragments/ServerBrowserFragment.java:236 | dropping one entry keeps the list duplicate-free and removes exactly that UDN |
| ServerBrowser.RemoveKeepsValid | app/src/main/java/com/stephenmcgruer/simpleupnp/fragments/ServerBrowserFragment.java:231-238 | a remove keeps the list valid and drops the UDN; removing an unlisted device leaves a valid list exactly as it was |
| ServerBrowser.EventsTrackLive | app/src/main/java/com/stephenmcgruer/simpleupnp/fragments/ServerBrowserFragment.java:244-272 | from empty, any event sequence gives a valid list whose UDNs are exactly the live content servers |
| ServerBrowser.ReplayListsCachedServers | app/src/main/java/com/stephenmcgruer/simpleupnp/fragments/ServerBrowserFragment.java:63-70 | replaying the cached devices into the cleared list lists exactly the cached content servers |
| ServerBrowser.ServerBrowserFragment.constructor | app/src/main/java/com/stephenmcgruer/simpleupnp/fragments/ServerBrowserFragment.java:109-130 | a new fragment has an empty, valid list and no service |
| ServerBrowser.ServerBrowserFragment.DeviceAdded | app/src/main/java/com/stephenmcgruer/simpleupnp/fragments/ServerBrowserFragment.java:201-224 | ignored while detached; otherwise remove plus insert at the same position, or append, then sort, which equals AfterAdd |
| ServerBrowser.ServerBrowserFragment.DeviceRemoved | app/src/main/java/com/stephenmcgruer/simpleupnp/fragments/ServerBrowserFragment.java:231-242 | while attached, removes the first equal entry and sorts, which equals AfterRemove |
| ServerBrowser.ServerBrowserFragment.OnRegistryEvent | app/src/main/java/com/stephenmcgruer/simpleupnp/fragments/ServerBrowserFragment.java:244-272 | discovery-started and added events go to add; discovery-failed and removed events go to remove |
| ServerBrowser.ServerBrowserFragment.OnServiceConnected | app/src/main/java/com/stephenmcgruer/simpleupnp/fragments/ServerBrowserFragment.java:57-74 | clears the list, registers the listener, replays the cached devices in order, and starts one search |
| ServerBrowser.ServerBrowserFragment.OnServiceDisconnected | app/src/main/java/com/stephenmcgruer/simpleupnp/fragments/ServerBrowserFragment.java:76-80 | forgets the service |
| ServerBrowser.ServerBrowserFragment.OnDetach | app/src/main/java/com/stephenmcgruer/simpleupnp/fragments/ServerBrowserFragment.java:132-142 | drops the listener, and unregisters from the registry when the service is bound |
| ServerBrowser.ServerBrowserFragment.OnItemClick | app/src/main/java/com/stephenmcgruer/simpleupnp/fragments/ServerBrowserFragment.java:144-148 | reports the clicked row's device, which always has a ContentDirectory |
| Activity.MainActivity.constructor | app/src/main/java/com/stephenmcgruer/simpleupnp/MainActivity.java:57-58 | both fragment fields start out null |
| Activity.MainActivity.OnCreate | app/src/main/java/com/stephenmcgruer/simpleupnp/MainActivity.java:98-104 | throws IllegalState when a server browser already exists; afterwards a server browser exists |
| Activity.MainActivity.StartFileBrowserFragment | app/src/main/java/com/stephenmcgruer/simpleupnp/MainActivity.java:204-223 | succeeds exactly with a server browser and no file browser, then swaps them; otherwise throws and changes nothing |
| Activity.MainActivity.OnQuitFileBrowsing | app/src/main/java/com/stephenmcgruer/simpleupnp/MainActivity.java:159-178 | succeeds exactly with a file browser and no server browser, then swaps back; otherwise throws and changes nothing |
| Activity.MainActivity.OnBackPressed | app/src/main/java/com/stephenmcgruer/simpleupnp/MainActivity.java:121-128 | Back goes to the file browser exactly when it exists; with exactly one fragment, the default handler runs exactly on the server screen |
| Activity.MainActivity.OnServerSelected | app/src/main/java/com/stephenmcgruer/simpleupnp/MainActivity.java:130-139 | a device without a ContentDirectory changes nothing; otherwise the file browser starts at its UDN with no initial container |
| Activity.MainActivity.RequestBookmarksForDevice | app/src/main/java/com/stephenmcgruer/simpleupnp/MainActivity.java:141-145 | asks the database for all bookmarks of the device (pattern "%") |
| Activity.MainActivity.OnBookmarkSelected | app/src/main/java/com/stephenmcgruer/simpleupnp/MainActivity.java:147-150 | the file browser starts at the bookmark's UDN and container id |
| Activity.MainActivity.OnBookmarksReadFromDatabase | app/src/main/java/com/stephenmcgruer/simpleupnp/MainActivity.java:152-157 | bookmark lists are forwarded only while the server browser exists |
| Activity.MainActivity.PlayFiles | app/src/main/java/com/stephenmcgruer/simpleupnp/MainActivity.java:180-197 | without a Cast session nothing is loaded; otherwise one queue, a permutation of the items, is loaded from index 0 |
| Activity.Launch | app/src/main/java/com/stephenmcgruer/simpleupnp/MainActivity.java:74-105 | after onCreate on a new activity, exactly the server browser exists |
| Activity.BrowseThenQuit | app/src/main/java/com/stephenmcgruer/simpleupnp/MainActivity.java:130-178 | selecting a content server and then quitting returns to the server browser, and every step succeeds |
| Activity.BackOutOfFileBrowser | app/src/main/java/com/stephenmcgruer/simpleupnp/MainActivity.java:121-178 | Back at a file-browser entry point is delegated to the fragment, whose quit request brings the activity back to the server browser, with exactly one fragment and the fragment's position unchanged |

## Left out

- The Android lifecycle and views are not modelled. This covers service binding and unbinding, `onCreateView` beyond the initial rows, `getView`/`ViewHolder`, dialog construction, toasts and `notifyDataSetChanged`. A toast is modelled as "no state change". Binding is assumed to succeed, so the throw when it fails is not modelled.
- The cling UPnP stack is represented by inputs. The registry's device for a UDN (`None` when the registry has none), `findService` (as `hasContentDirectory`), browse responses and the registry's cached devices are all parameters. The search and the browses it starts are recorded as requests or counted.
- Threading is not modelled. `runOnUiThread` and the AsyncTask callbacks become sequential method calls. A check of `getActivity()` inside a posted runnable is made when the callback runs.
- The SQLite bookmark layer is not modelled. The read, write and remove tasks and the database helper appear only as requests, and their results are callback arguments. Because of this, `onBookmarksReadFromDatabase` is modelled as written: anything other than one bookmark throws. The read task itself never delivers an empty list, but that is not part of this model.
- Cast SDK objects are not modelled. A media queue item is a (URL, title) descriptor. The MP3 content type, stream type and repeat mode are not represented. The order produced by `Collections.shuffle` is an input of `Activity.MainActivity.PlayFiles`, required to be a permutation of the items.
- FileBrowserAdapters.FileBrowserAdapter.OnCheckedChanged: the adapter's listener is always the file browser, so the null-listener path is not modelled. In the source, unchecking with a null listener throws a NullPointerException.
- ServerBrowser.ServerBrowserFragment.OnItemClick: requires the fragment to be attached. A click after detach would throw a NullPointerException on the listener.
- FileBrowser.FileBrowserFragment.SelectContainer: assumes the UPnP service is connected. A browse before `onServiceConnected` would throw a NullPointerException on the service, and that path is not modelled.
- FileBrowser.FileBrowserFragment.ConfirmBookmarkName: this and `FileBrowserAdapters.FileBrowserAdapter.CancelBookmarkDialog` stand for the two buttons of the bookmark dialog. The row the dialog captured travels in the `PromptForName` decision. The dialog itself and its text field are not modelled.
- Java reference equality is replaced by value equality. Two ContainerWrapper or ListItem objects that are equal field by field are the same in the model. Cling's `Device.equals` is modelled as UDN equality (`ServerBrowser.SameDevice`). `hashCode` is left out because it only needs to agree with `equals`.
- ServerBrowser.Label: has no contract of its own. `ServerBrowser.LabelShape` states its shape. The "details present but friendly name null" case is folded into `Device.friendlyName == None`.
- The calls `MainActivity.onBookmarksReadFromDatabase` makes to `addBookmarks` on the server browser, which the server browser in this revision does not define, are recorded as forwarded lists and no further. `FileBrowserFragment.onBookmarksWriteTaskFinished(boolean, String)` is modelled as written, although it does not match the write task's listener interface.
- `cling/DeviceRegistryListener.java` repeats the event routing of `ServerBrowserFragment` and is not part of this model. Neither are `CastOptionsProvider.java` and the database files.
- `onDestroy`, `onCreateOptionsMenu` and `getDbHelper` of MainActivity are not modelled. They deal only with resources and menus.
