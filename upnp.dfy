/**
 * The records the UPnP stack, the bookmark database and the Cast sink hand
 * to the application.  They are inputs of the model: nothing here is
 * computed by the application itself.
 */
module Upnp {
  import opened Wrappers

  /**
   * A UPnP device as the registry reports it.  `udn` is its identity (the
   * stack compares devices by it); `friendlyName` is `None` when the device
   * has no details yet or its details carry no friendly name;
   * `hasContentDirectory` says whether `findService(ContentDirectory)` finds a
   * service.
   */
  datatype Device = Device(
    udn: string,
    friendlyName: Option<string>,
    displayString: string,
    fullyHydrated: bool,
    hasContentDirectory: bool)

  /** The friendly name when there is one, otherwise the display string. */
  function DeviceName(d: Device): string
  {
    match d.friendlyName
    case Some(n) => n
    case None => d.displayString
  }

  /** A container of a browse response. */
  datatype DidlContainer = DidlContainer(id: string, parentId: string, title: string)

  /** A leaf item of a browse response; `firstResource` is the URL of its first resource. */
  datatype DidlItem = DidlItem(title: string, firstResource: Option<string>)

  /** The answer to a browse of one container's direct children. */
  datatype DidlContent = DidlContent(containers: seq<DidlContainer>, items: seq<DidlItem>)

  /** A row of the bookmarks table. */
  datatype Bookmark = Bookmark(udn: string, containerName: string, containerId: string)

  /** What is handed to the Cast sink for one playable item: its URL and its title. */
  datatype PlayDescriptor = PlayDescriptor(url: string, title: string)
}
