/** The data the tree works on: the node handed to the UI widget, the records
    the remote listing endpoints return (only the members the tree reads), and
    the remote endpoints themselves, given as functions from request
    parameters to responses. */
module Records {
  import opened Wrappers
  import Base64

  /** A UI tree node: its id (passed back to resolve its children), label,
      icon type, and whether it can be expanded. */
  datatype JsTreeNode = JsTreeNode(id: string, text: string, nodeType: string, children: bool)

  /** The runtime exceptions the listing code can raise on its own inputs:
      an array index outside the array, and a loop over a null collection. */
  datatype Fault = IndexOutOfRange | NullReference

  /** Text conversions taken from the platform: UTF-8 encoding and URL
      decoding. The model does not interpret them. */
  datatype TextCodec = TextCodec(utf8: string -> seq<Base64.byte>, urlDecode: string -> string)

  /** A hub or project listing entry: `links.self.href`, `attributes.name`,
      `attributes.extension.type`. */
  datatype Resource = Resource(selfHref: string, name: string, extensionType: string)

  /** A top folder of a project: `links.self.href`, `attributes.displayName`. */
  datatype TopFolder = TopFolder(selfHref: string, displayName: string)

  /** An entry of the `data` collection of a folder listing: `id`, `type`,
      `links.self.href`, `attributes.displayName`,
      `attributes.extension.type`, `attributes.extension.data.sourceFileName`
      and `relationships.tip.data.id` (the tip version). */
  datatype ContentRecord = ContentRecord(
    id: string,
    rawType: string,
    selfHref: string,
    displayName: string,
    extensionType: string,
    sourceFileName: string,
    tipVersionId: string)

  /** An entry of the `included` collection of a folder listing:
      `relationships.item.data.id`, `attributes.name`,
      `attributes.extension.data.sourceFileName` and
      `attributes.extension.data.viewableId`. */
  datatype IncludedRecord = IncludedRecord(
    itemId: string,
    name: string,
    sourceFileName: string,
    viewableId: string)

  /** `attributes.extension.data` of a folder: a JSON array, or an object
      whose `visibleTypes` member may be missing. */
  datatype ExtensionData = ExtensionArray | ExtensionObject(visibleTypes: Option<seq<string>>)
  datatype FolderExtension = FolderExtension(data: Option<ExtensionData>)
  datatype FolderAttributes = FolderAttributes(extension: Option<FolderExtension>)

  /** The `data` member of a folder's metadata. */
  datatype FolderMeta = FolderMeta(attributes: Option<FolderAttributes>)

  /** A folder listing: the `data` collection and the `included` collection,
      which the response does not always carry. */
  datatype FolderContents = FolderContents(data: seq<ContentRecord>, included: Option<seq<IncludedRecord>>)

  type Year = y: int | 1 <= y <= 9999 witness 1
  type Month = m: int | 1 <= m <= 12 witness 1
  type Day = d: int | 1 <= d <= 31 witness 1
  type Hour = h: int | 0 <= h < 24
  type Minute = m: int | 0 <= m < 60
  type Second = s: int | 0 <= s < 60

  /** A calendar date and time of day to the second. */
  datatype DateTime = DateTime(year: Year, month: Month, day: Day, hour: Hour, minute: Minute, second: Second)

  /** An item version: `id`, `attributes.lastModifiedTime`,
      `attributes.lastModifiedUserName`, and
      `relationships.derivatives.data.id`, which some versions lack. */
  datatype VersionRecord = VersionRecord(
    id: string,
    lastModifiedTime: DateTime,
    lastModifiedUserName: string,
    derivativeId: Option<string>)

  /** The remote listing endpoints, each a function of its request
      parameters: all hubs; the projects of a hub; the top folders of
      (hub, project); the metadata and the contents of (project, folder); the
      versions of (project, item). */
  datatype Remote = Remote(
    hubs: seq<Resource>,
    hubProjects: string -> seq<Resource>,
    topFolders: (string, string) -> seq<TopFolder>,
    folder: (string, string) -> FolderMeta,
    folderContents: (string, string) -> FolderContents,
    itemVersions: (string, string) -> seq<VersionRecord>)
}
