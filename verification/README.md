# HubTree: a verified model of the Autodesk hub tree

`HubTree` answers the lazy-loading requests of a jsTree browser widget. Given
the id of the node being expanded, it returns that node's children:

- the root `#` lists the hubs;
- a hub lists its projects;
- a project lists its top folders;
- a folder lists its contents;
- an item lists its versions.

The kind of node is read from the id, which is the node's self link. The
segment just before the last `/` names the kind (`hubs`, `projects`,
`folders`, `items`). The ids the remote calls need are taken from fixed
positions counted from the end.

This project models the part of `HubTree` that makes decisions, as pure
Dafny functions over immutable records. It covers:

- the dispatch on the kind segment;
- the classification of hubs and projects into node types;
- the extraction of ids from an address;
- the folder's visible-types filter;
- the join that turns a BIM 360 Document record into `item|version|viewable`
  nodes;
- the generic nodes of other folder records;
- the base64 encoding of version ids;
- the labels and ids of version nodes.

The remote service is a `Remote` value holding one function per API call.
Text encoding and URL decoding are a `TextCodec` value.

Modules:

- `Wrappers`: `Option` and `Result`.
- `Text`: ordinal `IndexOf`/`Contains`, `Split`/`Join` on a character, and
  `Replace`.
- `Seqs`: `FlatMap` (ordered concatenation) and `MapAll` (map, stopping at
  the first failure).
- `Base64`: the encoding of section 4 of RFC 4648, a reference decoder and
  `Base64Encode`.
- `Records`: the nodes, faults and remote payload records.
- `Listings`: hubs, projects and top folders.
- `FolderListing`: folder contents.
- `Versions`: item versions.
- `Resolver`: the dispatcher.

The exceptions the code can raise are `Failure` results:

- A negative array index is `Failure(IndexOutOfRange)`.
- Iterating the absent `included` collection is `Failure(NullReference)`.

The loops of the folder listing are also written as methods
(`CollectNodes`, `CollectDocumentNodes`, `CollectFileNodes`). Each is proved
to compute the functional definition.

Where the behaviour of the code differs from what one might expect, the
model follows the code:

- A document is linked to an included entry when the document's id occurs
  anywhere inside the entry's item id, not only when the two are equal.
- The visible-types filter tests whether the extension type occurs as a
  substring of the restriction's JSON text. So a type that is a substring of
  a listed type, or of the JSON punctuation around it, is kept.
- Any type containing `Folder` is always kept.
- The version number is the piece between the first and the second `=` of
  the version id. An id without `=` makes the whole version listing raise.
- An id with a single segment other than `#` raises.
- A two-segment id whose first segment is `projects`, `folders` or `items`
  also raises, because three segments are read.
- Because a Document's own type does not contain `File`, the inner scan for
  File records never matches the document itself.

## Model

| member | source | states |
|---|---|---|
| Text.Split | HubTree.cs:63 | `String.Split` on one character: at least one piece, none containing the separator; empty pieces are kept (counted by SplitCount, inverted by SplitJoin and JoinSplit) |
| Text.Replace | HubTree.cs:45 | the text with every `from` character written as `to` and every other character unchanged, at the same length |
| Text.IndexOf | HubTree.cs:202 | -1 exactly when the substring does not occur; otherwise the substring occurs at the result and at no earlier position |
| Text.SplitCount | HubTree.cs:63 | splitting on a character yields one more piece than the string has separators, so a string without the separator has one piece |
| Text.SplitJoin | HubTree.cs:63-64 | splitting a join of separator-free segments gives back exactly those segments, so positions counted from the end pick out the intended segments |
| Text.JoinSplit | HubTree.cs:63 | joining the pieces of a split with the separator gives back the original id |
| Text.ReplaceUndo | HubTree.cs:45 | replacing `/` by `_` loses nothing when the text had no `_`; replacing back restores it |
| Base64.Symbol | HubTree.cs:45 | each 6-bit value has an alphabet symbol that the decoder maps back to that value |
| Base64.Encode | HubTree.cs:45 | the encoding of n bytes has 4 * ceil(n / 3) characters, all from the alphabet or padding |
| Base64.DecodeEncode | HubTree.cs:45 | decoding the encoding of any byte sequence gives back that sequence |
| Base64.EncodeDecode | HubTree.cs:45 | every text the decoder accepts is the encoding of the bytes it decodes to, so each byte sequence has exactly one encoding |
| Base64.TestVectors | HubTree.cs:45 | the encoder reproduces the test vectors of section 10 of RFC 4648 (`f` is `Zg==`, ..., `foobar` is `Zm9vYmFy`) |
| Base64.Base64Encode | HubTree.cs:42-46 | with `_` mapped back to `/`, the result is exactly the standard encoding of the input's UTF-8 bytes and decodes to them; it has no `/` and no `\|` |
| Listings.HubType | HubTree.cs:92-104 | a hub is `personalHub` exactly for the A360 personal hub tag, `bim360Hubs` exactly for the BIM 360 account tag, and `hubs` for every other tag |
| Listings.HubNodes | HubTree.cs:89-109 | one node per hub, in order, with the hub's self link, name and classified type, always expandable |
| Listings.ProjectType | HubTree.cs:130-139 | a project is `a360projects` exactly for the core project tag, `bim360projects` exactly for the BIM 360 project tag, and `projects` otherwise |
| Listings.ProjectNodes | HubTree.cs:127-144 | one expandable node per project, in order, with its self link, name and classified type |
| Listings.TopFolderNodes | HubTree.cs:163-166 | one expandable `folders` node per top folder, in order, with its self link and display name |
| Listings.HubProjects | HubTree.cs:114-126 | the children of a hub: the project nodes of the hub named by the last segment of the address (stated for every address by HubProjectsOfAddress) |
| Listings.ProjectContents | HubTree.cs:149-167 | the children of a project fail exactly when the address has fewer than two `/`, and then with an index fault |
| Listings.HubProjectsOfAddress | HubTree.cs:123-126 | the projects of the hub named by the last segment of the address are listed |
| Listings.ProjectContentsOfAddress | HubTree.cs:158-162 | the top folders are fetched with the hub id three segments from the end and the project id last |
| Listings.ProjectContentsShortAddress | HubTree.cs:158-159 | a project address of two segments raises an index fault |
| FolderListing.VisibleTypes | HubTree.cs:184-190 | no restriction exactly when the folder metadata does not carry a visible-types list under an object-valued extension data; otherwise the declared list with the C4R model tag appended |
| FolderListing.ListedTypesOccur | HubTree.cs:202 | every listed visible type occurs in the restriction's JSON text |
| FolderListing.Kept | HubTree.cs:202 | a record is kept when there is no restriction, when its type contains `Folder`, or when its type is listed; it is skipped exactly when none of these holds and the type does not occur in the restriction's text |
| FolderListing.C4RModelAlwaysKept | HubTree.cs:189 | whatever restriction the folder declares, C4R models are kept |
| FolderListing.CollectFileNodes | HubTree.cs:214-236 | the scan over data yields one document node per File record whose source file name matches the included entry, in data order |
| FolderListing.CollectDocumentNodes | HubTree.cs:208-238 | the scan over included yields, for each entry referring to the document in order, the nodes of its matching File records |
| FolderListing.CollectNodes | HubTree.cs:198-248 | the loop over data computes the listing: nodes in data order, or a null-reference fault when a kept Document is met and `included` is absent |
| FolderListing.FolderContentsOf | HubTree.cs:170-192 | an address with fewer than two `/` raises an index fault; any other failure is the null reference of an absent `included` |
| FolderListing.Listing | HubTree.cs:194-248 | the listing fails exactly when `included` is absent and some kept record is a Document, and then with a null reference; otherwise it succeeds |
| FolderListing.RecordNodes | HubTree.cs:200-245 | a skipped record yields nothing, a kept Document its document nodes, any other kept record its generic node (stated over the whole listing by ListingMembership) |
| FolderListing.GenericNode | HubTree.cs:244 | the node of a non-Document record: its self link, display name and raw type, expandable |
| FolderListing.DocumentNodes | HubTree.cs:208-238 | for each referring included entry in order, one node per File record of the same source file name, in data order |
| FolderListing.DocumentNodesMultiplicity | HubTree.cs:208-238 | the join yields exactly as many nodes as there are matching (included entry, File record) position pairs, so duplicate records give duplicate nodes |
| FolderListing.DocumentNode | HubTree.cs:234 | a leaf `bim360documents` node with the composite id and the URL-decoded name of the included entry |
| FolderListing.CompositeId | HubTree.cs:229-233 | `item\|version\|viewable` (its three parts are recovered by CompositeIdParts) |
| FolderListing.JsonArrayText | HubTree.cs:202 | the indented JSON text of the restriction (every listed type occurs in it, by ListedTypesOccur) |
| FolderListing.FolderContentsOfAddress | HubTree.cs:179-192 | the folder's metadata and contents are fetched with the project id three segments from the end and the folder id last, and the metadata's restriction filters the contents |
| FolderListing.DocumentNodesMembership | HubTree.cs:208-236 | a node is produced for a document exactly when some included entry refers to it and some File record shares that entry's source file name; the node is built from that triple |
| FolderListing.UnmatchedDocumentOmitted | HubTree.cs:208-238 | a document with no matching (included entry, File record) pair produces no node |
| FolderListing.SingleMatchDocument | HubTree.cs:208-236 | a single referring entry with a single matching File record yields exactly one node |
| FolderListing.CompositeIdParts | HubTree.cs:229-233 | split on `\|`, a document node id gives back the document id, the encoded tip version and the viewable id, and the middle part decodes back to the UTF-8 bytes of the tip version id |
| FolderListing.ListingMembership | HubTree.cs:198-246 | a listed node is the generic node of a kept non-Document record or a document node of a kept Document record, and every such node is listed |
| FolderListing.ListingInDataOrder | HubTree.cs:198-246 | the nodes of each record sit between those of the records before it and those after it |
| Versions.FormatTimestamp | HubTree.cs:277 | `dd/MM/yy HH:mm:ss` in 17 characters (its fields read back by TimestampRoundTrip) |
| Versions.Pad2 | HubTree.cs:277 | a two-digit field is two decimal digits reading back as its value |
| Versions.TimestampRoundTrip | HubTree.cs:277 | the `dd/MM/yy HH:mm:ss` text gives back the day, month, year within the century, hour, minute and second |
| Versions.TimestampExample | HubTree.cs:277 | 5 March 2021 at 14:30:00 is shown as `05/03/21 14:30:00` |
| Versions.VersionNumber | HubTree.cs:268 | an index fault exactly when the version id has no `=`; otherwise a number free of `=` |
| Versions.VersionNumberOf | HubTree.cs:268 | for an id `<prefix>=<number><rest>` with no `=` in prefix or number and a rest that is empty or starts with `=`, the number is read |
| Versions.VersionNumberIsSecondPiece | HubTree.cs:268 | for every id with a `=`, the number is the text right after the first `=`, running to the end of the id or to the next `=` |
| Versions.VersionLabel | HubTree.cs:267-277 | `v<number>: <timestamp> by <user>`, failing when the id has no `=` (instantiated by VersionLabelOf) |
| Versions.VersionLabelOf | HubTree.cs:267-277 | a version with id `<prefix>=<number><rest>` (rest empty or starting with `=`) is labelled `v<number>: <timestamp> by <user>` |
| Versions.VersionId | HubTree.cs:271-273 | the derivative id when there is one; otherwise the standard encoding of the version id's UTF-8 bytes with `/` written as `_`, which decodes back to them |
| Versions.VersionNode | HubTree.cs:268-280 | fails exactly when the version id has no `=`, and then with an index fault; otherwise a leaf `versions` node with the version's id and label |
| Versions.VersionNodes | HubTree.cs:265-281 | the version nodes in listing order, raising at the first id without `=` (characterised by VersionNodesPerVersion) |
| Versions.VersionNodesPerVersion | HubTree.cs:265-281 | the listing fails exactly when some version id has no `=`, and then with an index fault; otherwise one leaf node per version, in order, with that version's id and label |
| Versions.ItemVersionsOf | HubTree.cs:251-284 | the children of an item; an address with fewer than two `/` raises an index fault, and every failure is an index fault |
| Versions.ItemVersionsOfAddress | HubTree.cs:260-264 | the versions are fetched with the project id three segments from the end and the item id last |
| Seqs.MapAllPerElement | HubTree.cs:265-281 | mapping with a fallible step fails exactly when the step fails on some element; otherwise each result is the step's result for that element |
| Seqs.MapAllError | HubTree.cs:265-281 | the error mapping stops with is the error the step gives on some element |
| Resolver.TreeNodes | HubTree.cs:53-79 | the children of a node: an id other than the root with no `/` raises an index fault; the other cases are the lemmas below |
| Resolver.Dispatch | HubTree.cs:65-78 | an unknown kind has no children, `hubs` always succeeds, and `projects` and `items` can fail only with an index fault |
| Resolver.RootListsHubs | HubTree.cs:59-60 | the root id lists exactly the hub nodes of the remote hubs |
| Resolver.SingleSegmentRaises | HubTree.cs:63-64 | an id other than the root with no `/` raises an index fault |
| Resolver.HubAddressListsProjects | HubTree.cs:67-68 | an address whose kind segment is `hubs` lists the projects of the hub it names |
| Resolver.ProjectAddressListsTopFolders | HubTree.cs:69-70 | an address whose kind segment is `projects` lists the project's top folders |
| Resolver.FolderAddressListsContents | HubTree.cs:71-72 | an address whose kind segment is `folders` lists the folder's filtered contents |
| Resolver.ItemAddressListsVersions | HubTree.cs:73-74 | an address whose kind segment is `items` lists the item's versions |
| Resolver.TwoSegmentAddressRaises | HubTree.cs:63-75 | a two-segment address of kind `projects`, `folders` or `items` raises an index fault |
| Resolver.UnknownKindHasNoChildren | HubTree.cs:65-78 | an address whose kind segment is none of the four kinds has no children |

## Left out

- Remote calls, the access token and `async`: every API call is a function
  field of `Remote`. Network failures and the service's own errors are not
  modelled.
- The payload members the code reads without a null check are required
  fields of the records. The exceptions a missing member would raise at run
  time are not modelled. `included` and the visible-types path are modelled
  as optional, because the code tests them.
- `Encoding.UTF8.GetBytes` and `WebUtility.UrlDecode` are parameters
  (`TextCodec.utf8`, `TextCodec.urlDecode`), because their tables are not
  part of this code.
- FolderListing.JsonArrayText: `JArray.ToString()` is modelled as indented
  JSON with `\r\n` line breaks and no escaping of quotes, backslashes or
  control characters. Other platform newlines and escaping are not modelled.
- Text.IndexOf: the code's `IndexOf(string)` uses culture-sensitive
  comparison. The model uses ordinal comparison, because culture tables are
  outside the code.
- Versions.FormatTimestamp: the culture's date and time separators are fixed
  to `/` and `:`. The date is given by its fields, so time zones, fractional
  seconds and calendar validity are not modelled.
- Versions.VersionId: a derivatives relationship that is present but holds a
  null id is folded into "no derivative".
- Base64.Decode is a reference decoder used only to state the round trips.
  It rejects text whose unused bits before padding are not zero, which
  section 3.5 of RFC 4648 allows a decoder to do.
- `JsTreeNode.PrintTree` writes to the console, and the `JsTreeNode`
  constructor taking `(id, nodes)` is used by nothing here. Both are left
  out.
