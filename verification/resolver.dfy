/** Resolution of a tree node id to the node's children. The root id `#`
    lists the hubs; any other id is an address whose second-to-last segment
    names the kind of resource it denotes. */
module Resolver {
  import opened Wrappers
  import opened Text
  import opened Records
  import opened Listings
  import opened FolderListing
  import opened Versions

  const RootId := "#"

  /** The children of the node with id `id`: the hubs for the root; for an
      address, the listing its resource kind selects, and nothing for a kind
      the tree does not know. An address of one segment raises. */
  function TreeNodes(id: string, remote: Remote, codec: TextCodec): (r: Result<seq<JsTreeNode>, Fault>)
    ensures id != RootId && '/' !in id ==> r == Failure(IndexOutOfRange)
  {
    SplitCount(id, '/');
    if id == RootId then
      Success(HubNodes(remote.hubs))
    else
      var segments := Split(id, '/');
      if |segments| < 2 then
        Failure(IndexOutOfRange)
      else
        Dispatch(segments[|segments| - 2], id, remote, codec)
  }

  /** The listing a resource kind selects for the address `id`. */
  function Dispatch(resource: string, id: string, remote: Remote, codec: TextCodec): (r: Result<seq<JsTreeNode>, Fault>)
    ensures resource != "hubs" && resource != "projects" && resource != "folders" && resource != "items" ==> r == Success([])
    ensures resource == "hubs" ==> r.Success?
    ensures resource == "projects" && r.Failure? ==> r.error == IndexOutOfRange
    ensures resource == "items" && r.Failure? ==> r.error == IndexOutOfRange
  {
    if resource == "hubs" then Success(HubProjects(id, remote))
    else if resource == "projects" then ProjectContents(id, remote)
    else if resource == "folders" then FolderContentsOf(id, remote, codec)
    else if resource == "items" then ItemVersionsOf(id, remote, codec)
    else Success([])
  }

  /** An id built from two or more segments is never the root id. */
  lemma AddressIsNotRoot(parts: seq<string>)
    requires |parts| >= 2
    ensures Join(parts, '/') != RootId
  {
    JoinHasSeparator(parts, '/');
    assert '/' !in RootId;
  }

  /** The root lists the hub nodes: one per hub, in order (HubNodes). */
  lemma RootListsHubs(remote: Remote, codec: TextCodec)
    ensures TreeNodes(RootId, remote, codec) == Success(HubNodes(remote.hubs))
  {
  }

  /** Any other id without a `/` has no second-to-last segment and raises. */
  lemma SingleSegmentRaises(id: string, remote: Remote, codec: TextCodec)
    requires id != RootId && '/' !in id
    ensures TreeNodes(id, remote, codec) == Failure(IndexOutOfRange)
  {
    SplitWithoutSeparator(id, '/');
  }

  /** `.../hubs/<hubId>` lists the projects of that hub. */
  lemma HubAddressListsProjects(prefix: seq<string>, hubId: string, remote: Remote, codec: TextCodec)
    requires SeparatorFree(prefix, '/') && '/' !in hubId
    ensures TreeNodes(Join(prefix + ["hubs", hubId], '/'), remote, codec)
         == Success(ProjectNodes(remote.hubProjects(hubId)))
  {
    AddressIsNotRoot(prefix + ["hubs", hubId]);
    SplitJoinAddress(prefix, ["hubs", hubId], '/');
    assert prefix + ["hubs", hubId] == (prefix + ["hubs"]) + [hubId];
    assert SeparatorFree(prefix + ["hubs"], '/') by {
      assert forall k :: 0 <= k < |prefix| ==> (prefix + ["hubs"])[k] == prefix[k];
    }
    HubProjectsOfAddress(prefix + ["hubs"], hubId, remote);
  }

  /** `.../<hubId>/projects/<projectId>` lists the top folders of that
      project of that hub. */
  lemma ProjectAddressListsTopFolders(prefix: seq<string>, hubId: string, projectId: string, remote: Remote, codec: TextCodec)
    requires SeparatorFree(prefix, '/') && '/' !in hubId && '/' !in projectId
    ensures TreeNodes(Join(prefix + [hubId, "projects", projectId], '/'), remote, codec)
         == Success(TopFolderNodes(remote.topFolders(hubId, projectId)))
  {
    AddressIsNotRoot(prefix + [hubId, "projects", projectId]);
    SplitJoinAddress(prefix, [hubId, "projects", projectId], '/');
    ProjectContentsOfAddress(prefix, hubId, "projects", projectId, remote);
  }

  /** `.../<projectId>/folders/<folderId>` lists that folder, filtered by
      its own visible-types restriction. */
  lemma FolderAddressListsContents(prefix: seq<string>, projectId: string, folderId: string, remote: Remote, codec: TextCodec)
    requires SeparatorFree(prefix, '/') && '/' !in projectId && '/' !in folderId
    ensures TreeNodes(Join(prefix + [projectId, "folders", folderId], '/'), remote, codec)
         == Listing(remote.folderContents(projectId, folderId), VisibleTypes(remote.folder(projectId, folderId)), codec)
  {
    AddressIsNotRoot(prefix + [projectId, "folders", folderId]);
    SplitJoinAddress(prefix, [projectId, "folders", folderId], '/');
    FolderContentsOfAddress(prefix, projectId, "folders", folderId, remote, codec);
  }

  /** `.../<projectId>/items/<itemId>` lists the versions of that item. */
  lemma ItemAddressListsVersions(prefix: seq<string>, projectId: string, itemId: string, remote: Remote, codec: TextCodec)
    requires SeparatorFree(prefix, '/') && '/' !in projectId && '/' !in itemId
    ensures TreeNodes(Join(prefix + [projectId, "items", itemId], '/'), remote, codec)
         == VersionNodes(remote.itemVersions(projectId, itemId), codec)
  {
    AddressIsNotRoot(prefix + [projectId, "items", itemId]);
    SplitJoinAddress(prefix, [projectId, "items", itemId], '/');
    ItemVersionsOfAddress(prefix, projectId, "items", itemId, remote, codec);
  }

  /** `projects/<id>`, `folders/<id>` and `items/<id>` have no segment three
      from the end to read and raise. */
  lemma TwoSegmentAddressRaises(kind: string, id: string, remote: Remote, codec: TextCodec)
    requires kind == "projects" || kind == "folders" || kind == "items"
    requires '/' !in id
    ensures TreeNodes(Join([kind, id], '/'), remote, codec) == Failure(IndexOutOfRange)
  {
    var address := Join([kind, id], '/');
    AddressIsNotRoot([kind, id]);
    assert '/' !in kind;
    SplitJoin([kind, id], '/');
    TwoSegmentsRaise(address, kind, remote, codec);
  }

  lemma TwoSegmentsRaise(address: string, kind: string, remote: Remote, codec: TextCodec)
    requires kind == "projects" || kind == "folders" || kind == "items"
    requires address != RootId
    requires |Split(address, '/')| == 2 && Split(address, '/')[0] == kind
    ensures TreeNodes(address, remote, codec) == Failure(IndexOutOfRange)
  {
  }

  /** An address whose second-to-last segment names no known resource kind
      has no children. */
  lemma UnknownKindHasNoChildren(prefix: seq<string>, kind: string, id: string, remote: Remote, codec: TextCodec)
    requires SeparatorFree(prefix, '/') && '/' !in kind && '/' !in id
    requires kind != "hubs" && kind != "projects" && kind != "folders" && kind != "items"
    ensures TreeNodes(Join(prefix + [kind, id], '/'), remote, codec) == Success([])
  {
    AddressIsNotRoot(prefix + [kind, id]);
    SplitJoinAddress(prefix, [kind, id], '/');
  }
}
