/** The three plain listing levels: hubs, the projects of a hub, and the top
    folders of a project. Each entry becomes one expandable node, in the
    order the endpoint returns them. */
module Listings {
  import opened Wrappers
  import opened Text
  import opened Records

  const CoreHubTag := "hubs:autodesk.core:Hub"
  const PersonalHubTag := "hubs:autodesk.a360:PersonalHub"
  const Bim360AccountTag := "hubs:autodesk.bim360:Account"
  const CoreProjectTag := "projects:autodesk.core:Project"
  const Bim360ProjectTag := "projects:autodesk.bim360:Project"

  /** The node type of a hub, from its extension type; any tag other than
      the three known ones is shown as a core hub. */
  function HubType(extensionType: string): (t: string)
    ensures t == "personalHub" <==> extensionType == PersonalHubTag
    ensures t == "bim360Hubs" <==> extensionType == Bim360AccountTag
    ensures t == "hubs" <==> extensionType != PersonalHubTag && extensionType != Bim360AccountTag
  {
    if extensionType == CoreHubTag then "hubs"
    else if extensionType == PersonalHubTag then "personalHub"
    else if extensionType == Bim360AccountTag then "bim360Hubs"
    else "hubs"
  }

  /** A hub node; it is expandable unless its type is "unsupported". */
  function HubNode(hub: Resource): JsTreeNode {
    var nodeType := HubType(hub.extensionType);
    JsTreeNode(hub.selfHref, hub.name, nodeType, !(nodeType == "unsupported"))
  }

  /** One node per hub, in listing order; no hub type is "unsupported", so
      every hub node is expandable. */
  function HubNodes(hubs: seq<Resource>): (nodes: seq<JsTreeNode>)
    ensures |nodes| == |hubs|
    ensures forall i :: 0 <= i < |hubs| ==>
              && nodes[i].id == hubs[i].selfHref
              && nodes[i].text == hubs[i].name
              && nodes[i].nodeType == HubType(hubs[i].extensionType)
              && nodes[i].children
  {
    seq(|hubs|, i requires 0 <= i < |hubs| => HubNode(hubs[i]))
  }

  /** The node type of a project, from its extension type; unknown tags give
      the generic "projects". */
  function ProjectType(extensionType: string): (t: string)
    ensures t == "a360projects" <==> extensionType == CoreProjectTag
    ensures t == "bim360projects" <==> extensionType == Bim360ProjectTag
    ensures t == "projects" <==> extensionType != CoreProjectTag && extensionType != Bim360ProjectTag
  {
    if extensionType == CoreProjectTag then "a360projects"
    else if extensionType == Bim360ProjectTag then "bim360projects"
    else "projects"
  }

  function ProjectNode(project: Resource): JsTreeNode {
    JsTreeNode(project.selfHref, project.name, ProjectType(project.extensionType), true)
  }

  /** One expandable node per project, in listing order. */
  function ProjectNodes(projects: seq<Resource>): (nodes: seq<JsTreeNode>)
    ensures |nodes| == |projects|
    ensures forall i :: 0 <= i < |projects| ==>
              && nodes[i].id == projects[i].selfHref
              && nodes[i].text == projects[i].name
              && nodes[i].nodeType == ProjectType(projects[i].extensionType)
              && nodes[i].children
  {
    seq(|projects|, i requires 0 <= i < |projects| => ProjectNode(projects[i]))
  }

  /** One expandable "folders" node per top folder, in listing order. */
  function TopFolderNodes(folders: seq<TopFolder>): (nodes: seq<JsTreeNode>)
    ensures |nodes| == |folders|
    ensures forall i :: 0 <= i < |folders| ==>
              nodes[i] == JsTreeNode(folders[i].selfHref, folders[i].displayName, "folders", true)
  {
    seq(|folders|, i requires 0 <= i < |folders| =>
      JsTreeNode(folders[i].selfHref, folders[i].displayName, "folders", true))
  }

  /** The children of a hub node: the projects of the hub named by the last
      segment of its address. */
  function HubProjects(href: string, remote: Remote): seq<JsTreeNode> {
    var segments := Split(href, '/');
    ProjectNodes(remote.hubProjects(segments[|segments| - 1]))
  }

  /** The children of a project node: the top folders of (hub, project),
      with the hub id three segments from the end of the address and the
      project id last; an address of fewer than three segments raises. */
  function ProjectContents(href: string, remote: Remote): (r: Result<seq<JsTreeNode>, Fault>)
    ensures r.Failure? <==> multiset(href)['/'] < 2
    ensures r.Failure? ==> r.error == IndexOutOfRange
  {
    var segments := Split(href, '/');
    SplitCount(href, '/');
    if |segments| < 3 then
      Failure(IndexOutOfRange)
    else
      var hubId := segments[|segments| - 3];
      var projectId := segments[|segments| - 1];
      Success(TopFolderNodes(remote.topFolders(hubId, projectId)))
  }

  /** The hub id is the last segment of the hub's address. */
  lemma HubProjectsOfAddress(prefix: seq<string>, hubId: string, remote: Remote)
    requires SeparatorFree(prefix, '/') && '/' !in hubId
    ensures HubProjects(Join(prefix + [hubId], '/'), remote) == ProjectNodes(remote.hubProjects(hubId))
  {
    SplitJoinAddress(prefix, [hubId], '/');
  }

  /** In an address `.../<hubId>/<kind>/<projectId>` the hub id and project
      id are read three segments from the end and last. */
  lemma ProjectContentsOfAddress(prefix: seq<string>, hubId: string, kind: string, projectId: string, remote: Remote)
    requires SeparatorFree(prefix, '/') && SeparatorFree([hubId, kind, projectId], '/')
    ensures ProjectContents(Join(prefix + [hubId, kind, projectId], '/'), remote)
         == Success(TopFolderNodes(remote.topFolders(hubId, projectId)))
  {
    SplitJoinAddress(prefix, [hubId, kind, projectId], '/');
  }

  /** An address of two segments has no hub id to read. */
  lemma ProjectContentsShortAddress(kind: string, projectId: string, remote: Remote)
    requires '/' !in kind && '/' !in projectId
    ensures ProjectContents(Join([kind, projectId], '/'), remote) == Failure(IndexOutOfRange)
  {
    SplitJoin([kind, projectId], '/');
  }
}
