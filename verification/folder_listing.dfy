/** The contents of a folder: the folder's optional visible-types
    restriction, the filter it imposes on the `data` records, and the join
    that turns each BIM 360 Document record into nodes addressed through the
    matching File record and `included` entry. */
module FolderListing {
  import opened Wrappers
  import opened Text
  import opened Seqs
  import opened Records
  import Base64

  /** Collaboration (C4R) models are left out of a folder's declared visible
      types but must always be shown. */
  const C4RModelTag := "items:autodesk.bim360:C4RModel"
  const DocumentTag := "items:autodesk.bim360:Document"
  const NewLine := "\r\n"

  /** The folder metadata carries `types` at
      `attributes.extension.data.visibleTypes`, with every member on the way
      present and `data` an object rather than an array. */
  predicate DeclaresVisibleTypes(meta: FolderMeta, types: seq<string>) {
    && meta.attributes.Some?
    && meta.attributes.value.extension.Some?
    && meta.attributes.value.extension.value.data.Some?
    && meta.attributes.value.extension.value.data.value.ExtensionObject?
    && meta.attributes.value.extension.value.data.value.visibleTypes == Some(types)
  }

  /** The folder's visible-types restriction, extended with the C4R model
      tag, or None when the folder declares none. */
  function VisibleTypes(meta: FolderMeta): (r: Option<seq<string>>)
    ensures r.None? <==> forall types :: !DeclaresVisibleTypes(meta, types)
    ensures forall types :: DeclaresVisibleTypes(meta, types) ==> r == Some(types + [C4RModelTag])
  {
    match meta.attributes
    case Some(FolderAttributes(Some(FolderExtension(Some(ExtensionObject(Some(types))))))) =>
      assert DeclaresVisibleTypes(meta, types);
      Some(types + [C4RModelTag])
    case _ => None
  }

  /** The indented JSON text of a string array: each element quoted on its
      own line after a two-space indent, elements separated by commas. */
  function JsonArrayText(items: seq<string>): string {
    if |items| == 0 then "[]" else "[" + NewLine + JsonElements(items) + NewLine + "]"
  }

  function JsonElements(items: seq<string>): string
    requires |items| >= 1
    decreases |items|
  {
    var first := "  \"" + items[0] + "\"";
    if |items| == 1 then first else first + "," + NewLine + JsonElements(items[1..])
  }

  lemma {:induction false} ElementListed(items: seq<string>, k: int)
    requires 0 <= k < |items|
    ensures Contains(JsonElements(items), items[k])
    decreases |items|
  {
    var first := "  \"" + items[0] + "\"";
    if k == 0 {
      ContainsSlice("  \"", items[0], "\"");
      if |items| > 1 {
        ContainsWiden("", first, "," + NewLine + JsonElements(items[1..]), items[0]);
        assert "" + first + ("," + NewLine + JsonElements(items[1..])) == JsonElements(items);
      } else {
        assert "  \"" + items[0] + "\"" == JsonElements(items);
      }
    } else {
      ElementListed(items[1..], k - 1);
      ContainsWiden(first + "," + NewLine, JsonElements(items[1..]), "", items[k]);
      assert first + "," + NewLine + JsonElements(items[1..]) + "" == JsonElements(items);
    }
  }

  /** Every element of an array occurs in its JSON text. */
  lemma ListedTypesOccur(items: seq<string>)
    ensures forall k :: 0 <= k < |items| ==> Contains(JsonArrayText(items), items[k])
  {
    forall k | 0 <= k < |items| ensures Contains(JsonArrayText(items), items[k]) {
      ElementListed(items, k);
      ContainsWiden("[" + NewLine, JsonElements(items), NewLine + "]", items[k]);
      assert ("[" + NewLine) + JsonElements(items) + (NewLine + "]") == JsonArrayText(items);
    }
  }

  /** Whether a record of extension type `ext` is kept: it is skipped only
      when its type names no folder, a restriction is active, and the type
      does not occur in the restriction's JSON text. */
  function Kept(ext: string, visible: Option<seq<string>>): (keep: bool)
    ensures visible.None? ==> keep
    ensures Contains(ext, "Folder") ==> keep
    ensures visible.Some? && ext in visible.value ==> keep
    ensures !keep <==> !Contains(ext, "Folder") && visible.Some? && !Contains(JsonArrayText(visible.value), ext)
  {
    if visible.None? then
      true
    else
      ListedTypesOccur(visible.value);
      !(IndexOf(ext, "Folder") == -1 && !Contains(JsonArrayText(visible.value), ext))
  }

  predicate IsDocument(r: ContentRecord) {
    r.extensionType == DocumentTag
  }

  /** The included entry points back to the document: the document's id
      occurs in the entry's item id. */
  predicate RefersTo(inc: IncludedRecord, doc: ContentRecord) {
    IndexOf(inc.itemId, doc.id) != -1
  }

  /** The record is File-typed and has the included entry's source file name. */
  predicate IsFileFor(file: ContentRecord, inc: IncludedRecord) {
    IndexOf(file.extensionType, "File") != -1 && file.sourceFileName == inc.sourceFileName
  }

  /** `item|version|viewable`: the document's id, the file's tip version id
      encoded by Base64Encode, and the viewable id of the included entry. */
  function CompositeId(doc: ContentRecord, inc: IncludedRecord, file: ContentRecord, codec: TextCodec): string {
    doc.id + "|" + Base64.Base64Encode(file.tipVersionId, codec.utf8) + "|" + inc.viewableId
  }

  /** The leaf node for a document, named after the included entry. */
  function DocumentNode(doc: ContentRecord, inc: IncludedRecord, file: ContentRecord, codec: TextCodec): JsTreeNode {
    JsTreeNode(CompositeId(doc, inc, file, codec), codec.urlDecode(inc.name), "bim360documents", false)
  }

  function FileStep(doc: ContentRecord, inc: IncludedRecord, codec: TextCodec): ContentRecord -> seq<JsTreeNode> {
    file => if IsFileFor(file, inc) then [DocumentNode(doc, inc, file, codec)] else []
  }

  function IncludedStep(doc: ContentRecord, data: seq<ContentRecord>, codec: TextCodec): IncludedRecord -> seq<JsTreeNode> {
    inc => if RefersTo(inc, doc) then FlatMap(data, FileStep(doc, inc, codec)) else []
  }

  /** The nodes for a document: for each included entry referring to it, in
      order, one node per File record of the same source file name, in
      order. */
  function DocumentNodes(doc: ContentRecord, data: seq<ContentRecord>, included: seq<IncludedRecord>, codec: TextCodec): seq<JsTreeNode> {
    FlatMap(included, IncludedStep(doc, data, codec))
  }

  /** The node for any record other than a Document: addressed by its self
      link, typed by its raw `type`, expandable. */
  function GenericNode(r: ContentRecord): JsTreeNode {
    JsTreeNode(r.selfHref, r.displayName, r.rawType, true)
  }

  function RecordNodes(r: ContentRecord, data: seq<ContentRecord>, included: seq<IncludedRecord>,
                       visible: Option<seq<string>>, codec: TextCodec): seq<JsTreeNode> {
    if !Kept(r.extensionType, visible) then []
    else if IsDocument(r) then DocumentNodes(r, data, included, codec)
    else [GenericNode(r)]
  }

  function RecordStep(data: seq<ContentRecord>, included: seq<IncludedRecord>,
                      visible: Option<seq<string>>, codec: TextCodec): ContentRecord -> seq<JsTreeNode> {
    r => RecordNodes(r, data, included, visible, codec)
  }

  /** Some kept record is a Document, so the listing reads `included`. */
  predicate ReadsIncluded(data: seq<ContentRecord>, visible: Option<seq<string>>) {
    exists k | 0 <= k < |data| :: Kept(data[k].extensionType, visible) && IsDocument(data[k])
  }

  /** The nodes of a folder listing, one group per `data` record in order;
      reading an absent `included` collection raises. */
  function Listing(contents: FolderContents, visible: Option<seq<string>>, codec: TextCodec): (r: Result<seq<JsTreeNode>, Fault>)
    ensures r.Failure? <==> contents.included.None? && ReadsIncluded(contents.data, visible)
    ensures r.Failure? ==> r.error == NullReference
  {
    if contents.included.None? && ReadsIncluded(contents.data, visible) then
      Failure(NullReference)
    else
      var included := contents.included.GetOr([]);
      Success(FlatMap(contents.data, RecordStep(contents.data, included, visible, codec)))
  }

  /** The innermost loop of the listing: the nodes one included entry of a
      document yields, scanning `data` for File records. */
  method CollectFileNodes(doc: ContentRecord, inc: IncludedRecord, data: seq<ContentRecord>, codec: TextCodec)
    returns (found: seq<JsTreeNode>)
    ensures found == FlatMap(data, FileStep(doc, inc, codec))
  {
    found := [];
    for k := 0 to |data|
      invariant found == FlatMap(data[..k], FileStep(doc, inc, codec))
    {
      var file := data[k];
      assert data[..k + 1][..k] == data[..k];
      if IndexOf(file.extensionType, "File") == -1 {
        continue;
      }
      if file.sourceFileName == inc.sourceFileName {
        found := found + [DocumentNode(doc, inc, file, codec)];
      }
    }
    assert data[..|data|] == data;
  }

  /** The middle loop of the listing: the nodes a document yields, scanning
      `included` for entries that refer to it. */
  method CollectDocumentNodes(doc: ContentRecord, data: seq<ContentRecord>, included: seq<IncludedRecord>, codec: TextCodec)
    returns (found: seq<JsTreeNode>)
    ensures found == DocumentNodes(doc, data, included, codec)
  {
    found := [];
    for j := 0 to |included|
      invariant found == FlatMap(included[..j], IncludedStep(doc, data, codec))
    {
      var inc := included[j];
      assert included[..j + 1][..j] == included[..j];
      if IndexOf(inc.itemId, doc.id) != -1 {
        var fileNodes := CollectFileNodes(doc, inc, data, codec);
        found := found + fileNodes;
      }
    }
    assert included[..|included|] == included;
  }

  lemma ListingStep(data: seq<ContentRecord>, i: int, included: seq<IncludedRecord>,
                    visible: Option<seq<string>>, codec: TextCodec)
    requires 0 <= i < |data|
    ensures FlatMap(data[..i + 1], RecordStep(data, included, visible, codec))
         == FlatMap(data[..i], RecordStep(data, included, visible, codec)) + RecordNodes(data[i], data, included, visible, codec)
  {
    assert data[..i + 1][..i] == data[..i];
  }

  lemma ReadsIncludedStep(data: seq<ContentRecord>, i: int, visible: Option<seq<string>>)
    requires 0 <= i < |data|
    ensures ReadsIncluded(data[..i + 1], visible)
        <==> ReadsIncluded(data[..i], visible) || (Kept(data[i].extensionType, visible) && IsDocument(data[i]))
  {
    var prefix := data[..i + 1];
    if ReadsIncluded(prefix, visible) {
      var k :| 0 <= k < |prefix| && Kept(prefix[k].extensionType, visible) && IsDocument(prefix[k]);
      if k < i {
        assert data[..i][k] == prefix[k];
      }
    }
    if ReadsIncluded(data[..i], visible) {
      var k :| 0 <= k < i && Kept(data[..i][k].extensionType, visible) && IsDocument(data[..i][k]);
      assert prefix[k] == data[..i][k];
    }
    if Kept(data[i].extensionType, visible) && IsDocument(data[i]) {
      assert prefix[i] == data[i];
    }
  }

  /** The outer loop of the listing over `data`; it computes Listing. */
  method CollectNodes(contents: FolderContents, visible: Option<seq<string>>, codec: TextCodec)
    returns (r: Result<seq<JsTreeNode>, Fault>)
    ensures r == Listing(contents, visible, codec)
  {
    var data := contents.data;
    var included := contents.included.GetOr([]);
    var nodes: seq<JsTreeNode> := [];
    for i := 0 to |data|
      invariant nodes == FlatMap(data[..i], RecordStep(data, included, visible, codec))
      invariant contents.included.None? ==> !ReadsIncluded(data[..i], visible)
    {
      var item := data[i];
      var extension := item.extensionType;
      ListingStep(data, i, included, visible, codec);
      ReadsIncludedStep(data, i, visible);
      if !Kept(extension, visible) {
        continue;
      }
      if extension == DocumentTag {
        if contents.included.None? {
          return Failure(NullReference);
        }
        var documentNodes := CollectDocumentNodes(item, data, included, codec);
        nodes := nodes + documentNodes;
      } else {
        nodes := nodes + [GenericNode(item)];
      }
    }
    assert data[..|data|] == data;
    r := Success(nodes);
  }

  /** The children of a folder node: the folder id is the last segment of
      the address and the project id three segments from the end; the
      folder's metadata supplies the visible-types restriction and its
      contents the records. An address of fewer than three segments raises. */
  function FolderContentsOf(href: string, remote: Remote, codec: TextCodec): (r: Result<seq<JsTreeNode>, Fault>)
    ensures multiset(href)['/'] < 2 ==> r == Failure(IndexOutOfRange)
    ensures multiset(href)['/'] >= 2 && r.Failure? ==> r.error == NullReference
  {
    var segments := Split(href, '/');
    SplitCount(href, '/');
    if |segments| < 3 then
      Failure(IndexOutOfRange)
    else
      var folderId := segments[|segments| - 1];
      var projectId := segments[|segments| - 3];
      var visible := VisibleTypes(remote.folder(projectId, folderId));
      Listing(remote.folderContents(projectId, folderId), visible, codec)
  }

  /** In an address `.../<projectId>/<kind>/<folderId>` the project id and
      folder id are read three segments from the end and last. */
  lemma FolderContentsOfAddress(prefix: seq<string>, projectId: string, kind: string, folderId: string,
                                remote: Remote, codec: TextCodec)
    requires SeparatorFree(prefix, '/') && SeparatorFree([projectId, kind, folderId], '/')
    ensures FolderContentsOf(Join(prefix + [projectId, kind, folderId], '/'), remote, codec)
         == Listing(remote.folderContents(projectId, folderId), VisibleTypes(remote.folder(projectId, folderId)), codec)
  {
    SplitJoinAddress(prefix, [projectId, kind, folderId], '/');
  }

  /** Whatever restriction a folder declares, C4R models are kept. */
  lemma C4RModelAlwaysKept(meta: FolderMeta)
    ensures Kept(C4RModelTag, VisibleTypes(meta))
  {
    var visible := VisibleTypes(meta);
    if visible.Some? {
      assert visible.value[|visible.value| - 1] == C4RModelTag;
    }
  }

  /** A document node is produced exactly for a pair of an included entry
      referring to the document and a File record with that entry's source
      file name. */
  lemma DocumentNodesMembership(doc: ContentRecord, data: seq<ContentRecord>, included: seq<IncludedRecord>,
                                codec: TextCodec, n: JsTreeNode)
    ensures n in DocumentNodes(doc, data, included, codec) <==>
              exists i, j :: 0 <= i < |included| && 0 <= j < |data|
                             && RefersTo(included[i], doc) && IsFileFor(data[j], included[i])
                             && n == DocumentNode(doc, included[i], data[j], codec)
  {
    FlatMapMember(included, IncludedStep(doc, data, codec), n);
    forall i | 0 <= i < |included| && RefersTo(included[i], doc)
      ensures n in FlatMap(data, FileStep(doc, included[i], codec)) <==>
                exists j :: 0 <= j < |data| && IsFileFor(data[j], included[i])
                            && n == DocumentNode(doc, included[i], data[j], codec)
    {
      FlatMapMember(data, FileStep(doc, included[i], codec), n);
    }
  }

  /** A document with no (included entry, File record) pair yields no node. */
  lemma UnmatchedDocumentOmitted(doc: ContentRecord, data: seq<ContentRecord>, included: seq<IncludedRecord>, codec: TextCodec)
    requires forall i, j :: 0 <= i < |included| && 0 <= j < |data| && RefersTo(included[i], doc)
                            ==> !IsFileFor(data[j], included[i])
    ensures DocumentNodes(doc, data, included, codec) == []
  {
    forall i | 0 <= i < |included| ensures IncludedStep(doc, data, codec)(included[i]) == [] {
      if RefersTo(included[i], doc) {
        FlatMapNone(data, FileStep(doc, included[i], codec));
      }
    }
    FlatMapNone(included, IncludedStep(doc, data, codec));
  }

  /** One included entry referring to the document and one File record
      matching it give exactly one node. */
  lemma SingleMatchDocument(doc: ContentRecord, data: seq<ContentRecord>, included: seq<IncludedRecord>,
                            codec: TextCodec, i: int, j: int)
    requires 0 <= i < |included| && 0 <= j < |data|
    requires RefersTo(included[i], doc) && IsFileFor(data[j], included[i])
    requires forall m :: 0 <= m < |included| && m != i ==> !RefersTo(included[m], doc)
    requires forall m :: 0 <= m < |data| && m != j ==> !IsFileFor(data[m], included[i])
    ensures DocumentNodes(doc, data, included, codec) == [DocumentNode(doc, included[i], data[j], codec)]
  {
    FlatMapSingle(data, FileStep(doc, included[i], codec), j);
    FlatMapSingle(included, IncludedStep(doc, data, codec), i);
  }

  /** The matching File records of an included entry among the first `m`
      records of `data`, each tagged with the entry's position `i`. */
  ghost function FilePairs(data: seq<ContentRecord>, inc: IncludedRecord, i: int, m: int): set<(int, int)>
    requires 0 <= m <= |data|
  {
    set j | 0 <= j < m && IsFileFor(data[j], inc) :: (i, j)
  }

  lemma FilePairsStep(data: seq<ContentRecord>, inc: IncludedRecord, i: int, m: int)
    requires 0 <= m < |data|
    ensures FilePairs(data, inc, i, m + 1)
         == FilePairs(data, inc, i, m) + (if IsFileFor(data[m], inc) then {(i, m)} else {})
    ensures (i, m) !in FilePairs(data, inc, i, m)
  {
  }

  /** The scan of one included entry yields one node per matching File
      record among the first `m` records. */
  lemma {:induction false} FileNodesCount(doc: ContentRecord, inc: IncludedRecord, data: seq<ContentRecord>,
                                          codec: TextCodec, i: int, m: int)
    requires 0 <= m <= |data|
    ensures |FlatMap(data[..m], FileStep(doc, inc, codec))| == |FilePairs(data, inc, i, m)|
    decreases m
  {
    if m > 0 {
      FileNodesCount(doc, inc, data, codec, i, m - 1);
      assert data[..m][..m - 1] == data[..m - 1];
      FilePairsStep(data, inc, i, m - 1);
    }
  }

  /** The (included entry, File record) position pairs the join matches,
      for the first `n` included entries. */
  ghost function MatchPairs(doc: ContentRecord, data: seq<ContentRecord>, included: seq<IncludedRecord>, n: int): set<(int, int)>
    requires 0 <= n <= |included|
  {
    set i, j | 0 <= i < n && 0 <= j < |data| && RefersTo(included[i], doc) && IsFileFor(data[j], included[i]) :: (i, j)
  }

  lemma MatchPairsStep(doc: ContentRecord, data: seq<ContentRecord>, included: seq<IncludedRecord>, n: int)
    requires 0 <= n < |included|
    ensures MatchPairs(doc, data, included, n + 1)
         == MatchPairs(doc, data, included, n)
            + (if RefersTo(included[n], doc) then FilePairs(data, included[n], n, |data|) else {})
    ensures MatchPairs(doc, data, included, n) * FilePairs(data, included[n], n, |data|) == {}
  {
    var before, here := MatchPairs(doc, data, included, n), FilePairs(data, included[n], n, |data|);
    forall p | p in before ensures p !in here {
    }
  }

  /** The join yields exactly one node per matching (included entry, File
      record) pair: duplicates among the File records or the included
      entries give duplicate nodes. */
  lemma {:induction false} DocumentNodesCount(doc: ContentRecord, data: seq<ContentRecord>, included: seq<IncludedRecord>,
                                              codec: TextCodec, n: int)
    requires 0 <= n <= |included|
    ensures |FlatMap(included[..n], IncludedStep(doc, data, codec))| == |MatchPairs(doc, data, included, n)|
    decreases n
  {
    if n > 0 {
      DocumentNodesCount(doc, data, included, codec, n - 1);
      assert included[..n][..n - 1] == included[..n - 1];
      MatchPairsStep(doc, data, included, n - 1);
      if RefersTo(included[n - 1], doc) {
        FileNodesCount(doc, included[n - 1], data, codec, n - 1, |data|);
        assert data[..|data|] == data;
      }
    }
  }

  /** The number of document nodes is the number of matching pairs. */
  lemma DocumentNodesMultiplicity(doc: ContentRecord, data: seq<ContentRecord>, included: seq<IncludedRecord>, codec: TextCodec)
    ensures |DocumentNodes(doc, data, included, codec)|
         == |set i, j | 0 <= i < |included| && 0 <= j < |data|
                        && RefersTo(included[i], doc) && IsFileFor(data[j], included[i]) :: (i, j)|
  {
    DocumentNodesCount(doc, data, included, codec, |included|);
    assert included[..|included|] == included;
  }

  lemma JoinThree(a: string, b: string, c: string, sep: char)
    ensures Join([a, b, c], sep) == a + [sep] + b + [sep] + c
  {
    assert [a, b, c][1..] == [b, c];
    assert [b, c][1..] == [c];
    assert Join([c], sep) == c;
    assert Join([b, c], sep) == b + [sep] + c;
    assert Join([a, b, c], sep) == a + [sep] + (b + [sep] + c);
  }

  /** Split on `|`, a document node's id gives back the document id, the
      encoded tip version id and the viewable id, and the middle part,
      with `_` mapped back to `/`, decodes to the tip version id's bytes. */
  lemma CompositeIdParts(doc: ContentRecord, inc: IncludedRecord, file: ContentRecord, codec: TextCodec)
    requires '|' !in doc.id && '|' !in inc.viewableId
    ensures var parts := Split(CompositeId(doc, inc, file, codec), '|');
            && |parts| == 3
            && parts[0] == doc.id
            && parts[1] == Base64.Base64Encode(file.tipVersionId, codec.utf8)
            && parts[2] == inc.viewableId
            && Base64.Decode(Replace(parts[1], '_', '/')) == Some(codec.utf8(file.tipVersionId))
  {
    var version := Base64.Base64Encode(file.tipVersionId, codec.utf8);
    var pieces := [doc.id, version, inc.viewableId];
    JoinThree(doc.id, version, inc.viewableId, '|');
    assert CompositeId(doc, inc, file, codec) == Join(pieces, '|');
    assert SeparatorFree(pieces, '|');
    SplitJoin(pieces, '|');
  }

  /** A listing node is either the generic node of a kept non-Document
      record or one of the document nodes of a kept Document record. */
  lemma ListingMembership(contents: FolderContents, visible: Option<seq<string>>, codec: TextCodec, n: JsTreeNode)
    requires Listing(contents, visible, codec).Success?
    ensures var data, included := contents.data, contents.included.GetOr([]);
            n in Listing(contents, visible, codec).value <==>
              exists k :: 0 <= k < |data| && Kept(data[k].extensionType, visible)
                          && (if IsDocument(data[k]) then n in DocumentNodes(data[k], data, included, codec)
                              else n == GenericNode(data[k]))
  {
    var data, included := contents.data, contents.included.GetOr([]);
    FlatMapMember(data, RecordStep(data, included, visible, codec), n);
  }

  /** Listing order follows `data`: the nodes of record `k` come after those
      of the records before it and before those of the records after it. */
  lemma ListingInDataOrder(contents: FolderContents, visible: Option<seq<string>>, codec: TextCodec, k: int)
    requires Listing(contents, visible, codec).Success?
    requires 0 <= k < |contents.data|
    ensures var data, included := contents.data, contents.included.GetOr([]);
            var step := RecordStep(data, included, visible, codec);
            Listing(contents, visible, codec).value
              == FlatMap(data[..k], step) + RecordNodes(data[k], data, included, visible, codec) + FlatMap(data[k + 1..], step)
  {
    var data, included := contents.data, contents.included.GetOr([]);
    var step := RecordStep(data, included, visible, codec);
    assert data == data[..k + 1] + data[k + 1..];
    FlatMapAppend(data[..k + 1], data[k + 1..], step);
    ListingStep(data, k, included, visible, codec);
  }
}
