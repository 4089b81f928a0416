/** The versions of an item: one leaf node per version, labelled
    `v<N>: <dd/MM/yy HH:mm:ss> by <user>` and addressed by the version's
    derivative id, or by its own id in base64 when it has no derivative. */
module Versions {
  import opened Wrappers
  import opened Text
  import opened Records
  import opened Seqs
  import Base64

  function DigitValue(c: char): Option<int> {
    if '0' <= c <= '9' then Some(c as int - '0' as int) else None
  }

  /** The value of a two-digit decimal numeral. */
  function TwoDigitValue(s: string): Option<int>
    requires |s| == 2
  {
    match (DigitValue(s[0]), DigitValue(s[1]))
    case (Some(high), Some(low)) => Some(10 * high + low)
    case _ => None
  }

  /** `n` in two decimal digits, zero-padded. */
  function Pad2(n: int): (s: string)
    requires 0 <= n < 100
    ensures |s| == 2 && TwoDigitValue(s) == Some(n)
  {
    [('0' as int + n / 10) as char, ('0' as int + n % 10) as char]
  }

  /** The fields a `dd/MM/yy HH:mm:ss` timestamp shows. */
  datatype Stamp = Stamp(day: int, month: int, shortYear: int, hour: int, minute: int, second: int)

  /** A time in the form `dd/MM/yy HH:mm:ss`, with `/` as date separator. */
  function FormatTimestamp(t: DateTime): (s: string)
    ensures |s| == 17
  {
    Pad2(t.day) + "/" + Pad2(t.month) + "/" + Pad2(t.year % 100) + " "
      + Pad2(t.hour) + ":" + Pad2(t.minute) + ":" + Pad2(t.second)
  }

  /** Reads the fields back from `dd/MM/yy HH:mm:ss` text. */
  function ParseTimestamp(s: string): Option<Stamp> {
    if |s| != 17 || s[2] != '/' || s[5] != '/' || s[8] != ' ' || s[11] != ':' || s[14] != ':' then
      None
    else
      var day, month, year := TwoDigitValue(s[0..2]), TwoDigitValue(s[3..5]), TwoDigitValue(s[6..8]);
      var hour, minute, second := TwoDigitValue(s[9..11]), TwoDigitValue(s[12..14]), TwoDigitValue(s[15..17]);
      if day.None? || month.None? || year.None? || hour.None? || minute.None? || second.None? then
        None
      else
        Some(Stamp(day.value, month.value, year.value, hour.value, minute.value, second.value))
  }

  /** The timestamp text shows the day, month, year within the century,
      hour, minute and second, each recoverable from its position. */
  lemma TimestampRoundTrip(t: DateTime)
    ensures ParseTimestamp(FormatTimestamp(t))
         == Some(Stamp(t.day, t.month, t.year % 100, t.hour, t.minute, t.second))
  {
    var s := FormatTimestamp(t);
    assert s[0..2] == Pad2(t.day);
    assert s[3..5] == Pad2(t.month);
    assert s[6..8] == Pad2(t.year % 100);
    assert s[9..11] == Pad2(t.hour);
    assert s[12..14] == Pad2(t.minute);
    assert s[15..17] == Pad2(t.second);
  }

  /** The version number: the piece of the version id after its first `=`
      (up to any next `=`); an id without `=` has no such piece and raises. */
  function VersionNumber(id: string): (r: Result<string, Fault>)
    ensures r.Failure? <==> '=' !in id
    ensures r.Failure? ==> r.error == IndexOutOfRange
    ensures r.Success? ==> '=' !in r.value
  {
    var parts := Split(id, '=');
    SplitCount(id, '=');
    if |parts| < 2 then Failure(IndexOutOfRange) else Success(parts[1])
  }

  /** For an id `<prefix>=<number><rest>` where neither the prefix nor the
      number holds a `=` and the rest is empty or starts with `=`, the number
      is read. */
  lemma VersionNumberOf(prefix: string, number: string, rest: string)
    requires '=' !in prefix && '=' !in number && (rest == "" || rest[0] == '=')
    ensures VersionNumber(prefix + "=" + number + rest) == Success(number)
  {
    assert prefix + "=" + number + rest == prefix + ['='] + (number + rest);
    SplitCons(prefix, number + rest, '=');
    if rest == "" {
      assert number + rest == number;
      SplitWithoutSeparator(number, '=');
    } else {
      assert number + rest == number + ['='] + rest[1..];
      SplitCons(number, rest[1..], '=');
    }
  }

  /** An id with a `=` splits into at least two pieces, and the number is
      the second. */
  lemma VersionNumberIsPiece(id: string)
    requires '=' in id
    ensures |Split(id, '=')| >= 2
    ensures VersionNumber(id) == Success(Split(id, '=')[1])
  {
    SplitCount(id, '=');
    assert multiset(id)['='] > 0;
  }

  /** Conversely, for every id with a `=`, the number is the text right
      after the first `=`, running to the end or to the next `=`. */
  lemma VersionNumberIsSecondPiece(id: string)
    requires '=' in id
    ensures VersionNumber(id).Success?
    ensures FollowsFirst(id, '=', VersionNumber(id).value)
  {
    var parts := Split(id, '=');
    VersionNumberIsPiece(id);
    assert '=' !in parts[0] && '=' !in parts[1];
    assert Join(parts, '=') == id by {
      JoinSplit(id, '=');
    }
    SecondPieceOfJoin(id, parts, '=');
  }

  /** The label of a version: `v<N>: <timestamp> by <user>`. */
  function VersionLabel(v: VersionRecord): Result<string, Fault> {
    match VersionNumber(v.id)
    case Failure(e) => Failure(e)
    case Success(number) =>
      Success("v" + number + ": " + FormatTimestamp(v.lastModifiedTime) + " by " + v.lastModifiedUserName)
  }

  /** A version's node id: its derivative id, or, when it has none, its own
      id in the tree's base64 encoding, which decodes back to the id's bytes. */
  function VersionId(v: VersionRecord, codec: TextCodec): (id: string)
    ensures v.derivativeId.Some? ==> id == v.derivativeId.value
    ensures v.derivativeId.None? ==>
              && '/' !in id
              && Replace(id, '_', '/') == Base64.Encode(codec.utf8(v.id))
              && Base64.Decode(Replace(id, '_', '/')) == Some(codec.utf8(v.id))
  {
    match v.derivativeId
    case Some(urn) => urn
    case None => Base64.Base64Encode(v.id, codec.utf8)
  }

  /** The leaf node of a version; a version id without `=` raises. */
  function VersionNode(v: VersionRecord, codec: TextCodec): (r: Result<JsTreeNode, Fault>)
    ensures r.Failure? <==> '=' !in v.id
    ensures r.Failure? ==> r.error == IndexOutOfRange
    ensures r.Success? ==>
              && r.value.id == VersionId(v, codec)
              && VersionLabel(v) == Success(r.value.text)
              && r.value.nodeType == "versions"
              && !r.value.children
  {
    match VersionLabel(v)
    case Failure(e) => Failure(e)
    case Success(text) => Success(JsTreeNode(VersionId(v, codec), text, "versions", false))
  }

  /** The version nodes, in listing order; the first version whose id has
      no `=` makes the listing raise. */
  function VersionNodes(versions: seq<VersionRecord>, codec: TextCodec): Result<seq<JsTreeNode>, Fault> {
    MapAll(versions, (v: VersionRecord) => VersionNode(v, codec))
  }

  /** The listing raises exactly when some version id has no `=`; otherwise
      it has one leaf "versions" node per version, in listing order. */
  lemma VersionNodesPerVersion(versions: seq<VersionRecord>, codec: TextCodec)
    ensures VersionNodes(versions, codec).Failure? <==> exists k :: 0 <= k < |versions| && '=' !in versions[k].id
    ensures VersionNodes(versions, codec).Failure? ==> VersionNodes(versions, codec).error == IndexOutOfRange
    ensures VersionNodes(versions, codec).Success? ==>
              && |VersionNodes(versions, codec).value| == |versions|
              && forall k :: 0 <= k < |versions| ==>
                   && VersionNodes(versions, codec).value[k].id == VersionId(versions[k], codec)
                   && VersionLabel(versions[k]) == Success(VersionNodes(versions, codec).value[k].text)
                   && VersionNodes(versions, codec).value[k].nodeType == "versions"
                   && !VersionNodes(versions, codec).value[k].children
  {
    var step := (v: VersionRecord) => VersionNode(v, codec);
    MapAllPerElement(versions, step);
    var r := VersionNodes(versions, codec);
    if r.Failure? {
      MapAllError(versions, step);
      var k :| 0 <= k < |versions| && step(versions[k]) == Failure(r.error);
      assert '=' !in versions[k].id;
    } else {
      forall k | 0 <= k < |versions|
        ensures '=' in versions[k].id
        ensures r.value[k].id == VersionId(versions[k], codec)
        ensures VersionLabel(versions[k]) == Success(r.value[k].text)
        ensures r.value[k].nodeType == "versions" && !r.value[k].children
      {
        assert step(versions[k]) == Success(r.value[k]);
      }
    }
  }

  /** The children of an item node: the item id is the last segment of the
      address and the project id three segments from the end; an address of
      fewer than three segments raises. */
  function ItemVersionsOf(href: string, remote: Remote, codec: TextCodec): (r: Result<seq<JsTreeNode>, Fault>)
    ensures multiset(href)['/'] < 2 ==> r == Failure(IndexOutOfRange)
    ensures r.Failure? ==> r.error == IndexOutOfRange
  {
    var segments := Split(href, '/');
    SplitCount(href, '/');
    if |segments| < 3 then
      Failure(IndexOutOfRange)
    else
      var itemId := segments[|segments| - 1];
      var projectId := segments[|segments| - 3];
      VersionNodesPerVersion(remote.itemVersions(projectId, itemId), codec);
      VersionNodes(remote.itemVersions(projectId, itemId), codec)
  }

  /** In an address `.../<projectId>/<kind>/<itemId>` the project id and
      item id are read three segments from the end and last. */
  lemma ItemVersionsOfAddress(prefix: seq<string>, projectId: string, kind: string, itemId: string,
                              remote: Remote, codec: TextCodec)
    requires SeparatorFree(prefix, '/') && SeparatorFree([projectId, kind, itemId], '/')
    ensures ItemVersionsOf(Join(prefix + [projectId, kind, itemId], '/'), remote, codec)
         == VersionNodes(remote.itemVersions(projectId, itemId), codec)
  {
    SplitJoinAddress(prefix, [projectId, kind, itemId], '/');
  }

  /** A version with id `<prefix>=<number><rest>`, the rest empty or
      starting with `=`, is labelled `v<number>: <timestamp> by <user>`. */
  lemma VersionLabelOf(prefix: string, number: string, rest: string, t: DateTime, user: string, derivative: Option<string>)
    requires '=' !in prefix && '=' !in number && (rest == "" || rest[0] == '=')
    ensures VersionLabel(VersionRecord(prefix + "=" + number + rest, t, user, derivative))
         == Success("v" + number + ": " + FormatTimestamp(t) + " by " + user)
  {
    VersionNumberOf(prefix, number, rest);
  }

  /** 5 March 2021, 14:30:00 is shown as `05/03/21 14:30:00`. */
  lemma TimestampExample()
    ensures FormatTimestamp(DateTime(2021, 3, 5, 14, 30, 0)) == "05/03/21 14:30:00"
  {
    assert Pad2(5) == "05" && Pad2(3) == "03" && Pad2(21) == "21";
    assert Pad2(14) == "14" && Pad2(30) == "30" && Pad2(0) == "00";
  }
}
