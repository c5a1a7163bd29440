/** The naming and formatting decisions of the export script: which nodes are
    exported, what each rendered image is called locally and in the bucket, which
    content type it is uploaded with, and how its public URL is cache-busted. */
module Naming {
  import opened Wrappers
  import opened JsText

  /** The node exported when `NODE_IDS` is not configured. */
  const DefaultNodeId := "0:1"
  /** The image format requested from the rendering API and used as file extension. */
  const Format := "png"
  /** The folder inside the bucket that receives every rendered image. */
  const StorageFolder := "figma/"
  /** The content type used when the extension lookup finds nothing. */
  const DefaultContentType := "application/octet-stream"

  /** The node-id list read from the `NODE_IDS` variable: the configured string split at
      commas when it is set and non-empty, the root node alone otherwise. */
  function ParseNodeIds(env: Option<string>): (ids: seq<string>)
    ensures |ids| >= 1
    ensures forall i | 0 <= i < |ids| :: ',' !in ids[i]
    ensures env.None? || env.value == [] ==> ids == [DefaultNodeId]
    ensures env.Some? && env.value != [] ==> Join(ids, ',') == env.value
  {
    if env.Some? && env.value != [] then JoinSplit(env.value, ','); Split(env.value, ',')
    else [DefaultNodeId]
  }

  /** The `ids` query parameter of the rendering request: the node-id list joined with
      commas, which is the configured string itself when there is one. */
  function NodeIdsParam(env: Option<string>): (ids: string)
    ensures env.Some? && env.value != [] ==> ids == env.value
    ensures env.None? || env.value == [] ==> ids == DefaultNodeId
    ensures Split(ids, ',') == ParseNodeIds(env)
  {
    var parsed := ParseNodeIds(env);
    SplitJoin(parsed, ',');
    Join(parsed, ',')
  }

  /** The local and remote file name of one rendered node: the node id with its first
      ':' turned into '_', then '_', the timestamp in decimal and the extension. */
  function FileName(nodeId: string, stamp: nat): string {
    ReplaceFirst(nodeId, ':', '_') + "_" + NumberToString(stamp) + "." + Format
  }

  /** How a file name is laid out: the node id, with its first ':' replaced, is followed
      by '_', by the decimal timestamp and by ".png"; a node id without ':' appears
      unchanged. */
  lemma FileNameLayout(nodeId: string, stamp: nat)
    ensures var name := FileName(nodeId, stamp);
      && |name| == |nodeId| + 1 + |NumberToString(stamp)| + 1 + |Format|
      && name[..|nodeId|] == ReplaceFirst(nodeId, ':', '_')
      && (':' !in nodeId ==> name[..|nodeId| + 1] == nodeId + "_")
      && name[|nodeId|] == '_'
      && name[|nodeId| + 1..|name| - 4] == NumberToString(stamp)
      && name[|name| - 4..] == ".png"
  {
    var replaced := ReplaceFirst(nodeId, ':', '_');
    var digits := NumberToString(stamp);
    var name := FileName(nodeId, stamp);
    var prefix := replaced + "_" + digits;
    assert name == prefix + ".png";
    assert name[|prefix|..] == ".png";
    assert name[..|nodeId|] == replaced;
    assert name[|nodeId| + 1..|prefix|] == digits;
    if ':' !in nodeId {
      assert replaced == nodeId;
    }
  }

  /** Two file names made for the same node are equal only when their timestamps are. */
  lemma FileNameDeterminesStamp(nodeId: string, s1: nat, s2: nat)
    requires FileName(nodeId, s1) == FileName(nodeId, s2)
    ensures s1 == s2
  {
    FileNameLayout(nodeId, s1);
    FileNameLayout(nodeId, s2);
    NumberToStringInjective(s1, s2);
  }

  /** Two different node ids may still produce the same file name: ':' is turned into
      '_', a character a node id may already contain, so "1:2" and "1_2" share every
      name. */
  lemma DistinctNodesMayShareFileName(stamp: nat)
    ensures "1:2" != "1_2" && FileName("1:2", stamp) == FileName("1_2", stamp)
  {
    assert ReplaceFirst("1:2", ':', '_') == "1_2";
    assert ReplaceFirst("1_2", ':', '_') == "1_2";
  }

  /** The bucket key of a file: the file name under the export folder. */
  function StorageKey(fileName: string): string {
    StorageFolder + fileName
  }

  /** Distinct files get distinct keys, and the file name can be read back from its key. */
  lemma StorageKeyInjective(a: string, b: string)
    ensures StorageKey(a)[..|StorageFolder|] == StorageFolder && StorageKey(a)[|StorageFolder|..] == a
    ensures StorageKey(a) == StorageKey(b) ==> a == b
  {
    assert StorageKey(a)[|StorageFolder|..] == a;
    assert StorageKey(b)[|StorageFolder|..] == b;
  }

  /** The content type of an upload: the extension lookup's answer when it gives a
      non-empty string (JavaScript's `||` also skips an empty answer), the generic
      binary type otherwise. The result is never empty. */
  function ContentType(lookup: Option<string>): (contentType: string)
    ensures contentType != []
    ensures lookup.Some? && lookup.value != [] ==> contentType == lookup.value
    ensures lookup.None? || lookup.value == [] ==> contentType == DefaultContentType
  {
    match lookup
    case Some(t) => if t != [] then t else DefaultContentType
    case None => DefaultContentType
  }

  /** The URL handed back for a published file: the bucket's public URL, then "?t=" and
      the publish time in decimal. */
  function CacheBustedUrl(publicUrl: string, now: nat): string {
    publicUrl + "?t=" + NumberToString(now)
  }

  /** The URL starts with the public URL and "?t=", and the publish time can be read back
      from what follows. */
  lemma CacheBustedUrlLayout(publicUrl: string, now: nat)
    ensures var url := CacheBustedUrl(publicUrl, now);
      && |url| > |publicUrl| + 3
      && url[..|publicUrl|] == publicUrl && url[|publicUrl|..|publicUrl| + 3] == "?t="
      && DecimalValue(url[|publicUrl| + 3..]) == now
  {
    var url := CacheBustedUrl(publicUrl, now);
    assert url[|publicUrl| + 3..] == NumberToString(now);
    DecimalRoundTrip(now);
  }

  /** Publishing the same file at two different times yields two different URLs. */
  lemma CacheBustingChangesUrl(publicUrl: string, t1: nat, t2: nat)
    requires t1 != t2
    ensures CacheBustedUrl(publicUrl, t1) != CacheBustedUrl(publicUrl, t2)
  {
    CacheBustedUrlLayout(publicUrl, t1);
    CacheBustedUrlLayout(publicUrl, t2);
  }
}
