/** The two client listeners of the conflict-resolution scenario: a conflict
    listener that keeps the most recently modified member, and a store
    listener that stamps the last-modified time into a document's metadata. */
module ConflictListener {
  import opened Wrappers
  import opened Text

  /** The metadata keys the listeners read, write or strip. */
  const RavenLastModified := "Raven-Last-Modified"
  const RavenReplicationConflict := "Raven-Replication-Conflict"
  const RavenReplicationConflictDocument := "Raven-Replication-Conflict-Document"

  /** A metadata value: a point in time (in ticks) or anything else. */
  datatype MetaValue = Date(ticks: int) | Other(text: string)

  /** A JSON object of metadata, updated in place. */
  class RavenJObject {
    var props: map<string, MetaValue>

    constructor (props: map<string, MetaValue>)
      ensures this.props == props
    {
      this.props := props;
    }

    /** Remove(key): drops the key when present. */
    method Remove(key: string)
      modifies this
      ensures props == old(props) - {key}
    {
      props := props - {key};
    }

    /** The indexer's setter: adds or overwrites one key. */
    method Set(key: string, value: MetaValue)
      modifies this
      ensures props == old(props)[key := value]
    {
      props := props[key := value];
    }
  }

  /** A document as the client sees it; its metadata object is fixed, its
      contents are not. */
  class JsonDocument {
    const Key: string
    const Metadata: RavenJObject

    constructor (key: string, metadata: RavenJObject)
      ensures Key == key && Metadata == metadata
    {
      Key := key;
      Metadata := metadata;
    }
  }

  /** Value<DateTimeOffset>(Raven-Last-Modified): the stored time, or the
      default time (0) when the key is absent. */
  function LastModified(props: map<string, MetaValue>): int {
    if RavenLastModified in props && props[RavenLastModified].Date? then props[RavenLastModified].ticks else 0
  }

  /** The last-modified time of every member, in order. */
  function Times(docs: seq<JsonDocument>): (ts: seq<int>)
    reads set i | 0 <= i < |docs| :: docs[i].Metadata
    ensures |ts| == |docs| && forall i :: 0 <= i < |docs| ==> ts[i] == LastModified(docs[i].Metadata.props)
  {
    seq(|docs|, i requires 0 <= i < |docs| reads set i | 0 <= i < |docs| :: docs[i].Metadata =>
      LastModified(docs[i].Metadata.props))
  }

  /** Max: the latest of the times. */
  function MaxTime(ts: seq<int>): (m: int)
    requires |ts| > 0
    ensures exists i :: 0 <= i < |ts| && ts[i] == m
    ensures forall i :: 0 <= i < |ts| ==> ts[i] <= m
  {
    if |ts| == 1 then ts[0]
    else
      var p := MaxTime(ts[..|ts| - 1]);
      assert forall i :: 0 <= i < |ts| - 1 ==> ts[..|ts| - 1][i] == ts[i];
      if ts[|ts| - 1] > p then ts[|ts| - 1] else p
  }

  /** FirstOrDefault(x => time(x) == m), as a position. */
  function FirstIndexOf(ts: seq<int>, m: int): (r: Option<nat>)
    ensures r.Some? ==> r.value < |ts| && ts[r.value] == m && forall j :: 0 <= j < r.value ==> ts[j] != m
    ensures r.None? ==> forall j :: 0 <= j < |ts| ==> ts[j] != m
  {
    if ts == [] then None
    else if ts[0] == m then Some(0)
    else
      match FirstIndexOf(ts[1..], m)
      case None => None
      case Some(k) => Some(k + 1)
  }

  /** The member the listener keeps: the first among those modified last. */
  lemma {:induction false} WinnerIsFirstLatest(ts: seq<int>)
    requires |ts| > 0
    ensures FirstIndexOf(ts, MaxTime(ts)).Some?
    ensures var w := FirstIndexOf(ts, MaxTime(ts)).value;
      && (forall i :: 0 <= i < |ts| ==> ts[i] <= ts[w])
      && (forall j :: 0 <= j < w ==> ts[j] < ts[w])
  {
    var m := MaxTime(ts);
    var i :| 0 <= i < |ts| && ts[i] == m;
    assert ts[i] == m;
  }

  /** A member modified strictly later than all others wins wherever it
      stands in the list. */
  lemma UniqueLatestWins(ts: seq<int>, k: nat)
    requires k < |ts| && forall j :: 0 <= j < |ts| && j != k ==> ts[j] < ts[k]
    ensures FirstIndexOf(ts, MaxTime(ts)) == Some(k)
  {
    WinnerIsFirstLatest(ts);
    var w := FirstIndexOf(ts, MaxTime(ts)).value;
    assert ts[k] <= ts[w];
  }

  /** The metadata keys stripped from the winner. */
  function StrippedKeys(): set<string> {
    {"@id", "@etag", RavenReplicationConflict, RavenReplicationConflictDocument}
  }

  /** TestDocumentConflictListener.TryResolveConflict. */
  method TryResolveConflict(key: string, conflictedDocs: array?<JsonDocument>)
    returns (resolved: bool, resolvedDocument: JsonDocument?)
    modifies if conflictedDocs == null then {} else set i | 0 <= i < conflictedDocs.Length :: conflictedDocs[i].Metadata
    ensures resolved <==> conflictedDocs != null && conflictedDocs.Length > 0 && !StartsWith(key, "Raven/")
    ensures !resolved ==> resolvedDocument == null
    ensures resolved ==> (conflictedDocs != null && conflictedDocs.Length > 0
      && var ts := old(Times(conflictedDocs[..]));
      && var w := FirstIndexOf(ts, MaxTime(ts)).value;
      && resolvedDocument == conflictedDocs[w]
      && (forall i :: 0 <= i < |ts| ==> ts[i] <= ts[w])
      && (forall j :: 0 <= j < w ==> ts[j] < ts[w])
      && resolvedDocument.Metadata.props == old(resolvedDocument.Metadata.props) - StrippedKeys())
    ensures conflictedDocs != null ==> forall i :: (0 <= i < conflictedDocs.Length
      && (resolvedDocument == null || conflictedDocs[i].Metadata != resolvedDocument.Metadata)) ==>
      conflictedDocs[i].Metadata.props == old(conflictedDocs[i].Metadata.props)
  {
    if conflictedDocs == null || conflictedDocs.Length == 0 {
      return false, null;
    }
    if StartsWith(key, "Raven/") {
      return false, null;
    }
    var ts := Times(conflictedDocs[..]);
    var maxDate := MaxTime(ts);
    WinnerIsFirstLatest(ts);
    var first := FirstIndexOf(ts, maxDate);
    resolvedDocument := if first.Some? then conflictedDocs[first.value] else null;
    if resolvedDocument != null {
      StripConflictKeys(resolvedDocument.Metadata);
    }
    return resolvedDocument != null, resolvedDocument;
  }

  /** The four removals the listener makes on the winner's metadata. */
  method StripConflictKeys(metadata: RavenJObject)
    modifies metadata
    ensures metadata.props == old(metadata.props) - StrippedKeys()
  {
    metadata.Remove("@id");
    metadata.Remove("@etag");
    metadata.Remove(RavenReplicationConflict);
    metadata.Remove(RavenReplicationConflictDocument);
  }

  /** DocumentStoreSetDateModifiedListener.BeforeStore; the current time is
      the parameter `now`. */
  method BeforeStore(key: string, metadata: RavenJObject?, now: int) returns (proceed: bool)
    modifies metadata
    ensures proceed
    ensures metadata != null ==> metadata.props == old(metadata.props)[RavenLastModified := Date(now)]
  {
    if metadata == null {
      return true;
    }
    var lastModifiedDate := now;
    metadata.Set(RavenLastModified, Date(lastModifiedDate));
    return true;
  }

  /** After the store listener runs, the document reads back as modified at
      `now`, and every other key is as it was. */
  lemma StampedTimeReadsBack(props: map<string, MetaValue>, now: int, k: string)
    ensures LastModified(props[RavenLastModified := Date(now)]) == now
    ensures k != RavenLastModified && k in props ==> props[RavenLastModified := Date(now)][k] == props[k]
  {
  }

  /** Stripping the conflict keys never touches the last-modified time, so
      the resolved document still reads as the latest. */
  lemma StrippingKeepsTime(props: map<string, MetaValue>)
    ensures LastModified(props - StrippedKeys()) == LastModified(props)
    ensures forall k :: k in StrippedKeys() ==> k !in props - StrippedKeys()
  {
    assert RavenLastModified !in StrippedKeys();
  }
}
