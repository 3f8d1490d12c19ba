/** ReplicationUtils: the change-vector helpers behind multi-master
    replication, as the source runs them on arrays, lists and string
    builders. Each method is proved against the value-level definitions of
    ChangeVectors and ChangeVectorText. */
module ReplicationUtils {
  import opened Wrappers
  import opened Text
  import opened ChangeVectors
  import opened ChangeVectorText

  // ---------------------------------------------------------------------
  // Lookup, bump and write
  // ---------------------------------------------------------------------

  /** TryFindEtagByDbId: the etag of the first entry with `dbId`, or false
      and 0. */
  method TryFindEtagByDbId(changeVector: array<Entry>, dbId: Guid) returns (found: bool, etag: Int64)
    ensures found <==> exists i :: 0 <= i < changeVector.Length && changeVector[i].dbId == dbId
    ensures found ==> exists i :: (0 <= i < changeVector.Length && changeVector[i].dbId == dbId
      && changeVector[i].etag == etag && forall j :: 0 <= j < i ==> changeVector[j].dbId != dbId)
    ensures !found ==> etag == 0
    ensures etag == Lookup(changeVector[..], dbId).GetOr(0)
  {
    etag := 0;
    for i := 0 to changeVector.Length
      invariant forall j :: 0 <= j < i ==> changeVector[j].dbId != dbId
    {
      if changeVector[i].dbId == dbId {
        etag := changeVector[i].etag;
        assert changeVector[..][i].dbId == dbId;
        return true, etag;
      }
    }
    assert dbId !in Ids(changeVector[..]);
    return false, etag;
  }

  /** UpdateChangeVectorWithNewEtag: sets the etag of the first entry with
      `dbId` in place and returns the same array; with no such entry, returns
      a resized copy (Array.Resize) with `(dbId, newEtag)` appended and leaves
      the given array as it was. */
  method UpdateChangeVectorWithNewEtag(dbId: Guid, newEtag: Int64, changeVector: array<Entry>)
    returns (r: array<Entry>)
    modifies changeVector
    ensures r[..] == Bump(old(changeVector[..]), dbId, newEtag)
    ensures dbId in Ids(old(changeVector[..])) ==> r == changeVector
    ensures dbId !in Ids(old(changeVector[..])) ==>
      fresh(r) && r.Length == changeVector.Length + 1 && changeVector[..] == old(changeVector[..])
  {
    var length := changeVector.Length;
    for i := 0 to length
      invariant forall j :: 0 <= j < i ==> changeVector[j].dbId != dbId
      invariant changeVector[..] == old(changeVector[..])
    {
      if changeVector[i].dbId == dbId {
        assert IndexOf(changeVector[..], dbId) == Some(i);
        changeVector[i] := changeVector[i].(etag := newEtag);
        assert changeVector[..] == old(changeVector[..])[i := Entry(dbId, newEtag)];
        return changeVector;
      }
    }
    assert dbId !in Ids(changeVector[..]);
    r := new Entry[length + 1](_ => DefaultEntry);
    for i := 0 to length
      invariant forall j :: 0 <= j < i ==> r[j] == changeVector[j]
      invariant changeVector[..] == old(changeVector[..])
    {
      r[i] := changeVector[i];
    }
    r[length] := Entry(dbId, newEtag);
    assert r[..] == changeVector[..] + [Entry(dbId, newEtag)];
  }

  /** GetChangeVectorForWrite: a null or empty vector becomes the single entry
      `(dbid, etag)`; any other vector is bumped. */
  method GetChangeVectorForWrite(existingChangeVector: array?<Entry>, dbid: Guid, etag: Int64)
    returns (r: array<Entry>)
    modifies existingChangeVector
    ensures existingChangeVector == null || existingChangeVector.Length == 0 ==>
      fresh(r) && r[..] == [Entry(dbid, etag)]
    ensures existingChangeVector != null && existingChangeVector.Length > 0 ==>
      r[..] == Bump(old(existingChangeVector[..]), dbid, etag)
    ensures (existingChangeVector != null && existingChangeVector.Length > 0
             && dbid in Ids(old(existingChangeVector[..]))) ==> r == existingChangeVector
    ensures (existingChangeVector != null && existingChangeVector.Length > 0
             && dbid !in Ids(old(existingChangeVector[..]))) ==>
      fresh(r) && existingChangeVector[..] == old(existingChangeVector[..])
    ensures Lookup(r[..], dbid) == Some(etag)
  {
    if existingChangeVector == null || existingChangeVector.Length == 0 {
      r := new Entry[1](_ => Entry(dbid, etag));
      assert r[..] == [Entry(dbid, etag)];
      assert Lookup(r[..], dbid) == Some(etag) by { assert r[..][0].dbId == dbid; }
      return;
    }
    ghost var before := existingChangeVector[..];
    r := UpdateChangeVectorWithNewEtag(dbid, etag, existingChangeVector);
    BumpLookup(before, dbid, etag, dbid);
  }

  // ---------------------------------------------------------------------
  // Text and dictionary forms
  // ---------------------------------------------------------------------

  /** ChangeVectorToString(ChangeVectorEntry[]): `{DbId}:{Etag};` per entry,
      in order. */
  method ChangeVectorToString(changeVector: array<Entry>) returns (s: string)
    ensures s == Format(changeVector[..])
  {
    s := "";
    for i := 0 to changeVector.Length
      invariant s == Format(changeVector[..i])
    {
      FormatSnoc(changeVector[..i], changeVector[i]);
      assert changeVector[..i + 1] == changeVector[..i] + [changeVector[i]];
      s := s + EntryText(changeVector[i]);
    }
    assert changeVector[..changeVector.Length] == changeVector[..];
  }

  /** The entries a dictionary of etags enumerates, in its enumeration order. */
  function Entries(pairs: seq<(Guid, Int64)>): (v: seq<Entry>)
    ensures |v| == |pairs| && forall i :: 0 <= i < |pairs| ==> v[i] == Entry(pairs[i].0, pairs[i].1)
  {
    seq(|pairs|, i requires 0 <= i < |pairs| => Entry(pairs[i].0, pairs[i].1))
  }

  /** ChangeVectorToString(Dictionary<Guid, long>): the same text, over the
      pairs in the dictionary's enumeration order. */
  method DictionaryToString(changeVector: seq<(Guid, Int64)>) returns (s: string)
    ensures s == Format(Entries(changeVector))
  {
    s := "";
    for i := 0 to |changeVector|
      invariant s == Format(Entries(changeVector[..i]))
    {
      var kvp := changeVector[i];
      assert Entries(changeVector[..i + 1]) == Entries(changeVector[..i]) + [Entry(kvp.0, kvp.1)];
      FormatSnoc(Entries(changeVector[..i]), Entry(kvp.0, kvp.1));
      s := s + EntryText(Entry(kvp.0, kvp.1));
    }
    assert changeVector[..|changeVector|] == changeVector;
  }

  /** Entry `i` is the last one carrying its id. */
  predicate IsLastFor(v: seq<Entry>, i: nat)
    requires i < |v|
  {
    forall j :: i < j < |v| ==> v[j].dbId != v[i].dbId
  }

  /** No entry after `i` and before `k` carries entry `i`'s id. */
  ghost predicate IsLastBefore(v: seq<Entry>, i: nat, k: nat)
    requires i < k <= |v|
  {
    forall j :: i < j < k ==> v[j].dbId != v[i].dbId
  }

  /** Distinct ids give distinct dictionary keys. */
  lemma GuidTextsDistinct()
    ensures forall a: Guid, b: Guid :: GuidText(a) == GuidText(b) ==> a == b
  {
    forall a: Guid, b: Guid | GuidText(a) == GuidText(b)
      ensures a == b
    {
      GuidTextInjective(a, b);
    }
  }

  /** ConvertChangeVectorToDictionary: keyed by the id's text; a repeated id
      keeps the etag of its last entry. */
  method ConvertChangeVectorToDictionary(changeVector: array<Entry>) returns (d: map<string, Int64>)
    ensures d.Keys == set i | 0 <= i < changeVector.Length :: GuidText(changeVector[i].dbId)
    ensures forall i :: 0 <= i < changeVector.Length && IsLastFor(changeVector[..], i) ==>
      d[GuidText(changeVector[i].dbId)] == changeVector[i].etag
  {
    ghost var v := changeVector[..];
    GuidTextsDistinct();
    d := map[];
    for k := 0 to changeVector.Length
      invariant d.Keys == set i | 0 <= i < k :: GuidText(v[i].dbId)
      invariant forall i :: 0 <= i < k && IsLastBefore(v, i, k) ==> d[GuidText(v[i].dbId)] == v[i].etag
    {
      var entry := changeVector[k];
      assert entry == v[k];
      d := d[GuidText(entry.dbId) := entry.etag];
    }
    assert forall i :: 0 <= i < |v| && IsLastFor(v, i) ==> IsLastBefore(v, i, |v|);
  }

  // ---------------------------------------------------------------------
  // Active destinations
  // ---------------------------------------------------------------------

  /** The part of a replication destination the lookup compares. */
  datatype ReplicationDestination = ReplicationDestination(url: string, database: string)

  /** An outgoing replication handler, identified by reference. */
  class OutgoingReplicationHandler {
    const destination: ReplicationDestination

    constructor (destination: ReplicationDestination)
      ensures this.destination == destination
    {
      this.destination := destination;
    }
  }

  /** Url and database name both match, ignoring case. */
  predicate SameDestination(a: ReplicationDestination, b: ReplicationDestination) {
    EqualsIgnoreCase(a.url, b.url) && EqualsIgnoreCase(a.database, b.database)
  }

  /** TryGetActiveDestination: the first handler whose destination matches. */
  method TryGetActiveDestination(destination: ReplicationDestination,
                                 outgoingReplicationHandlers: seq<OutgoingReplicationHandler>)
    returns (found: bool, handler: OutgoingReplicationHandler?)
    ensures found <==> exists i :: (0 <= i < |outgoingReplicationHandlers|
      && SameDestination(outgoingReplicationHandlers[i].destination, destination))
    ensures found ==> exists i :: (0 <= i < |outgoingReplicationHandlers|
      && handler == outgoingReplicationHandlers[i]
      && SameDestination(outgoingReplicationHandlers[i].destination, destination)
      && forall j :: 0 <= j < i ==> !SameDestination(outgoingReplicationHandlers[j].destination, destination))
    ensures !found ==> handler == null
  {
    handler := null;
    for i := 0 to |outgoingReplicationHandlers|
      invariant forall j :: 0 <= j < i ==> !SameDestination(outgoingReplicationHandlers[j].destination, destination)
    {
      var outgoing := outgoingReplicationHandlers[i];
      if EqualsIgnoreCase(outgoing.destination.url, destination.url)
        && EqualsIgnoreCase(outgoing.destination.database, destination.database)
      {
        handler := outgoing;
        return true, handler;
      }
    }
    return false, handler;
  }

  // ---------------------------------------------------------------------
  // Pairwise merge, as written
  // ---------------------------------------------------------------------

  /** What MergeVectors(vectorA, vectorB) produces: one slot per entry of A,
      raised to B's first etag for that id (0 when B lacks it), then default
      entries up to the longer length. */
  function PairwiseMerge(a: seq<Entry>, b: seq<Entry>): (m: seq<Entry>)
    ensures |m| == if |a| >= |b| then |a| else |b|
  {
    seq(if |a| >= |b| then |a| else |b|, i requires 0 <= i < (if |a| >= |b| then |a| else |b|) =>
      if i < |a| then Entry(a[i].dbId, MaxOf(a[i].etag, Lookup(b, a[i].dbId).GetOr(0)))
      else DefaultEntry)
  }

  /** MergeVectors(ChangeVectorEntry[], ChangeVectorEntry[]). */
  method MergeVectors(vectorA: array<Entry>, vectorB: array<Entry>) returns (merged: array<Entry>)
    ensures merged.Length == if vectorA.Length >= vectorB.Length then vectorA.Length else vectorB.Length
    ensures forall i :: 0 <= i < vectorA.Length ==> (merged[i].dbId == vectorA[i].dbId
      && merged[i].etag == MaxOf(vectorA[i].etag, Lookup(vectorB[..], vectorA[i].dbId).GetOr(0)))
    ensures forall i :: vectorA.Length <= i < merged.Length ==> merged[i] == DefaultEntry
    ensures merged[..] == PairwiseMerge(vectorA[..], vectorB[..])
  {
    var len := if vectorA.Length >= vectorB.Length then vectorA.Length else vectorB.Length;
    merged := new Entry[len](_ => DefaultEntry);
    var inx := 0;
    for k := 0 to vectorA.Length
      invariant inx == k
      invariant forall i :: 0 <= i < k ==> (merged[i].dbId == vectorA[i].dbId
        && merged[i].etag == MaxOf(vectorA[i].etag, Lookup(vectorB[..], vectorA[i].dbId).GetOr(0)))
      invariant forall i :: k <= i < len ==> merged[i] == DefaultEntry
    {
      var entryA := vectorA[k];
      var etagA := entryA.etag;
      var first := DefaultEntry;
      ghost var matched := false;
      for m := 0 to vectorB.Length
        invariant first == DefaultEntry && !matched
        invariant forall j :: 0 <= j < m ==> vectorB[j].dbId != entryA.dbId
      {
        if vectorB[m].dbId == entryA.dbId {
          first := vectorB[m];
          matched := true;
          FirstMatchLookup(vectorB[..], entryA.dbId, m);
          break;
        }
      }
      if !matched {
        NoMatchLookup(vectorB[..], entryA.dbId);
      }
      var etagB := first.etag;
      merged[inx] := Entry(entryA.dbId, MaxOf(etagA, etagB));
      inx := inx + 1;
    }
    assert merged[..] == PairwiseMerge(vectorA[..], vectorB[..]);
  }

  /** The entry at `m` is the first with `id`. */
  lemma FirstMatchLookup(b: seq<Entry>, id: Guid, m: nat)
    requires m < |b| && b[m].dbId == id && forall j :: 0 <= j < m ==> b[j].dbId != id
    ensures Lookup(b, id) == Some(b[m].etag)
  {
    assert IndexOf(b, id) == Some(m);
  }

  /** No entry carries `id`. */
  lemma NoMatchLookup(b: seq<Entry>, id: Guid)
    requires forall j :: 0 <= j < |b| ==> b[j].dbId != id
    ensures Lookup(b, id) == None
  {
    assert id !in Ids(b);
  }

  /** On the ids of A the pairwise merge reads back A's first etag raised to
      B's (0 when B lacks it); an id that only B holds is lost, unless it is
      the empty id that fills the default slots. */
  lemma PairwiseMergeLookup(a: seq<Entry>, b: seq<Entry>, id: Guid)
    ensures id in Ids(a) ==>
      Lookup(PairwiseMerge(a, b), id) == Some(MaxOf(Lookup(a, id).value, Lookup(b, id).GetOr(0)))
    ensures id !in Ids(a) && id != EmptyGuid ==> Lookup(PairwiseMerge(a, b), id) == None
  {
    var m := PairwiseMerge(a, b);
    if id in Ids(a) {
      var i := IndexOf(a, id).value;
      assert m[i].dbId == id;
      assert forall j :: 0 <= j < i ==> m[j].dbId == a[j].dbId;
      assert IndexOf(m, id) == Some(i);
    } else if id != EmptyGuid {
      assert forall j :: 0 <= j < |m| ==> m[j].dbId != id by {
        forall j | 0 <= j < |m| ensures m[j].dbId != id {
          if j < |a| { assert a[j].dbId != id; }
        }
      }
    }
  }

  /** Where etags are non-negative, the pairwise merge agrees with the
      per-node-maximum merge on A's ids and loses every other non-empty id. */
  lemma PairwiseMergeAgainstMerge(a: seq<Entry>, b: seq<Entry>, id: Guid)
    requires forall i :: 0 <= i < |a| ==> a[i].etag >= 0
    requires forall i :: 0 <= i < |b| ==> b[i].etag >= 0
    ensures id in Ids(a) ==> Lookup(PairwiseMerge(a, b), id) == Lookup(Merge(a, b), id)
    ensures id !in Ids(a) && id != EmptyGuid ==>
      Lookup(PairwiseMerge(a, b), id) == None && Lookup(Merge(a, b), id) == Lookup(b, id)
  {
    PairwiseMergeLookup(a, b, id);
    if id in Ids(a) {
      var i := IndexOf(a, id).value;
      assert a[i].etag >= 0;
    }
    if id in Ids(b) {
      var j := IndexOf(b, id).value;
      assert b[j].etag >= 0;
    }
  }

  /** The pairwise merge is not symmetric: an id only B holds is dropped, and
      |B| > |A| leaves a default slot behind. */
  lemma PairwiseMergeIsNotSymmetric()
    ensures PairwiseMerge([], [Entry(1, 1)]) == [DefaultEntry]
    ensures PairwiseMerge([Entry(1, 1)], []) == [Entry(1, 1)]
    ensures Lookup(Merge([], [Entry(1, 1)]), 1) == Some(1)
  {
    var ab := PairwiseMerge([], [Entry(1, 1)]);
    assert ab[0] == DefaultEntry;
    assert Lookup([Entry(1, 1)], 1) == Some(1) by {
      assert [Entry(1, 1)][0].dbId == 1;
    }
    var ba := PairwiseMerge([Entry(1, 1)], []);
    assert ba[0] == Entry(1, 1);
  }

  // ---------------------------------------------------------------------
  // Multi-way merge, as written
  // ---------------------------------------------------------------------

  /** The contents of the vectors. */
  function Snapshot(vs: seq<array<Entry>>): (cs: seq<seq<Entry>>)
    reads set k | 0 <= k < |vs| :: vs[k]
    ensures |cs| == |vs| && forall k :: 0 <= k < |vs| ==> cs[k] == vs[k][..]
  {
    seq(|vs|, k requires 0 <= k < |vs| reads set k | 0 <= k < |vs| :: vs[k] => vs[k][..])
  }

  /** The search loop's maxEtag for `id` while scanning vector `self`: the
      largest positive etag (first entries count) among the vectors that are
      not the same array as `self`; 0 when there is none. */
  function OthersBest(vs: seq<array<Entry>>, cs: seq<seq<Entry>>, self: array<Entry>, id: Guid): (m: Int64)
    requires |vs| == |cs|
    ensures m >= 0
    ensures m > 0 ==> exists j :: 0 <= j < |vs| && vs[j] != self && Lookup(cs[j], id) == Some(m)
    ensures forall j :: 0 <= j < |vs| && vs[j] != self && id in Ids(cs[j]) ==> Lookup(cs[j], id).value <= m
    decreases |vs|
  {
    if vs == [] then 0
    else
      var n := |vs| - 1;
      var p := OthersBest(vs[..n], cs[..n], self, id);
      var etag := Lookup(cs[n], id).GetOr(0);
      if vs[n] != self && etag > p then etag else p
  }

  /** The etag the merged dictionary holds for `id` once the first `n`
      vectors are scanned; 0 when it holds none. An id is added at its first
      entry whose search finds a positive etag elsewhere. */
  function Credit(vs: seq<array<Entry>>, cs: seq<seq<Entry>>, id: Guid, n: nat): (c: Int64)
    requires |vs| == |cs| && n <= |vs|
    ensures c >= 0
  {
    if n == 0 then 0
    else
      var p := Credit(vs, cs, id, n - 1);
      if p > 0 then p
      else if id in Ids(cs[n - 1]) then OthersBest(vs, cs, vs[n - 1], id)
      else 0
  }

  /** The same, midway through vector `n`, after its first `e` entries. */
  function CreditAt(vs: seq<array<Entry>>, cs: seq<seq<Entry>>, id: Guid, n: nat, e: nat): Int64
    requires |vs| == |cs| && n < |vs| && e <= |cs[n]|
  {
    var p := Credit(vs, cs, id, n);
    if p > 0 then p
    else if id in Ids(cs[n][..e]) then OthersBest(vs, cs, vs[n], id)
    else 0
  }

  lemma IdsSnoc(v: seq<Entry>, e: nat)
    requires e < |v|
    ensures Ids(v[..e + 1]) == Ids(v[..e]) + {v[e].dbId}
  {
    assert v[..e + 1] == v[..e] + [v[e]];
    assert v[..e + 1][e] == v[e];
  }

  /** No id occurs twice. */
  ghost predicate Distinct(m: seq<Entry>) {
    forall i, j :: 0 <= i < j < |m| ==> m[i].dbId != m[j].dbId
  }

  /** `m` is the merged dictionary once the first `n` vectors are scanned. */
  ghost predicate MergedUpTo(vs: seq<array<Entry>>, cs: seq<seq<Entry>>, n: nat, m: seq<Entry>)
    requires |vs| == |cs| && n <= |vs|
  {
    && Distinct(m)
    && (forall i :: 0 <= i < |m| ==> m[i].etag > 0 && m[i].etag == Credit(vs, cs, m[i].dbId, n))
    && (forall id :: Credit(vs, cs, id, n) > 0 ==> id in Ids(m))
  }

  /** `m` is the merged dictionary midway through vector `n`. */
  ghost predicate MergedAt(vs: seq<array<Entry>>, cs: seq<seq<Entry>>, n: nat, e: nat, m: seq<Entry>)
    requires |vs| == |cs| && n < |vs| && e <= |cs[n]|
  {
    && Distinct(m)
    && (forall i :: 0 <= i < |m| ==> m[i].etag > 0 && m[i].etag == CreditAt(vs, cs, m[i].dbId, n, e))
    && (forall id :: CreditAt(vs, cs, id, n, e) > 0 ==> id in Ids(m))
  }

  lemma StartVector(vs: seq<array<Entry>>, cs: seq<seq<Entry>>, n: nat, m: seq<Entry>)
    requires |vs| == |cs| && n < |vs|
    requires MergedUpTo(vs, cs, n, m)
    ensures MergedAt(vs, cs, n, 0, m)
  {
    assert cs[n][..0] == [];
    assert forall id :: CreditAt(vs, cs, id, n, 0) == Credit(vs, cs, id, n);
  }

  lemma EndVector(vs: seq<array<Entry>>, cs: seq<seq<Entry>>, n: nat, m: seq<Entry>)
    requires |vs| == |cs| && n < |vs|
    requires MergedAt(vs, cs, n, |cs[n]|, m)
    ensures MergedUpTo(vs, cs, n + 1, m)
  {
    assert cs[n][..|cs[n]|] == cs[n];
    assert forall id :: CreditAt(vs, cs, id, n, |cs[n]|) == Credit(vs, cs, id, n + 1);
  }

  /** Reading entry `e` of vector `n` changes the credit of its own id only,
      and only when that id has none yet. */
  lemma CreditAtNext(vs: seq<array<Entry>>, cs: seq<seq<Entry>>, n: nat, e: nat, id: Guid)
    requires |vs| == |cs| && n < |vs| && e < |cs[n]|
    ensures CreditAt(vs, cs, id, n, e + 1) ==
      if id == cs[n][e].dbId && CreditAt(vs, cs, id, n, e) == 0 then OthersBest(vs, cs, vs[n], id)
      else CreditAt(vs, cs, id, n, e)
  {
    IdsSnoc(cs[n], e);
  }

  /** An entry whose id is already merged changes nothing. */
  lemma SkipMerged(vs: seq<array<Entry>>, cs: seq<seq<Entry>>, n: nat, e: nat, m: seq<Entry>)
    requires |vs| == |cs| && n < |vs| && e < |cs[n]|
    requires MergedAt(vs, cs, n, e, m) && cs[n][e].dbId in Ids(m)
    ensures MergedAt(vs, cs, n, e + 1, m)
  {
    var x := cs[n][e].dbId;
    var k := IndexOf(m, x).value;
    assert m[k].etag == CreditAt(vs, cs, x, n, e) > 0;
    forall id ensures CreditAt(vs, cs, id, n, e + 1) == CreditAt(vs, cs, id, n, e) {
      CreditAtNext(vs, cs, n, e, id);
    }
  }

  /** Reading an entry whose id has no credit yet gives that id the
      search's result and leaves every other id alone. */
  lemma CreditAtFresh(vs: seq<array<Entry>>, cs: seq<seq<Entry>>, n: nat, e: nat)
    requires |vs| == |cs| && n < |vs| && e < |cs[n]|
    requires CreditAt(vs, cs, cs[n][e].dbId, n, e) == 0
    ensures CreditAt(vs, cs, cs[n][e].dbId, n, e + 1) == OthersBest(vs, cs, vs[n], cs[n][e].dbId)
    ensures forall id :: id != cs[n][e].dbId ==> CreditAt(vs, cs, id, n, e + 1) == CreditAt(vs, cs, id, n, e)
  {
    forall id | id != cs[n][e].dbId
      ensures CreditAt(vs, cs, id, n, e + 1) == CreditAt(vs, cs, id, n, e)
    {
      CreditAtNext(vs, cs, n, e, id);
    }
    CreditAtNext(vs, cs, n, e, cs[n][e].dbId);
  }

  /** An entry whose id is not merged yet, and whose search finds nothing,
      changes nothing. */
  lemma SkipUnfound(vs: seq<array<Entry>>, cs: seq<seq<Entry>>, n: nat, e: nat, m: seq<Entry>)
    requires |vs| == |cs| && n < |vs| && e < |cs[n]|
    requires MergedAt(vs, cs, n, e, m) && cs[n][e].dbId !in Ids(m)
    requires OthersBest(vs, cs, vs[n], cs[n][e].dbId) == 0
    ensures MergedAt(vs, cs, n, e + 1, m)
  {
    CreditAtFresh(vs, cs, n, e);
    forall i | 0 <= i < |m| ensures m[i].dbId != cs[n][e].dbId {
      assert m[i].dbId in Ids(m);
    }
  }

  /** An entry whose id is not merged yet, and whose search finds a positive
      etag, is added with that etag. */
  lemma AddFound(vs: seq<array<Entry>>, cs: seq<seq<Entry>>, n: nat, e: nat, m: seq<Entry>)
    requires |vs| == |cs| && n < |vs| && e < |cs[n]|
    requires MergedAt(vs, cs, n, e, m) && cs[n][e].dbId !in Ids(m)
    requires OthersBest(vs, cs, vs[n], cs[n][e].dbId) > 0
    ensures MergedAt(vs, cs, n, e + 1, m + [Entry(cs[n][e].dbId, OthersBest(vs, cs, vs[n], cs[n][e].dbId))])
  {
    var x := cs[n][e].dbId;
    var m' := m + [Entry(x, OthersBest(vs, cs, vs[n], x))];
    CreditAtFresh(vs, cs, n, e);
    forall i | 0 <= i < |m| ensures m[i].dbId != x {
      assert m[i].dbId in Ids(m);
    }
    IdsSnoc(m', |m|);
    assert m'[..|m|] == m;
    assert m'[..|m'|] == m';
  }

  /** The search loop of the multi-way merge: the largest positive etag for
      `id` among the vectors other than `vector`. */
  method SearchOtherVectors(changeVectors: seq<array<Entry>>, vector: array<Entry>, id: Guid)
    returns (hasFoundAny: bool, maxEtag: Int64)
    ensures maxEtag == OthersBest(changeVectors, Snapshot(changeVectors), vector, id)
    ensures hasFoundAny <==> maxEtag > 0
  {
    ghost var cs := Snapshot(changeVectors);
    maxEtag := 0;
    hasFoundAny := false;
    for j := 0 to |changeVectors|
      invariant maxEtag == OthersBest(changeVectors[..j], cs[..j], vector, id)
      invariant hasFoundAny <==> maxEtag > 0
    {
      var searchVector := changeVectors[j];
      assert changeVectors[..j + 1][..j] == changeVectors[..j];
      assert cs[..j + 1][..j] == cs[..j];
      if searchVector == vector {
        continue;
      }
      var found, etag := TryFindEtagByDbId(searchVector, id);
      if found && etag > maxEtag {
        hasFoundAny := true;
        maxEtag := etag;
      }
    }
    assert changeVectors[..|changeVectors|] == changeVectors;
    assert cs[..|cs|] == cs;
  }

  /** One pass of the outer loop of the multi-way merge: scans vector `n`
      and adds each of its ids that is not merged yet and that another vector
      holds with a positive etag. */
  method MergeOneVector(changeVectors: seq<array<Entry>>, n: nat, mergedVector: seq<Entry>) returns (m: seq<Entry>)
    requires n < |changeVectors| && MergedUpTo(changeVectors, Snapshot(changeVectors), n, mergedVector)
    ensures MergedUpTo(changeVectors, Snapshot(changeVectors), n + 1, m)
  {
    ghost var cs := Snapshot(changeVectors);
    var vector := changeVectors[n];
    m := mergedVector;
    StartVector(changeVectors, cs, n, m);
    for e := 0 to vector.Length
      invariant MergedAt(changeVectors, cs, n, e, m)
    {
      var entry := vector[e];
      assert entry == cs[n][e];
      if entry.dbId in Ids(m) {
        SkipMerged(changeVectors, cs, n, e, m);
        continue;
      }
      var hasFoundAny, maxEtag := SearchOtherVectors(changeVectors, vector, entry.dbId);
      assert maxEtag == OthersBest(changeVectors, cs, changeVectors[n], cs[n][e].dbId);
      if hasFoundAny {
        AddFound(changeVectors, cs, n, e, m);
        m := m + [Entry(entry.dbId, maxEtag)];
      } else {
        SkipUnfound(changeVectors, cs, n, e, m);
      }
    }
    EndVector(changeVectors, cs, n, m);
  }

  /** MergeVectors(IReadOnlyList<ChangeVectorEntry[]>). The merged dictionary
      is kept as its entries in insertion order. */
  method MergeVectorsAll(changeVectors: seq<array<Entry>>) returns (result: array<Entry>)
    ensures forall i, j :: 0 <= i < j < result.Length ==> result[i].dbId != result[j].dbId
    ensures forall i :: 0 <= i < result.Length ==>
      result[i].etag > 0
      && result[i].etag == Credit(changeVectors, Snapshot(changeVectors), result[i].dbId, |changeVectors|)
    ensures forall id :: Credit(changeVectors, Snapshot(changeVectors), id, |changeVectors|) > 0 ==>
      id in Ids(result[..])
  {
    var mergedVector: seq<Entry> := [];
    for n := 0 to |changeVectors|
      invariant MergedUpTo(changeVectors, Snapshot(changeVectors), n, mergedVector)
    {
      mergedVector := MergeOneVector(changeVectors, n, mergedVector);
    }
    result := new Entry[|mergedVector|](i requires 0 <= i < |mergedVector| => mergedVector[i]);
    assert result[..] == mergedVector;
  }

  /** Every etag the multi-way merge keeps is one that some input vector holds
      for that id, while the id was being scanned in a different array. */
  lemma {:induction false} CreditComesFromAnotherVector(vs: seq<array<Entry>>, cs: seq<seq<Entry>>, id: Guid, n: nat)
    requires |vs| == |cs| && n <= |vs|
    requires Credit(vs, cs, id, n) > 0
    ensures exists k, j :: (0 <= k < n && 0 <= j < |vs| && id in Ids(cs[k]) && vs[j] != vs[k]
      && Lookup(cs[j], id) == Some(Credit(vs, cs, id, n)))
  {
    if Credit(vs, cs, id, n - 1) > 0 {
      CreditComesFromAnotherVector(vs, cs, id, n - 1);
    } else {
      var k := n - 1;
      var j :| 0 <= j < |vs| && vs[j] != vs[k] && Lookup(cs[j], id) == Some(OthersBest(vs, cs, vs[k], id));
    }
  }

  /** With no other array holding `id`, the search finds nothing. */
  lemma {:induction false} OthersBestWhenNoOther(vs: seq<array<Entry>>, cs: seq<seq<Entry>>, self: array<Entry>, id: Guid)
    requires |vs| == |cs|
    requires forall j :: 0 <= j < |vs| && vs[j] != self ==> id !in Ids(cs[j])
    ensures OthersBest(vs, cs, self, id) == 0
  {
    if vs != [] {
      var n := |vs| - 1;
      OthersBestWhenNoOther(vs[..n], cs[..n], self, id);
    }
  }

  /** An id that only one array holds (however often that array is listed)
      never survives the multi-way merge. */
  lemma {:induction false} SingleArrayIdDropped(vs: seq<array<Entry>>, cs: seq<seq<Entry>>, id: Guid, n: nat)
    requires |vs| == |cs| && n <= |vs|
    requires forall j, k :: 0 <= j < |vs| && 0 <= k < |vs| && id in Ids(cs[j]) && id in Ids(cs[k]) ==> vs[j] == vs[k]
    ensures Credit(vs, cs, id, n) == 0
  {
    if n > 0 {
      SingleArrayIdDropped(vs, cs, id, n - 1);
      if id in Ids(cs[n - 1]) {
        OthersBestWhenNoOther(vs, cs, vs[n - 1], id);
      }
    }
  }

  /** The multi-way merge never credits an id with more than the largest etag
      any input holds for it. */
  lemma CreditAtMostMax(vs: seq<array<Entry>>, cs: seq<seq<Entry>>, id: Guid, n: nat)
    requires |vs| == |cs| && n <= |vs|
    requires Credit(vs, cs, id, n) > 0
    ensures MaxAcross(cs, id).Some? && Credit(vs, cs, id, n) <= MaxAcross(cs, id).value
  {
    CreditComesFromAnotherVector(vs, cs, id, n);
    var k, j :| 0 <= k < n && 0 <= j < |vs| && id in Ids(cs[k]) && vs[j] != vs[k]
      && Lookup(cs[j], id) == Some(Credit(vs, cs, id, n));
    MaxAcrossIsMax(cs, id);
  }

  /** Three pairwise-concurrent single-entry vectors merge to nothing: every
      id occurs in one array only. The per-node-maximum merge keeps all three. */
  lemma ThreeWayMergeDropsAll(vs: seq<array<Entry>>, cs: seq<seq<Entry>>, id: Guid)
    requires |vs| == 3 && vs[0] != vs[1] && vs[1] != vs[2] && vs[0] != vs[2]
    requires cs == [[Entry(1, 1)], [Entry(2, 1)], [Entry(3, 1)]]
    ensures Credit(vs, cs, id, 3) == 0
    ensures 1 <= id <= 3 ==> Lookup(MergeAll(cs), id) == Some(1)
  {
    assert forall k :: 0 <= k < 3 ==> Ids(cs[k]) == {k + 1} by {
      forall k | 0 <= k < 3 ensures Ids(cs[k]) == {k + 1} {
        assert cs[k][0].dbId == k + 1;
      }
    }
    SingleArrayIdDropped(vs, cs, id, 3);
    if 1 <= id <= 3 {
      MergeAllIsPerNodeMax(cs, id, id - 1);
    }
  }

  /** Two vectors holding 5 and 3 for the same id merge to 3: each is scanned
      against the other only. */
  lemma TwoWayMergeUnderCredits(vs: seq<array<Entry>>, cs: seq<seq<Entry>>)
    requires |vs| == 2 && vs[0] != vs[1]
    requires cs == [[Entry(1, 5)], [Entry(1, 3)]]
    ensures Credit(vs, cs, 1, 2) == 3
    ensures MaxAcross(cs, 1) == Some(5)
  {
    assert Lookup(cs[0], 1) == Some(5) by { assert cs[0][0].dbId == 1; }
    assert Lookup(cs[1], 1) == Some(3) by { assert cs[1][0].dbId == 1; }
    assert vs[..1][..0] == [] && cs[..1][..0] == [];
    assert OthersBest(vs[..1][..0], cs[..1][..0], vs[0], 1) == 0;
    assert cs[..1][0] == cs[0] && vs[..1][0] == vs[0];
    assert OthersBest(vs[..1], cs[..1], vs[0], 1) == 0;
    assert OthersBest(vs, cs, vs[0], 1) == 3;
    assert Credit(vs, cs, 1, 1) == 3;
    assert MaxAcross(cs[..1][..0], 1) == None;
    assert MaxAcross(cs[..1], 1) == Some(5);
  }

  // ---------------------------------------------------------------------
  // Conflict report
  // ---------------------------------------------------------------------

  /** The JSON shapes the report is built from. */
  datatype Json = JString(s: string) | JArray(items: seq<Json>) | JObject(props: seq<(string, Json)>)

  /** A stored conflict; only its change vector enters the report. */
  datatype DocumentConflict = DocumentConflict(changeVector: seq<Entry>)

  /** The report's message for a conflicted document. */
  function ConflictMessage(docId: string): string {
    "Conflict detected on " + docId + ", conflict must be resolved before the document will be accessible"
  }

  /** GetJsonForConflicts: Message, DocId, and one {ChangeVector} object per
      conflict in order under the key "Conflics" (spelled as the source spells
      it). The change vector's own JSON form is the parameter `toJson`. */
  method GetJsonForConflicts(docId: string, conflicts: seq<DocumentConflict>, toJson: seq<Entry> -> Json)
    returns (json: Json)
    ensures json.JObject? && |json.props| == 3
    ensures json.props[0] == ("Message", JString(ConflictMessage(docId)))
    ensures json.props[1] == ("DocId", JString(docId))
    ensures json.props[2].0 == "Conflics" && json.props[2].1.JArray?
    ensures |json.props[2].1.items| == |conflicts|
    ensures forall i :: 0 <= i < |conflicts| ==>
      json.props[2].1.items[i] == JObject([("ChangeVector", toJson(conflicts[i].changeVector))])
  {
    var conflictsArray: seq<Json> := [];
    for i := 0 to |conflicts|
      invariant |conflictsArray| == i
      invariant forall k :: 0 <= k < i ==>
        conflictsArray[k] == JObject([("ChangeVector", toJson(conflicts[k].changeVector))])
    {
      conflictsArray := conflictsArray + [JObject([("ChangeVector", toJson(conflicts[i].changeVector))])];
    }
    json := JObject([
      ("Message", JString(ConflictMessage(docId))),
      ("DocId", JString(docId)),
      ("Conflics", JArray(conflictsArray))
    ]);
  }
}
