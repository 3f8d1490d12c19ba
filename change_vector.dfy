/** Change vectors as values: the entry type, first-match lookup, the bump of
    one node's etag, and the per-node-maximum merge a change vector algebra
    calls for. The methods of ReplicationUtils are proved against these. */
module ChangeVectors {
  import opened Wrappers

  /** A database id: a 128-bit value, read as the 32 hexadecimal digits of its
      text form. */
  type Guid = x: nat | x < 0x1_0000_0000_0000_0000_0000_0000_0000_0000

  /** Guid.Empty, the id of default(ChangeVectorEntry). */
  const EmptyGuid: Guid := 0

  /** A C# long. */
  type Int64 = x: int | -0x8000_0000_0000_0000 <= x < 0x8000_0000_0000_0000

  /** ChangeVectorEntry: a database id and the etag that database reached. */
  datatype Entry = Entry(dbId: Guid, etag: Int64)

  /** default(ChangeVectorEntry): empty id, etag 0. */
  const DefaultEntry: Entry := Entry(EmptyGuid, 0)

  /** Math.Max on longs. */
  function MaxOf(a: Int64, b: Int64): (m: Int64)
    ensures m >= a && m >= b && (m == a || m == b)
  {
    if a >= b then a else b
  }

  /** The ids that occur in a vector. */
  function Ids(v: seq<Entry>): set<Guid> {
    set i | 0 <= i < |v| :: v[i].dbId
  }

  /** The position of the first entry carrying `id`, if any. */
  function IndexOf(v: seq<Entry>, id: Guid): (r: Option<nat>)
    ensures r.Some? ==> r.value < |v| && v[r.value].dbId == id
    ensures r.Some? ==> forall j :: 0 <= j < r.value ==> v[j].dbId != id
    ensures r.None? <==> id !in Ids(v)
  {
    if v == [] then None
    else if v[0].dbId == id then Some(0)
    else
      var rest := IndexOf(v[1..], id);
      assert Ids(v) == {v[0].dbId} + Ids(v[1..]) by {
        forall x | x in Ids(v) ensures x in {v[0].dbId} + Ids(v[1..]) {
          var i :| 0 <= i < |v| && v[i].dbId == x;
          if i > 0 { assert v[1..][i - 1].dbId == x; }
        }
      }
      match rest
      case None => None
      case Some(k) => Some(k + 1)
  }

  /** The etag of the first entry carrying `id`, if any. */
  function Lookup(v: seq<Entry>, id: Guid): (r: Option<Int64>)
    ensures r.Some? <==> id in Ids(v)
  {
    match IndexOf(v, id)
    case None => None
    case Some(i) => Some(v[i].etag)
  }

  /** Two vectors whose entries carry the same ids position by position find
      every id at the same position. */
  lemma {:induction false} SameIdsSameIndex(u: seq<Entry>, v: seq<Entry>, id: Guid)
    requires |u| == |v|
    requires forall i :: 0 <= i < |u| ==> u[i].dbId == v[i].dbId
    ensures IndexOf(u, id) == IndexOf(v, id)
  {
    if u != [] && u[0].dbId != id {
      SameIdsSameIndex(u[1..], v[1..], id);
    }
  }

  /** Past a first entry with another id, a lookup continues in the tail. */
  lemma LookupTail(v: seq<Entry>, id: Guid)
    requires v != [] && v[0].dbId != id
    ensures Lookup(v, id) == Lookup(v[1..], id)
  {
  }

  /** Looking up in a concatenation finds the left part first. */
  lemma {:induction false} LookupAppend(a: seq<Entry>, b: seq<Entry>, id: Guid)
    ensures Lookup(a + b, id) == if id in Ids(a) then Lookup(a, id) else Lookup(b, id)
  {
    if a == [] {
      assert a + b == b;
    } else if a[0].dbId != id {
      assert (a + b)[1..] == a[1..] + b;
      LookupAppend(a[1..], b, id);
      LookupTail(a + b, id);
      LookupTail(a, id);
      assert id in Ids(a) <==> id in Ids(a[1..]) by {
        if id in Ids(a) {
          var i :| 0 <= i < |a| && a[i].dbId == id;
          assert a[1..][i - 1].dbId == id;
        }
      }
    } else {
      assert (a + b)[0] == a[0];
    }
  }

  // ---------------------------------------------------------------------
  // Bumping one node's etag
  // ---------------------------------------------------------------------

  /** The vector after `id`'s etag becomes `etag`: the first entry with `id` is
      overwritten, or a new entry is appended when there is none. */
  function Bump(v: seq<Entry>, id: Guid, etag: Int64): (r: seq<Entry>)
    ensures |r| == if id in Ids(v) then |v| else |v| + 1
  {
    match IndexOf(v, id)
    case Some(i) => v[i := Entry(id, etag)]
    case None => v + [Entry(id, etag)]
  }

  /** After a bump, `id` reads back as the new etag and every other id reads
      back as before. */
  lemma {:induction false} BumpLookup(v: seq<Entry>, id: Guid, etag: Int64, other: Guid)
    ensures Lookup(Bump(v, id, etag), id) == Some(etag)
    ensures other != id ==> Lookup(Bump(v, id, etag), other) == Lookup(v, other)
  {
    var r := Bump(v, id, etag);
    match IndexOf(v, id)
    case Some(i) =>
      SameIdsSameIndex(r, v, id);
      SameIdsSameIndex(r, v, other);
    case None =>
      LookupAppend(v, [Entry(id, etag)], id);
      LookupAppend(v, [Entry(id, etag)], other);
      assert Ids([Entry(id, etag)]) == {id};
  }

  /** Bumping keeps every existing entry in place apart from the first one
      carrying `id`. */
  lemma BumpKeepsOthers(v: seq<Entry>, id: Guid, etag: Int64, i: nat)
    requires i < |v| && IndexOf(v, id) != Some(i)
    ensures Bump(v, id, etag)[i] == v[i]
  {
  }

  // ---------------------------------------------------------------------
  // The per-node-maximum merge
  // ---------------------------------------------------------------------

  /** The larger of two possibly absent etags; an absent etag loses. */
  function Combine(x: Option<Int64>, y: Option<Int64>): (r: Option<Int64>)
    ensures r.None? <==> x.None? && y.None?
    ensures r.Some? ==> (x.Some? ==> x.value <= r.value) && (y.Some? ==> y.value <= r.value)
    ensures r.Some? ==> r == x || r == y
  {
    match x
    case None => y
    case Some(a) =>
      match y
      case None => x
      case Some(b) => Some(MaxOf(a, b))
  }

  /** Every entry of `a`, raised to the etag `b` holds for its id. */
  function RaiseBy(a: seq<Entry>, b: seq<Entry>): (r: seq<Entry>)
    ensures |r| == |a| && forall i :: 0 <= i < |a| ==> r[i].dbId == a[i].dbId
  {
    seq(|a|, i requires 0 <= i < |a| =>
      Entry(a[i].dbId, Combine(Some(a[i].etag), Lookup(b, a[i].dbId)).value))
  }

  /** The entries of `b` whose id does not occur in `a`, in order. */
  function Absent(b: seq<Entry>, a: seq<Entry>): (r: seq<Entry>)
  {
    if b == [] then []
    else (if b[0].dbId in Ids(a) then [] else [b[0]]) + Absent(b[1..], a)
  }

  /** Filtering out the ids of `a` leaves the lookups of every other id alone. */
  lemma {:induction false} AbsentLookup(b: seq<Entry>, a: seq<Entry>, id: Guid)
    ensures id in Ids(a) ==> Lookup(Absent(b, a), id) == None
    ensures id !in Ids(a) ==> Lookup(Absent(b, a), id) == Lookup(b, id)
  {
    if b != [] {
      var head := if b[0].dbId in Ids(a) then [] else [b[0]];
      AbsentLookup(b[1..], a, id);
      LookupAppend(head, Absent(b[1..], a), id);
      LookupAppend([b[0]], b[1..], id);
      assert [b[0]] + b[1..] == b;
      assert Ids([b[0]]) == {b[0].dbId};
      assert Ids(head) <= {b[0].dbId};
    }
  }

  /** The merge a change vector algebra calls for: the union of the ids, each
      with the larger of its two etags (first entries count). */
  function Merge(a: seq<Entry>, b: seq<Entry>): (c: seq<Entry>)
    ensures forall id :: Lookup(c, id) == Combine(Lookup(a, id), Lookup(b, id))
  {
    var c := RaiseBy(a, b) + Absent(b, a);
    assert forall id :: Lookup(c, id) == Combine(Lookup(a, id), Lookup(b, id)) by {
      forall id ensures Lookup(c, id) == Combine(Lookup(a, id), Lookup(b, id)) {
        MergeLookup(a, b, id);
      }
    }
    c
  }

  lemma MergeLookup(a: seq<Entry>, b: seq<Entry>, id: Guid)
    ensures Lookup(RaiseBy(a, b) + Absent(b, a), id) == Combine(Lookup(a, id), Lookup(b, id))
  {
    var r := RaiseBy(a, b);
    SameIdsSameIndex(r, a, id);
    assert Ids(r) == Ids(a) by {
      assert forall x :: x in Ids(r) <==> IndexOf(r, x).Some? ;
      forall x ensures x in Ids(r) <==> x in Ids(a) { SameIdsSameIndex(r, a, x); }
    }
    LookupAppend(r, Absent(b, a), id);
    AbsentLookup(b, a, id);
  }

  /** Merging is symmetric: both orders give every id the same etag. */
  lemma MergeCommutes(a: seq<Entry>, b: seq<Entry>, id: Guid)
    ensures Lookup(Merge(a, b), id) == Lookup(Merge(b, a), id)
  {
  }

  /** Merging is associative, id by id. */
  lemma MergeAssociates(a: seq<Entry>, b: seq<Entry>, c: seq<Entry>, id: Guid)
    ensures Lookup(Merge(a, Merge(b, c)), id) == Lookup(Merge(Merge(a, b), c), id)
  {
  }

  /** The largest etag any of the vectors holds for `id` (first entries count). */
  function MaxAcross(cs: seq<seq<Entry>>, id: Guid): Option<Int64> {
    if cs == [] then None
    else Combine(MaxAcross(cs[..|cs| - 1], id), Lookup(cs[|cs| - 1], id))
  }

  /** MaxAcross is the per-node maximum: absent exactly when no vector holds
      the id, otherwise a value one of them holds and no vector exceeds. */
  lemma {:induction false} MaxAcrossIsMax(cs: seq<seq<Entry>>, id: Guid)
    ensures MaxAcross(cs, id).None? <==> forall k :: 0 <= k < |cs| ==> id !in Ids(cs[k])
    ensures MaxAcross(cs, id).Some? ==>
      (exists k :: 0 <= k < |cs| && Lookup(cs[k], id) == MaxAcross(cs, id))
      && forall k :: 0 <= k < |cs| && id in Ids(cs[k]) ==> Lookup(cs[k], id).value <= MaxAcross(cs, id).value
  {
    if cs != [] {
      var init := cs[..|cs| - 1];
      MaxAcrossIsMax(init, id);
      assert forall k :: 0 <= k < |init| ==> init[k] == cs[k];
      var m := MaxAcross(cs, id);
      if m.Some? {
        if m == Lookup(cs[|cs| - 1], id) {
        } else {
          var k :| 0 <= k < |init| && Lookup(init[k], id) == MaxAcross(init, id);
          assert Lookup(cs[k], id) == m;
        }
      }
    }
  }

  /** The merge of many vectors, one after the other. */
  function MergeAll(cs: seq<seq<Entry>>): (r: seq<Entry>)
    ensures forall id :: Lookup(r, id) == MaxAcross(cs, id)
  {
    if cs == [] then []
    else Merge(MergeAll(cs[..|cs| - 1]), cs[|cs| - 1])
  }

  /** Folding the per-node-maximum merge over many vectors gives every id the
      largest etag any input holds, and drops no id. */
  lemma MergeAllIsPerNodeMax(cs: seq<seq<Entry>>, id: Guid, k: nat)
    requires k < |cs| && id in Ids(cs[k])
    ensures Lookup(MergeAll(cs), id).Some?
    ensures Lookup(cs[k], id).value <= Lookup(MergeAll(cs), id).value
    ensures exists j :: 0 <= j < |cs| && Lookup(cs[j], id) == Lookup(MergeAll(cs), id)
  {
    MaxAcrossIsMax(cs, id);
  }
}
