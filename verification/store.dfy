/**
 The document store: collection name to an ordered sequence of records, and the
 array operations the handlers apply to one collection (`find`/`findIndex` on the
 `id` field, `filter` out an id, and the two ways a record is built by spreading).
 */
module DocumentStore {
  import opened JsonValues

  type Collection = seq<Record>

  /** The whole store file: top-level keys are collection names. */
  type Store = map<string, Collection>

  /** `data[entity] || []`: the named collection, or an empty one when it is absent. */
  function Items(s: Store, entity: string): Collection
  {
    if entity in s then s[entity] else []
  }

  /** `i.id === id`. The comparison is strict, so only an `id` field holding exactly
      that string matches: a numeric id, or a record without an `id`, never does. */
  predicate Matches(r: Record, id: string)
  {
    "id" in r && r["id"] == JString(id)
  }

  /** What the strict comparison admits: a record matches an id exactly when its
      `id` field is that string. A record with a non-string `id`, or with none,
      matches no id at all, and a record matches at most one id. */
  lemma StrictIdMatch(r: Record, id: string, other: string)
    ensures Matches(r, id) <==> "id" in r && r["id"].JString? && r["id"].s == id
    ensures "id" !in r || !r["id"].JString? ==> !Matches(r, id)
    ensures Matches(r, id) && Matches(r, other) ==> id == other
    ensures Matches(map["id" := JNumber(7.0)], "7") == false
  {
  }

  /** Some record of the collection has the given id. */
  ghost predicate HasId(rs: Collection, id: string)
  {
    exists i :: 0 <= i < |rs| && Matches(rs[i], id)
  }

  /** Position `i` holds the first record of `rs` with the given id. */
  ghost predicate FirstMatch(rs: Collection, i: int, id: string)
  {
    && 0 <= i < |rs|
    && Matches(rs[i], id)
    && forall j :: 0 <= j < i ==> !Matches(rs[j], id)
  }

  /** No two records of the collection carry the same id. */
  ghost predicate UniqueIds(rs: Collection)
  {
    forall i, j, id :: 0 <= i < j < |rs| && Matches(rs[i], id) ==> !Matches(rs[j], id)
  }

  /** `rs.findIndex(i => i.id === id)`, with None standing for -1. */
  function FindIndex(rs: Collection, id: string): (r: Option<nat>)
    ensures r.None? <==> !HasId(rs, id)
    ensures r.Some? ==> FirstMatch(rs, r.value, id)
  {
    if |rs| == 0 then None
    else if Matches(rs[0], id) then Some(0)
    else
      match FindIndex(rs[1..], id)
      case None =>
        assert forall i :: 1 <= i < |rs| ==> rs[i] == rs[1..][i - 1];
        None
      case Some(k) =>
        assert forall j :: 1 <= j <= k ==> rs[j] == rs[1..][j - 1];
        Some(k + 1)
  }

  /** `rs.filter(i => i.id !== id)`. */
  function Remove(rs: Collection, id: string): (r: Collection)
    ensures |r| <= |rs|
    ensures forall x :: x in r <==> x in rs && !Matches(x, id)
    ensures |r| == |rs| <==> !HasId(rs, id)
  {
    if |rs| == 0 then []
    else
      var tail := Remove(rs[1..], id);
      assert HasId(rs, id) <==> Matches(rs[0], id) || HasId(rs[1..], id) by {
        if HasId(rs[1..], id) {
          var i :| 0 <= i < |rs[1..]| && Matches(rs[1..][i], id);
          assert Matches(rs[i + 1], id);
        }
        if HasId(rs, id) && !Matches(rs[0], id) {
          var i :| 0 <= i < |rs| && Matches(rs[i], id);
          assert rs[1..][i - 1] == rs[i];
        }
      }
      assert forall x :: x in rs <==> x == rs[0] || x in rs[1..];
      if Matches(rs[0], id) then tail else [rs[0]] + tail
  }

  /** Filtering distributes over concatenation: the records that survive keep their
      relative order, and a single record survives exactly when it does not match. */
  lemma {:induction false} RemoveAppend(a: Collection, b: Collection, id: string)
    ensures Remove(a + b, id) == Remove(a, id) + Remove(b, id)
    decreases |a|
  {
    if |a| == 0 {
      assert a + b == b;
    } else {
      assert (a + b)[1..] == a[1..] + b;
      RemoveAppend(a[1..], b, id);
    }
  }

  /** Removing an id a second time removes nothing. */
  lemma {:induction false} RemoveIdempotent(rs: Collection, id: string)
    ensures Remove(Remove(rs, id), id) == Remove(rs, id)
    ensures !HasId(Remove(rs, id), id)
    decreases |rs|
  {
    if |rs| > 0 {
      RemoveIdempotent(rs[1..], id);
      var tail := Remove(rs[1..], id);
      if !Matches(rs[0], id) {
        assert ([rs[0]] + tail)[1..] == tail;
      }
    }
  }

  /** Dropping the first record keeps ids unique, and the first record's id does
      not occur again further on. */
  lemma UniqueTail(rs: Collection)
    requires |rs| > 0 && UniqueIds(rs)
    ensures UniqueIds(rs[1..])
    ensures forall id :: Matches(rs[0], id) ==> !HasId(rs[1..], id)
  {
    var tail := rs[1..];
    forall i, j, id | 0 <= i < j < |tail| && Matches(tail[i], id)
      ensures !Matches(tail[j], id)
    {
      assert tail[i] == rs[i + 1] && tail[j] == rs[j + 1];
    }
    forall id | Matches(rs[0], id) ensures !HasId(tail, id) {
      forall j | 0 <= j < |tail| ensures !Matches(tail[j], id) {
        assert tail[j] == rs[j + 1];
      }
    }
  }

  /** When ids are unique and the id is present, exactly one record is removed. */
  lemma {:induction false} RemoveUniqueDropsOne(rs: Collection, id: string)
    requires UniqueIds(rs)
    requires HasId(rs, id)
    ensures |Remove(rs, id)| == |rs| - 1
    decreases |rs|
  {
    UniqueTail(rs);
    if !Matches(rs[0], id) {
      var i :| 0 <= i < |rs| && Matches(rs[i], id);
      assert rs[1..][i - 1] == rs[i];
      RemoveUniqueDropsOne(rs[1..], id);
    }
  }

  /** Filtering keeps ids unique. */
  lemma {:induction false} RemoveKeepsUniqueIds(rs: Collection, id: string)
    requires UniqueIds(rs)
    ensures UniqueIds(Remove(rs, id))
    decreases |rs|
  {
    if |rs| > 0 {
      var tail := rs[1..];
      UniqueTail(rs);
      RemoveKeepsUniqueIds(tail, id);
      if !Matches(rs[0], id) {
        var r := Remove(rs, id);
        var rt := Remove(tail, id);
        assert r == [rs[0]] + rt;
        forall i, j, id' | 0 <= i < j < |r| && Matches(r[i], id')
          ensures !Matches(r[j], id')
        {
          if i == 0 {
            assert r[j] == rt[j - 1];
            assert r[j] in tail;
          } else {
            assert r[i] == rt[i - 1] && r[j] == rt[j - 1];
          }
        }
      }
    }
  }

  /** Position `i` of `after` may differ from `before`; nothing else does. */
  ghost predicate ChangedOnlyAt(before: Collection, after: Collection, i: int)
  {
    && |after| == |before|
    && forall j :: 0 <= j < |before| && j != i ==> after[j] == before[j]
  }

  /** What the create handler promises about the record it builds from a request
      body and a freshly generated id: every body field with the body's value, and
      an `id`, which is the generated one unless the body brought its own. */
  ghost predicate IsCreatedFrom(item: Record, body: Record, freshId: string)
  {
    && item.Keys == body.Keys + {"id"}
    && (forall k :: k in body ==> item[k] == body[k])
    && ("id" !in body ==> item["id"] == JString(freshId))
  }

  /** What the replace handler promises about the record it writes back: the prior
      fields, overlaid by the body's, and an `id` forced back to the path id. */
  ghost predicate IsMergeOf(m: Record, prior: Record, body: Record, id: string)
  {
    && m.Keys == prior.Keys + body.Keys + {"id"}
    && m["id"] == JString(id)
    && (forall k :: k in body && k != "id" ==> m[k] == body[k])
    && (forall k :: k in prior && k !in body && k != "id" ==> m[k] == prior[k])
  }

  /** `{ id: uuidv4(), ...req.body }`: the generated id is written first, so an `id`
      in the body overwrites it. */
  function NewItem(body: Record, freshId: string): (item: Record)
    ensures IsCreatedFrom(item, body, freshId)
  {
    Spread(map["id" := JString(freshId)], body)
  }

  /** `{ ...entity[index], ...req.body, id: req.params.id }`. */
  function Merged(prior: Record, body: Record, id: string): (m: Record)
    ensures IsMergeOf(m, prior, body, id)
    ensures Matches(m, id)
  {
    Spread(Spread(prior, body), map["id" := JString(id)])
  }

  /** The two record-building contracts pin the record down completely. */
  lemma CreatedFromIsUnique(a: Record, b: Record, body: Record, freshId: string)
    requires IsCreatedFrom(a, body, freshId) && IsCreatedFrom(b, body, freshId)
    ensures a == b
  {
    assert forall k :: k in a ==> a[k] == b[k] by {
      forall k | k in a ensures a[k] == b[k] {
        if k != "id" { assert k in body; }
      }
    }
  }

  lemma MergeOfIsUnique(a: Record, b: Record, prior: Record, body: Record, id: string)
    requires IsMergeOf(a, prior, body, id) && IsMergeOf(b, prior, body, id)
    ensures a == b
  {
    assert forall k :: k in a ==> a[k] == b[k] by {
      forall k | k in a ensures a[k] == b[k] {
        if k != "id" && k !in body { assert k in prior; }
      }
    }
  }

  /** Merging the same body a second time changes nothing: PUT is idempotent on
      the record it targets. */
  lemma MergedIdempotent(prior: Record, body: Record, id: string)
    ensures Merged(Merged(prior, body, id), body, id) == Merged(prior, body, id)
  {
    var once := Merged(prior, body, id);
    var twice := Merged(once, body, id);
    assert IsMergeOf(twice, prior, body, id);
    MergeOfIsUnique(twice, once, prior, body, id);
  }

  /** Rewriting the first match with its merge leaves it the first match, and
      rewriting it again with the same body changes nothing. */
  lemma UpdateTwice(rs: Collection, i: nat, id: string, body: Record)
    requires FirstMatch(rs, i, id)
    ensures var rs1 := rs[i := Merged(rs[i], body, id)];
            && FirstMatch(rs1, i, id)
            && rs1[i := Merged(rs1[i], body, id)] == rs1
  {
    var m := Merged(rs[i], body, id);
    var rs1 := rs[i := m];
    forall j | 0 <= j < i ensures !Matches(rs1[j], id) {
      assert rs1[j] == rs[j];
    }
    MergedIdempotent(rs[i], body, id);
    assert rs1[i := Merged(rs1[i], body, id)] == rs1[i := m];
  }
}
