/**
 Properties that relate several requests: what a later request observes after an
 earlier one, when the per-collection id uniqueness survives, and the end-to-end
 scenario of creating, reading, updating and deleting one item.
 */
module Properties {
  import opened JsonValues
  import opened DocumentStore
  import opened Handlers

  /** A collection nobody has written to lists as empty and finds nothing. */
  lemma UnwrittenCollectionIsEmpty(s: Store, entity: string, id: string, body: Record)
    requires entity !in s
    ensures List(s, entity) == Reply(Response(200, Some(JArray([]))), s)
    ensures Get(s, entity, id) == Reply(NotFound, s)
    ensures Replace(s, entity, id, body) == Reply(NotFound, s)
    ensures Delete(s, entity, id) == Reply(NotFound, s)
  {
  }

  /** Appending one record: the ids of the new collection are those of the prior one
      plus the new record's. */
  lemma HasIdAppend(rs: Collection, x: Record, id: string)
    ensures HasId(rs + [x], id) <==> HasId(rs, id) || Matches(x, id)
  {
    var t := rs + [x];
    if HasId(rs, id) {
      var i :| 0 <= i < |rs| && Matches(rs[i], id);
      assert t[i] == rs[i];
    }
    if HasId(t, id) && !Matches(x, id) {
      var i :| 0 <= i < |t| && Matches(t[i], id);
      assert i < |rs| && rs[i] == t[i];
    }
    assert t[|rs|] == x;
  }

  /** After a create, reading the created record's id back returns that record,
      provided no older record of the collection already had that id. The id is the
      generated one when the body brings none, and the body's own otherwise. */
  lemma CreateThenGet(s: Store, entity: string, body: Record, freshId: string, x: string)
    requires Matches(NewItem(body, freshId), x)
    requires !HasId(Items(s, entity), x)
    ensures "id" !in body ==> x == freshId
    ensures var c := Create(s, entity, body, freshId);
            Get(c.store, entity, x).response == Response(200, c.response.body)
  {
    var c := Create(s, entity, body, freshId);
    var rs := c.store[entity];
    var prior := Items(s, entity);
    assert rs == prior + [c.response.body.value.fields];
    assert Matches(rs[|prior|], x);
    var g := Get(c.store, entity, x);
    assert HasId(rs, x);
    var i :| FirstMatch(rs, i, x) && g.response.body == Some(JObject(rs[i]));
    assert i == |prior|;
  }

  /** A client-supplied `id` overrides the generated one, so two creates can leave
      two records with the same id, and a read of that id returns the older one. */
  lemma CreateBodyIdCanDuplicate()
    ensures var s: Store := map["tasks" := [map["id" := JString("a")]]];
            var body: Record := map["id" := JString("a"), "title" := JString("new")];
            var c := Create(s, "tasks", body, "b");
            && c.response.body == Some(JObject(body))
            && UniqueIds(s["tasks"])
            && !UniqueIds(c.store["tasks"])
            && Get(c.store, "tasks", "a").response == Response(200, Some(JObject(map["id" := JString("a")])))
  {
    var older: Record := map["id" := JString("a")];
    var s: Store := map["tasks" := [older]];
    var body: Record := map["id" := JString("a"), "title" := JString("new")];
    var c := Create(s, "tasks", body, "b");
    CreatedFromIsUnique(NewItem(body, "b"), body, body, "b");
    assert c.store["tasks"] == [older, body];
    assert Matches(c.store["tasks"][0], "a") && Matches(c.store["tasks"][1], "a");
    assert FindIndex(c.store["tasks"], "a") == Some(0);
  }

  /** A create keeps ids unique when the id of the record it builds (the generated
      one, or the body's own) is not already in use in that collection. */
  lemma CreatePreservesUniqueIds(s: Store, entity: string, body: Record, freshId: string)
    requires UniqueIds(Items(s, entity))
    requires forall x :: Matches(NewItem(body, freshId), x) ==> !HasId(Items(s, entity), x)
    ensures UniqueIds(Create(s, entity, body, freshId).store[entity])
  {
    var prior := Items(s, entity);
    var c := Create(s, entity, body, freshId);
    var item := c.response.body.value.fields;
    var rs := c.store[entity];
    assert rs == prior + [item];
    forall i, j, id | 0 <= i < j < |rs| && Matches(rs[i], id)
      ensures !Matches(rs[j], id)
    {
      assert rs[i] == prior[i];
      if j == |prior| {
        assert HasId(prior, id);
      } else {
        assert rs[j] == prior[j];
      }
    }
  }

  /** A successful replace keeps, at every position, exactly the ids that were
      there before: the record it rewrites had the path id and still has it. */
  lemma ReplaceKeepsIds(s: Store, entity: string, id: string, body: Record)
    requires entity in s && HasId(s[entity], id)
    ensures var r := Replace(s, entity, id, body).store[entity];
            && |r| == |s[entity]|
            && forall j, id' :: 0 <= j < |r| ==> (Matches(r[j], id') <==> Matches(s[entity][j], id'))
  {
    var r := Replace(s, entity, id, body).store[entity];
    var i :| FirstMatch(s[entity], i, id) && ChangedOnlyAt(s[entity], r, i)
             && IsMergeOf(r[i], s[entity][i], body, id);
    forall j, id' | 0 <= j < |r| ensures Matches(r[j], id') <==> Matches(s[entity][j], id') {
      if j == i {
        assert r[j]["id"] == JString(id) == s[entity][j]["id"];
      }
    }
  }

  lemma ReplacePreservesUniqueIds(s: Store, entity: string, id: string, body: Record)
    requires entity in s && UniqueIds(s[entity])
    ensures UniqueIds(Replace(s, entity, id, body).store[entity])
  {
    if HasId(s[entity], id) {
      ReplaceKeepsIds(s, entity, id, body);
    }
  }

  /** Once the first record with the path id is known, a replace rewrites exactly
      that position with the merged record and answers with it. */
  lemma ReplaceAt(s: Store, entity: string, id: string, body: Record, i: nat)
    requires entity in s && FirstMatch(s[entity], i, id)
    ensures var m := Merged(s[entity][i], body, id);
            Replace(s, entity, id, body) == Reply(Response(200, Some(JObject(m))), s[entity := s[entity][i := m]])
  {
    var k := FindIndex(s[entity], id);
    assert k == Some(i);
  }

  /** Sending the same PUT twice leaves the store as sending it once, and the second
      response repeats the first. */
  lemma ReplaceIdempotent(s: Store, entity: string, id: string, body: Record)
    ensures var once := Replace(s, entity, id, body);
            Replace(once.store, entity, id, body) == once
  {
    if entity in s && HasId(s[entity], id) {
      var rs := s[entity];
      var i := FindIndex(rs, id).value;
      var m := Merged(rs[i], body, id);
      var s1 := s[entity := rs[i := m]];
      ReplaceAt(s, entity, id, body, i);
      UpdateTwice(rs, i, id, body);
      ReplaceAt(s1, entity, id, body, i);
      assert Merged(m, body, id) == m;
      assert s1[entity := s1[entity]] == s1;
    }
  }

  /** Once an id is deleted it cannot be read back, and deleting it again is a 404
      that leaves the store alone. */
  lemma DeleteThenGetOrDelete(s: Store, entity: string, id: string)
    ensures var d := Delete(s, entity, id);
            && Get(d.store, entity, id).response == NotFound
            && Delete(d.store, entity, id).response == NotFound
            && Delete(d.store, entity, id).store == d.store
  {
    var d := Delete(s, entity, id);
    if d.response.status != 404 {
      RemoveIdempotent(s[entity], id);
    }
  }

  /** With unique ids a successful delete removes exactly one record, and the
      collection keeps unique ids. */
  lemma DeleteUniqueDropsOne(s: Store, entity: string, id: string)
    requires entity in s && UniqueIds(s[entity])
    ensures var d := Delete(s, entity, id);
            && UniqueIds(d.store[entity])
            && (d.response == NoContent ==> |d.store[entity]| == |s[entity]| - 1)
  {
    RemoveKeepsUniqueIds(s[entity], id);
    if HasId(s[entity], id) {
      RemoveUniqueDropsOne(s[entity], id);
    }
  }

  /** Creating records one after another in the same collection, body `k` with
      generated id `k`. */
  function CreateAll(s: Store, entity: string, bodies: seq<Record>, ids: seq<string>): Store
    requires |bodies| == |ids|
    decreases |bodies|
  {
    if |bodies| == 0 then s
    else CreateAll(Create(s, entity, bodies[0], ids[0]).store, entity, bodies[1..], ids[1..])
  }

  /** Unfolds `Create` for the collection it targets; a proof step for
      `CreateAllAppends`, not a property of its own. */
  lemma CreateAppendsItem(s: Store, entity: string, body: Record, freshId: string)
    ensures Items(Create(s, entity, body, freshId).store, entity) == Items(s, entity) + [NewItem(body, freshId)]
  {
  }

  /** The records N creates build, in request order. */
  function NewItems(bodies: seq<Record>, ids: seq<string>): (items: seq<Record>)
    requires |bodies| == |ids|
    ensures |items| == |bodies|
  {
    if |bodies| == 0 then []
    else [NewItem(bodies[0], ids[0])] + NewItems(bodies[1..], ids[1..])
  }

  /** N creates touch no collection but their own. */
  lemma {:induction false} CreateAllOthersUnchanged(s: Store, entity: string, bodies: seq<Record>, ids: seq<string>, e: string)
    requires |bodies| == |ids|
    requires e in s && e != entity
    ensures var t := CreateAll(s, entity, bodies, ids);
            e in t && t[e] == s[e]
    decreases |bodies|
  {
    if |bodies| > 0 {
      var s1 := Create(s, entity, bodies[0], ids[0]).store;
      assert e in s1 && s1[e] == s[e];
      CreateAllOthersUnchanged(s1, entity, bodies[1..], ids[1..], e);
      assert CreateAll(s, entity, bodies, ids) == CreateAll(s1, entity, bodies[1..], ids[1..]);
    }
  }

  /** N creates append N records, in request order, after the records already
      there: listing afterwards shows the old records followed by the new ones. */
  lemma {:induction false} CreateAllAppends(s: Store, entity: string, bodies: seq<Record>, ids: seq<string>)
    requires |bodies| == |ids|
    ensures Items(CreateAll(s, entity, bodies, ids), entity) == Items(s, entity) + NewItems(bodies, ids)
    decreases |bodies|
  {
    if |bodies| > 0 {
      var x := NewItem(bodies[0], ids[0]);
      var s1 := Create(s, entity, bodies[0], ids[0]).store;
      var rest := NewItems(bodies[1..], ids[1..]);
      CreateAllAppends(s1, entity, bodies[1..], ids[1..]);
      CreateAppendsItem(s, entity, bodies[0], ids[0]);
      assert CreateAll(s, entity, bodies, ids) == CreateAll(s1, entity, bodies[1..], ids[1..]);
      assert NewItems(bodies, ids) == [x] + rest;
      assert (Items(s, entity) + [x]) + rest == Items(s, entity) + ([x] + rest);
    }
  }

  /** N creates with id-less bodies and distinct, unused generated ids leave the
      collection with unique ids. */
  lemma {:induction false} CreateAllUniqueIds(s: Store, entity: string, bodies: seq<Record>, ids: seq<string>)
    requires |bodies| == |ids|
    requires UniqueIds(Items(s, entity))
    requires forall k :: 0 <= k < |bodies| ==> "id" !in bodies[k]
    requires forall k, l :: 0 <= k < l < |ids| ==> ids[k] != ids[l]
    requires forall k :: 0 <= k < |ids| ==> !HasId(Items(s, entity), ids[k])
    ensures UniqueIds(Items(CreateAll(s, entity, bodies, ids), entity))
    decreases |bodies|
  {
    if |bodies| > 0 {
      var c := Create(s, entity, bodies[0], ids[0]);
      CreatePreservesUniqueIds(s, entity, bodies[0], ids[0]);
      var item := c.response.body.value.fields;
      assert Items(c.store, entity) == Items(s, entity) + [item];
      forall k | 0 <= k < |ids[1..]| ensures !HasId(Items(c.store, entity), ids[1..][k]) {
        HasIdAppend(Items(s, entity), item, ids[1..][k]);
        assert ids[1..][k] == ids[k + 1];
      }
      CreateAllUniqueIds(c.store, entity, bodies[1..], ids[1..]);
    }
  }

  /** Unfolds `List`; a proof step for `CreateNThenList`, not a property of its own. */
  lemma ListShowsItems(s: Store, entity: string)
    ensures List(s, entity) == Reply(Response(200, Some(RecordsJson(Items(s, entity)))), s)
  {
  }

  /** Creating N records in a fresh collection and then listing it returns exactly
      those N records, in the order they were created. */
  lemma CreateNThenList(s: Store, entity: string, bodies: seq<Record>, ids: seq<string>)
    requires |bodies| == |ids|
    requires entity !in s
    ensures List(CreateAll(s, entity, bodies, ids), entity).response
            == Response(200, Some(RecordsJson(NewItems(bodies, ids))))
  {
    var t := CreateAll(s, entity, bodies, ids);
    CreateAllAppends(s, entity, bodies, ids);
    assert Items(s, entity) + NewItems(bodies, ids) == NewItems(bodies, ids);
    ListShowsItems(t, entity);
  }

  /** The walk-through of one item's life: POST a title, read it back, PUT a `done`
      flag, DELETE it, and read it again. Each step starts from the store the
      previous one left. */
  const TitleBody: Record := map["title" := JString("buy milk")]
  const DoneBody: Record := map["done" := JBool(true)]

  function CreatedTask(u: string): Record
  {
    map["id" := JString(u), "title" := JString("buy milk")]
  }

  function DoneTask(u: string): Record
  {
    map["id" := JString(u), "title" := JString("buy milk"), "done" := JBool(true)]
  }

  lemma TaskCreated(s: Store, u: string)
    requires "tasks" !in s
    ensures Create(s, "tasks", TitleBody, u)
            == Reply(Response(201, Some(JObject(CreatedTask(u)))), s["tasks" := [CreatedTask(u)]])
  {
    CreatedFromIsUnique(NewItem(TitleBody, u), CreatedTask(u), TitleBody, u);
    assert Items(s, "tasks") + [NewItem(TitleBody, u)] == [CreatedTask(u)];
  }

  lemma DoneTaskIsMerge(u: string)
    ensures Merged(CreatedTask(u), DoneBody, u) == DoneTask(u)
  {
    assert IsMergeOf(DoneTask(u), CreatedTask(u), DoneBody, u);
    MergeOfIsUnique(Merged(CreatedTask(u), DoneBody, u), DoneTask(u), CreatedTask(u), DoneBody, u);
  }

  lemma TaskUpdated(s: Store, u: string)
    ensures Replace(s["tasks" := [CreatedTask(u)]], "tasks", u, DoneBody)
            == Reply(Response(200, Some(JObject(DoneTask(u)))), s["tasks" := [DoneTask(u)]])
  {
    var s1 := s["tasks" := [CreatedTask(u)]];
    ReplaceAt(s1, "tasks", u, DoneBody, 0);
    DoneTaskIsMerge(u);
    assert s1["tasks"][0 := DoneTask(u)] == [DoneTask(u)];
    assert s1["tasks" := [DoneTask(u)]] == s["tasks" := [DoneTask(u)]];
  }

  lemma TaskDeleted(s: Store, u: string)
    ensures Delete(s["tasks" := [DoneTask(u)]], "tasks", u) == Reply(NoContent, s["tasks" := []])
  {
    assert Matches(DoneTask(u), u);
    assert Remove([DoneTask(u)], u) == [];
    assert s["tasks" := [DoneTask(u)]]["tasks" := []] == s["tasks" := []];
  }

  lemma TaskLifecycle(s: Store, u: string)
    requires "tasks" !in s
    ensures Create(s, "tasks", TitleBody, u)
            == Reply(Response(201, Some(JObject(CreatedTask(u)))), s["tasks" := [CreatedTask(u)]])
    ensures Get(s["tasks" := [CreatedTask(u)]], "tasks", u).response
            == Response(200, Some(JObject(CreatedTask(u))))
    ensures Replace(s["tasks" := [CreatedTask(u)]], "tasks", u, DoneBody)
            == Reply(Response(200, Some(JObject(DoneTask(u)))), s["tasks" := [DoneTask(u)]])
    ensures Delete(s["tasks" := [DoneTask(u)]], "tasks", u) == Reply(NoContent, s["tasks" := []])
    ensures Get(s["tasks" := []], "tasks", u).response == NotFound
  {
    TaskCreated(s, u);
    assert FindIndex([CreatedTask(u)], u) == Some(0);
    TaskUpdated(s, u);
    TaskDeleted(s, u);
  }
}
