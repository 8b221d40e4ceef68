/**
 The five CRUD handlers, each a pure transition from the store read at the start of
 the request to the HTTP response and the store written back at the end. A handler
 that does not write the file returns the store it was given.
 */
module Handlers {
  import opened JsonValues
  import opened DocumentStore

  /** A status code and a JSON body; `None` is an empty body. */
  datatype Response = Response(status: int, body: Option<Json>)

  /** The outcome of one request: the response sent and the store as it is afterwards. */
  datatype Reply = Reply(response: Response, store: Store)

  /** `res.status(404).json({ error: "Item not found" })`. */
  const NotFound: Response := Response(404, Some(JObject(map["error" := JString("Item not found")])))

  /** `res.status(204).send()`. */
  const NoContent: Response := Response(204, None)

  /** A collection sent as a JSON array of objects. */
  function RecordsJson(rs: Collection): Json
  {
    JArray(seq(|rs|, i requires 0 <= i < |rs| => JObject(rs[i])))
  }

  /** GET /api/:entity */
  function List(s: Store, entity: string): (r: Reply)
    ensures r.store == s
    ensures r.response.status == 200
    ensures entity !in s ==> r.response.body == Some(JArray([]))
    ensures entity in s ==> r.response.body == Some(RecordsJson(s[entity]))
  {
    assert RecordsJson([]) == JArray([]);
    Reply(Response(200, Some(RecordsJson(Items(s, entity)))), s)
  }

  /** GET /api/:entity/:id */
  function Get(s: Store, entity: string, id: string): (r: Reply)
    ensures r.store == s
    ensures r.response.status == 200 <==> entity in s && HasId(s[entity], id)
    ensures r.response.status != 200 ==> r.response == NotFound
    ensures r.response.status == 200 ==>
              exists i :: FirstMatch(s[entity], i, id) && r.response.body == Some(JObject(s[entity][i]))
  {
    var rs := Items(s, entity);
    match FindIndex(rs, id)
    case Some(i) => Reply(Response(200, Some(JObject(rs[i]))), s)
    case None => Reply(NotFound, s)
  }

  /** POST /api/:entity, with the identifier `uuidv4()` would have produced passed in. */
  function Create(s: Store, entity: string, body: Record, freshId: string): (r: Reply)
    ensures r.response.status == 201
    ensures r.response.body.Some? && r.response.body.value.JObject?
    ensures IsCreatedFrom(r.response.body.value.fields, body, freshId)
    ensures r.store.Keys == s.Keys + {entity}
    ensures r.store[entity] == Items(s, entity) + [r.response.body.value.fields]
    ensures forall e :: e in s && e != entity ==> r.store[e] == s[e]
  {
    var item := NewItem(body, freshId);
    Reply(Response(201, Some(JObject(item))), s[entity := Items(s, entity) + [item]])
  }

  /** PUT /api/:entity/:id */
  function Replace(s: Store, entity: string, id: string, body: Record): (r: Reply)
    ensures !(entity in s && HasId(s[entity], id)) ==> r.response == NotFound && r.store == s
    ensures entity in s && HasId(s[entity], id) ==>
              && r.response.status == 200
              && r.store.Keys == s.Keys
              && (forall e :: e in s && e != entity ==> r.store[e] == s[e])
              && exists i ::
                   && FirstMatch(s[entity], i, id)
                   && ChangedOnlyAt(s[entity], r.store[entity], i)
                   && IsMergeOf(r.store[entity][i], s[entity][i], body, id)
                   && r.response.body == Some(JObject(r.store[entity][i]))
  {
    var rs := Items(s, entity);
    match FindIndex(rs, id)
    case None => Reply(NotFound, s)
    case Some(i) =>
      var updated := Merged(rs[i], body, id);
      var rs' := rs[i := updated];
      assert ChangedOnlyAt(rs, rs', i);
      Reply(Response(200, Some(JObject(updated))), s[entity := rs'])
  }

  /** DELETE /api/:entity/:id. The handler detects "not found" by comparing the
      length before and after filtering; that comparison is exactly "no record had
      the id", whether or not ids are unique. */
  function Delete(s: Store, entity: string, id: string): (r: Reply)
    ensures r.response.status == 404 <==> !(entity in s && HasId(s[entity], id))
    ensures r.response.status == 404 ==> r.response == NotFound && r.store == s
    ensures r.response.status != 404 ==>
              && r.response == NoContent
              && r.store.Keys == s.Keys
              && r.store[entity] == Remove(s[entity], id)
              && (forall e :: e in s && e != entity ==> r.store[e] == s[e])
  {
    var rs := Items(s, entity);
    var filtered := Remove(rs, id);
    if |rs| == |filtered| then Reply(NotFound, s)
    else Reply(NoContent, s[entity := filtered])
  }
}
