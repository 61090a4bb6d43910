/**
 * Product records as the routes see them: plain JavaScript objects built from
 * the request body, so a record is a map from field name to JSON value, and
 * object spread `{ ...a, ...b }` is a right-biased union of two such maps.
 */
module Records {

  /** A JSON field value as it arrives in a request body. */
  datatype Value = Str(s: string) | Num(n: real) | Bool(b: bool) | Null

  /** One product: its own fields by name (`id`, `name`, `price`, `category`, and whatever else the body held). */
  type Record = map<string, Value>

  /** `{ ...base, ...patch }`: every field of `patch` overrides, every other field of `base` stays. */
  function Spread(base: Record, patch: Record): (r: Record)
    ensures r.Keys == base.Keys + patch.Keys
    ensures forall k :: k in patch ==> r[k] == patch[k]
    ensures forall k :: k in base && k !in patch ==> r[k] == base[k]
  {
    base + patch
  }

  /** Spreading the same patch a second time changes nothing. */
  lemma SpreadIdempotent(base: Record, patch: Record)
    ensures Spread(Spread(base, patch), patch) == Spread(base, patch)
  {
  }

  /**
   * `{ id: freshId, ...body }`: every body field is kept, and the `id` is the
   * fresh one only when the body has no `id` of its own.
   */
  function NewRecord(freshId: string, body: Record): (r: Record)
    ensures r.Keys == body.Keys + {"id"}
    ensures forall k :: k in body ==> r[k] == body[k]
    ensures r["id"] == if "id" in body then body["id"] else Str(freshId)
  {
    Spread(map["id" := Str(freshId)], body)
  }

  /** `p.id === id` for a string `id` taken from the path. */
  predicate HasId(p: Record, id: string)
  {
    "id" in p && p["id"] == Str(id)
  }

  /** `p.category === c` for a string `c` taken from the query. */
  predicate HasCategory(p: Record, c: string)
  {
    "category" in p && p["category"] == Str(c)
  }

  /** `p.name` is a string, so `p.name.toLowerCase()` does not throw. */
  predicate Named(p: Record)
  {
    "name" in p && p["name"].Str?
  }

  /** `p.category` is a string, so it is its own key in the stats object. */
  predicate Categorised(p: Record)
  {
    "category" in p && p["category"].Str?
  }

  /** The name of a named record. */
  function NameOf(p: Record): string
    requires Named(p)
  {
    p["name"].s
  }

  /** The category of a categorised record; it is the one category the record is in. */
  function CategoryOf(p: Record): (c: string)
    requires Categorised(p)
    ensures forall c' :: HasCategory(p, c') <==> c' == c
  {
    p["category"].s
  }

  /** What a body that passed validation for a create holds: a string `name` and a string `category`. */
  predicate ValidCreateBody(body: Record)
  {
    Named(body) && Categorised(body)
  }

  /** What a body that passed validation for an update holds: `name` and `category`, where present, are strings. */
  predicate ValidUpdateBody(body: Record)
  {
    ("name" in body ==> body["name"].Str?) && ("category" in body ==> body["category"].Str?)
  }

  /** An update body that passed validation keeps a record named and categorised, and leaves its `id` alone unless it carries one. */
  lemma SpreadKeepsWellFormed(p: Record, body: Record)
    requires Named(p) && Categorised(p) && ValidUpdateBody(body)
    ensures Named(Spread(p, body)) && Categorised(Spread(p, body))
    ensures "id" !in body ==> ("id" in Spread(p, body) <==> "id" in p)
    ensures "id" !in body && "id" in p ==> Spread(p, body)["id"] == p["id"]
  {
  }
}
