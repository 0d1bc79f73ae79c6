/** The JSON request body that POST and PUT receive (server.js:127, 146) and the
    closed set of menu categories the validator accepts (server.js:79). */
module Payloads {
  import opened Wrappers

  /** A JSON value as `express.json()` hands it to the handlers. */
  datatype Json =
    | JNull
    | JBool(b: bool)
    | JNumber(x: real)
    | JString(s: string)
    | JArray(elems: seq<Json>)
    | JObject(members: seq<(string, Json)>)

  /** The body fields the validator and the handlers look at; `None` is a field the
      client left out (`undefined`). `id` is here because clients may send one. */
  datatype Payload = Payload(
    id: Option<Json>,
    name: Option<Json>,
    description: Option<Json>,
    price: Option<Json>,
    category: Option<Json>,
    ingredients: Option<Json>,
    available: Option<Json>)

  datatype Category = Appetizer | Entree | Dessert | Beverage

  /** The wire spelling of each category. */
  function CategoryName(c: Category): string {
    match c
    case Appetizer => "appetizer"
    case Entree => "entree"
    case Dessert => "dessert"
    case Beverage => "beverage"
  }

  /** `isIn(['appetizer', 'entree', 'dessert', 'beverage'])`: exact, case-sensitive match. */
  function ParseCategory(s: string): (r: Option<Category>)
    ensures forall c :: r == Some(c) <==> CategoryName(c) == s
  {
    if s == "appetizer" then Some(Appetizer)
    else if s == "entree" then Some(Entree)
    else if s == "dessert" then Some(Dessert)
    else if s == "beverage" then Some(Beverage)
    else None
  }
}
