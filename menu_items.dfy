/** A stored menu item (server.js:15-70, 129-137, 155-163) and its relation to the
    request body it is built from. */
module MenuItems {
  import opened Wrappers
  import opened Payloads
  import opened Validation

  /** One entry of `menuItems`. `available` is whatever the body carried: a boolean, or
      nothing when the client left the field out. */
  datatype MenuItem = MenuItem(
    id: int,
    name: string,
    description: string,
    price: real,
    category: Category,
    ingredients: seq<Json>,
    available: Option<bool>)

  /** The body fields an item carries, as JSON; `id` is left out. */
  function PayloadOf(it: MenuItem): Payload {
    Payload(
      None,
      Some(JString(it.name)),
      Some(JString(it.description)),
      Some(JNumber(it.price)),
      Some(JString(CategoryName(it.category))),
      Some(JArray(it.ingredients)),
      if it.available.Some? then Some(JBool(it.available.value)) else None)
  }

  /** An item the store may hold: a positive id and fields that pass every rule. */
  predicate ItemOk(it: MenuItem) {
    it.id >= 1 && IsValid(PayloadOf(it))
  }

  /** `{ id, name, description, price, category, ingredients, available }` built from a
      body that passed validation: every body field is carried over, any `id` in the
      body is ignored. */
  function ItemFrom(id: int, p: Payload): (it: MenuItem)
    requires IsValid(p)
    ensures it.id == id
    ensures PayloadOf(it) == p.(id := None)
  {
    assert Passes(NameRule, p) && Passes(DescriptionRule, p) && Passes(PriceRule, p);
    assert Passes(CategoryRule, p) && Passes(IngredientsRule, p) && Passes(AvailableRule, p);
    var c := ParseCategory(p.category.value.s).value;
    MenuItem(
      id,
      p.name.value.s,
      p.description.value.s,
      p.price.value.x,
      c,
      p.ingredients.value.elems,
      if p.available.Some? then Some(p.available.value.b) else None)
  }

  /** Rebuilding an item from its own fields gives the item back. */
  lemma ItemFromPayloadOf(it: MenuItem)
    requires IsValid(PayloadOf(it))
    ensures ItemFrom(it.id, PayloadOf(it)) == it
  {
    var it' := ItemFrom(it.id, PayloadOf(it));
    assert PayloadOf(it') == PayloadOf(it);
    assert it'.category == it.category by {
      assert CategoryName(it'.category) == CategoryName(it.category);
      assert ParseCategory(CategoryName(it.category)) == Some(it.category);
    }
  }

  /** Whatever validated body an item is built from, and whatever id, it is an item the
      store may hold. */
  lemma ItemFromOk(id: int, p: Payload)
    requires IsValid(p) && id >= 1
    ensures ItemOk(ItemFrom(id, p))
  {
    var q := PayloadOf(ItemFrom(id, p));
    assert q == p.(id := None);
    forall r ensures Passes(r, q) {
      assert Passes(r, p);
    }
  }
}
