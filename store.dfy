/** The in-memory menu store: the module-level `menuItems` array (server.js:15-70),
    looked up with `find`/`findIndex` and changed in place by the POST, PUT and DELETE
    handlers (server.js:129-139, 149-163, 169-175). */
module Store {
  import opened Wrappers
  import opened JsText
  import opened Payloads
  import opened Validation
  import opened MenuItems

  /** `menuItem.id === id`; a `NaN` id (`None`) equals nothing. */
  predicate Matches(it: MenuItem, id: Option<int>)
    ensures id.None? ==> !Matches(it, id)
    ensures Matches(it, id) <==> id == Some(it.id)
  {
    id.Some? && it.id == id.value
  }

  function FindIndexFrom(items: seq<MenuItem>, id: Option<int>, k: nat): (r: int)
    requires k <= |items|
    ensures r == -1 || k <= r < |items|
    ensures r == -1 ==> forall j :: k <= j < |items| ==> !Matches(items[j], id)
    ensures r != -1 ==> Matches(items[r], id) && forall j :: k <= j < r ==> !Matches(items[j], id)
    decreases |items| - k
  {
    if k == |items| then -1
    else if Matches(items[k], id) then k
    else FindIndexFrom(items, id, k + 1)
  }

  /** `menuItems.findIndex(item => item.id === id)`: the first position holding the
      id, or -1 when no item has it. */
  function FindIndex(items: seq<MenuItem>, id: Option<int>): (r: int)
    ensures -1 <= r < |items|
    ensures r == -1 <==> forall j :: 0 <= j < |items| ==> !Matches(items[j], id)
    ensures r != -1 ==> Matches(items[r], id) && forall j :: 0 <= j < r ==> !Matches(items[j], id)
  {
    FindIndexFrom(items, id, 0)
  }

  /** `menuItems.find(menuItem => menuItem.id === id)`: the first item holding the id,
      or nothing when no item has it. */
  function Find(items: seq<MenuItem>, id: Option<int>): (r: Option<MenuItem>)
    ensures r.None? <==> forall j :: 0 <= j < |items| ==> !Matches(items[j], id)
    ensures r.Some? ==> r.value in items && Matches(r.value, id)
    ensures r.Some? ==> r.value == items[FindIndex(items, id)]
  {
    var k := FindIndex(items, id);
    if k == -1 then None else Some(items[k])
  }

  /** `menuItems.splice(k, 1)` as seen in the array that remains: the item at `k` is
      gone and the others keep their order. */
  function Removed(items: seq<MenuItem>, k: nat): (r: seq<MenuItem>)
    requires k < |items|
    ensures |r| == |items| - 1
    ensures forall i :: 0 <= i < k ==> r[i] == items[i]
    ensures forall i :: k <= i < |r| ==> r[i] == items[i + 1]
  {
    items[..k] + items[k + 1..]
  }

  /** No two items share an id (what the service means ids to be). */
  predicate UniqueIds(items: seq<MenuItem>) {
    forall i, j :: 0 <= i < j < |items| ==> items[i].id != items[j].id
  }

  /** The items hold ids 1, 2, ..., n in order: the shape of the seed, kept as long as
      nothing is deleted. */
  predicate Dense(items: seq<MenuItem>) {
    forall i :: 0 <= i < |items| ==> items[i].id == i + 1
  }

  /** The six items the array starts with (server.js:15-70). */
  function Seed(): (s: seq<MenuItem>)
    ensures |s| == 6 && Dense(s)
  {
    [ClassicBurger(), ChickenCaesarSalad(), MozzarellaSticks(), ChocolateLavaCake(), FreshLemonade(), FishAndChips()]
  }

  /** The seed items, in array order. */
  function ClassicBurger(): MenuItem {
    MenuItem(1, "Classic Burger", "Beef patty with lettuce, tomato, and cheese on a sesame seed bun",
           12.99, Entree,
           [JString("beef"), JString("lettuce"), JString("tomato"), JString("cheese"), JString("bun")],
           Some(true))
  }

  function ChickenCaesarSalad(): MenuItem {
    MenuItem(2, "Chicken Caesar Salad", "Grilled chicken breast over romaine lettuce with parmesan and croutons",
           11.50, Entree,
           [JString("chicken"), JString("romaine lettuce"), JString("parmesan cheese"), JString("croutons"),
            JString("caesar dressing")],
           Some(true))
  }

  function MozzarellaSticks(): MenuItem {
    MenuItem(3, "Mozzarella Sticks", "Crispy breaded mozzarella served with marinara sauce",
           8.99, Appetizer,
           [JString("mozzarella cheese"), JString("breadcrumbs"), JString("marinara sauce")],
           Some(true))
  }

  function ChocolateLavaCake(): MenuItem {
    MenuItem(4, "Chocolate Lava Cake", "Warm chocolate cake with molten center, served with vanilla ice cream",
           7.99, Dessert,
           [JString("chocolate"), JString("flour"), JString("eggs"), JString("butter"), JString("vanilla ice cream")],
           Some(true))
  }

  function FreshLemonade(): MenuItem {
    MenuItem(5, "Fresh Lemonade", "House-made lemonade with fresh lemons and mint",
           3.99, Beverage,
           [JString("lemons"), JString("sugar"), JString("water"), JString("mint")],
           Some(true))
  }

  function FishAndChips(): MenuItem {
    MenuItem(6, "Fish and Chips", "Beer-battered cod with seasoned fries and coleslaw",
           14.99, Entree,
           [JString("cod"), JString("beer batter"), JString("potatoes"), JString("coleslaw"), JString("tartar sauce")],
           Some(false))
  }

  /** Sufficient conditions, read off an item's fields, for it to pass validation. */
  lemma ItemOkWhen(it: MenuItem, dn: nat)
    requires it.id >= 1 && it.price > 0.0 && |it.ingredients| >= 1
    requires |it.name| >= 3 && !IsWhitespace(it.name[|it.name| - 3]) && !IsWhitespace(it.name[|it.name| - 1])
    requires 10 <= dn <= |it.description| && !IsWhitespace(it.description[|it.description| - dn])
             && !IsWhitespace(it.description[|it.description| - 1])
    ensures ItemOk(it)
  {
    TrimAtLeast(it.name, 3);
    TrimAtLeast(it.description, dn);
    var p := PayloadOf(it);
    forall r ensures Passes(r, p) {
    }
  }

  /** Every item passes validation and has a positive id. */
  ghost predicate AllOk(items: seq<MenuItem>) {
    forall i :: 0 <= i < |items| ==> ItemOk(items[i])
  }

  lemma ClassicBurgerOk() ensures ItemOk(ClassicBurger()) { ItemOkWhen(ClassicBurger(), 10); }
  lemma ChickenCaesarSaladOk() ensures ItemOk(ChickenCaesarSalad()) { ItemOkWhen(ChickenCaesarSalad(), 10); }
  lemma MozzarellaSticksOk() ensures ItemOk(MozzarellaSticks()) { ItemOkWhen(MozzarellaSticks(), 10); }
  lemma ChocolateLavaCakeOk() ensures ItemOk(ChocolateLavaCake()) { ItemOkWhen(ChocolateLavaCake(), 12); }
  lemma FreshLemonadeOk() ensures ItemOk(FreshLemonade()) { ItemOkWhen(FreshLemonade(), 10); }
  lemma FishAndChipsOk() ensures ItemOk(FishAndChips()) { ItemOkWhen(FishAndChips(), 10); }

  /** Six valid items holding ids 1..6 in order form a dense store with unique ids in
      which every item is valid. */
  lemma SixOk(a: MenuItem, b: MenuItem, c: MenuItem, d: MenuItem, e: MenuItem, f: MenuItem)
    requires ItemOk(a) && ItemOk(b) && ItemOk(c) && ItemOk(d) && ItemOk(e) && ItemOk(f)
    requires a.id == 1 && b.id == 2 && c.id == 3 && d.id == 4 && e.id == 5 && f.id == 6
    ensures AllOk([a, b, c, d, e, f]) && Dense([a, b, c, d, e, f]) && UniqueIds([a, b, c, d, e, f])
  {
  }

  /** Every seed item passes validation, and the seed holds ids 1..6 in order. */
  lemma SeedOk()
    ensures AllOk(Seed()) && Dense(Seed()) && UniqueIds(Seed()) && |Seed()| == 6
  {
    ClassicBurgerOk();
    ChickenCaesarSaladOk();
    MozzarellaSticksOk();
    ChocolateLavaCakeOk();
    FreshLemonadeOk();
    FishAndChipsOk();
    SixOk(ClassicBurger(), ChickenCaesarSalad(), MozzarellaSticks(), ChocolateLavaCake(), FreshLemonade(), FishAndChips());
  }

  /** When ids are unique, `findIndex` and `find` locate the one item holding the id. */
  lemma FindUnique(items: seq<MenuItem>, i: nat)
    requires UniqueIds(items) && i < |items|
    ensures FindIndex(items, Some(items[i].id)) == i
    ensures Find(items, Some(items[i].id)) == Some(items[i])
  {
  }

  /** Deleting an id that is present removes its only holder when ids are unique: the
      ids stay unique and a second delete of the same id finds nothing. */
  lemma RemoveUnique(items: seq<MenuItem>, id: Option<int>)
    requires UniqueIds(items) && FindIndex(items, id) != -1
    ensures UniqueIds(Removed(items, FindIndex(items, id)))
    ensures FindIndex(Removed(items, FindIndex(items, id)), id) == -1
  {
    var k := FindIndex(items, id);
    var r := Removed(items, k);
    forall j | 0 <= j < |r| ensures !Matches(r[j], id) {
      if j < k {
        assert r[j] == items[j];
      } else {
        assert r[j] == items[j + 1];
      }
    }
  }

  /** Replacing the first holder of an id by an item with that same id leaves every
      lookup of the id at the same position, now answering the new item, and keeps ids
      unique. */
  lemma ReplaceKeepsPosition(items: seq<MenuItem>, id: Option<int>, it: MenuItem)
    requires FindIndex(items, id) != -1 && Matches(it, id)
    ensures FindIndex(items[FindIndex(items, id) := it], id) == FindIndex(items, id)
    ensures Find(items[FindIndex(items, id) := it], id) == Some(it)
    ensures UniqueIds(items) ==> UniqueIds(items[FindIndex(items, id) := it])
  {
    var k := FindIndex(items, id);
    var r := items[k := it];
    assert forall j :: 0 <= j < k ==> r[j] == items[j];
    assert Matches(r[k], id);
  }

  /** Appending keeps ids unique exactly when they were unique and no item already
      holds the appended item's id. */
  lemma AppendUnique(items: seq<MenuItem>, it: MenuItem)
    ensures UniqueIds(items + [it]) <==>
              UniqueIds(items) && forall j :: 0 <= j < |items| ==> items[j].id != it.id
  {
    var after := items + [it];
    assert forall j :: 0 <= j < |items| ==> after[j] == items[j];
    assert after[|items|] == it;
  }

  /** As long as nothing has been deleted, appending the item with id `length + 1`
      keeps the ids dense (hence unique) and the new id finds the new item. */
  lemma AppendDense(items: seq<MenuItem>, it: MenuItem)
    requires Dense(items) && it.id == |items| + 1
    ensures Dense(items + [it])
    ensures UniqueIds(items + [it])
    ensures Find(items + [it], Some(it.id)) == Some(it)
  {
    FindUnique(items + [it], |items|);
  }

  /** The defect of `id: menuItems.length + 1` (server.js:130): once any item other
      than the last has been deleted from a store whose ids are 1..n, the next create
      reuses id n, which the last item still holds; ids are no longer unique, and a
      lookup of that id answers with the old item, never with the new one. */
  lemma DeleteThenCreateDuplicates(items: seq<MenuItem>, k: nat, it: MenuItem)
    requires Dense(items) && k < |items| - 1
    requires it.id == |Removed(items, k)| + 1
    ensures var after := Removed(items, k) + [it];
            after[|after| - 2] == items[|items| - 1] && it.id == items[|items| - 1].id
            && !UniqueIds(after) && FindIndex(after, Some(it.id)) == |after| - 2
  {
    var after := Removed(items, k) + [it];
    var n := |items|;
    assert after[n - 2] == items[n - 1] && after[n - 1] == it;
    assert forall j :: 0 <= j < n - 2 ==> after[j].id != n by {
      forall j | 0 <= j < n - 2 ensures after[j].id != n {
        if j < k {
          assert after[j] == items[j];
        } else {
          assert after[j] == items[j + 1];
        }
      }
    }
  }

  /** After the defect, a delete of the duplicated id removes the old holder, and a
      second delete of the same id finds the new item and removes it too. */
  lemma DeleteAfterDuplicate(items: seq<MenuItem>, k: nat, it: MenuItem)
    requires Dense(items) && k < |items| - 1
    requires it.id == |Removed(items, k)| + 1
    ensures var after := Removed(items, k) + [it];
            var again := Removed(after, |after| - 2);
            |again| == |items| - 1 && again[|again| - 1] == it
            && FindIndex(again, Some(it.id)) == |again| - 1
  {
    DeleteThenCreateDuplicates(items, k, it);
    var after := Removed(items, k) + [it];
    var again := Removed(after, |after| - 2);
    assert forall j :: 0 <= j < |again| - 1 ==> again[j] == after[j];
    assert again[|again| - 1] == after[|after| - 1] == it;
  }

  /** Appending an item and then splicing out, twice, the position just before it removes
      the last old item and the appended one: the old items but the last remain. */
  lemma RemovedTwiceBeforeAppended(left: seq<MenuItem>, it: MenuItem)
    requires |left| >= 1
    ensures var m := |left| - 1;
            Removed(Removed(left + [it], m), m) == left[..m]
  {
    var m := |left| - 1;
    var r := Removed(Removed(left + [it], m), m);
    assert forall i :: 0 <= i < m ==> r[i] == left[i];
  }

  /** The defect on the seed: delete id 1, then create any valid item. The new item gets
      id 6, which "Fish and Chips" still holds, so `GET /api/menu/6` answers with
      "Fish and Chips" (position 4) and never reaches the new item (position 5). */
  lemma SeedDeleteThenCreate(p: Payload)
    requires IsValid(p)
    ensures var left := Removed(Seed(), FindIndex(Seed(), Some(1)));
            var after := left + [ItemFrom(|left| + 1, p)];
            after[5].id == 6 && after[4] == FishAndChips() && !UniqueIds(after) && FindIndex(after, Some(6)) == 4
  {
    SeedOk();
    FindUnique(Seed(), 0);
    DeleteThenCreateDuplicates(Seed(), 0, ItemFrom(|Seed()|, p));
  }

  /** The largest id held, or 0 for an empty store. */
  function MaxId(items: seq<MenuItem>): (m: int)
    ensures m >= 0
    ensures items == [] ==> m == 0
    ensures forall i :: 0 <= i < |items| ==> items[i].id <= m
    ensures items != [] && m != 0 ==> exists i :: 0 <= i < |items| && items[i].id == m
  {
    if items == [] then 0
    else
      var m := MaxId(items[..|items| - 1]);
      var last := items[|items| - 1].id;
      assert forall i :: 0 <= i < |items| - 1 ==> items[..|items| - 1][i] == items[i];
      if last > m then last else m
  }

  /** While nothing has been deleted the corrected id choice agrees with the source's:
      in a store holding ids 1..n the largest id is n, so the next id is `length + 1`. */
  lemma MaxIdDense(items: seq<MenuItem>)
    requires Dense(items)
    ensures MaxId(items) == |items|
  {
    // Follows from MaxId's bounds: the last item holds |items| and none holds more.
  }

  /** The corrected id choice: one past the largest id held. No item holds it, so the
      new id finds the new item whatever was deleted before, and unique ids stay unique. */
  lemma AppendFresh(items: seq<MenuItem>, it: MenuItem)
    requires it.id == MaxId(items) + 1
    ensures Find(items + [it], Some(it.id)) == Some(it)
    ensures UniqueIds(items) ==> UniqueIds(items + [it])
  {
    var after := items + [it];
    assert forall j :: 0 <= j < |items| ==> after[j] == items[j];
    assert after[|items|] == it;
  }

  /** The `menuItems` array together with the operations the handlers perform on it. */
  class MenuStore {
    var items: seq<MenuItem>

    /** Every stored item passed validation and has a positive id. Ids need not be
        unique: the source's own create can duplicate one. */
    ghost predicate Valid()
      reads this
    {
      AllOk(items)
    }

    /** The array as the server starts with it. */
    constructor ()
      ensures Valid() && items == Seed()
    {
      SeedOk();
      items := Seed();
    }

    /** POST body as written (server.js:129-139): build the item with id `length + 1`
        and push it. Ids stay unique exactly when no item already holds `length + 1`,
        which is guaranteed only while the ids are 1..n; see
        `DeleteThenCreateDuplicates` for a store where it fails. */
    method Create(p: Payload) returns (it: MenuItem)
      requires Valid() && IsValid(p)
      modifies this
      ensures Valid()
      ensures Dense(old(items)) ==> Dense(items) && UniqueIds(items)
      ensures UniqueIds(items) <==>
                UniqueIds(old(items)) && forall j :: 0 <= j < |old(items)| ==> old(items)[j].id != it.id
      ensures it.id == |old(items)| + 1 && PayloadOf(it) == p.(id := None)
      ensures items == old(items) + [it]
    {
      it := ItemFrom(|items| + 1, p);
      ItemFromOk(|items| + 1, p);
      AppendUnique(items, it);
      if Dense(items) {
        AppendDense(items, it);
      }
      items := items + [it];
    }

    /** The corrected create: the new id is one past the largest id held, so ids that
        were unique stay unique. */
    method CreateFresh(p: Payload) returns (it: MenuItem)
      requires Valid() && IsValid(p)
      modifies this
      ensures Valid()
      ensures it.id == MaxId(old(items)) + 1 && PayloadOf(it) == p.(id := None)
      ensures Dense(old(items)) ==> it.id == |old(items)| + 1
      ensures items == old(items) + [it]
      ensures Find(items, Some(it.id)) == Some(it)
      ensures UniqueIds(old(items)) ==> UniqueIds(items)
    {
      it := ItemFrom(MaxId(items) + 1, p);
      ItemFromOk(MaxId(items) + 1, p);
      AppendFresh(items, it);
      if Dense(items) {
        MaxIdDense(items);
      }
      items := items + [it];
    }

    /** PUT body (server.js:149-163): the first item holding `id` is replaced wholesale by
        one built from the body, keeping `id` from the path; a missing id changes nothing. */
    method Update(id: Option<int>, p: Payload) returns (r: Option<MenuItem>)
      requires Valid() && IsValid(p)
      modifies this
      ensures Valid()
      ensures FindIndex(old(items), id) == -1 ==> r == None && items == old(items)
      ensures FindIndex(old(items), id) != -1 ==>
                r.Some? && r.value.id == id.value && PayloadOf(r.value) == p.(id := None)
                && items == old(items)[FindIndex(old(items), id) := r.value]
                && Find(items, id) == r
      ensures UniqueIds(old(items)) ==> UniqueIds(items)
    {
      var k := FindIndex(items, id);
      if k == -1 {
        r := None;
      } else {
        var it := ItemFrom(id.value, p);
        ItemFromOk(id.value, p);
        ReplaceKeepsPosition(items, id, it);
        items := items[k := it];
        r := Some(it);
      }
    }

    /** DELETE body (server.js:169-175): the first item holding `id` is cut out and
        returned; a missing id changes nothing. */
    method Delete(id: Option<int>) returns (r: Option<MenuItem>)
      requires Valid()
      modifies this
      ensures Valid()
      ensures FindIndex(old(items), id) == -1 ==> r == None && items == old(items)
      ensures FindIndex(old(items), id) != -1 ==>
                r == Some(old(items)[FindIndex(old(items), id)])
                && items == Removed(old(items), FindIndex(old(items), id))
      ensures UniqueIds(old(items)) ==> UniqueIds(items)
      ensures UniqueIds(old(items)) ==> FindIndex(items, id) == -1
    {
      var k := FindIndex(items, id);
      if k == -1 {
        r := None;
      } else {
        r := Some(items[k]);
        if UniqueIds(items) {
          RemoveUnique(items, id);
        }
        items := Removed(items, k);
      }
    }
  }
}
