/** The route handlers and the `errorHandling` gate in front of POST and PUT
    (server.js:99-106, 110-179): what each request does to the store and what it answers. */
module Routes {
  import opened Wrappers
  import opened JsText
  import opened Payloads
  import opened Validation
  import opened MenuItems
  import opened Store

  const NotFoundError := "Menu Item Not Found"
  const ValidationFailError := "Validation Fail"
  const DeletedMessage := "Menu Item Deleted Successfully"

  /** The JSON bodies the service answers with. */
  datatype Body =
    | ItemList(items: seq<MenuItem>)                             // the array itself
    | ItemBody(item: MenuItem)                                   // one item
    | ErrorBody(error: string)                                   // { Error }
    | ValidationErrorBody(error: string, messages: seq<string>)  // { Error, Message }
    | DeletedBody(message: string, deletedItem: MenuItem)        // { message, deletedItem }

  datatype Response = Response(status: int, body: Body)

  /** `errorHandling`: a non-empty list of failed rules ends the request with 400 and
      their messages; an empty one lets the handler run (`None`, i.e. `next()`). */
  function ErrorHandling(failed: seq<Rule>): (r: Option<Response>)
    ensures r.None? <==> failed == []
    ensures r.Some? ==> r.value.status == 400 && r.value.body.ValidationErrorBody?
                        && r.value.body.error == ValidationFailError
                        && r.value.body.messages == Messages(failed)
  {
    if failed == [] then None
    else Some(Response(400, ValidationErrorBody(ValidationFailError, Messages(failed))))
  }

  /** Behind `menuValidation`, the gate stops exactly the payloads that fail a rule,
      and reports each failure's message once, in rule order. */
  lemma GateStopsInvalid(p: Payload)
    ensures ErrorHandling(FailedRules(p)).None? <==> IsValid(p)
    ensures ErrorHandling(FailedRules(p)).Some? ==>
              ErrorHandling(FailedRules(p)).value.body.messages == Violations(p)
              && forall r :: Message(r) in Violations(p) <==> !Passes(r, p)
  {
  }

  /** `GET /api/menu` (server.js:110-112). */
  method ListMenu(store: MenuStore) returns (resp: Response)
    ensures resp.status == 200 && resp.body == ItemList(store.items)
  {
    resp := Response(200, ItemList(store.items));
  }

  /** `GET /api/menu/:id` (server.js:114-124): the item holding the parsed id, or 404
      when none does (always so for a segment that parses to `NaN`). */
  method GetMenuItem(store: MenuStore, rawId: string) returns (resp: Response)
    ensures resp.status == 200 || resp.status == 404
    ensures resp.status == 200 ==>
              resp.body.ItemBody? && resp.body.item in store.items && Matches(resp.body.item, ParseInt(rawId))
    ensures resp.status == 404 <==> forall j :: 0 <= j < |store.items| ==> !Matches(store.items[j], ParseInt(rawId))
    ensures resp.status == 404 ==> resp.body == ErrorBody(NotFoundError)
    ensures resp.status == 200 ==> resp.body.item == store.items[FindIndex(store.items, ParseInt(rawId))]
  {
    var id := ParseInt(rawId);
    var item := Find(store.items, id);
    if item.Some? {
      resp := Response(200, ItemBody(item.value));
    } else {
      resp := Response(404, ErrorBody(NotFoundError));
    }
  }

  /** `POST /api/menu` (server.js:126-141): validation and the gate first; a valid body
      is stored as a new last item. Its id is one past the largest id held, which is
      the source's `length + 1` whenever ids are still 1..n (the corrected id choice,
      see `Store.DeleteThenCreateDuplicates`). */
  method PostMenuItem(store: MenuStore, p: Payload) returns (resp: Response)
    requires store.Valid()
    modifies store
    ensures store.Valid()
    ensures !IsValid(p) ==>
              resp == Response(400, ValidationErrorBody(ValidationFailError, Violations(p)))
              && store.items == old(store.items)
    ensures IsValid(p) ==>
              resp.status == 201 && resp.body.ItemBody?
              && resp.body.item.id == MaxId(old(store.items)) + 1
              && (Dense(old(store.items)) ==> resp.body.item.id == |old(store.items)| + 1)
              && PayloadOf(resp.body.item) == p.(id := None)
              && store.items == old(store.items) + [resp.body.item]
              && Find(store.items, Some(resp.body.item.id)) == Some(resp.body.item)
    ensures UniqueIds(old(store.items)) ==> UniqueIds(store.items)
  {
    var stop := ErrorHandling(FailedRules(p));
    if stop.Some? {
      resp := stop.value;
      return;
    }
    var it := store.CreateFresh(p);
    resp := Response(201, ItemBody(it));
  }

  /** `PUT /api/menu/:id` (server.js:143-165): validation and the gate first; then 404
      for an id nobody holds; otherwise the first holder is replaced by the body, with
      the id taken from the path whatever the body says. */
  method PutMenuItem(store: MenuStore, rawId: string, p: Payload) returns (resp: Response)
    requires store.Valid()
    modifies store
    ensures store.Valid()
    ensures !IsValid(p) ==>
              resp == Response(400, ValidationErrorBody(ValidationFailError, Violations(p)))
              && store.items == old(store.items)
    ensures IsValid(p) && FindIndex(old(store.items), ParseInt(rawId)) == -1 ==>
              resp == Response(404, ErrorBody(NotFoundError)) && store.items == old(store.items)
    ensures IsValid(p) && FindIndex(old(store.items), ParseInt(rawId)) != -1 ==>
              resp.status == 200 && resp.body.ItemBody?
              && Some(resp.body.item.id) == ParseInt(rawId)
              && PayloadOf(resp.body.item) == p.(id := None)
              && store.items == old(store.items)[FindIndex(old(store.items), ParseInt(rawId)) := resp.body.item]
              && Find(store.items, ParseInt(rawId)) == Some(resp.body.item)
    ensures UniqueIds(old(store.items)) ==> UniqueIds(store.items)
  {
    var stop := ErrorHandling(FailedRules(p));
    if stop.Some? {
      resp := stop.value;
      return;
    }
    var id := ParseInt(rawId);
    var updated := store.Update(id, p);
    if updated.None? {
      resp := Response(404, ErrorBody(NotFoundError));
    } else {
      resp := Response(200, ItemBody(updated.value));
    }
  }

  /** `DELETE /api/menu/:id` (server.js:167-179): 404 for an id nobody holds; otherwise
      the first holder is cut out of the array and sent back. */
  method DeleteMenuItem(store: MenuStore, rawId: string) returns (resp: Response)
    requires store.Valid()
    modifies store
    ensures store.Valid()
    ensures FindIndex(old(store.items), ParseInt(rawId)) == -1 ==>
              resp == Response(404, ErrorBody(NotFoundError)) && store.items == old(store.items)
    ensures FindIndex(old(store.items), ParseInt(rawId)) != -1 ==>
              resp == Response(200, DeletedBody(DeletedMessage, old(store.items)[FindIndex(old(store.items), ParseInt(rawId))]))
              && store.items == Removed(old(store.items), FindIndex(old(store.items), ParseInt(rawId)))
    ensures UniqueIds(old(store.items)) ==>
              UniqueIds(store.items) && FindIndex(store.items, ParseInt(rawId)) == -1
  {
    var id := ParseInt(rawId);
    var deleted := store.Delete(id);
    if deleted.None? {
      resp := Response(404, ErrorBody(NotFoundError));
    } else {
      resp := Response(200, DeletedBody(DeletedMessage, deleted.value));
    }
  }

  /** With unique ids, the path segment an item's id renders to (`/api/menu/7`,
      `/api/menu/-2`, also with a trailing `.0` or other non-digit) finds that item. */
  lemma LookupByRenderedId(items: seq<MenuItem>, i: nat, rest: string)
    requires UniqueIds(items) && i < |items|
    requires rest != [] ==> !IsDigit(rest[0], 10) && rest[0] != 'x' && rest[0] != 'X'
    ensures Find(items, ParseInt(Decimal(items[i].id) + rest)) == Some(items[i])
  {
    ParseIntDecimal(items[i].id, rest);
    FindUnique(items, i);
  }

  /** The path segment an id renders to parses back to that id. */
  lemma RenderedIdParses(n: int)
    ensures ParseInt(Decimal(n)) == Some(n)
  {
    assert Decimal(n) + "" == Decimal(n);
    ParseIntDecimal(n, "");
  }

  /** The path segment `3` parses to the id 3. */
  lemma SegmentThree()
    ensures ParseInt("3") == Some(3)
  {
    assert Decimal(3) + "" == "3";
    ParseIntDecimal(3, "");
  }

  /** On the seed, id 3 is found at position 2, and no longer found once that position
      has been cut out. */
  lemma SeedDeleteTwiceIndices()
    ensures Seed()[2] == MozzarellaSticks()
    ensures FindIndex(Seed(), Some(3)) == 2
    ensures FindIndex(Removed(Seed(), 2), Some(3)) == -1
  {
    SeedOk();
    FindUnique(Seed(), 2);
    RemoveUnique(Seed(), Some(3));
  }

  /** On the seed, deleting id 3 answers 200 with "Mozzarella Sticks"; deleting it again
      answers 404. */
  method DeleteTwiceOnSeed() returns (first: Response, second: Response)
    ensures first.status == 200 && first.body.DeletedBody? && first.body.deletedItem == MozzarellaSticks()
    ensures second == Response(404, ErrorBody(NotFoundError))
  {
    var store := new MenuStore();
    SegmentThree();
    SeedDeleteTwiceIndices();
    first := DeleteMenuItem(store, "3");
    second := DeleteMenuItem(store, "3");
  }

  /** The positions the defect scenario below goes through, on a store holding ids 1..n:
      id 1 is first; after cutting it out and appending `it` with id n, id n is first
      held by the old last item (position n-2); once that is cut out, by `it`. */
  lemma DefectPositions(start: seq<MenuItem>, it: MenuItem)
    requires Dense(start) && |start| >= 2 && it.id == |start|
    ensures FindIndex(start, Some(1)) == 0
    ensures var n := |start|;
            var after := Removed(start, 0) + [it];
            var again := Removed(after, n - 2);
            FindIndex(after, Some(n)) == n - 2 && after[n - 2] == start[n - 1]
            && FindIndex(again, Some(n)) == n - 2 && again[n - 2] == it
            && Removed(again, n - 2) == start[1..n - 1]
  {
    var n := |start|;
    assert Matches(start[0], Some(1));
    DeleteThenCreateDuplicates(start, 0, it);
    DeleteAfterDuplicate(start, 0, it);
    RemovedTwiceBeforeAppended(Removed(start, 0), it);
    assert Removed(start, 0)[..n - 2] == start[1..n - 1];
  }

  /** The id defect seen through the routes. From a store holding ids 1..n (n >= 2, such
      as the seed): `DELETE /api/menu/1`, then the source's create, then `DELETE
      /api/menu/n` twice. The new item got id n, which the old last item still held: the
      first delete removes that old item, and the second answers 200 with the new one,
      which a single delete was meant to remove. */
  method DeleteTwiceAfterDefect(store: MenuStore, p: Payload) returns (created: MenuItem, first: Response, second: Response)
    requires store.Valid() && Dense(store.items) && |store.items| >= 2 && IsValid(p)
    modifies store
    ensures created.id == |old(store.items)| && PayloadOf(created) == p.(id := None)
    ensures first == Response(200, DeletedBody(DeletedMessage, old(store.items)[|old(store.items)| - 1]))
    ensures second == Response(200, DeletedBody(DeletedMessage, created))
    ensures store.items == old(store.items)[1..|old(store.items)| - 1]
  {
    ghost var start := store.items;
    var n := |store.items|;
    var one, last := Decimal(1), Decimal(n);
    RenderedIdParses(1);
    RenderedIdParses(n);
    DefectPositions(start, ItemFrom(n, p));
    var gone := DeleteMenuItem(store, one);
    created := store.Create(p);
    assert created == ItemFrom(n, p);
    first := DeleteMenuItem(store, last);
    second := DeleteMenuItem(store, last);
  }

  /** The same on the seed: after `DELETE /api/menu/1` and a create, the first
      `DELETE /api/menu/6` removes "Fish and Chips" and the second removes the new item. */
  method DeleteTwiceAfterDefectOnSeed(p: Payload) returns (created: MenuItem, first: Response, second: Response)
    requires IsValid(p)
    ensures created.id == 6
    ensures first == Response(200, DeletedBody(DeletedMessage, FishAndChips()))
    ensures second == Response(200, DeletedBody(DeletedMessage, created))
  {
    var store := new MenuStore();
    SeedOk();
    created, first, second := DeleteTwiceAfterDefect(store, p);
  }
}
