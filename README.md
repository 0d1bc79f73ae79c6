# Menu API store, modelled in Dafny

The service in `server.js` keeps a restaurant menu in a module-level array, `menuItems`, seeded with six
items. Five HTTP routes act on it:

- `GET /api/menu` lists the array.
- `GET /api/menu/:id` looks one item up by id.
- `POST /api/menu` appends a new item.
- `PUT /api/menu/:id` replaces an item.
- `DELETE /api/menu/:id` removes an item.

The request body of POST and PUT goes through the `menuValidation` rule list and the `errorHandling` gate first. That gate answers
400 with every failed rule's message and keeps the handler from running.

This project models that core:

- `Payloads`: the JSON body as the handlers receive it. Every field is optional (`None` is `undefined`) and of any JSON type.
- `Validation`: the six rules, the ordered list of failed rules, and their exact messages.
- `JsText`: the two string operations the rules and routes depend on. The first is the validation library's `trim()`
  sanitizer, a regular-expression trim of the `\s` class, which is the whitespace set that `String.prototype.trim` also
  removes. The second is JavaScript's `parseInt` with no radix (whitespace, sign, `0x` prefix, longest digit run, `NaN` as
  `None`).
- `MenuItems`: a stored item and how it is built from a validated body.
- `Store`:
  - `find`/`findIndex`/`splice` as functions on the item sequence;
  - the seed;
  - the id defect;
  - the class `MenuStore`, whose methods change the `items` field in place, as the handlers change `menuItems`.
- `Routes`: the gate and the five handlers, each with the status code and body it answers with.

The store invariant `MenuStore.Valid` says that every stored item passes every validation rule and has a positive id. It
does not say that ids are unique, because the source's own create can give an id twice (see "## Findings"). Instead,
update, delete and the corrected create each state that unique ids stay unique. The source's create keeps them unique
exactly when no item already holds `length + 1`, which is guaranteed only while the ids are 1..n.

## Model

| member | source | states |
|---|---|---|
| JsText.Trim | server.js:76-77 | the trimmed string is the window of the input starting at its first non-whitespace character; it neither starts nor ends with whitespace and everything cut away is whitespace |
| JsText.TrimKeeps | server.js:76-77 | a string without leading or trailing whitespace trims to itself |
| JsText.TrimIdempotent | server.js:76-77 | trimming twice gives the same result as trimming once |
| JsText.TrimAllWhitespace | server.js:76-77 | a name or description made only of whitespace trims to the empty string, so it fails its length rule |
| JsText.TrimAtLeast | server.js:76-77 | a string whose last character and the character n-1 places before it are not whitespace keeps at least n characters after trimming |
| JsText.ParseInt | server.js:115 | a segment of whitespace only parses to `NaN`; a negative result comes only from a minus sign after the leading whitespace |
| JsText.ParseIntNonNegative | server.js:115 | the decimal digits of a natural number, followed by anything that is not a digit or an `x`, parse to that number |
| JsText.ParseIntNegative | server.js:115 | a minus sign followed by the decimal digits of a positive number parses to its negation |
| JsText.ParseIntDecimal | server.js:115 | `parseInt` reads back the decimal rendering of any integer, also when the next character is not a digit, `x` or `X` (such as `.5` or `abc`) |
| JsText.ParseIntNoDigits | server.js:115 | a path segment with no decimal digit in it parses to `NaN` |
| JsText.ParseIntLeading | server.js:115 | after a leading digit the segment is read unsigned; after a leading minus sign the unsigned value that follows is negated |
| Payloads.ParseCategory | server.js:79-80 | a category string is accepted exactly when it is one of the four category names, matched exactly and case-sensitively |
| Validation.Rank | server.js:75-83 | each rule has one position in the declared rule order |
| Validation.Passes | server.js:76-82 | a field that is absent passes only the optional `available` rule; a field that is JSON `null` fails every rule |
| Validation.Message | server.js:76-82 | each rule's message begins with that rule's own label (Item, Description, Price, Category, Ingredients, Availability), as written in its `withMessage` |
| Validation.LabelsIncomparable | server.js:76-82 | no rule's label is a prefix of another rule's label |
| Validation.MessageInjective | server.js:75-83 | distinct rules carry distinct messages, so a message identifies its rule |
| Validation.FailedRules | server.js:75-83 | the failed rules are exactly the rules the body breaks, each once, in declaration order; the list is empty exactly when the body is valid |
| Validation.Messages | server.js:102 | the messages correspond one to one, position by position, to the failed rules |
| Validation.MessagesOfRules | server.js:102 | a rule's message is in the list exactly when the rule is, and a list without repeated rules gives messages without repeats |
| Validation.Violations | server.js:75-83 | a body's messages are empty exactly when it is valid; a rule's message appears exactly when that rule fails; no message appears twice |
| Validation.NamePriceCategoryMessages | server.js:75-83 | a body failing only the name, price and category rules draws exactly those three messages, in that order |
| MenuItems.ItemFrom | server.js:129-137 | the item built from a valid body carries every body field and the given id, whatever id the body holds |
| MenuItems.ItemFromPayloadOf | server.js:155-163 | building an item from its own fields gives that item back |
| MenuItems.ItemFromOk | server.js:129-137 | an item built from a valid body with a positive id satisfies the store invariant |
| Store.Matches | server.js:116 | an item matches an id exactly when the id is a number equal to the item's id (`===`); `NaN` matches nothing |
| Store.Seed | server.js:15-70 | the store starts with six items holding ids 1..6 in order |
| Store.FindIndex | server.js:149 | the result is the first position holding the id, or -1 exactly when no item holds it; a `NaN` id is held by no item |
| Store.Find | server.js:116 | the result is the item at the first position holding the id, and is absent exactly when no item holds it |
| Store.Removed | server.js:175 | splicing out position k drops that item and keeps every other item in its relative order |
| Store.SeedOk | server.js:15-70 | all six seed items pass validation, and the seed holds ids 1..6 in order |
| Store.FindUnique | server.js:116 | when ids are unique, `find` and `findIndex` locate the one item holding a given id |
| Store.RemoveUnique | server.js:169-175 | with unique ids, removing an id's holder keeps ids unique and leaves nothing holding that id, so a second delete finds nothing |
| Store.ReplaceKeepsPosition | server.js:155-163 | replacing the first holder of an id by an item with the same id keeps the lookup at the same position, now answering the new item, and keeps ids unique |
| Store.AppendUnique | server.js:139 | pushing an item leaves ids unique exactly when they were unique and no item already held the new item's id |
| Store.AppendDense | server.js:130 | while ids are 1..n, appending with id `length + 1` keeps them 1..n+1 and the new id finds the new item |
| Store.DeleteThenCreateDuplicates | server.js:130 | after deleting any item except the last from a store holding ids 1..n, the id `length + 1` of the next create equals the last item's id; ids are no longer unique, and a lookup of that id returns the old item |
| Store.DeleteAfterDuplicate | server.js:169-175 | after the duplicated id appears, deleting it removes the old holder first; the id is then held by the new item, and a second delete finds and removes that item |
| Store.SeedDeleteThenCreate | server.js:130 | on the seed: delete id 1, then create; the new item gets id 6, which "Fish and Chips" still holds, and a lookup of 6 returns "Fish and Chips" |
| Store.MaxId | server.js:130 | the largest id held (0 when empty): no item holds a larger id, and some item holds it |
| Store.MaxIdDense | server.js:130 | while ids are 1..n, the corrected id (largest id plus one) equals the source's `length + 1` |
| Store.AppendFresh | server.js:130 | appending with id one past the largest: the new id finds the new item whatever the store holds, and unique ids stay unique |
| Store.MenuStore.constructor | server.js:15-70 | the store starts as the six-item seed and satisfies its invariant |
| Store.MenuStore.Create | server.js:129-139 | as written: the new item is pushed last with id `old length + 1` and the body's fields, and the earlier items are unchanged; the invariant is kept; ids are unique afterwards exactly when they were unique and no item held `length + 1`; ids 1..n become 1..n+1 |
| Store.MenuStore.CreateFresh | server.js:129-139 | corrected create: the item is pushed last with id one past the largest (equal to `length + 1` while ids are 1..n); the earlier items are unchanged, the invariant is kept, the new id finds the new item, and unique ids stay unique |
| Store.MenuStore.Update | server.js:149-163 | a missing id changes nothing and reports not found; otherwise only the first holder is replaced, by the body's fields with the path's id, and a lookup of the id returns the new item; unique ids stay unique |
| Store.MenuStore.Delete | server.js:169-175 | a missing id changes nothing and reports not found; otherwise the first holder is returned and cut out and the rest keep their order; when ids were unique they stay unique and the id is held by nothing afterwards |
| Routes.ErrorHandling | server.js:99-106 | the request passes through exactly when no rule failed; otherwise the answer is 400 "Validation Fail" with the failed rules' messages in order |
| Routes.GateStopsInvalid | server.js:99-106 | behind the rule list, the gate stops exactly the invalid bodies and reports each broken rule's message |
| Routes.ListMenu | server.js:110-112 | the list route answers 200 with the whole array |
| Routes.GetMenuItem | server.js:114-124 | the answer is 200 with the first item holding the parsed id, or 404 "Menu Item Not Found" exactly when no item holds it, including for a segment that parses to `NaN` |
| Routes.LookupByRenderedId | server.js:114-116 | with unique ids, the path segment an item's id renders to finds that item |
| Routes.PostMenuItem | server.js:126-141 | an invalid body gets 400 with its messages and the store is unchanged; a valid body gets 201 with a new last item carrying its fields, the other items are unchanged, the new id finds the new item, and unique ids stay unique |
| Routes.PutMenuItem | server.js:143-165 | an invalid body gets 400; a missing id gets 404; in both cases the store is unchanged. Otherwise the answer is 200, and only the first holder is replaced, with the path's id; a lookup of the id returns the new item, and unique ids stay unique |
| Routes.DeleteMenuItem | server.js:167-179 | a missing id gets 404 and the store is unchanged; otherwise 200 "Menu Item Deleted Successfully" with the removed item, which is cut out of the array; with unique ids the id is held by nothing afterwards |
| Routes.RenderedIdParses | server.js:168 | the path segment an id renders to parses back to that id |
| Routes.SegmentThree | server.js:168 | the path segment `3` parses to the id 3 |
| Routes.SeedDeleteTwiceIndices | server.js:169-175 | on the seed, id 3 is found at position 2 and is found nowhere once that item is removed |
| Routes.DeleteTwiceOnSeed | server.js:167-179 | on the seed, deleting id 3 answers 200 with "Mozzarella Sticks", and deleting it again answers 404 |
| Routes.DefectPositions | server.js:130 | from ids 1..n: id 1 is at position 0; after cutting it out and appending an item with id n, id n is first found at the old last item, and once that is cut out, at the new item |
| Routes.DeleteTwiceAfterDefect | server.js:126-179 | from ids 1..n (n >= 2): after delete 1 and the source's create, the new item has id n; the first delete of n answers 200 with the old last item, and the second answers 200 with the new item; the items left are the original ones without the first and the last |
| Routes.DeleteTwiceAfterDefectOnSeed | server.js:126-179 | on the seed: after delete 1 and a create, the new item has id 6; the first delete of 6 answers 200 with "Fish and Chips", and the second answers 200 with the new item |

## Left out

- The server bootstrap (`app.listen`), Express routing and middleware wiring, and `express.json()` body parsing. The model
  begins with a parsed body (`Payloads.Payload`) and a raw path segment (`string`).
- The `requestLogger` console output and its timestamps: they have no effect on any answer or on the store.
- JSON serialisation of responses. A response is a status and a `Routes.Body` value.
- Floating-point arithmetic. Prices are `real` and used only for the `> 0` check. `parseInt` results are unbounded integers, so
  precision loss for segments beyond 2^53 is not modelled.
- Validation.Passes: each rule is one predicate with one message. Several express-validator internals are not modelled:
  - `isFloat` and `isIn` also accept a numeric or matching string.
  - `isBoolean` is not strict. Besides JSON `true` and `false`, it accepts the strings "true", "false", "1" and "0",
    and the JSON numbers 1 and 0, because it reads its input as a string.
  - `isLength` does not count the variation selectors U+FE0E and U+FE0F, which the model counts as characters.
  - A name or description that is not a string fails `isString`. That check has no `withMessage` of its own, so it
    reports the library's default "Invalid value". `trim()` then turns the value into a string (12345 becomes "12345"),
    which can pass `isLength`. Such a body then reports only "Invalid value", whereas the model reports the rule's own
    message.
  - A name or description that is missing or JSON `null` also fails `isString` with "Invalid value". `trim()` then gives
    the empty string, which fails `isLength`, so the source reports both "Invalid value" and the rule's own message,
    whereas the model reports only the rule's own message.
- MenuItems.ItemFrom: the `trim()` sanitizer also rewrites the body's name and description before the handler reads them. The
  model stores them as sent, because that rewriting happens inside the validation library.
- MenuItems.ItemFrom: `available` is stored as the body gave it, a boolean or nothing. Whether `.optional()` followed by
  `.default(true)` fills in `true` is library behaviour and is not claimed.
- Store.MenuStore.CreateFresh: reuses an id after the item holding the largest id is deleted. That keeps ids unique, but does
  not keep ids from coming back.
- Routes.PostMenuItem: creates through the corrected `CreateFresh`. The source's own `length + 1` is modelled by
  `Store.MenuStore.Create`. The two agree whenever the stored ids are 1..n.
- Routes.GetMenuItem: `find` is modelled as the item at `findIndex`'s position (`Store.Find` states this), which is what
  `find` returns in every case; nothing is lost by that.

## Findings

| source | as written | input that shows it | evidently intended | confidence | as-written member | corrected member |
|---|---|---|---|---|---|---|
| server.js:130 | a new item's id is `menuItems.length + 1` | start from the seed, `DELETE /api/menu/1`, then `POST /api/menu` with any valid body: the new item gets id 6, which "Fish and Chips" still holds, and `GET /api/menu/6` keeps answering "Fish and Chips" | ids stay unique, and a new id finds the new item | not executed | Store.DeleteThenCreateDuplicates | Store.AppendFresh |
