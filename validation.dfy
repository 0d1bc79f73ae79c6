/** The `menuValidation` rule list (server.js:75-83): six independent field checks,
    all evaluated, each failure reported with its own fixed message in rule order. */
module Validation {
  import opened Wrappers
  import opened JsText
  import opened Payloads

  datatype Rule = NameRule | DescriptionRule | PriceRule | CategoryRule | IngredientsRule | AvailableRule

  /** The rules in the order they are declared, which is the order their failures are reported. */
  const Rules: seq<Rule> := [NameRule, DescriptionRule, PriceRule, CategoryRule, IngredientsRule, AvailableRule]

  /** The position of a rule in `Rules`. */
  function Rank(r: Rule): (n: nat)
    ensures n < |Rules| && Rules[n] == r
    ensures forall k :: 0 <= k < |Rules| && Rules[k] == r ==> k == n
  {
    match r
    case NameRule => 0
    case DescriptionRule => 1
    case PriceRule => 2
    case CategoryRule => 3
    case IngredientsRule => 4
    case AvailableRule => 5
  }

  /** The word each message opens with: the field it is about, as the message names it. */
  function Label(r: Rule): string {
    match r
    case NameRule => "Item"
    case DescriptionRule => "Description"
    case PriceRule => "Price"
    case CategoryRule => "Category"
    case IngredientsRule => "Ingredients"
    case AvailableRule => "Availability"
  }

  /** No label is a prefix of another. */
  lemma LabelsIncomparable(r1: Rule, r2: Rule)
    requires r1 != r2
    ensures !(Label(r1) <= Label(r2))
  {
    var a, b := Label(r1), Label(r2);
    assert |a| >= 2 && |b| >= 2;
    assert a[0] != b[0] || a[1] != b[1];
  }

  /** The `withMessage` text of each rule, character for character (including the
      missing space after "Category"), written as its label followed by the rest of
      the sentence. */
  function Message(r: Rule): (m: string)
    ensures Label(r) <= m
  {
    match r
    case NameRule => "Item" + " must be a string with at least 3 characters."
    case DescriptionRule => "Description" + " must be string with at least 10 characters."
    case PriceRule => "Price" + " must be a number greater than 0."
    case CategoryRule => "Category" + "must be appetizer, entree, dessert, or beverage"
    case IngredientsRule => "Ingredients" + " must be an array with at least 1 item."
    case AvailableRule => "Availability" + " must be a boolean."
  }

  /** Two prefixes of one string are prefixes of each other. */
  lemma PrefixesOfSame(a: string, b: string, m: string)
    requires a <= m && b <= m
    ensures a <= b || b <= a
  {
    if |a| <= |b| {
      assert forall i :: 0 <= i < |a| ==> a[i] == m[i] == b[i];
    } else {
      assert forall i :: 0 <= i < |b| ==> b[i] == m[i] == a[i];
    }
  }

  /** Distinct rules have distinct messages, so a message names the rule that failed. */
  lemma MessageInjective(r1: Rule, r2: Rule)
    ensures Message(r1) == Message(r2) ==> r1 == r2
  {
    if Message(r1) == Message(r2) && r1 != r2 {
      PrefixesOfSame(Label(r1), Label(r2), Message(r1));
      LabelsIncomparable(r1, r2);
      LabelsIncomparable(r2, r1);
    }
  }

  /** A string field whose trimmed length is at least `min` (`isString().trim().isLength`). */
  predicate TrimmedAtLeast(v: Option<Json>, min: nat) {
    v.Some? && v.value.JString? && |Trim(v.value.s)| >= min
  }

  /** The body field rule `r` checks; each rule reads that field alone. */
  function Field(r: Rule, p: Payload): Option<Json> {
    match r
    case NameRule => p.name
    case DescriptionRule => p.description
    case PriceRule => p.price
    case CategoryRule => p.category
    case IngredientsRule => p.ingredients
    case AvailableRule => p.available
  }

  /** Whether payload `p` passes rule `r`. Only `available` is optional: a field the
      client left out fails its rule otherwise, and `null` fails every rule. */
  predicate Passes(r: Rule, p: Payload)
    ensures Field(r, p).None? ==> (Passes(r, p) <==> r == AvailableRule)
    ensures Field(r, p) == Some(JNull) ==> !Passes(r, p)
  {
    match r
    case NameRule => TrimmedAtLeast(p.name, 3)
    case DescriptionRule => TrimmedAtLeast(p.description, 10)
    case PriceRule => p.price.Some? && p.price.value.JNumber? && p.price.value.x > 0.0
    case CategoryRule =>
      p.category.Some? && p.category.value.JString? && ParseCategory(p.category.value.s).Some?
    case IngredientsRule => p.ingredients.Some? && p.ingredients.value.JArray? && |p.ingredients.value.elems| >= 1
    case AvailableRule => p.available.None? || p.available.value.JBool?
  }

  predicate IsValid(p: Payload) {
    forall r :: Passes(r, p)
  }

  /** The rules from position `k` on that `p` fails, in rule order. */
  function FailedFrom(p: Payload, k: nat): (fs: seq<Rule>)
    requires k <= |Rules|
    ensures forall i :: 0 <= i < |fs| ==> k <= Rank(fs[i]) && !Passes(fs[i], p)
    ensures forall r :: k <= Rank(r) && !Passes(r, p) ==> r in fs
    ensures forall a, b :: 0 <= a < b < |fs| ==> Rank(fs[a]) < Rank(fs[b])
    decreases |Rules| - k
  {
    if k == |Rules| then []
    else
      var rest := FailedFrom(p, k + 1);
      assert Rank(Rules[k]) == k;
      if Passes(Rules[k], p) then rest else [Rules[k]] + rest
  }

  /** `validationResult(req)`: every failed rule, each once, in declaration order; no
      rule stops the others from running. */
  function FailedRules(p: Payload): (fs: seq<Rule>)
    ensures forall r :: r in fs <==> !Passes(r, p)
    ensures forall a, b :: 0 <= a < b < |fs| ==> Rank(fs[a]) < Rank(fs[b])
    ensures fs == [] <==> IsValid(p)
  {
    FailedFrom(p, 0)
  }

  /** `errors.array().map(error => error.msg)` (server.js:102). */
  function Messages(fs: seq<Rule>): (ms: seq<string>)
    ensures |ms| == |fs|
    ensures forall i :: 0 <= i < |fs| ==> ms[i] == Message(fs[i])
  {
    if fs == [] then [] else [Message(fs[0])] + Messages(fs[1..])
  }

  /** Through `Messages`, a rule is reported exactly when it is in the list, and a list
      without repeated rules gives messages without repeats. */
  lemma MessagesOfRules(fs: seq<Rule>)
    ensures forall r :: Message(r) in Messages(fs) <==> r in fs
    ensures (forall a, b :: 0 <= a < b < |fs| ==> fs[a] != fs[b]) ==>
              forall a, b :: 0 <= a < b < |fs| ==> Messages(fs)[a] != Messages(fs)[b]
  {
    var ms := Messages(fs);
    forall r ensures Message(r) in ms <==> r in fs {
      if Message(r) in ms {
        var i :| 0 <= i < |ms| && ms[i] == Message(r);
        MessageInjective(fs[i], r);
      }
    }
    forall a, b | 0 <= a < b < |fs| ensures fs[a] != fs[b] ==> ms[a] != ms[b] {
      MessageInjective(fs[a], fs[b]);
    }
  }

  /** The messages a payload draws: one per failed rule, in rule order, none twice. */
  function Violations(p: Payload): (ms: seq<string>)
    ensures ms == [] <==> IsValid(p)
    ensures forall r :: Message(r) in ms <==> !Passes(r, p)
    ensures forall a, b :: 0 <= a < b < |ms| ==> ms[a] != ms[b]
  {
    MessagesOfRules(FailedRules(p));
    Messages(FailedRules(p))
  }

  lemma CategoryFailsLast(p: Payload)
    requires !Passes(CategoryRule, p) && Passes(IngredientsRule, p) && Passes(AvailableRule, p)
    ensures FailedFrom(p, 3) == [CategoryRule]
  {
    assert Rules[5] == AvailableRule && FailedFrom(p, 5) == [];
    assert Rules[4] == IngredientsRule && FailedFrom(p, 4) == [];
    assert Rules[3] == CategoryRule;
  }

  lemma PriceThenCategoryFail(p: Payload)
    requires !Passes(CategoryRule, p) && Passes(IngredientsRule, p) && Passes(AvailableRule, p)
    requires !Passes(PriceRule, p) && Passes(DescriptionRule, p)
    ensures FailedFrom(p, 1) == [PriceRule, CategoryRule]
  {
    CategoryFailsLast(p);
    assert Rules[2] == PriceRule && FailedFrom(p, 2) == [PriceRule, CategoryRule];
    assert Rules[1] == DescriptionRule;
  }

  /** A payload failing exactly the name, price and category rules fails them in that order. */
  lemma NamePriceCategoryFailed(p: Payload)
    requires !Passes(NameRule, p) && !Passes(PriceRule, p) && !Passes(CategoryRule, p)
    requires Passes(DescriptionRule, p) && Passes(IngredientsRule, p) && Passes(AvailableRule, p)
    ensures FailedRules(p) == [NameRule, PriceRule, CategoryRule]
  {
    PriceThenCategoryFail(p);
    assert Rules[0] == NameRule;
  }

  lemma NamePriceCategoryMessageList()
    ensures Messages([NameRule, PriceRule, CategoryRule]) == [Message(NameRule), Message(PriceRule), Message(CategoryRule)]
  {
    var ms := Messages([NameRule, PriceRule, CategoryRule]);
    assert ms[0] == Message(NameRule) && ms[1] == Message(PriceRule) && ms[2] == Message(CategoryRule);
  }

  /** ... and draws exactly those three messages, in that order. */
  lemma NamePriceCategoryMessages(p: Payload)
    requires !Passes(NameRule, p) && !Passes(PriceRule, p) && !Passes(CategoryRule, p)
    requires Passes(DescriptionRule, p) && Passes(IngredientsRule, p) && Passes(AvailableRule, p)
    ensures Violations(p) == [Message(NameRule), Message(PriceRule), Message(CategoryRule)]
  {
    NamePriceCategoryFailed(p);
    NamePriceCategoryMessageList();
  }
}
