/** The dynamic inventory manager: a growable array of products, searched by id and
    by name, with quantity updates and deletion by shifting the tail left. The array is
    a sequence; the menu's prompts become parameters, and an input the prompt would
    refuse and ask again for becomes a refusal outcome. */
module Inventory {
  import opened CType

  const MAX_PRODUCT_NAME: nat := 50
  const MAX_TOTAL_PRODUCTS: nat := 100
  /** The ranges the prompts of `addProduct` enforce. */
  const MAX_ID: int := 10000
  const MAX_PRICE: real := 100000.0
  const MAX_QUANTITY: int := 1000000

  /** The price is carried along and range-checked, never computed with. */
  datatype Product = Product(id: int, name: string, price: real, quantity: int)

  // ---------------------------------------------------------------------------
  // Product names
  // ---------------------------------------------------------------------------

  predicate IsNameChar(c: char) {
    IsAlnum(c) || c == ' ' || c == '-'
  }

  /** The names the inventory accepts, stated as a whole: 1 to 50 letters, digits,
      hyphens and spaces, where spaces only separate words (none at either end and
      never two in a row). */
  predicate WellFormedName(name: string) {
    && 1 <= |name| <= MAX_PRODUCT_NAME
    && (forall k :: 0 <= k < |name| ==> IsNameChar(name[k]))
    && name[0] != ' ' && name[|name| - 1] != ' '
    && (forall k :: 0 <= k < |name| - 1 ==> !(name[k] == ' ' && name[k + 1] == ' '))
  }

  /** `isProductNameValid`: checks the length, then each character in turn, refusing a
      space at the start, at the end or after another space. */
  method IsProductNameValid(name: string) returns (ok: bool)
    ensures ok <==> WellFormedName(name)
  {
    var length := |name|;
    if length < 1 || length > MAX_PRODUCT_NAME {
      return false;
    }
    var i := 0;
    while i < length
      invariant 0 <= i <= length
      invariant forall k :: 0 <= k < i ==> IsNameChar(name[k])
      invariant i > 0 ==> name[0] != ' '
      invariant forall k :: 0 <= k < i - 1 ==> !(name[k] == ' ' && name[k + 1] == ' ')
      invariant i == length ==> name[length - 1] != ' '
    {
      if !IsAlnum(name[i]) && name[i] != ' ' && name[i] != '-' {
        return false;
      }
      if name[i] == ' ' && (i == 0 || i == length - 1 || name[i - 1] == ' ') {
        return false;
      }
      i := i + 1;
    }
    return true;
  }

  /** Words of letters, digits and hyphens joined by single spaces make a good name
      when they fit: here, two words. */
  lemma TwoWordName(a: string, b: string)
    requires |a| >= 1 && |b| >= 1 && |a| + 1 + |b| <= MAX_PRODUCT_NAME
    requires forall k :: 0 <= k < |a| ==> IsAlnum(a[k]) || a[k] == '-'
    requires forall k :: 0 <= k < |b| ==> IsAlnum(b[k]) || b[k] == '-'
    ensures WellFormedName(a + " " + b)
  {
    var s := a + " " + b;
    forall k | 0 <= k < |s| - 1
      ensures !(s[k] == ' ' && s[k + 1] == ' ')
    {
      if k < |a| {
        assert s[k] == a[k];
      } else {
        assert s[k + 1] == b[k - |a|];
      }
    }
    assert s[|s| - 1] == b[|b| - 1];
  }

  // ---------------------------------------------------------------------------
  // Case-insensitive substring search
  // ---------------------------------------------------------------------------

  /** `strncasecmp(main + i, search, |search|) == 0` for a non-empty search text: the
      text at i holds the whole search text, ignoring case (a shorter rest of the main
      text ends in its terminator, which no search character matches). */
  predicate MatchAt(main: string, search: string, i: nat) {
    i + |search| <= |main| && EqualIgnoringCase(main[i..i + |search|], search)
  }

  /** `findSubstringIgnoreCase`: NULL in gives NULL out (None); an empty search text is
      found at the start; otherwise the first position where the search text occurs
      ignoring case, or NULL. */
  method FindSubstringIgnoreCase(mainText: Option<string>, searchText: Option<string>) returns (r: Option<nat>)
    ensures mainText.None? || searchText.None? ==> r.None?
    ensures mainText.Some? && searchText == Some([]) ==> r == Some(0)
    ensures r.Some? ==> mainText.Some? && searchText.Some? && MatchAt(mainText.value, searchText.value, r.value)
    ensures r.Some? ==> forall j :: 0 <= j < r.value ==> !MatchAt(mainText.value, searchText.value, j)
    ensures r.None? && mainText.Some? && searchText.Some? ==>
      forall j :: 0 <= j <= |mainText.value| ==> !MatchAt(mainText.value, searchText.value, j)
  {
    if mainText.None? || searchText.None? {
      return None;
    }
    var main, search := mainText.value, searchText.value;
    if |search| == 0 {
      assert main[0..0] == [];
      return Some(0);
    }
    var i := 0;
    while i < |main|
      invariant 0 <= i <= |main|
      invariant forall j :: 0 <= j < i ==> !MatchAt(main, search, j)
    {
      if i + |search| <= |main| && EqualIgnoringCase(main[i..i + |search|], search) {
        return Some(i);
      }
      i := i + 1;
    }
    return None;
  }

  /** Whether the search text occurs anywhere, ignoring case. */
  predicate ContainsIgnoringCase(main: string, search: string) {
    exists i :: 0 <= i <= |main| && MatchAt(main, search, i)
  }

  /** The search does not care about the case of the search text: spellings that differ
      only in case occur at the same positions. */
  lemma MatchIgnoresCase(main: string, s1: string, s2: string, i: nat)
    requires EqualIgnoringCase(s1, s2)
    ensures MatchAt(main, s1, i) <==> MatchAt(main, s2, i)
  {
  }

  /** Every text contains itself, in any case. */
  lemma ContainsItself(main: string, search: string)
    requires EqualIgnoringCase(main, search)
    ensures ContainsIgnoringCase(main, search)
  {
    assert main[0..|search|] == main;
    assert MatchAt(main, search, 0);
  }

  /** `searchProductByName`: the products whose name contains the search text. */
  function MatchingProducts(products: seq<Product>, term: string): (r: seq<Product>)
    ensures forall p :: p in r <==> p in products && ContainsIgnoringCase(p.name, term)
  {
    if products == [] then []
    else
      var head := if ContainsIgnoringCase(products[0].name, term) then [products[0]] else [];
      head + MatchingProducts(products[1..], term)
  }

  // ---------------------------------------------------------------------------
  // Searching by id, adding, updating, deleting
  // ---------------------------------------------------------------------------

  /** Position i is the first that holds the id: the index `searchProductByID` returns. */
  predicate FirstWithId(products: seq<Product>, id: int, i: int) {
    0 <= i < |products| && products[i].id == id && forall j :: 0 <= j < i ==> products[j].id != id
  }

  /** `searchProductByID`: the first index holding the id, or -1. */
  method SearchProductById(products: seq<Product>, searchId: int) returns (r: int)
    ensures -1 <= r < |products|
    ensures r >= 0 ==> products[r].id == searchId && forall j :: 0 <= j < r ==> products[j].id != searchId
    ensures r == -1 <==> forall j :: 0 <= j < |products| ==> products[j].id != searchId
  {
    var i := 0;
    while i < |products|
      invariant 0 <= i <= |products|
      invariant forall j :: 0 <= j < i ==> products[j].id != searchId
    {
      if products[i].id == searchId {
        return i;
      }
      i := i + 1;
    }
    return -1;
  }

  /** `isProductIDUnique`: no product has the id yet. */
  method IsProductIdUnique(products: seq<Product>, id: int) returns (unique: bool)
    ensures unique <==> forall j :: 0 <= j < |products| ==> products[j].id != id
  {
    var index := SearchProductById(products, id);
    unique := index == -1;
  }

  predicate UniqueIds(products: seq<Product>) {
    forall i, j :: 0 <= i < j < |products| ==> products[i].id != products[j].id
  }

  /** The inventory's standing invariant: at most 100 products, each with its own id. */
  predicate Valid(products: seq<Product>) {
    |products| <= MAX_TOTAL_PRODUCTS && UniqueIds(products)
  }

  /** Whether some product carries the id. */
  predicate HasId(products: seq<Product>, id: int) {
    exists j :: 0 <= j < |products| && products[j].id == id
  }

  datatype AddOutcome = LimitReached | DuplicateId | Rejected | Added

  /** `addProduct` after its prompts: refused once 100 products exist; an id that is
      taken or a value outside the prompts' ranges is refused (the prompts ask again);
      otherwise the product is appended. */
  method AddProduct(products: seq<Product>, id: int, name: string, price: real, quantity: int)
    returns (r: seq<Product>, outcome: AddOutcome)
    ensures outcome == LimitReached <==> |products| >= MAX_TOTAL_PRODUCTS
    ensures outcome == DuplicateId <==>
      |products| < MAX_TOTAL_PRODUCTS && 1 <= id <= MAX_ID && HasId(products, id)
    ensures outcome == Rejected <==>
      |products| < MAX_TOTAL_PRODUCTS && !(1 <= id <= MAX_ID && HasId(products, id))
      && !(1 <= id <= MAX_ID && WellFormedName(name) && 0.0 <= price <= MAX_PRICE && 0 <= quantity <= MAX_QUANTITY)
    ensures outcome == Added <==>
      |products| < MAX_TOTAL_PRODUCTS && (forall j :: 0 <= j < |products| ==> products[j].id != id)
      && 1 <= id <= MAX_ID && WellFormedName(name) && 0.0 <= price <= MAX_PRICE && 0 <= quantity <= MAX_QUANTITY
    ensures outcome == Added ==> r == products + [Product(id, name, price, quantity)]
    ensures outcome != Added ==> r == products
    ensures Valid(products) ==> Valid(r)
  {
    if |products| >= MAX_TOTAL_PRODUCTS {
      return products, LimitReached;
    }
    if !(1 <= id <= MAX_ID) {
      return products, Rejected;
    }
    var unique := IsProductIdUnique(products, id);
    if !unique {
      return products, DuplicateId;
    }
    var nameOk := IsProductNameValid(name);
    if !nameOk || !(0.0 <= price <= MAX_PRICE) || !(0 <= quantity <= MAX_QUANTITY) {
      return products, Rejected;
    }
    r := products + [Product(id, name, price, quantity)];
    outcome := Added;
  }

  datatype ChangeOutcome = NoProducts | OutOfRange | NotFound | Done

  /** `updateProductQuantity` after its prompts: an empty inventory is reported first;
      the id must be in the prompt's range; an id nobody has is "not found" whatever the
      quantity, because the quantity is asked for only once the product is found; a
      quantity out of its prompt's range is refused (the prompt asks again); otherwise
      the product with the id gets the new quantity and nothing else changes. */
  method UpdateQuantity(products: seq<Product>, targetId: int, quantity: int)
    returns (r: seq<Product>, outcome: ChangeOutcome)
    ensures outcome == NoProducts <==> products == []
    ensures outcome == OutOfRange <==>
      products != [] && (!(1 <= targetId <= MAX_ID)
        || (HasId(products, targetId) && !(0 <= quantity <= MAX_QUANTITY)))
    ensures outcome == NotFound <==>
      products != [] && 1 <= targetId <= MAX_ID && !HasId(products, targetId)
    ensures outcome == Done <==>
      1 <= targetId <= MAX_ID && HasId(products, targetId) && 0 <= quantity <= MAX_QUANTITY
    ensures outcome != Done ==> r == products
    ensures outcome == Done ==>
      (exists i :: FirstWithId(products, targetId, i)
        && r == products[i := products[i].(quantity := quantity)])
    ensures |r| == |products|
    ensures forall j :: 0 <= j < |products| ==>
      r[j].id == products[j].id && r[j].name == products[j].name && r[j].price == products[j].price
    ensures Valid(products) ==> Valid(r)
  {
    if products == [] {
      return products, NoProducts;
    }
    if !(1 <= targetId <= MAX_ID) {
      return products, OutOfRange;
    }
    var index := SearchProductById(products, targetId);
    if index == -1 {
      return products, NotFound;
    }
    if !(0 <= quantity <= MAX_QUANTITY) {
      return products, OutOfRange;
    }
    r := products[index := products[index].(quantity := quantity)];
    outcome := Done;
  }

  /** The list with element `index` removed and the rest kept in order. */
  function RemoveAt(products: seq<Product>, index: nat): seq<Product>
    requires index < |products|
  {
    products[..index] + products[index + 1..]
  }

  /** The loop of `deleteProductByID`: every product after `index` moves one place left,
      then the count drops by one. */
  method ShiftOut(products: seq<Product>, index: nat) returns (r: seq<Product>)
    requires index < |products|
    ensures r == RemoveAt(products, index)
  {
    var arr := products;
    var j := index;
    while j < |products| - 1
      invariant index <= j <= |products| - 1
      invariant |arr| == |products|
      invariant forall k :: 0 <= k < j ==> arr[k] == products[if k < index then k else k + 1]
      invariant forall k :: j <= k < |products| ==> arr[k] == products[k]
    {
      arr := arr[j := arr[j + 1]];
      j := j + 1;
    }
    r := arr[..|products| - 1];
    assert forall k :: 0 <= k < |r| ==> RemoveAt(products, index)[k] == products[if k < index then k else k + 1];
  }

  /** `deleteProductByID` after its prompt: an empty inventory is reported first; an id
      outside the prompt's range is refused (the prompt asks again); an id nobody has is
      "not found"; otherwise the product with the id is removed and the others keep
      their order. */
  method DeleteProduct(products: seq<Product>, deleteId: int) returns (r: seq<Product>, outcome: ChangeOutcome)
    ensures outcome == NoProducts <==> products == []
    ensures outcome == OutOfRange <==> products != [] && !(1 <= deleteId <= MAX_ID)
    ensures outcome == NotFound <==>
      products != [] && 1 <= deleteId <= MAX_ID && !HasId(products, deleteId)
    ensures outcome == Done <==> 1 <= deleteId <= MAX_ID && HasId(products, deleteId)
    ensures outcome != Done ==> r == products
    ensures outcome == Done ==>
      (exists i :: FirstWithId(products, deleteId, i) && r == RemoveAt(products, i))
    ensures Valid(products) ==> Valid(r)
    ensures Valid(products) && outcome == Done ==> forall j :: 0 <= j < |r| ==> r[j].id != deleteId
  {
    if products == [] {
      return products, NoProducts;
    }
    if !(1 <= deleteId <= MAX_ID) {
      return products, OutOfRange;
    }
    var index := SearchProductById(products, deleteId);
    if index == -1 {
      return products, NotFound;
    }
    r := ShiftOut(products, index);
    RemoveAtKeepsOthers(products, index);
    outcome := Done;
  }

  /** Removing one element takes exactly that element out of the multiset, and keeps
      the ids of the others unique. */
  lemma RemoveAtKeepsOthers(products: seq<Product>, index: nat)
    requires index < |products|
    ensures multiset(RemoveAt(products, index)) + multiset{products[index]} == multiset(products)
    ensures |RemoveAt(products, index)| == |products| - 1
    ensures UniqueIds(products) ==> UniqueIds(RemoveAt(products, index))
    ensures UniqueIds(products) ==> forall j :: 0 <= j < |products| - 1 ==> RemoveAt(products, index)[j].id != products[index].id
  {
    var r := RemoveAt(products, index);
    assert products == products[..index] + [products[index]] + products[index + 1..];
    assert forall j :: 0 <= j < |r| ==> r[j] == products[if j < index then j else j + 1];
  }

  /** Adding then deleting the same product gives the list back. */
  lemma AddThenDelete(products: seq<Product>, p: Product)
    ensures RemoveAt(products + [p], |products|) == products
  {
    assert (products + [p])[..|products|] == products;
  }
}
