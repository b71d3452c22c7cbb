/**
 * The medicines API (backend/routes/medicines.js): the list query built
 * from the `category` and `search` query-string parameters, and
 * get / create / update / delete by id over the catalog.
 */
module MedicineRoutes {
  import opened Common
  import opened Text
  import opened MedicineModel

  /** The Mongo filter the list route builds: an optional exact category
      and an optional case-insensitive search pattern. */
  datatype Query = Query(category: Option<string>, search: Option<string>)

  /** JavaScript truthiness of an optional query-string value: missing and
      empty are both false. */
  predicate Truthy(v: Option<string>)
  {
    v.Some? && v.value != ""
  }

  /** Query construction: a category constraint only for a truthy value
      other than the `'all'` sentinel; a search constraint for any truthy
      value. */
  function BuildQuery(category: Option<string>, search: Option<string>): (q: Query)
    ensures q.category.Some? <==> Truthy(category) && category.value != "all"
    ensures q.category.Some? ==> q.category == category
    ensures q.search.Some? <==> Truthy(search)
    ensures q.search.Some? ==> q.search == search
  {
    Query(
      if Truthy(category) && category.value != "all" then category else None,
      if Truthy(search) then search else None)
  }

  /** A document satisfies the filter: the category equals the constraint,
      and the pattern is found in the name or in the description. */
  predicate Matches(q: Query, m: Medicine)
    ensures Matches(q, m) <==>
      && (q.category.None? || CategoryName(m.category) == q.category.value)
      && (q.search.None? || Contains(Lower(m.name), Lower(q.search.value))
                         || Contains(Lower(m.description), Lower(q.search.value)))
  {
    var pattern := if q.search.Some? then q.search.value else "";
    SearchIgnoringCaseIsLoweredContains(m.name, pattern);
    SearchIgnoringCaseIsLoweredContains(m.description, pattern);
    && (q.category.None? || CategoryName(m.category) == q.category.value)
    && (q.search.None? || SearchIgnoringCase(m.name, q.search.value)
                       || SearchIgnoringCase(m.description, q.search.value))
  }

  /** `Medicine.find(query)`: the matching documents, unchanged. */
  function ListMedicines(cat: Catalog, category: Option<string>, search: Option<string>): (r: Catalog)
    ensures forall k :: k in r <==> k in cat && Matches(BuildQuery(category, search), cat[k])
    ensures forall k :: k in r ==> r[k] == cat[k]
  {
    var q := BuildQuery(category, search);
    map k | k in cat && Matches(q, cat[k]) :: cat[k]
  }

  /** Without a truthy search and without a category other than `'all'`,
      the list is the whole catalog. */
  lemma ListWithoutFiltersIsCatalog(cat: Catalog, category: Option<string>, search: Option<string>)
    requires !Truthy(category) || category.value == "all"
    requires !Truthy(search)
    ensures ListMedicines(cat, category, search) == cat
  {
  }

  /** With both filters the constraints are conjoined. */
  lemma ListIsConjunction(cat: Catalog, c: string, s: string, k: Id)
    requires c != "" && c != "all" && s != ""
    requires k in cat
    ensures k in ListMedicines(cat, Some(c), Some(s)) <==>
      && CategoryName(cat[k].category) == c
      && (Contains(Lower(cat[k].name), Lower(s)) || Contains(Lower(cat[k].description), Lower(s)))
  {
    SearchIgnoringCaseIsLoweredContains(cat[k].name, s);
    SearchIgnoringCaseIsLoweredContains(cat[k].description, s);
  }

  /** `GET /:id`. */
  function GetMedicine(cat: Catalog, id: Id): (r: Reply<Medicine>)
    ensures r.Ok? <==> id in cat
    ensures r.Ok? ==> r.code == 200 && r.body == cat[id]
    ensures r.Err? ==> r.code == 404 && r.message == "Medicine not found"
  {
    if id in cat then Ok(200, cat[id]) else Err(404, "Medicine not found")
  }

  /** `POST /`: build the document through the schema and insert it under
      the id the store assigns. */
  function CreateMedicine(cat: Catalog, input: MedicineInput, freshId: Id): (r: (Reply<Medicine>, Catalog))
    requires freshId !in cat
    ensures r.0.Ok? <==> FromInput(input).Some?
    ensures r.0.Ok? ==> r.0.code == 201 && r.1 == cat[freshId := r.0.body] && Valid(r.0.body)
    ensures r.0.Ok? ==> r.0.body == FromInput(input).value
    ensures r.0.Err? ==> r.0 == Err(500, "Error creating medicine") && r.1 == cat
  {
    match FromInput(input)
    case None => (Err(500, "Error creating medicine"), cat)
    case Some(m) => (Ok(201, m), cat[freshId := m])
  }

  /** The update validators (`runValidators: true`) on the paths the body
      sets: the trimmed name and the other required strings non-empty,
      price and stock not negative, category in the enum. */
  predicate PatchValid(p: MedicineInput)
  {
    && (p.name.None? || Trim(p.name.value) != "")
    && (p.description.None? || p.description.value != "")
    && (p.dosage.None? || p.dosage.value != "")
    && (p.manufacturer.None? || p.manufacturer.value != "")
    && (p.price.None? || p.price.value >= 0)
    && (p.stock.None? || p.stock.value >= 0)
    && (p.category.None? || ParseCategory(p.category.value).Some?)
  }

  function Override<T>(v: Option<T>, current: T): T
  {
    if v.Some? then v.value else current
  }

  /** The stored document after a `$set` of the body's fields: a field the
      body sets takes the body's value (the name trimmed, the category
      parsed); every other field keeps its stored value. */
  function ApplyPatch(m: Medicine, p: MedicineInput): (r: Medicine)
    requires PatchValid(p)
    ensures r.name == (if p.name.Some? then Trim(p.name.value) else m.name)
    ensures p.category.Some? ==> CategoryName(r.category) == p.category.value
    ensures p.category.None? ==> r.category == m.category
    ensures r.description == (if p.description.Some? then p.description.value else m.description)
    ensures r.price == (if p.price.Some? then p.price.value else m.price)
    ensures r.dosage == (if p.dosage.Some? then p.dosage.value else m.dosage)
    ensures r.manufacturer == (if p.manufacturer.Some? then p.manufacturer.value else m.manufacturer)
    ensures r.expiryDate == (if p.expiryDate.Some? then p.expiryDate.value else m.expiryDate)
    ensures r.stock == (if p.stock.Some? then p.stock.value else m.stock)
    ensures r.image == (if p.image.Some? then p.image.value else m.image)
    ensures r.requiresPrescription == (if p.requiresPrescription.Some? then p.requiresPrescription.value else m.requiresPrescription)
    ensures p == MedicineInput(None, None, None, None, None, None, None, None, None, None) ==> r == m
  {
    Medicine(
      if p.name.Some? then Trim(p.name.value) else m.name,
      Override(p.description, m.description),
      Override(p.price, m.price),
      if p.category.Some? then ParseCategory(p.category.value).value else m.category,
      Override(p.dosage, m.dosage),
      Override(p.manufacturer, m.manufacturer),
      Override(p.expiryDate, m.expiryDate),
      Override(p.stock, m.stock),
      Override(p.image, m.image),
      Override(p.requiresPrescription, m.requiresPrescription))
  }

  /** A validated update of a valid medicine leaves a valid medicine. */
  lemma ApplyPatchPreservesValid(m: Medicine, p: MedicineInput)
    requires PatchValid(p)
    ensures Valid(m) ==> Valid(ApplyPatch(m, p))
  {
  }

  /** `PUT /:id` (`findByIdAndUpdate` with `new: true, runValidators: true`).
      The update validators run before the lookup, so an invalid body is a
      500 whether or not the id exists; a valid body on a missing id is a
      404; otherwise the updated document is returned and only that entry
      of the catalog changes. */
  function UpdateMedicine(cat: Catalog, id: Id, p: MedicineInput): (r: (Reply<Medicine>, Catalog))
    ensures !PatchValid(p) ==> r == (Err(500, "Error updating medicine"), cat)
    ensures PatchValid(p) && id !in cat ==> r == (Err(404, "Medicine not found"), cat)
    ensures r.0.Ok? <==> PatchValid(p) && id in cat
    ensures r.0.Ok? ==> r.0.code == 200 && r.1 == cat[id := r.0.body]
    ensures r.0.Ok? ==> r.0.body == ApplyPatch(cat[id], p)
    ensures ValidCatalog(cat) ==> ValidCatalog(r.1)
  {
    if !PatchValid(p) then (Err(500, "Error updating medicine"), cat)
    else if id !in cat then (Err(404, "Medicine not found"), cat)
    else
      var m := ApplyPatch(cat[id], p);
      ApplyPatchPreservesValid(cat[id], p);
      (Ok(200, m), cat[id := m])
  }

  /** `DELETE /:id`: a 404 for a missing id; otherwise exactly that entry
      is removed. */
  function DeleteMedicine(cat: Catalog, id: Id): (r: (Reply<string>, Catalog))
    ensures id !in cat ==> r == (Err(404, "Medicine not found"), cat)
    ensures id in cat ==> r.0 == Ok(200, "Medicine deleted successfully")
    ensures r.1.Keys == cat.Keys - {id}
    ensures forall k :: k in r.1 ==> r.1[k] == cat[k]
  {
    if id !in cat then (Err(404, "Medicine not found"), cat)
    else (Ok(200, "Medicine deleted successfully"), cat - {id})
  }

  /** Reading back after a successful update returns the updated document. */
  lemma GetAfterUpdate(cat: Catalog, id: Id, p: MedicineInput)
    requires UpdateMedicine(cat, id, p).0.Ok?
    ensures GetMedicine(UpdateMedicine(cat, id, p).1, id) == UpdateMedicine(cat, id, p).0
  {
  }

  /** After a delete, the id is gone and every other lookup is unchanged. */
  lemma GetAfterDelete(cat: Catalog, id: Id, other: Id)
    ensures GetMedicine(DeleteMedicine(cat, id).1, id) == Err(404, "Medicine not found")
    ensures other != id ==> GetMedicine(DeleteMedicine(cat, id).1, other) == GetMedicine(cat, other)
  {
  }
}
