/**
 * The Medicine document (backend/models/Medicine.js): its fields, the
 * schema's defaults and validators, and the construction of a document
 * from a request body.
 */
module MedicineModel {
  import opened Common
  import opened Text

  /** The `category` enum. */
  datatype Category = OTC | Prescription

  function CategoryName(c: Category): string
  {
    match c
    case OTC => "OTC"
    case Prescription => "Prescription"
  }

  /** The enum validator: only the two literal names are accepted
      (case-sensitively). */
  function ParseCategory(s: string): (r: Option<Category>)
    ensures r.Some? ==> CategoryName(r.value) == s
  {
    if s == "OTC" then Some(OTC)
    else if s == "Prescription" then Some(Prescription)
    else None
  }

  lemma CategoryRoundTrip(c: Category)
    ensures ParseCategory(CategoryName(c)) == Some(c)
  {
  }

  /** A stored medicine. Money is in integer minor units; `expiryDate` is
      an opaque day number. */
  datatype Medicine = Medicine(
    name: string,
    description: string,
    price: int,
    category: Category,
    dosage: string,
    manufacturer: string,
    expiryDate: int,
    stock: int,
    image: string,
    requiresPrescription: bool)

  const DefaultImage: string := "/default-medicine.jpg"

  /** What the schema guarantees of every saved medicine: required strings
      are non-empty, the name is stored trimmed, price and stock are not
      negative. Category is an enum by construction. */
  predicate Valid(m: Medicine)
  {
    && m.name != "" && IsTrimmed(m.name)
    && m.description != "" && m.dosage != "" && m.manufacturer != ""
    && m.price >= 0
    && m.stock >= 0
  }

  /** The medicines collection, keyed by document id. */
  type Catalog = map<Id, Medicine>

  predicate ValidCatalog(cat: Catalog)
  {
    forall k :: k in cat ==> Valid(cat[k])
  }

  /** A request body for creating or updating a medicine; every field may
      be missing. */
  datatype MedicineInput = MedicineInput(
    name: Option<string>,
    description: Option<string>,
    price: Option<int>,
    category: Option<string>,
    dosage: Option<string>,
    manufacturer: Option<string>,
    expiryDate: Option<int>,
    stock: Option<int>,
    image: Option<string>,
    requiresPrescription: Option<bool>)

  /** A `required` string validator: present and non-empty. */
  predicate RequiredText(v: Option<string>)
  {
    v.Some? && v.value != ""
  }

  /** The name after the schema's `trim` setter. */
  function TrimmedName(v: Option<string>): Option<string>
  {
    match v
    case None => None
    case Some(s) => Some(Trim(s))
  }

  /** `new Medicine(body)` followed by validation: the `trim` setter runs
      first, then `required`, `min: 0` and the category enum; the two
      defaulted fields take their defaults when missing. `None` stands for
      a validation error. */
  function FromInput(input: MedicineInput): (r: Option<Medicine>)
    ensures r.Some? ==> Valid(r.value)
    ensures r.Some? <==>
      && input.name.Some? && Trim(input.name.value) != ""
      && RequiredText(input.description) && RequiredText(input.dosage) && RequiredText(input.manufacturer)
      && input.price.Some? && input.price.value >= 0
      && input.category.Some? && ParseCategory(input.category.value).Some?
      && input.expiryDate.Some?
      && input.stock.Some? && input.stock.value >= 0
    ensures r.Some? ==>
      && r.value.name == Trim(input.name.value)
      && CategoryName(r.value.category) == input.category.value
      && r.value.description == input.description.value
      && r.value.dosage == input.dosage.value
      && r.value.manufacturer == input.manufacturer.value
      && r.value.expiryDate == input.expiryDate.value
      && r.value.price == input.price.value && r.value.stock == input.stock.value
      && r.value.image == (if input.image.Some? then input.image.value else DefaultImage)
      && r.value.requiresPrescription == (input.requiresPrescription == Some(true))
  {
    var name := TrimmedName(input.name);
    if !RequiredText(name) || !RequiredText(input.description) || !RequiredText(input.dosage)
       || !RequiredText(input.manufacturer) then None
    else if input.price.None? || input.price.value < 0 then None
    else if input.category.None? || ParseCategory(input.category.value).None? then None
    else if input.expiryDate.None? then None
    else if input.stock.None? || input.stock.value < 0 then None
    else
      Some(Medicine(
        name.value, input.description.value, input.price.value,
        ParseCategory(input.category.value).value,
        input.dosage.value, input.manufacturer.value, input.expiryDate.value, input.stock.value,
        if input.image.Some? then input.image.value else DefaultImage,
        if input.requiresPrescription.Some? then input.requiresPrescription.value else false))
  }

  /** The prescription flag is independent of the category: a
      `Prescription`-category medicine created without the flag does not
      require a prescription. */
  lemma PrescriptionFlagIndependentOfCategory(input: MedicineInput)
    requires FromInput(input).Some?
    requires input.category == Some("Prescription") && input.requiresPrescription.None?
    ensures FromInput(input).value.category == Prescription
    ensures !FromInput(input).value.requiresPrescription
  {
  }

  /** Building a document from the fields of a valid medicine gives that
      medicine back: the schema's setters and defaults are stable on
      stored documents. */
  lemma FromInputOfStored(m: Medicine)
    requires Valid(m)
    ensures FromInput(InputOf(m)) == Some(m)
  {
    TrimOfTrimmed(m.name);
    CategoryRoundTrip(m.category);
  }

  /** Every field of a stored medicine, as a request body. */
  function InputOf(m: Medicine): MedicineInput
  {
    MedicineInput(
      Some(m.name), Some(m.description), Some(m.price), Some(CategoryName(m.category)),
      Some(m.dosage), Some(m.manufacturer), Some(m.expiryDate), Some(m.stock),
      Some(m.image), Some(m.requiresPrescription))
  }
}
