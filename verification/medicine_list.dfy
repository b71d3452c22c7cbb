/**
 * The catalog page's filter (frontend/src/pages/MedicineList.js): a
 * lower-cased substring search over name and description and a category
 * select with an `'all'` sentinel, applied to the fetched list; and its
 * relation to the list query the server builds.
 */
module MedicineList {
  import opened Common
  import opened Text
  import opened MedicineModel
  import MedicineRoutes

  /** The `filteredMedicines` predicate. */
  predicate Keeps(m: Medicine, term: string, category: string)
    ensures Keeps(m, term, category) <==>
      && ((exists i :: OccursAt(Lower(m.name), Lower(term), i))
          || (exists i :: OccursAt(Lower(m.description), Lower(term), i)))
      && (category == "all" || CategoryName(m.category) == category)
  {
    ContainsIff(Lower(m.name), Lower(term));
    ContainsIff(Lower(m.description), Lower(term));
    && (Contains(Lower(m.name), Lower(term)) || Contains(Lower(m.description), Lower(term)))
    && (category == "all" || CategoryName(m.category) == category)
  }

  /** `a` is `b` with some elements left out, order kept. */
  predicate IsSubsequence<T(==)>(a: seq<T>, b: seq<T>)
    decreases |b|
  {
    a == [] || (b != [] && (IsSubsequence(a, b[1..]) || (a[0] == b[0] && IsSubsequence(a[1..], b[1..]))))
  }

  /** `medicines.filter(...)`: the kept medicines, in their order. */
  function FilterMedicines(ms: seq<Medicine>, term: string, category: string): (r: seq<Medicine>)
    ensures IsSubsequence(r, ms)
    ensures forall m :: m in r <==> m in ms && Keeps(m, term, category)
    ensures forall m :: multiset(r)[m] == if Keeps(m, term, category) then multiset(ms)[m] else 0
    decreases |ms|
  {
    if ms == [] then []
    else
      assert ms == [ms[0]] + ms[1..];
      if Keeps(ms[0], term, category) then [ms[0]] + FilterMedicines(ms[1..], term, category)
      else FilterMedicines(ms[1..], term, category)
  }

  /** Filtering the filtered list again changes nothing. */
  lemma {:induction false} FilterIdempotent(ms: seq<Medicine>, term: string, category: string)
    ensures FilterMedicines(FilterMedicines(ms, term, category), term, category) == FilterMedicines(ms, term, category)
    decreases |ms|
  {
    if ms != [] {
      FilterIdempotent(ms[1..], term, category);
      if Keeps(ms[0], term, category) {
        var r := [ms[0]] + FilterMedicines(ms[1..], term, category);
        assert r[0] == ms[0] && r[1..] == FilterMedicines(ms[1..], term, category);
      }
    }
  }

  /** The initial state of the page (empty search, category `'all'`) shows
      every medicine. */
  lemma {:induction false} NoFilterKeepsAll(ms: seq<Medicine>)
    ensures FilterMedicines(ms, "", "all") == ms
    decreases |ms|
  {
    if ms != [] {
      ContainsEmpty(Lower(ms[0].name));
      assert Lower("") == "";
      NoFilterKeepsAll(ms[1..]);
      assert [ms[0]] + ms[1..] == ms;
    }
  }

  /** An empty search term does not restrict: only the category decides. */
  lemma EmptyTermMatchesAll(m: Medicine, category: string)
    ensures Keeps(m, "", category) <==> category == "all" || CategoryName(m.category) == category
  {
    ContainsEmpty(Lower(m.name));
    assert Lower("") == "";
  }

  /** For any category the page can select (`'all'` or a real name), the
      page keeps a medicine exactly when the server's list query with the
      same parameters matches it. */
  lemma ClientAgreesWithServer(m: Medicine, term: string, category: string)
    requires category != ""
    ensures Keeps(m, term, category) <==> MedicineRoutes.Matches(MedicineRoutes.BuildQuery(Some(category), Some(term)), m)
  {
    SearchIgnoringCaseIsLoweredContains(m.name, term);
    SearchIgnoringCaseIsLoweredContains(m.description, term);
    if term == "" {
      EmptyTermMatchesAll(m, category);
    }
  }

  /** The two rules part on an empty category: the server treats it as no
      constraint, the page keeps nothing. */
  lemma EmptyCategoryDisagrees(m: Medicine, term: string)
    ensures !Keeps(m, term, "")
    ensures MedicineRoutes.BuildQuery(Some(""), Some(term)).category.None?
  {
  }
}
