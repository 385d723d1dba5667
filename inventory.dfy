/**
 The inventory catalog (`KnowledgeAgent`): an ordered mapping from category
 name to the list of model records of that category, loaded once and then
 only read. Every lookup is a first-match scan in stored order that compares
 lower-cased names.
 */
module Inventory {
  import opened Wrappers
  import opened Text

  /** One model record: its `model` name and the other fields, passed through untouched. */
  datatype CarModel = CarModel(model: string, details: map<string, string>)

  /** One key of the dataset with its list of model records. */
  datatype Category = Category(name: string, models: seq<CarModel>)

  /** The loaded dataset; the order of `entries` is the order of the keys in the file. */
  datatype Catalog = Catalog(entries: seq<Category>)

  /** What opening and parsing the dataset file gives. */
  datatype DataFile =
    | FileNotFound
    | ReadError(reason: string)   // any other failure: a malformed document, a permission error
    | Parsed(cars: Catalog)

  /** How construction ends: with a catalog, or with the exception `_load_data` lets through. */
  datatype LoadResult = Loaded(catalog: Catalog) | Raised(reason: string)

  /** `_load_data`: only a missing file is absorbed, into the empty catalog. */
  function LoadData(f: DataFile): (r: LoadResult)
    ensures r.Loaded? <==> !f.ReadError?
    ensures f.FileNotFound? ==> r.catalog.entries == []
    ensures f.Parsed? ==> r.catalog == f.cars
  {
    match f
    case FileNotFound => Loaded(Catalog([]))
    case ReadError(reason) => Raised(reason)
    case Parsed(cars) => Loaded(cars)
  }

  /** `get_categories`: the keys, in stored order. */
  function Categories(c: Catalog): (r: seq<string>)
    ensures |r| == |c.entries|
    ensures forall i :: 0 <= i < |r| ==> r[i] == c.entries[i].name
  {
    seq(|c.entries|, i requires 0 <= i < |c.entries| => c.entries[i].name)
  }

  /** The case-insensitive comparison of a category key with a requested name. */
  predicate NameIs(e: Category, name: string)
  {
    SameIgnoringCase(e.name, name)
  }

  /** Index of the first category whose name equals `name` ignoring case. */
  function FindCategory(es: seq<Category>, name: string): (r: Option<nat>)
    ensures r.Some? ==> r.value < |es| && NameIs(es[r.value], name)
    ensures r.Some? ==> forall j {:trigger NameIs(es[j], name)} :: 0 <= j < r.value ==> !NameIs(es[j], name)
    ensures r.None? ==> forall j {:trigger NameIs(es[j], name)} :: 0 <= j < |es| ==> !NameIs(es[j], name)
  {
    if es == [] then None
    else if NameIs(es[0], name) then Some(0)
    else match FindCategory(es[1..], name)
      case None => None
      case Some(k) => Some(k + 1)
  }

  /** `get_models_by_category`: the list of the first category whose name matches, or the empty list. */
  function ModelsByCategory(c: Catalog, category: string): seq<CarModel>
  {
    match FindCategory(c.entries, category)
    case Some(i) => c.entries[i].models
    case None => []
  }

  /** `get_models_by_category` returns the list of the first category whose name matches ignoring
      case, and the empty list when none does; so it never returns a list the catalog does not store. */
  lemma {:induction false} ModelsByCategoryIsFirstMatch(c: Catalog, category: string)
    ensures forall i :: 0 <= i < |c.entries| && NameIs(c.entries[i], category)
              && (forall j :: 0 <= j < i ==> !NameIs(c.entries[j], category))
              ==> ModelsByCategory(c, category) == c.entries[i].models
    ensures (forall i :: 0 <= i < |c.entries| ==> !NameIs(c.entries[i], category)) ==> ModelsByCategory(c, category) == []
    ensures ModelsByCategory(c, category) == [] || exists i :: 0 <= i < |c.entries| && ModelsByCategory(c, category) == c.entries[i].models
  {
    var r := FindCategory(c.entries, category);
    if r.Some? {
      assert ModelsByCategory(c, category) == c.entries[r.value].models;
    }
  }

  /** Two names that agree ignoring case select the same list. */
  lemma SameLowerSameModels(c: Catalog, a: string, b: string)
    requires Lower(a) == Lower(b)
    ensures ModelsByCategory(c, a) == ModelsByCategory(c, b)
  {
    assert forall e :: NameIs(e, a) <==> NameIs(e, b);
    assert FindCategory(c.entries, a) == FindCategory(c.entries, b) by {
      FindCategoryByLower(c.entries, a, b);
    }
  }

  lemma {:induction false} FindCategoryByLower(es: seq<Category>, a: string, b: string)
    requires Lower(a) == Lower(b)
    ensures FindCategory(es, a) == FindCategory(es, b)
  {
    if es != [] {
      FindCategoryByLower(es[1..], a, b);
    }
  }

  /** The case-insensitive comparison of a model record's name with a requested name. */
  predicate ModelIs(m: CarModel, name: string)
  {
    SameIgnoringCase(m.model, name)
  }

  /** Index of the first record of `ms` whose name equals `name` ignoring case. */
  function FindModel(ms: seq<CarModel>, name: string): (r: Option<nat>)
    ensures r.Some? ==> r.value < |ms| && ModelIs(ms[r.value], name)
    ensures r.Some? ==> forall k {:trigger ModelIs(ms[k], name)} :: 0 <= k < r.value ==> !ModelIs(ms[k], name)
    ensures r.None? ==> forall k {:trigger ModelIs(ms[k], name)} :: 0 <= k < |ms| ==> !ModelIs(ms[k], name)
  {
    if ms == [] then None
    else if ModelIs(ms[0], name) then Some(0)
    else match FindModel(ms[1..], name)
      case None => None
      case Some(k) => Some(k + 1)
  }

  /** All records, category after category, in stored order. */
  function AllModels(es: seq<Category>): seq<CarModel>
  {
    if es == [] then [] else es[0].models + AllModels(es[1..])
  }

  /** The nested scan of `get_car_details`: categories in order, then that category's records in order. */
  function DetailsIn(es: seq<Category>, name: string): Option<CarModel>
  {
    if es == [] then None
    else match FindModel(es[0].models, name)
      case Some(k) => Some(es[0].models[k])
      case None => DetailsIn(es[1..], name)
  }

  /** `get_car_details`: the first matching record, or None. */
  function CarDetails(c: Catalog, name: string): Option<CarModel>
  {
    DetailsIn(c.entries, name)
  }

  /** No record of `ms` has the requested name. */
  ghost predicate NoModelNamed(ms: seq<CarModel>, name: string)
  {
    forall k :: 0 <= k < |ms| ==> !ModelIs(ms[k], name)
  }

  /** Record k of `ms` is the first with the requested name. */
  ghost predicate FirstNamedAt(ms: seq<CarModel>, name: string, k: nat)
  {
    k < |ms| && ModelIs(ms[k], name) && forall k' :: 0 <= k' < k ==> !ModelIs(ms[k'], name)
  }

  lemma NoModelNamedConcat(a: seq<CarModel>, b: seq<CarModel>, name: string)
    requires NoModelNamed(a, name) && NoModelNamed(b, name)
    ensures NoModelNamed(a + b, name)
  {
    forall k | 0 <= k < |a + b| ensures !ModelIs((a + b)[k], name) {
      if k >= |a| {
        assert (a + b)[k] == b[k - |a|];
      }
    }
  }

  lemma NoModelNamedSplit(a: seq<CarModel>, b: seq<CarModel>, name: string)
    requires NoModelNamed(a + b, name)
    ensures NoModelNamed(a, name) && NoModelNamed(b, name)
  {
    forall k | 0 <= k < |b| ensures !ModelIs(b[k], name) {
      assert (a + b)[|a| + k] == b[k];
    }
    forall k | 0 <= k < |a| ensures !ModelIs(a[k], name) {
      assert (a + b)[k] == a[k];
    }
  }

  lemma FirstNamedInFront(a: seq<CarModel>, b: seq<CarModel>, name: string, k: nat)
    requires FirstNamedAt(a, name, k)
    ensures FirstNamedAt(a + b, name, k) && (a + b)[k] == a[k]
  {
    assert forall k' :: 0 <= k' < k ==> (a + b)[k'] == a[k'];
  }

  lemma FirstNamedBehind(a: seq<CarModel>, b: seq<CarModel>, name: string, k: nat)
    requires NoModelNamed(a, name) && FirstNamedAt(b, name, k)
    ensures FirstNamedAt(a + b, name, |a| + k) && (a + b)[|a| + k] == b[k]
  {
    forall k' | 0 <= k' < |a| + k ensures !ModelIs((a + b)[k'], name) {
      if k' >= |a| {
        assert (a + b)[k'] == b[k' - |a|];
      }
    }
  }

  /** The record `get_car_details` returns is the first one, over the whole catalog read category
      after category, whose name equals the requested one ignoring case; it returns None exactly
      when no record matches. */
  lemma {:induction false} CarDetailsIsFirstMatch(es: seq<Category>, name: string)
    ensures DetailsIn(es, name).None? <==> NoModelNamed(AllModels(es), name)
    ensures DetailsIn(es, name).Some? ==>
              exists k: nat :: FirstNamedAt(AllModels(es), name, k) && AllModels(es)[k] == DetailsIn(es, name).value
  {
    if es != [] {
      var head, rest := es[0].models, AllModels(es[1..]);
      assert AllModels(es) == head + rest;
      match FindModel(head, name)
      case Some(k) => {
        FirstNamedInFront(head, rest, name, k);
        if NoModelNamed(AllModels(es), name) {
          NoModelNamedSplit(head, rest, name);
        }
      }
      case None => {
        CarDetailsIsFirstMatch(es[1..], name);
        assert NoModelNamed(head, name);
        if DetailsIn(es[1..], name).Some? {
          var k: nat :| FirstNamedAt(rest, name, k) && rest[k] == DetailsIn(es[1..], name).value;
          FirstNamedBehind(head, rest, name, k);
          if NoModelNamed(AllModels(es), name) {
            NoModelNamedSplit(head, rest, name);
          }
        } else {
          NoModelNamedConcat(head, rest, name);
        }
      }
    }
  }

  /** With the data file missing, the catalog is empty and every lookup finds nothing. */
  lemma MissingFileMeansNoInventory(category: string, name: string)
    ensures LoadData(FileNotFound).Loaded?
    ensures Categories(LoadData(FileNotFound).catalog) == []
    ensures ModelsByCategory(LoadData(FileNotFound).catalog, category) == []
    ensures CarDetails(LoadData(FileNotFound).catalog, name) == None
  {
  }
}
