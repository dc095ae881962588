/**
  The fixed skincare catalog, its sorted name index, and the exact lookup that
  `show_category_data` performs before printing anything.
 */
module CategoryStore {
  import opened StringOrder
  import opened CaseFold
  import opened Bisect
  import opened PrefixIndex

  datatype Option<T> = None | Some(value: T)

  /** One catalog record: a description and sample products in display order. */
  datatype Category = Category(description: string, sampleProducts: seq<string>)

  /** The `categories` dictionary, keyed by lower-case ASCII names. */
  function Categories(): (m: map<string, Category>)
    ensures forall n :: n in m ==> IsLower(n) && BelowSentinel(n)
  {
    map[
      "moisturizers" := Category(
        "Products that hydrate the skin.",
        ["E45 Moisturising Cream 500g", "Dermal Therapy Very Dry Skin Cream 125g"]),
      "serums" := Category(
        "Concentrated active treatments.",
        ["Vinopure Blemish Control Infusion Serum", "Boost Lab Vitamin C Brightening Serum"]),
      "cleansers" := Category(
        "Formulas that remove dirt and makeup.",
        ["Fresh Start Gel Cleanser"]),
      "sunscreens" := Category(
        "SPF protection products.",
        ["Supreme Screen SPF 50+ Hydrating SKINSCREEN"])
    ]
  }

  /** `category_names`: the keys of the catalog, sorted, each once. */
  function CategoryNames(): (r: seq<string>)
    ensures StrictlyAscending(r) && Sorted(r)
    ensures forall n :: n in r <==> n in Categories()
    ensures |r| == |Categories()|
  {
    var r := SortedKeys(Categories().Keys);
    StrictlyAscendingIsSorted(r);
    r
  }

  /** `categories.get(category.lower())`: the record, or absence instead of an error. */
  function Lookup(catalog: map<string, Category>, category: string): (r: Option<Category>)
    ensures r.Some? <==> Lower(category) in catalog
    ensures r.Some? ==> r.value == catalog[Lower(category)]
  {
    if Lower(category) in catalog then Some(catalog[Lower(category)]) else None
  }

  // ---------------------------------------------------------------------------
  // The index over this catalog
  // ---------------------------------------------------------------------------

  /** The catalog keys, listed in the order `sorted` puts them. */
  const SortedCatalogKeys: seq<string> := ["cleansers", "moisturizers", "serums", "sunscreens"]

  lemma SortedCatalogKeysAscending()
    ensures StrictlyAscending(SortedCatalogKeys)
  {
    var k := SortedCatalogKeys;
    assert Less(k[0], k[1]) && Less(k[1], k[2]) && Less(k[2], k[3]);
    LessTransitive(k[0], k[1], k[2]);
    LessTransitive(k[1], k[2], k[3]);
    LessTransitive(k[0], k[2], k[3]);
  }

  lemma SortedCatalogKeysMembers()
    ensures forall n :: n in SortedCatalogKeys <==> n in Categories()
  {
    assert Categories().Keys == {"cleansers", "moisturizers", "serums", "sunscreens"};
  }

  /** The index is the list ["cleansers", "moisturizers", "serums", "sunscreens"]. */
  lemma CategoryNamesIndex()
    ensures CategoryNames() == SortedCatalogKeys
  {
    SortedCatalogKeysAscending();
    SortedCatalogKeysMembers();
    AscendingUnique(CategoryNames(), SortedCatalogKeys);
  }

  // ---------------------------------------------------------------------------
  // Autocomplete over this catalog
  // ---------------------------------------------------------------------------

  /**
    Over this catalog autocomplete returns, in sorted order, exactly the names
    that start with the lowered prefix.
   */
  lemma CatalogAutocompleteIsPrefixFilter(prefix: string)
    ensures Sorted(CategoryNames())
    ensures Autocomplete(CategoryNames(), prefix) == PrefixFilter(SortedCatalogKeys, Lower(prefix))
  {
    CategoryNamesIndex();
    AutocompleteIsPrefixFilter(CategoryNames(), prefix);
  }

  lemma FilterS()
    ensures PrefixFilter(SortedCatalogKeys, "s") == ["serums", "sunscreens"]
  {
    var k := SortedCatalogKeys;
    assert k[0][..1][0] == 'c' && k[1][..1][0] == 'm' && k[2][..1] == "s" && k[3][..1] == "s";
    FilterContiguous(k, "s", 2, 4);
  }

  lemma FilterM()
    ensures PrefixFilter(SortedCatalogKeys, "m") == ["moisturizers"]
  {
    var k := SortedCatalogKeys;
    assert k[0][..1][0] == 'c' && k[1][..1] == "m" && k[2][..1][0] == 's' && k[3][..1][0] == 's';
    FilterContiguous(k, "m", 1, 2);
  }

  lemma FilterQuit()
    ensures PrefixFilter(SortedCatalogKeys, "quit") == []
  {
    var k := SortedCatalogKeys;
    assert k[0][..4][0] == 'c' && k[1][..4][0] == 'm' && k[2][..4][0] == 's' && k[3][..4][0] == 's';
    FilterContiguous(k, "quit", 0, 0);
  }

  /** "s" suggests the two names that start with "s", in sorted order; "S" the same. */
  lemma AutocompleteS()
    ensures Sorted(CategoryNames())
    ensures Autocomplete(CategoryNames(), "s") == ["serums", "sunscreens"]
    ensures Autocomplete(CategoryNames(), "S") == ["serums", "sunscreens"]
  {
    FilterS();
    assert Lower("s") == "s" && Lower("S") == "s";
    CatalogAutocompleteIsPrefixFilter("s");
    CatalogAutocompleteIsPrefixFilter("S");
  }

  lemma AutocompleteM()
    ensures Sorted(CategoryNames())
    ensures Autocomplete(CategoryNames(), "m") == ["moisturizers"]
  {
    FilterM();
    assert Lower("m") == "m";
    CatalogAutocompleteIsPrefixFilter("m");
  }

  /** "quit" reaches the index as an ordinary prefix, and nothing starts with it. */
  lemma AutocompleteQuit()
    ensures Sorted(CategoryNames())
    ensures Autocomplete(CategoryNames(), "quit") == []
  {
    FilterQuit();
    assert Lower("quit") == "quit";
    CatalogAutocompleteIsPrefixFilter("quit");
  }

  /** The empty prefix suggests the whole index. */
  lemma AutocompleteEmpty()
    ensures Sorted(CategoryNames())
    ensures Autocomplete(CategoryNames(), "") == CategoryNames()
  {
    CategoryNamesIndex();
    forall n | n in CategoryNames() ensures SuffixFits(n) {
      BelowSentinelFits(n);
    }
    AutocompleteEmptyPrefix(CategoryNames());
  }

  // ---------------------------------------------------------------------------
  // Lookup over this catalog
  // ---------------------------------------------------------------------------

  /** Lookup sees only the lowered name: "Serums" and "serums" find the same record. */
  lemma LookupIgnoresCase(catalog: map<string, Category>, category: string)
    ensures Lookup(catalog, category) == Lookup(catalog, Lower(category))
  {
    LowerIdempotent(category);
  }

  /**
    Over an index of lower-case catalog keys, every name autocomplete suggests
    resolves to its own record. `category_names` and `categories` meet the
    premises.
   */
  lemma SuggestionsResolve(catalog: map<string, Category>, names: seq<string>, prefix: string, n: string)
    requires Sorted(names)
    requires forall m :: m in names ==> m in catalog && IsLower(m)
    requires n in Autocomplete(names, prefix)
    ensures Lookup(catalog, n) == Some(catalog[n])
  {
    LowerFixesLower(n);
  }

  /** The records for "Moisturizers" and "toothpaste", and no trimming of " serums". */
  lemma LookupExamples()
    ensures Lookup(Categories(), "Moisturizers") == Some(Category(
      "Products that hydrate the skin.",
      ["E45 Moisturising Cream 500g", "Dermal Therapy Very Dry Skin Cream 125g"]))
    ensures Lookup(Categories(), "toothpaste") == None
    ensures Lookup(Categories(), " serums") == None
  {
    assert Lower("Moisturizers") == "moisturizers";
    assert Lower("toothpaste") == "toothpaste";
    assert Lower(" serums") == " serums";
  }
}
