# Skincare category lookup: prefix index and catalog lookup

A Dafny model of the lookup core of `Skincarerecommendation.py`. The script
holds a fixed catalog of skincare categories. It has three core parts:

- It sorts the catalog names into an index (`category_names`).
- `autocomplete(prefix)` lower-cases the typed prefix and finds a range of
  the index with two binary searches. The range runs from
  `bisect_left(category_names, prefix)` to
  `bisect_right(category_names, prefix + "\uffff")`, and the slice between
  them is returned.
- `show_category_data` resolves the chosen name with
  `categories.get(category.lower())`.

Everything here is pure. The catalog and the index are constants, and every
operation is a function.

Files and modules:

- `string_order.dfy` (`StringOrder`): how Python compares strings. The order
  is lexicographic on code points, and a proper prefix sorts first. Also
  `str.startswith`. The file proves the order is a strict total order, and
  proves the prefix facts the range search relies on.
- `case_fold.dfy` (`CaseFold`): `str.lower()` restricted to ASCII letters.
- `bisect.dfy` (`Bisect`): `bisect_left` and `bisect_right` over a sorted list
  of strings. They use the library's halving search and carry its documented
  contracts.
- `prefix_index.dfy` (`PrefixIndex`): `sorted` over the key set, `autocomplete`,
  the linear "starts with" scan it is compared against, and the exact reach
  of the `"\uffff"` upper bound.
- `category_store.dfy` (`CategoryStore`): the `Category` record, the
  four-entry catalog, the index built over it, the lookup, and the concrete
  scenarios.

What is proved, in short:

- The index is strictly ascending and holds every key once.
- The two boundaries are ordered.
- Every suggestion starts with the lowered prefix.
- A catalog name is suggested exactly when it starts with the lowered prefix
  and what follows the prefix sorts no higher than `"\uffff"`. This holds in
  both directions.
- When no name holds a character at or above U+FFFF, the binary search returns
  exactly the linear scan. Every name of this catalog is ASCII.
- Suggestions depend only on the lowered prefix.
- Every suggestion resolves through the lookup to its own record.

Behaviour kept as the code has it:

- Neither the prefix nor the looked-up name is trimmed. Only `.lower()` is
  applied, at lines 50 and 57. `LookupExamples` shows that `" serums"` is not
  found.
- The upper bound appends U+FFFF to the prefix. It does not raise the
  prefix's last character. So the match is "starts with the prefix" only for
  names whose continuation sorts no higher than `"\uffff"`.
  `AstralContinuationDropped` and `SentinelContinuationDropped` show the two
  kinds of name this drops.
- The catalog has the four entries of lines 12-39: cleansers, moisturizers,
  serums and sunscreens, with the descriptions written there.

## Model

| member | source | states |
|---|---|---|
| StringOrder.LessTotal | Skincarerecommendation.py:42 | any two strings compare: one sorts first or they are equal, so `sorted` has a total order to work with |
| StringOrder.LessTransitive | Skincarerecommendation.py:42 | the string order is transitive |
| StringOrder.LessIrreflexive | Skincarerecommendation.py:42 | no string sorts before itself |
| StringOrder.BetweenStartsWith | Skincarerecommendation.py:51-52 | a string not below q and not above q followed by any character starts with q |
| StringOrder.CommonPrefixLess | Skincarerecommendation.py:52 | after a shared prefix, two strings compare as their remainders do |
| CaseFold.Lower | Skincarerecommendation.py:50 | `str.lower()` on ASCII: same length, no upper-case letter left, each A-Z mapped to its lower-case letter and every other character kept |
| CaseFold.LowerFixesLower | Skincarerecommendation.py:50 | lowering leaves a string unchanged exactly when it has no upper-case letter |
| CaseFold.LowerIdempotent | Skincarerecommendation.py:50 | lowering twice gives what lowering once gives |
| Bisect.StrictlyAscendingIsSorted | Skincarerecommendation.py:42 | a strictly ascending list meets the sortedness that `bisect` asks for |
| Bisect.BisectLeft | Skincarerecommendation.py:51 | the position returned is within the list; everything before it sorts below x, and nothing from it on does |
| Bisect.BisectLeftIn | Skincarerecommendation.py:51 | the halving search keeps "below x" to the left of lo and "not below x" from hi on, and ends between them |
| Bisect.BisectRight | Skincarerecommendation.py:52 | the position returned is within the list; nothing before it sorts above x, and everything from it on does |
| Bisect.BisectRightIn | Skincarerecommendation.py:52 | the halving search keeps "not above x" to the left of lo and "above x" from hi on, and ends between them |
| Bisect.BisectLeftNotAfterRight | Skincarerecommendation.py:51-53 | for x below y, the left boundary of x is at most the right boundary of y, so the slice bounds are ordered |
| PrefixIndex.SortedKeys | Skincarerecommendation.py:42 | `sorted(keys)` is strictly ascending, holds exactly the keys, and has as many entries as there are keys |
| PrefixIndex.LeastExists | Skincarerecommendation.py:42 | every non-empty finite set of strings has a least element |
| PrefixIndex.AscendingUnique | Skincarerecommendation.py:42 | two strictly ascending lists with the same elements are equal, so the sorted index is determined by the keys |
| PrefixIndex.SuffixFitsIff | Skincarerecommendation.py:52 | a continuation sorts no higher than `"\uffff"` exactly when it is empty, starts below U+FFFF, or is U+FFFF alone |
| PrefixIndex.WindowIff | Skincarerecommendation.py:51-52 | a name lies between the two boundaries exactly when it starts with the prefix and its continuation sorts no higher than `"\uffff"` |
| PrefixIndex.Autocomplete | Skincarerecommendation.py:48-53 | the result is a contiguous slice of the index; it holds a name exactly when the name is in the index, starts with the lowered prefix and continues with no more than `"\uffff"`; it is strictly ascending when the index is |
| PrefixIndex.AutocompleteIgnoresCase | Skincarerecommendation.py:50 | the result for a prefix equals the result for its lowered form |
| PrefixIndex.AutocompleteEmptyPrefix | Skincarerecommendation.py:51-53 | the empty prefix returns the whole index when every name sorts no higher than `"\uffff"` |
| PrefixIndex.PrefixFilterMembers | Skincarerecommendation.py:49 | the linear scan keeps exactly the names that start with the prefix |
| PrefixIndex.AutocompleteIsPrefixFilter | Skincarerecommendation.py:48-53 | when no name holds a character at or above U+FFFF, the binary-search result equals the linear scan for the lowered prefix, in order |
| PrefixIndex.AstralContinuationDropped | Skincarerecommendation.py:52 | a name that starts with the prefix but continues with a character above U+FFFF is not returned |
| PrefixIndex.SentinelContinuationDropped | Skincarerecommendation.py:52 | a name that starts with the prefix but continues with U+FFFF and more is not returned |
| CategoryStore.Categories | Skincarerecommendation.py:12-39 | the `categories` dictionary with its four records; every key is lower-case and holds no character at or above U+FFFF |
| CategoryStore.CategoryNames | Skincarerecommendation.py:42 | `sorted(categories.keys())`: strictly ascending, holding exactly the catalog keys, each once |
| CategoryStore.Lookup | Skincarerecommendation.py:57-59 | a record is found exactly when the lowered name is a key, and it is the stored one; otherwise absence, not an error |
| CategoryStore.SortedCatalogKeysAscending | Skincarerecommendation.py:12-39 | the four catalog keys in the order cleansers, moisturizers, serums, sunscreens are strictly ascending |
| CategoryStore.CategoryNamesIndex | Skincarerecommendation.py:42 | `category_names` is the list ["cleansers", "moisturizers", "serums", "sunscreens"] |
| CategoryStore.CatalogAutocompleteIsPrefixFilter | Skincarerecommendation.py:48-53 | over this catalog, autocomplete returns exactly the names that start with the lowered prefix, in sorted order |
| CategoryStore.AutocompleteS | Skincarerecommendation.py:48-53 | "s" and "S" both give ["serums", "sunscreens"] |
| CategoryStore.AutocompleteM | Skincarerecommendation.py:48-53 | "m" gives ["moisturizers"] |
| CategoryStore.AutocompleteQuit | Skincarerecommendation.py:48-53 | "quit" gives the empty list |
| CategoryStore.AutocompleteEmpty | Skincarerecommendation.py:48-53 | the empty prefix gives the whole index |
| CategoryStore.LookupIgnoresCase | Skincarerecommendation.py:57 | looking up a name gives what looking up its lowered form gives |
| CategoryStore.SuggestionsResolve | Skincarerecommendation.py:53-57 | when the index holds only lower-case catalog keys, every name autocomplete suggests is found by the lookup, with its own record |
| CategoryStore.LookupExamples | Skincarerecommendation.py:12-19 | "Moisturizers" finds the moisturizers record with its two sample products in order; "toothpaste" and " serums" are not found |

## Left out

- `main` (lines 73-91) is left out. It is the interactive `input`/`print` loop. The `"quit"` sentinel is checked there, before autocomplete is reached.
- The printing in `show_category_data` (lines 58-67) is left out. This covers the not-found message, `category.title()` and the bullet list of sample products. It is presentation, and no property is stated about it.
- `show_category_data` tests the record with `if not data`. A stored record is a non-empty dictionary, so this test is true only for absence. The model returns `None` for absence.
- CaseFold.Lower: lower-cases only the ASCII letters A-Z. Python's `str.lower()` also maps non-ASCII letters, and can change a string's length. Full Unicode case mapping is not modelled. Every catalog key is plain ASCII.
- Python strings may hold lone surrogate code points. Dafny's `char` cannot hold them, so such prefixes are not modelled.
- The internals of Python's `bisect` module are not modelled. Only its default form without `lo`, `hi` and `key` is used. It is modelled by its documented contract and its halving search.
- The dictionary's insertion order of keys is not modelled. The catalog is a `map`, because the only use of the key order is `sorted`, and `sorted` does not depend on it.
