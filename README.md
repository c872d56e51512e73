# Product list selector: a Dafny model

This project models the selection controller of a Contentful UI extension. The
extension lets an author search an external product catalog and attach the
chosen products to an entry field as a list. The controller is the `App`
component in `src/index.js`. Its state is `productList` (the chosen products,
persisted in the host field), `productOptions` (the last search result),
`filteredOptions` (the options offered), `activeOption`, `showOptions` and
`userInput`. Four operations change or feed that state:

- `search` filters a fetched option list against the input and the products
  already chosen.
- `formatQuery` encodes the search term for the query string.
- `addProduct` pushes the chosen option onto the list and writes the list to
  the field.
- `removeProduct` drops the entries with a name and writes the list to the
  field.

Modules:

- `Wrappers`: `Option`, standing for a value that may be `undefined`.
- `Text`: `toLowerCase` on ASCII and `String.prototype.indexOf`.
- `FormQuery`: `formatQuery`. It is built from UTF-8,
  `encodeURIComponent` (ECMA-262, 2015 edition, section 18.2.6.5, using the
  Encode operation of section 18.2.6.1.1) and the `%20` to `+` rewrite. Beside
  it sit a reference definition (`encodeURIComponent` with each space written
  as `+`, the space convention of form encoding, character by character) and a
  decoder. The module proves that formatQuery equals the
  reference definition and that decoding its output gives back the input.
- `Selection`: the `Product` record, `Array.prototype.filter` and `find`, and
  the lists that `search`, `addProduct` and `removeProduct` compute, with their
  lemmas.
- `Widget`: the class `App` with the component's state as fields, the ghost
  field `fieldValue` for the host field, and the methods `Search`, `AddProduct`
  and `RemoveProduct`. Each method states the whole new state and keeps the
  invariant `Valid()`. Under `Valid()`, the product list equals the field's
  value. While the options are shown, every offered option matches the typed
  text and none has the name of a chosen product.

Where the code behaves in ways a reader might not expect, the model follows
the code:

- `search` sets `showOptions` to true for an empty input too. An empty input
  offers every unselected option, because `indexOf('')` is 0.
- `removeProduct` drops every entry with the name, not only the first.
- `addProduct` never checks for duplicates. Choosing the same name twice pushes
  two entries (`Selection.AddTwiceAddsTwice`). The list stays free of duplicate
  names only because the offered options exclude chosen names
  (`Selection.AddKeepsNamesUnique`).
- `addProduct` writes the field even when no option has the name.
- `addProduct` sets `userInput` to the product found or to `undefined`, not to
  the empty string.
- `addProduct` writes the misspelt key `filteredOption`, so `filteredOptions`
  is not cleared. Afterwards the hidden `filteredOptions` still holds an
  option with the chosen name. `Widget.App.AddProduct` states this.

## Model

| member | source | states |
|---|---|---|
| `Widget.App.constructor` | src/index.js:28-38 | The initial state: `productList` is the field's value, or `[]` when the field is unset; empty options; highlight 0; options hidden; empty input. |
| `Widget.App.Search` | src/index.js:69-89 | `filteredOptions` is the search filter of the given options against the unchanged product list, so it shares no name with the list. The input and the options are stored, `activeOption` is 0 and `showOptions` is true. The list and the field are unchanged, and `Valid()` is kept. |
| `Widget.App.AddProduct` | src/index.js:149-167 | The list becomes the old list with the first option of that name pushed, if there is one. The field receives the new list. `userInput` becomes the product found or `undefined`, `activeOption` 0 and `showOptions` false. The options and `filteredOptions` are unchanged. With the options shown and a duplicate-free list, choosing an offered name keeps the list duplicate-free. The stale `filteredOptions` then shares the chosen name with the list. |
| `Widget.App.RemoveProduct` | src/index.js:169-180 | The list becomes the old list without entries of that name, none of that name remain, and the field receives the new list. A duplicate-free list stays duplicate-free, and every other field is unchanged. |
| `Text.LowerChar` | src/index.js:78 | ASCII capitals map to the small letter 32 code points above; the result is never an ASCII capital; any other character is kept. |
| `Text.Lower` | src/index.js:72 | The lower-cased string has the same length and no ASCII capital; each character is kept or replaced by the small letter of its capital. |
| `Text.LowerIsCaseFolding` | src/index.js:72-78 | Two strings lower-case to the same string exactly when they have the same length and agree at each index up to ASCII letter case; lower-casing twice is lower-casing once. This is the case-insensitive comparison the search performs. |
| `Text.IndexOfFrom` | src/index.js:78 | The result is -1 exactly when no occurrence starts at or after `k`; otherwise it is the first such occurrence. |
| `Text.IndexOf` | src/index.js:78 | `indexOf` gives the least index at which the substring occurs, or -1 exactly when it occurs nowhere. It gives 0 for the empty substring. |
| `Selection.FindByName` | src/index.js:152 | `find` gives undefined exactly when no entry has the name. Otherwise it gives the entry at the first index whose name is the given one. |
| `Selection.FilterIsSubsequence` | src/index.js:74-80 | `filter` returns an order-preserving subsequence of its input. |
| `Selection.FilterCount` | src/index.js:74-80 | `filter` keeps every copy of a value that passes the test and none of a value that fails it. |
| `Selection.FilterMembers` | src/index.js:171 | The elements of a filtered list are exactly the input's elements that pass the test. |
| `Selection.FilterKeepsAll` | src/index.js:171 | A filter that every element passes returns its input unchanged. |
| `Selection.SearchFilterSpec` | src/index.js:72-80 | The offered options are an order-preserving subsequence of the fetched options. An option is kept, with every copy, if and only if its lower-cased name contains the lower-cased input and no product in the list has its name. |
| `Selection.SearchFilterExcludesSelected` | src/index.js:76-78 | No offered option shares a name with a chosen product, and every offered option matches the input. |
| `Selection.EmptyInputOffersAllUnselected` | src/index.js:78 | With an empty input, the offered options are exactly the fetched options whose names are not chosen. |
| `Selection.RemoveByNameSpec` | src/index.js:169-171 | Removal keeps an order-preserving subsequence. It drops every entry with the name and keeps every copy of each other entry. Removing an absent name changes nothing, and removing twice equals removing once. |
| `Selection.RemoveKeepsNoSharedName` | src/index.js:171 | Removal only drops entries, so options sharing no name with the list still share none afterwards. |
| `Selection.RemoveKeepsNamesUnique` | src/index.js:171 | Removing from a duplicate-free list leaves it duplicate-free. |
| `Selection.AddByNameSpec` | src/index.js:150-156 | The old list is a prefix of the new one. With no option of that name the list is unchanged. Otherwise exactly one entry is appended: the first option with that name. |
| `Selection.AddKeepsNamesUnique` | src/index.js:149-156 | A duplicate-free list stays duplicate-free when the chosen name is taken from options that share no name with the list. |
| `Selection.AppendFreshName` | src/index.js:155 | Pushing an entry whose name the list lacks keeps the list duplicate-free. |
| `Selection.AddLeavesChosenNameOffered` | src/index.js:160-166 | When the offered options held the chosen name and an option had it, the uncleared offered options share that name with the new list. |
| `Selection.AddTwiceAddsTwice` | src/index.js:152-156 | Adding the same available name twice appends two equal entries; `addProduct` does not deduplicate. |
| `Selection.RemoveThenAdd` | src/index.js:149-180 | After removing a name and adding it back, the list has exactly one entry of that name, at the end, when the options hold it. It has none when they do not. A duplicate-free list stays duplicate-free. |
| `FormQuery.Utf8` | src/index.js:92 | A character is 1 to 4 UTF-8 bytes; exactly the ASCII characters are 1 byte. |
| `FormQuery.HexDigit` | src/index.js:92 | Each escape digit is an upper-case hexadecimal digit whose value reads back as the digit's value. |
| `FormQuery.FormatQuery` | src/index.js:91-96 | The result is empty exactly when the input is undefined or the empty string. |
| `FormQuery.ReplaceAfterEscape` | src/index.js:95 | The `/%20/g` rewrite turns the escape of byte 0x20 into `+` and leaves any other escape untouched. |
| `FormQuery.ReplaceOfEncodeIsFormEncode` | src/index.js:92-95 | Rewriting `%20` to `+` in the output of `encodeURIComponent` gives the character-by-character encoding: space as `+`, everything else as `encodeURIComponent` writes it. |
| `FormQuery.FormatQueryIsFormEncode` | src/index.js:91-96 | formatQuery of any string is `encodeURIComponent` applied character by character with each space written as `+`. The characters `!'()~` stay unescaped, unlike in the standard form serializer. |
| `FormQuery.FormatQueryOfPlainText` | src/index.js:91-96 | On letters, digits, the marks `-_.!~*'()` and spaces, formatQuery copies every character except that each space becomes `+`. |
| `FormQuery.FormatQueryHasNoSpace` | src/index.js:95 | formatQuery's output contains no space and no `%20`. |
| `FormQuery.DecodeFormBytes` | src/index.js:91-96 | Percent-decoding form encoding, with `+` read as a space, gives the UTF-8 bytes of the input. |
| `FormQuery.Utf8DecodeChar` | src/index.js:92 | UTF-8 decoding reads one encoded character back and continues with the rest. |
| `FormQuery.Utf8RoundTrip` | src/index.js:92 | UTF-8 decoding of a string's UTF-8 encoding gives the string back. |
| `FormQuery.FormatQueryRoundTrip` | src/index.js:91-96 | Mapping `+` back to space, percent-decoding and UTF-8 decoding the output of formatQuery gives its input. |

## Left out

- Text.Lower: only ASCII `A`-`Z` are lower-cased. Full Unicode `toLowerCase` belongs to the JavaScript runtime. Non-ASCII capitals are therefore kept, and a search that differs only in non-ASCII case is not matched as the browser would match it.
- Text.LowerChar: the same ASCII-only restriction as `Text.Lower`.
- Text.IndexOf: positions count Unicode scalar values, whereas JavaScript counts UTF-16 code units, so a string with a character outside the Basic Multilingual Plane gives a different index. The search only tests `> -1`, and whether a substring occurs at all is the same under both counts for well-formed strings. Strings holding lone surrogates cannot be written down.
- FormQuery.FormatQuery: the input is `undefined` or a string. Other falsy JavaScript values (`null`, `0`, `false`) are not modelled. A lone surrogate makes `encodeURIComponent` throw a URIError; it cannot occur here, because Dafny characters are Unicode scalar values.
- Rendering (`getOptions`, `getProducts`, `render`, src/index.js:182-281) is presentation only. This includes the visibility gate on `showOptions && userInput` and the unused `this.state.value` binding.
- The network calls `submitSearch` and `submitSearchQuery` (src/index.js:98-147) are HTTP I/O. A successful response is the `options` argument of `Widget.App.Search`. Failed requests only log, so nothing is modelled for them. Responses arriving out of order are a concurrency effect and are not modelled.
- Most of the Contentful SDK is not modelled: `init`, `startAutoResizer`, `onValueChanged` and the detach handle (src/index.js:40-51, 284-286). `onExternalChange` and `checkFieldValue` only log. `setValue` is the assignment to the ghost `fieldValue`. External changes to the field are not modelled.
- `setState` is modelled as an immediate assignment; React's batching and deferred updates are not modelled.
- `addProduct` pushes onto the state's array in place. The model replaces the `productList` sequence instead, so aliasing between that array and the value handed to the host field is not captured.
- The stray state key `filteredOption` that `addProduct` writes is not a field of the model, since nothing reads it. Its effect, that `filteredOptions` is left as it was, is modelled.
- `onChange`, the unused `Cookies` import and all `console.log` calls do nothing to the controller state beyond calling the modelled operations.
