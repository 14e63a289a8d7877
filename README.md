# Christmas wishlist: a Dafny model

A model of the state logic of a client-only Christmas wishlist web
application. The application keeps a collection mapping person names to
ordered lists of wishes. That collection is changed by four UI updaters
(add or remove a person, add or remove a wish). It is loaded at start-up from
the browser's local storage, primary slot first and backup slot second. It is
written to both slots after every change, can be replaced by importing a JSON
file, can be exported as a JSON download, and a list can be shared as a
numbered message. A locale switcher rewrites the current path to the same page
under another locale prefix.

Modules:

- `Wrappers`: `Option`.
- `JsStrings`: the JavaScript built-ins the code relies on, written out on
  `seq<char>`: `trim` (with the ECMA-262 whitespace set), `split` and `join`
  with a one-character separator, `slice(n)`, and the decimal rendering of a
  non-negative integer.
- `Wishlist` (`app/components/ChristmasWishlist.tsx`, the pure part): the
  collection type, the four updaters as functions from the previous
  collection to the next, the load fallback, the double write, the import
  rule, the export link and the share text and URL.
- `WishlistComponent` (`app/components/ChristmasWishlist.tsx`, the stateful
  part): a class holding the collection, the two text inputs and the storage.
  Its methods are the load, save and mount effects, import and the four UI
  actions. Each method's `ensures` ties its new state to the functions of
  `Wishlist`.
- `LanguageSwitcher` (`app/components/LanguageSwitcher.tsx`): the language
  table and `switchLanguage`'s path rewrite.

Library and browser facilities enter as values:
- `JSON.parse`, `JSON.stringify` and the pretty-printing `JSON.stringify(_, null, 2)` are the three function fields of `Wishlist.Json`.
- `encodeURIComponent` (and the matching decoding the browser does when it saves a data URI) is a function parameter.
- The translated title `t('wishlist.title')` is a string parameter.
- The user-agent test is a boolean.
- Whether `localStorage.setItem` succeeds is the predicate `fits` over the storage, the key and the text. This models a quota error and the try block it ends.

Facts about the code worth knowing:

- Names are stored exactly as typed. Only the blank test trims the name; the duplicate test and the stored key use
  the raw input (`ChristmasWishlist.tsx:138-142`). So "Mara" and "Mara " are two people (`Wishlist.UntrimmedNamesAreDistinct`).
  Wishes, by contrast, are stored trimmed.
- The backup slot is always fetched, but it is parsed and used only when the primary slot holds non-empty text that fails to parse. A missing primary slot
  leaves the collection empty even when the backup parses (`Wishlist.BackupIgnoredWithoutPrimary`).
- On the first client render the save effect runs right after the load effect, in the same commit. It therefore
  writes the collection rendered before the load, the empty one, to both slots. A loaded collection is saved again
  on the next render (`WishlistComponent.ChristmasWishlist.Mount`). A backup whose primary was missing is thus
  replaced by the empty collection.
- `removeItem` reads `prev[person]` without a guard, so its model requires the person to be present.

## Model

| member | source | states |
|---|---|---|
| `JsStrings.IsWhitespace` | app/components/ChristmasWishlist.tsx:114 | defined as the ECMA-262 WhiteSpace and LineTerminator set that `trim` strips; its contract states the ASCII part (space and U+0009..U+000D) and that nothing above U+FEFF is whitespace |
| `JsStrings.TrimStart` | app/components/ChristmasWishlist.tsx:114 | the result is a suffix of the input, it does not start with whitespace, and everything cut off is whitespace |
| `JsStrings.TrimEnd` | app/components/ChristmasWishlist.tsx:114 | the result is a prefix of the input, it does not end with whitespace, and everything cut off is whitespace |
| `JsStrings.Trim` | app/components/ChristmasWishlist.tsx:117 | the trimmed text is no longer than the input and neither starts nor ends with whitespace |
| `JsStrings.TrimCut` | app/components/ChristmasWishlist.tsx:117 | the trimmed text is an infix `s[i..j]` of the input with only whitespace before `i` and after `j` |
| `JsStrings.IsBlank` | app/components/ChristmasWishlist.tsx:114 | defined as `!s.trim()`, the trimmed text being empty; the empty string is blank (the full characterisation is `BlankIsAllWhitespace`) |
| `JsStrings.BlankIsAllWhitespace` | app/components/ChristmasWishlist.tsx:114 | `!text.trim()` holds exactly when every character of the text is whitespace |
| `JsStrings.TrimIdempotent` | app/components/ChristmasWishlist.tsx:117 | trimming a trimmed text changes nothing |
| `JsStrings.Split` | app/components/LanguageSwitcher.tsx:17 | `split` yields at least one piece and no piece contains the separator |
| `JsStrings.Join` | app/components/LanguageSwitcher.tsx:17 | `join`: the empty array joins to "", a single piece joins to itself, and a longer array starts with its first piece followed by the separator |
| `JsStrings.Drop` | app/components/LanguageSwitcher.tsx:17 | `slice(n)` keeps the elements from position `n` on, and is empty once `n` passes the end |
| `JsStrings.SplitWithoutSeparator` | app/components/LanguageSwitcher.tsx:17 | a string without the separator splits into itself alone |
| `JsStrings.SplitAround` | app/components/LanguageSwitcher.tsx:17 | splitting at a separator occurrence splits the two sides independently and concatenates the pieces |
| `JsStrings.JoinSplit` | app/components/LanguageSwitcher.tsx:17 | joining the pieces of a split with the same separator gives back the string |
| `JsStrings.SplitJoin` | app/components/LanguageSwitcher.tsx:17 | splitting the join of separator-free pieces gives back the pieces |
| `JsStrings.Decimal` | app/components/ChristmasWishlist.tsx:97 | the numeral `${n}` is a non-empty string of digits with no leading zero except for 0 itself |
| `JsStrings.DecimalRoundTrip` | app/components/ChristmasWishlist.tsx:97 | reading the numeral back as a decimal gives the number |
| `Wishlist.ListOf` | app/components/ChristmasWishlist.tsx:117 | defined as `prev[person]` with the empty array as fallback: the stored list of a present person, the empty list for an absent one |
| `Wishlist.AcceptsPerson` | app/components/ChristmasWishlist.tsx:138-139 | defined as the two guards of addPerson, a non-blank name that is not yet a key (compared untrimmed); an accepted name is non-empty and new |
| `Wishlist.AddPerson` | app/components/ChristmasWishlist.tsx:137-145 | a blank or already present name changes nothing; otherwise exactly one new key, the untrimmed name, with an empty list, and every other entry unchanged |
| `Wishlist.AddItem` | app/components/ChristmasWishlist.tsx:113-120 | blank text changes nothing; otherwise the person's list (empty if the person was absent) gains the trimmed text at its end, one longer, and every other person is untouched |
| `Wishlist.FilterOutIndex` | app/components/ChristmasWishlist.tsx:133 | filtering out position `index` is `s[..index] + s[index+1..]` when the index is in range and leaves `s` unchanged otherwise |
| `Wishlist.RemoveItem` | app/components/ChristmasWishlist.tsx:130-135 | for a present person: an in-range index removes that wish and shortens the list by one, an out-of-range index changes nothing, other people are untouched, no key is added or removed |
| `Wishlist.RemovePerson` | app/components/ChristmasWishlist.tsx:122-128 | the person is absent afterwards, every other entry is unchanged, and removing an absent person is a no-op |
| `Wishlist.AddPersonKeepsTidy` | app/components/ChristmasWishlist.tsx:137-145 | adding a person keeps every name non-blank and every wish trimmed and non-empty |
| `Wishlist.AddItemKeepsTidy` | app/components/ChristmasWishlist.tsx:113-120 | adding a wish keeps that shape, for any person on screen or any non-blank name |
| `Wishlist.RemoveItemKeepsTidy` | app/components/ChristmasWishlist.tsx:130-135 | removing a wish keeps that shape |
| `Wishlist.RemovePersonKeepsTidy` | app/components/ChristmasWishlist.tsx:122-128 | removing a person keeps that shape |
| `Wishlist.RemovePersonUndoesAddPerson` | app/components/ChristmasWishlist.tsx:122-145 | removing a person just added restores the previous collection |
| `Wishlist.RemoveItemUndoesAddItem` | app/components/ChristmasWishlist.tsx:113-135 | removing the wish just appended, at its position, restores the previous collection |
| `Wishlist.AddPersonTwice` | app/components/ChristmasWishlist.tsx:139 | adding the same name twice leaves a single entry: the second add is a no-op |
| `Wishlist.UntrimmedNamesAreDistinct` | app/components/ChristmasWishlist.tsx:138-142 | "Mara" and "Mara " both become keys, because the duplicate test compares untrimmed names |
| `Wishlist.ExampleSessionAdd` | app/components/ChristmasWishlist.tsx:113-145 | add person "Mara" to the empty collection, then the wish "Bicycle": the result is `{"Mara": ["Bicycle"]}` |
| `Wishlist.ExampleSessionRemove` | app/components/ChristmasWishlist.tsx:130-135 | removing wish 0 from `{"Mara": ["Bicycle"]}` gives `{"Mara": []}` |
| `Wishlist.GetItem` | app/components/ChristmasWishlist.tsx:30-31 | `getItem` yields a value exactly for a stored key, and that value is the stored text |
| `Wishlist.Truthy` | app/components/ChristmasWishlist.tsx:33-37 | defined as JavaScript's truth test on a getItem result: a truthy result is a non-empty string, and null or "" is falsy |
| `Wishlist.LoadedSnapshot` | app/components/ChristmasWishlist.tsx:28-47 | a non-empty primary that parses gives the primary's collection; one that fails to parse, with a non-empty backup, gives the backup's parse; a missing or empty primary, or a failing primary with no backup, sets nothing |
| `Wishlist.BackupIgnoredWithoutPrimary` | app/components/ChristmasWishlist.tsx:33 | without a primary slot nothing is loaded, whatever the backup holds |
| `Wishlist.SavedStorage` | app/components/ChristmasWishlist.tsx:49-59 | when both writes succeed the primary and backup slots hold the identical serialized text and no other key changes; a failed primary write changes nothing; a failed backup write leaves only the primary updated |
| `Wishlist.LoadAfterSave` | app/components/ChristmasWishlist.tsx:28-59 | with a JSON that round-trips, loading after a successful save gives back the saved collection |
| `Wishlist.LoadAfterHalfSave` | app/components/ChristmasWishlist.tsx:28-59 | the same holds when only the primary write succeeded |
| `Wishlist.Imported` | app/components/ChristmasWishlist.tsx:72-89 | no file, or a file that fails to parse, leaves the collection unchanged; a file that parses replaces the whole collection |
| `Wishlist.ExportLink` | app/components/ChristmasWishlist.tsx:61-70 | the link downloads as `christmas-wishlist-2024.json` and its href is the JSON data-URI prefix followed by the encoded pretty JSON |
| `Wishlist.ExportImportRoundTrip` | app/components/ChristmasWishlist.tsx:61-89 | importing the downloaded export reproduces the exported collection, given that decoding inverts encoding and parse inverts the pretty stringify |
| `Wishlist.NumberedLines` | app/components/ChristmasWishlist.tsx:97 | one line per wish, line k reading the numeral of k+1, ". ", then wish k |
| `Wishlist.ShareMessage` | app/components/ChristmasWishlist.tsx:97 | defined as the template literal: decoration, " *", person, title, "* ", decoration, a blank line, then the numbered lines joined by line breaks; the message starts with the first decoration, and for no wishes it ends after the blank line |
| `Wishlist.ShareTextAsWritten` | app/components/ChristmasWishlist.tsx:97 | the message as the source builds it starts with the four characters U+00F0 U+0178 U+017D U+201E |
| `Wishlist.ShareTextAsWrittenIsGarbled` | app/components/ChristmasWishlist.tsx:97 | that message's first character is U+00F0, not the Christmas tree |
| `Wishlist.ShareText` | app/components/ChristmasWishlist.tsx:97 | the corrected message starts with the Christmas tree U+1F384 |
| `Wishlist.ShareMessageLines` | app/components/ChristmasWishlist.tsx:97 | for any decorations without line breaks, and no line breaks in the name, title or wishes, the message splits into the title line, a blank line, and line k reading "k+1. wish k" |
| `Wishlist.ShareTextAsWrittenLines` | app/components/ChristmasWishlist.tsx:97 | the text the source sends splits into the garbled title line, a blank line, and the numbered wish lines |
| `Wishlist.ShareTextLines` | app/components/ChristmasWishlist.tsx:97 | the corrected text splits into the title line with tree and present, a blank line, and the numbered wish lines |
| `Wishlist.ShareUrlFor` | app/components/ChristmasWishlist.tsx:91-104 | for a given message: an empty list yields no URL; otherwise the URL is `whatsapp://send?text=` (mobile) or `https://api.whatsapp.com/send?text=` followed by the encoded message |
| `Wishlist.ShareUrlAsWritten` | app/components/ChristmasWishlist.tsx:91-104 | the URL the source opens: none for an empty list, otherwise the mobile or web prefix followed by the encoded as-written (garbled) message |
| `Wishlist.ShareUrl` | app/components/ChristmasWishlist.tsx:91-104 | the same URL built from the corrected message: none for an empty list, otherwise the mobile or web prefix followed by the encoded corrected message |
| `LanguageSwitcher.CurrentPath` | app/components/LanguageSwitcher.tsx:17 | defined as `pathname.split('/').slice(2).join('/')`: empty when the path has at most two segments, the third segment alone when it has exactly three |
| `LanguageSwitcher.SwitchLanguage` | app/components/LanguageSwitcher.tsx:16-19 | the new path always starts with "/" and the locale |
| `LanguageSwitcher.SwitchKeepsTail` | app/components/LanguageSwitcher.tsx:17-18 | the new path splits into "", the locale, and the old path's segments after index 1 (none when they join to "") |
| `LanguageSwitcher.NoTailGivesBareLocale` | app/components/LanguageSwitcher.tsx:17-18 | a path with at most two segments, or only an empty third one, becomes exactly "/" and the locale, with no trailing slash |
| `LanguageSwitcher.CurrentPathOfSwitched` | app/components/LanguageSwitcher.tsx:17-18 | the path after the locale is the same before and after a switch to a slash-free locale |
| `LanguageSwitcher.SwitchTwice` | app/components/LanguageSwitcher.tsx:17-18 | switching to a slash-free locale and then to another is switching straight to the second |
| `LanguageSwitcher.SwitchIdempotent` | app/components/LanguageSwitcher.tsx:17-18 | switching to the same locale twice is switching once |
| `LanguageSwitcher.SwitchExample` | app/components/LanguageSwitcher.tsx:17-18 | `/en/a/b` switched to `de` is `/de/a/b` |
| `LanguageSwitcher.OfferedLanguages` | app/components/LanguageSwitcher.tsx:7-10 | the constant `Languages` is the table of lines 7-10; exactly two languages are offered, `en` then `de`, and neither code contains a slash |
| `LanguageSwitcher.SwitchBetweenOffered` | app/components/LanguageSwitcher.tsx:7-28 | any sequence of two button clicks ends where the last click alone would |
| `WishlistComponent.ChristmasWishlist.constructor` | app/components/ChristmasWishlist.tsx:18-20 | the component starts with an empty collection and empty inputs over the stored data |
| `WishlistComponent.ChristmasWishlist.Persist` | app/components/ChristmasWishlist.tsx:49-59 | the save effect serializes once and leaves the storage as `SavedStorage` describes |
| `WishlistComponent.ChristmasWishlist.SetWishlists` | app/components/ChristmasWishlist.tsx:49-59 | after setWishlists the new collection is on screen and saved |
| `WishlistComponent.ChristmasWishlist.Load` | app/components/ChristmasWishlist.tsx:28-47 | the load effect sets the collection exactly to `LoadedSnapshot` of the storage, if that is present, and otherwise leaves it |
| `WishlistComponent.ChristmasWishlist.Mount` | app/components/ChristmasWishlist.tsx:28-59 | on mount the collection becomes the loaded snapshot, if any; the storage first receives the pre-load collection and then, after a load, the loaded one |
| `WishlistComponent.ChristmasWishlist.Import` | app/components/ChristmasWishlist.tsx:72-89 | an import sets the collection to `Imported` and saves it exactly when the file parsed |
| `WishlistComponent.ChristmasWishlist.AddPerson` | app/components/ChristmasWishlist.tsx:137-145 | the collection becomes `Wishlist.AddPerson` of the typed name; an accepted name is saved and clears the input, and a rejected one changes nothing at all |
| `WishlistComponent.ChristmasWishlist.AddItem` | app/components/ChristmasWishlist.tsx:113-120 | the collection becomes `Wishlist.AddItem` of the typed text; non-blank text is saved and clears the input, blank text changes nothing at all |
| `WishlistComponent.ChristmasWishlist.RemoveItem` | app/components/ChristmasWishlist.tsx:130-135 | the collection becomes `Wishlist.RemoveItem` and is saved |
| `WishlistComponent.ChristmasWishlist.RemovePerson` | app/components/ChristmasWishlist.tsx:122-128 | the collection becomes `Wishlist.RemovePerson` and is saved |

## Left out

- Rendering: all JSX and styling (`ChristmasWishlist.tsx:157-348`), the settings toggle, and `app/components/ui/button.tsx` are presentational.
- React scheduling: the `isClient` gate and the `handleKeyPress` Enter dispatch are not modelled. React's strict-mode double effects are not modelled either.
  Effects are modelled as method calls in the order React runs them (`Mount`); the inputs' `onChange` handlers are plain field assignments.
- JSON: `JSON.parse` and `JSON.stringify` are parameters. A parse yields either a collection or nothing (a thrown error).
  JSON text that parses to something other than a name-to-list object (a number, an array, null) cannot be represented.
  So the parse that the source accepts and puts on screen unchecked is not modelled.
- Encoding: `encodeURIComponent`, the browser's decoding of a data URI, and the translation lookup `t(...)` are opaque parameters.
- `navigator.userAgent`: the mobile test is a boolean input.
- Side effects: `window.open`, `alert`, `console.error` and the link click have no model.
  Share failures are reported through an alert only, and that alert is not modelled.
- `FileReader`: the imported file is an `Option<string>` of its text. `readAsText` always yields a string, so the `typeof` test is not modelled.
- Inherited object members: in JavaScript, `wishlists["constructor"]` or `wishlists["toString"]` finds a member of `Object.prototype`.
  In the source, `addPerson` therefore refuses such a name and `addItem` for it fails. The model treats every string as an ordinary key.
- Key order: a Dafny `map` is unordered, so the display order of `Object.entries` is not modelled.
  Nor is the key order in the text `JSON.stringify` writes to storage and to the export file: `Json.stringify` is a function of the unordered map. No proved property depends on that order.
- Strings: a Dafny `string` is a sequence of Unicode scalar values, while a JavaScript string is a sequence of UTF-16 code units.
  A lone surrogate cannot be represented, and lengths count code points rather than code units. No proved property depends on this.
- Index type: the `removeItem` index is an integer. A fractional JavaScript number would match no position, which is the out-of-range case.
- Routing: `router.push` is left out; only the computed path string is modelled.
  `app/[locale]/layout.tsx` and `app/[locale]/template.tsx` (translation loading) are not part of this model.
- Wishlist.ShareUrl: builds its message with the corrected decorations of `Wishlist.ShareText`, not the garbled ones the source sends (see Findings). The URL the source actually opens is `Wishlist.ShareUrlAsWritten`.

## Findings

| source | as written | input that shows it | evidently intended | confidence | as-written member | corrected member |
|---|---|---|---|---|---|---|
| app/components/ChristmasWishlist.tsx:97 | the message template holds the UTF-8 bytes of the emoji re-read as Windows-1252. It starts with "ðŸŽ„ *" (U+00F0 U+0178 U+017D U+201E) and its title ends with "* ðŸŽ" | any non-empty list, e.g. person "Mara" with the wish "Bicycle" | a Christmas tree U+1F384 at the start and a wrapped present U+1F381 after the title | not executed | `Wishlist.ShareTextAsWrittenIsGarbled` | `Wishlist.ShareTextLines` |
