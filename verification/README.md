# GitHub users directory — verified model of its data logic

The application lists popular GitHub accounts as cards that can be searched,
sorted and starred. This project models, as pure Dafny functions over
sequences and strings, the logic behind that page:

- the **search input** (`SearchBar`): the sanitizer that strips every
  character outside `[A-Za-z\s]`, the keystroke guard, and the paste handler
  that splices the cleaned clipboard text into the current selection;
- the **home page** (`Home`): building a `User` from a detail payload, the
  case-insensitive name-or-company filter, the two sort orders (name by
  `localeCompare`, followers descending, both through a stable
  `Array.prototype.sort`), the favorites toggle, and the page state the
  handlers update;
- the **user card** (`UserCard`): the "popular company" test, the heading
  fallback, and the followers/following links.

Supporting modules: `Wrappers` (`Option`, the model of `null`), `Users` (the
`User` record), `Seqs` (`Array.prototype.filter` and subsequences), `Text`
(`toLowerCase`, `includes`, `slice`), `Sorting` (a stable insertion sort over
a comparator, with sortedness, permutation and stability proofs).

Modelling conventions:

- A Dafny `char` is one Unicode scalar value. A JavaScript string is a
  sequence of UTF-16 code units, and the two agree only on text inside the
  Basic Multilingual Plane. The difference shows in the key length tested
  by `SearchBar.KeyDownPrevented` and in the selection offsets and lengths
  of `SearchBar.HandlePaste` for a value holding characters outside that
  plane; the latter cannot arise while the value stays clean.
- `\s` is the ECMAScript whitespace class, enumerated: TAB, LF, VT, FF, CR,
  SPACE, U+00A0, U+1680, U+2000–U+200A, U+2028, U+2029, U+202F, U+205F,
  U+3000, U+FEFF.
- `localeCompare` is a parameter `(string, string) -> int`. Sorting by name
  assumes it is a consistent comparator (`ConsistentCollation`: total and
  transitive on "`<= 0`"), which ECMAScript demands of a collator.
- The sort with `compareFn` is modelled as an insertion sort over "`compareFn(a,
  b) <= 0`". A stable sort with a consistent comparator has exactly one
  result, so this is the result of the built-in sort.
- A null selection offset is `None` (`??` falls back to the value's length).
  `slice` clamps offsets past the end to the length, as in JavaScript.

## Model

| member | source | states |
|---|---|---|
| SearchBar.Sanitize | src/components/SearchBar.tsx:12-17 | the result holds only `[A-Za-z\s]` characters; each allowed character occurs exactly as often as in the input, and none other does; the result is a subsequence of the input |
| SearchBar.SanitizeFixesExactlyClean | src/components/SearchBar.tsx:12-16 | the sanitizer returns its input unchanged if and only if the input is already clean |
| SearchBar.SanitizeIdempotent | src/components/SearchBar.tsx:12-16 | sanitizing twice is sanitizing once |
| SearchBar.SanitizeConcat | src/components/SearchBar.tsx:12-16 | sanitizing a concatenation is the concatenation of the sanitized parts |
| SearchBar.KeyDownPrevented | src/components/SearchBar.tsx:20-25 | a key with ctrl, meta or alt held is never prevented; a key name longer or shorter than one character is never prevented; otherwise the key is prevented iff its character is outside the class |
| SearchBar.KeyGuardAgreesWithSanitize | src/components/SearchBar.tsx:11-24 | an unmodified one-character key is prevented iff the sanitizer would delete it, and a key let through is unchanged by the sanitizer |
| SearchBar.HandlePaste | src/components/SearchBar.tsx:27-38 | nothing is emitted (default paste kept) iff the clipboard text is clean; when emitted and the selection is a range of the value, the value is the prefix before the selection, the cleaned text, then the suffix after it, of length `|value| - (end - start) + |cleaned|`; a clean value stays clean |
| SearchBar.PasteWithoutSelectionAppends | src/components/SearchBar.tsx:33-35 | with both selection offsets null, the cleaned clipboard text is appended to the value |
| SearchBar.PasteIsSanitizedNativePaste | src/components/SearchBar.tsx:29-36 | for a clean value and a real selection range, the manual splice equals sanitizing the text a native paste would have produced |
| SearchBar.Handle | src/components/SearchBar.tsx:15-38 | the three handlers as one event filter: a change emits the sanitized raw value and never cancels; a key press emits nothing and cancels exactly as the keystroke guard decides; a paste emits what the paste handler computes and cancels the default iff it emits; from a clean value every emitted value is clean |
| SearchBar.PasteExample | src/components/SearchBar.tsx:27-36 | pasting `"a1"` into an empty input cancels the default paste and emits `"a"` |
| SearchBar.HandlePasteOnWrapper | src/components/SearchBar.tsx:27-46 | with the handler running on the text field's wrapper element, a paste that needs cleaning is cancelled and nothing is emitted; a clean paste is left to the browser |
| SearchBar.WrapperPasteLosesCleanedText | src/components/SearchBar.tsx:27-46 | for every paste that needs cleaning, the wrapper-bound handler emits nothing while the input-bound handler appends the cleaned text |
| SearchBar.WrapperPasteExample | src/components/SearchBar.tsx:27-46 | `"a1"` pasted into an empty field: nothing reaches the owner, instead of the search becoming `"a"` |
| Home.ToUser | src/pages/Home.tsx:59-68 | the record's name is the upstream name when that is non-null and non-empty, otherwise the login, so it is non-empty whenever the login is; all other fields are copied |
| Home.FetchedHeadingIsName | src/components/UserCard.tsx:83 | for a record built from a payload, the card heading is the record's name, non-empty for a non-empty login |
| Home.FilterUsers | src/pages/Home.tsx:84-88 | the filtered list is a subsequence of the users; every kept record matches on lowercased name or on a non-null, non-empty lowercased company; each matching record is kept as often as it occurs, each other one dropped |
| Home.EmptySearchKeepsAll | src/pages/Home.tsx:84-88 | the empty search term keeps the whole list unchanged |
| Home.NoCompanyMatchesByNameOnly | src/pages/Home.tsx:86-87 | a record whose company is null or empty matches exactly when its name does |
| Home.FilterExample | src/pages/Home.tsx:84-88 | Ada (company Acme) and Bob (no company) searched with "acm" leave only Ada; the empty search leaves both |
| Home.OrderIsTotalPreorder | src/pages/Home.tsx:90-93 | both comparators induce a total preorder (the name one given a consistent collation), as the built-in sort needs |
| Home.SortUsers | src/pages/Home.tsx:90-93 | the sorted list is a permutation of its input; by name it is non-decreasing under `localeCompare`, by followers non-increasing in follower count |
| Home.SortUsersIsStable | src/pages/Home.tsx:90-93 | records that the comparator ranks equal (same follower count, or names the collation ties) keep their relative order |
| Home.FollowersSortExample | src/pages/Home.tsx:92-93 | followers 5, 50, 50 sorted by followers gives the two 50s first in their input order, then 5 |
| Home.Displayed | src/pages/Home.tsx:84-96 | the shown list holds exactly the matching records with their multiplicities, as many as the filter keeps, in the order of the selected key, with records the comparator ties kept in their filtered order |
| Home.ToggleFavorite | src/pages/Home.tsx:100-106 | the id's membership flips; every other id keeps its multiplicity; a removal keeps the order of the rest, an addition appends at the end |
| Home.ToggleTwiceSameIds | src/pages/Home.tsx:100-106 | toggling the same id twice restores the set of ids |
| Home.ToggleAbsentTwiceRestores | src/pages/Home.tsx:100-106 | toggling an absent id twice restores the exact list |
| Home.ToggleKeepsNoDuplicates | src/pages/Home.tsx:100-106 | a duplicate-free favorites list stays duplicate-free |
| Home.Initial | src/pages/Home.tsx:30-38 | the page starts with no records, an empty (clean) search, sort by name, and the stored favorites or none |
| Home.Step | src/pages/Home.tsx:71-106 | a successful fetch replaces the records by the index-aligned mapped payloads; a failed one changes nothing; a search event sets the term to the value the input emits (if any) and the term stays clean; a sort choice sets the key; a star click replaces the favorites by the toggled list; each action changes only its own field |
| UserCard.IsPopularCompany | src/components/UserCard.tsx:21-37 | false for a null or empty company; otherwise true iff some listed company, lowercased, occurs as a substring of the lowercased company |
| UserCard.MetamorphIsPopular | src/components/UserCard.tsx:21-37 | "Metamorph" counts as popular because it contains "meta" |
| UserCard.Heading | src/components/UserCard.tsx:83 | the heading is the name if non-empty, else the login; it is empty only if both are |
| UserCard.PopularOnlyWithChip | src/components/UserCard.tsx:33-37 | a popular company is always non-null and non-empty, so the highlighted chip is rendered |
| UserCard.FollowersLink | src/components/UserCard.tsx:104 | the followers link is the profile URL followed by `?tab=followers` |
| UserCard.FollowingLink | src/components/UserCard.tsx:121 | the following link is the profile URL followed by `?tab=following` |
| UserCard.LinksDetermineProfile | src/components/UserCard.tsx:104-121 | each link determines the profile URL it was built from, and a card's two links differ |
| Text.IncludesIffOccurs | src/pages/Home.tsx:86-87 | the left-to-right `includes` scan holds iff the needle occurs at some offset |
| Sorting.InsertionSort | src/pages/Home.tsx:91-93 | the sort returns a permutation of its input, sorted under any consistent comparator |
| Sorting.InsertionSortIsStable | src/pages/Home.tsx:91-93 | elements the comparator ranks equal keep their input order |
| SearchBar.CharOk | src/components/SearchBar.tsx:11-22 | the anchored one-character test holds exactly for a one-character clean string |
| SearchBar.Caret | src/components/SearchBar.tsx:33-34 | a reported selection offset is used as is; a null one becomes the value's length |
| Home.Matches | src/pages/Home.tsx:85-87 | a record matches iff the lowercased term occurs somewhere in its lowercased name, or in its lowercased company when that is non-null and non-empty |
| Home.NameOrder | src/pages/Home.tsx:91 | under a consistent collation, the name comparator orders records totally (any two are comparable, and the order is transitive), as the built-in sort requires |
| Home.ComparingByNamePreorder | src/pages/Home.tsx:91 | any relation that compares records by `localeCompare` of their names is a total preorder when the collation is consistent |
| Home.FollowersOrder | src/pages/Home.tsx:93 | a record may precede another iff it has at least as many followers (the comparator `b.followers - a.followers` is at most 0) |
| UserCard.ShowsCompanyChip | src/components/UserCard.tsx:86 | the chip is rendered iff the company is neither null nor empty |
| Text.ToLowerCase | src/pages/Home.tsx:86-87 | lowercasing keeps the length and maps each character by the ASCII case mapping |
| Text.SliceTo | src/components/SearchBar.tsx:35 | `slice(0, n)` is the prefix of length `n`, or the whole string when `n` is past the end |
| Text.SliceFrom | src/components/SearchBar.tsx:35 | `slice(n)` is the suffix after the first `n` characters, or empty when `n` is past the end |
| Seqs.Filter | src/pages/Home.tsx:84-88 | `filter` keeps exactly the passing elements, with their multiplicities, as a subsequence |

## Left out

- SearchBar.HandlePaste: models the handler as if `e.currentTarget` were the `<input>`, i.e. the splice the code evidently intends. As wired (`onPaste` given to the text field, whose props other than the input-related ones go to its wrapper element) the handler throws after cancelling the paste; that behaviour is `SearchBar.HandlePasteOnWrapper`, see Findings. The text field's own code is not part of this model.
- The HTTP discovery and enrichment requests (`axios.get`, `Promise.all`) and the loading flag: network I/O and an asynchronous join. Their outcome enters the model only as `Home.FetchSettled`, carrying the detail payloads in candidate order, or `None` when any request failed.
- Reading and writing `localStorage` and `JSON.parse`/`JSON.stringify`: browser storage. `Home.Initial` receives the already-parsed list. Malformed stored JSON makes `JSON.parse` throw, and well-formed JSON that is not an array of numbers (such as `null` or `{}`) makes the later `favorites.includes` throw; neither case is modelled.
- The token and request-header construction from the environment variable: configuration plumbing.
- Locale-aware collation: `localeCompare` is an abstract parameter, only assumed consistent.
- Text.ToLowerCase: maps only `A`–`Z`; the Unicode case mappings of `toLowerCase` for other letters are not modelled.
- SearchBar.KeyDownPrevented: a key outside the Basic Multilingual Plane has JavaScript length 2 and is never prevented; the model counts it as one character and may prevent it.
- The native browser paste (when the clipboard text is already clean) and caret placement after a manual splice: browser behaviour, not application logic.
- The key-press handler is also attached to the wrapper, but a bubbled key event keeps its `key` and `preventDefault` still cancels the insertion, so `SearchBar.KeyDownPrevented` is unaffected.
- All markup, styling, the loading skeleton and React hooks; `src/index.tsx`, which only mounts the app.

## Findings

| source | as written | input that shows it | evidently intended | confidence | as-written member | corrected member |
|---|---|---|---|---|---|---|
| src/components/SearchBar.tsx:27-46 | `onPaste` is passed to the text field, so `e.currentTarget` is its wrapper element; `input.value.length` then throws right after `preventDefault` | pasting `"a1"` into an empty field: the paste is cancelled and `onChange` is never called | the cleaned text `"a"` replaces the selection and is emitted | medium, not executed; rests on the text field forwarding unknown props to its wrapper | SearchBar.HandlePasteOnWrapper | SearchBar.HandlePaste |
