# Room finder: search policy and directions format

The room finder is a single-page app that lists the rooms of a campus dataset. This project
models its two pieces of real logic and proves properties of them.

- **The search of the main view** (`src/App.tsx`). The category dropdown offers each
  non-blank, trimmed category once, sorted. A search first narrows the records to the selected
  category; this is the *base set*. A blank query lists the base set unchanged. Otherwise a
  record matches *exactly* when the trimmed, lower-cased query equals its room code or one of
  the `|`-separated entries of its alias or occupant list, each trimmed and lower-cased. If
  any base record matches exactly, the results are those records, badged as exact. Only when
  none does are the fuzzy hits shown, restricted to the base set.
- **The directions mini-format of a room card** (`src/components/RoomCard.tsx`). A record's
  description holds route options separated by `|`. Each option is a list of steps separated
  by `||`; white space around either separator is dropped. Before options are split, each
  `||` is rewritten to a private placeholder text. The card also shows a floor label and has
  two copy buttons: one for all options and one for a single option.

Modules:

| module | contents |
|---|---|
| `Wrappers` | `Option` |
| `JsArray` | `filter` and `map` of JavaScript arrays |
| `JsString` | the JavaScript string operations the source uses: `trim`, ASCII `toLowerCase`, `split` and global `replace` by a string or by the two whitespace-padded pipe patterns, `join`, and the decimal rendering of numbers |
| `Collation` | the `localeCompare` sort of the category list |
| `Rooms` | the room record |
| `App` | the category list and the search effect |
| `RoomCard` | the floor label, the directions parser and its inverse, and the copy texts |

The category list is a method: as in the source, it loops over the records, collects each new
category into a set that keeps insertion order, then sorts. Everything else in the core is
expression code and is modelled as functions and lemmas.

The directions parser has a right inverse. `RoomCard.Render` writes directions down in a
`RoomCard.Layout`: any white space before the first step and after the last, `||` between
steps and `|` between options, with any white space on either side of each separator (the
same on every separator of a kind). `RoomCard.ParseRender` proves that, in every such layout,
parsing the written text gives back the same options and steps, in order. Further lemmas cover
texts that `Render` never produces: an empty step left by `||` directly before `|`, and an
option separator at the start of a description.

## Model

`Rooms.OrEmpty` and `App.Ids` are helpers: they model `person || ''` (src/App.tsx:120) and
`new Set(xs.map(r => r.id))` (src/App.tsx:130, 138). What they do is stated by
`App.ExactMatchMeaning`, `App.SearchExactWins` and `App.SearchFuzzyFallback`.

| member | source | states |
|---|---|---|
| App.Categories | src/App.tsx:43-49 | the list holds exactly the categories, trimmed, that some record carries and that are not blank; each entry is trimmed; the list is strictly ascending, so no entry appears twice |
| App.ListedCategoryHasRooms | src/App.tsx:101-103 | selecting any entry of the category list leaves a non-empty base set |
| App.BaseSet | src/App.tsx:100-103 | with no category selected, the base set is every record; otherwise it is exactly the records whose trimmed category equals the selection; either way dataset order is kept, and each record of the category appears as often as in the dataset |
| App.Tokens | src/App.tsx:115-123 | a token is a non-empty, trimmed, lower-cased entry of the `\|`-separated list, and every such entry is a token |
| App.ExactMatchMeaning | src/App.tsx:111-126 | for a non-empty query, a record matches exactly iff the query equals the normalized room code, or the normalized text of one of its aliases, or of one of its occupants (a missing occupant list counts as empty) |
| App.ExactMatches | src/App.tsx:113-126 | the exact matches are exactly the base records that match the query, in base order and each as often as in the base set; there are none iff no base record matches |
| App.HitsWithin | src/App.tsx:138-139 | the fuzzy hits whose identifier is that of a base record are kept, in hit order, each as often as among the hits; the others are dropped |
| App.Search | src/App.tsx:96-142 | every result carries the identifier of a base record |
| App.SearchBlankQuery | src/App.tsx:105-108 | a query that is blank after trimming lists the whole base set, in order, with nothing badged |
| App.SearchExactWins | src/App.tsx:128-132 | when a base record matches exactly, the results are exactly the matching base records: in base order, each as often as in the base set, all badged. The fuzzy hits change nothing |
| App.SearchFuzzyFallback | src/App.tsx:134-141 | when no base record matches exactly, the results are the fuzzy hits whose identifier is in the base set, in ranked order and each as often as among the hits, with nothing badged |
| App.SameIdSameRoom | src/App.tsx:138-139 | with unique identifiers, two records of the dataset that share an identifier are the same record |
| App.SearchStaysInCategory | src/App.tsx:101-139 | with a category selected, every result, exact or fuzzy, belongs to that category; this holds when identifiers are unique and the fuzzy index returns only dataset records |
| Collation.BelowTotal | src/App.tsx:48 | any two strings are comparable |
| Collation.BelowAntisymmetric | src/App.tsx:48 | strings below each other are equal |
| Collation.BelowTransitive | src/App.tsx:48 | the order is transitive |
| Collation.Insert | src/App.tsx:48 | insertion adds exactly the new element |
| Collation.InsertAscending | src/App.tsx:48 | inserting a new element into an ascending list keeps it ascending |
| Collation.Sort | src/App.tsx:48 | sorting gives a permutation of its input |
| Collation.SortSorted | src/App.tsx:48 | sorting a list without duplicates gives a strictly ascending list |
| JsArray.Filter | src/App.tsx:102 | a filter keeps exactly the elements that pass, each as often as in the input and in input order; it is empty iff nothing passes |
| JsArray.MapMembers | src/App.tsx:117 | the values of a mapped array are exactly the images of its elements |
| JsArray.FilterKeepsAll | src/components/RoomCard.tsx:61 | a filter that every element passes changes nothing |
| JsString.Trim | src/App.tsx:98 | the result is a middle slice of the input with no white space at either end, and all the white space at the ends is cut; it is empty iff the input is all white space |
| JsString.TrimOfTrimmed | src/components/RoomCard.tsx:53 | trimming is idempotent: a trimmed string is left unchanged |
| JsString.JoinSplitLiteral | src/components/RoomCard.tsx:57 | joining the pieces of a split on a string with that same string gives back the input |
| JsString.ReplaceLiteralBySelf | src/components/RoomCard.tsx:52 | replacing every occurrence of a string by itself changes nothing |
| JsString.TrimPadded | src/components/RoomCard.tsx:53 | trimming a trimmed text with any white space around it gives back that text |
| JsString.SeparatorMatch | src/components/RoomCard.tsx:49-51 | the whitespace-padded pipe pattern, at a separator written with any white space around it, matches exactly that separator, all its white space included |
| JsString.SplitSeparatedStep | src/components/RoomCard.tsx:51 | a separator with any white space around it, after a pipe-free text, splits off exactly that text |
| JsString.ReplaceSeparatedStep | src/components/RoomCard.tsx:49 | the global replace rewrites the first separator after a pipe-free text, with all its white space, and goes on after it |
| JsString.SplitJoinSeparated | src/components/RoomCard.tsx:51 | non-empty, trimmed, pipe-free parts joined by a run of pipes with any white space each side, followed by a pipe-free text, split back on that run into exactly those parts, with the text at the end of the last |
| JsString.ReplaceJoinSeparated | src/components/RoomCard.tsx:49 | in parts joined by a whitespace-padded run of pipes, the global replace swaps every separator for the replacement and leaves the parts, and what follows them, alone |
| JsString.ReplaceDoubleThenSingle | src/components/RoomCard.tsx:49 | when `\|\|` is followed by `\|`, the `\|\|` is rewritten together with all the white space up to the `\|`, and the `\|` is left in place |
| JsString.DecimalRoundTrip | src/components/RoomCard.tsx:74 | the decimal text of a number reads back as that number |
| RoomCard.FloorLabel | src/components/RoomCard.tsx:16 | the label is `Ground` iff the floor is `0`; any other floor is labelled `Floor ` followed by the floor itself |
| RoomCard.FloorLabelInjective | src/components/RoomCard.tsx:16 | different floors get different labels |
| RoomCard.RestorePlaceholder | src/components/RoomCard.tsx:52 | the rewrite of each option string leaves it unchanged |
| RoomCard.OptionStrings | src/components/RoomCard.tsx:50-54 | every option string is non-empty and trimmed |
| RoomCard.Steps | src/components/RoomCard.tsx:55-60 | every step is non-empty and trimmed |
| RoomCard.ParseDirections | src/components/RoomCard.tsx:45-62 | every option has at least one step, and every step is non-empty and trimmed; a blank description has no options |
| RoomCard.ParseRender | src/components/RoomCard.tsx:49-61 | parsing undoes writing down, in every layout: directions written with any white space at the ends and around the separators parse back to the same options and steps, in order |
| RoomCard.ParseNoPipe | src/components/RoomCard.tsx:46-61 | a non-blank description without a pipe that does not contain the placeholder text is one option with one step, the trimmed description |
| RoomCard.TwoStepsRoundTrip | src/components/RoomCard.tsx:49-60 | `a \|\| b`, with any white space, is one option of the two steps `a` and `b` |
| RoomCard.ParseStepsAndOptions | src/components/RoomCard.tsx:49-60 | `a \|\| b \| c`, with any white space, is two options: `a` then `b`, and `c` |
| RoomCard.ParseExample | src/components/RoomCard.tsx:49-60 | `A \|\| B \| C` parses to `[["A","B"],["C"]]` |
| RoomCard.ParseEmptyStep | src/components/RoomCard.tsx:49-61 | `a \|\| \| b`, with any white space, is two one-step options: the `\|\|` leaves an empty step before the `\|`, which is dropped |
| RoomCard.ParseLeadingSeparator | src/components/RoomCard.tsx:51-61 | a `\|` with any white space at the start of a description opens an empty option, which is dropped: the description parses as the rest of it |
| RoomCard.LeadingSeparatorExample | src/components/RoomCard.tsx:49-61 | `  \| A \|\|  \| B` parses to `[["A"],["B"]]` |
| RoomCard.TightExample | src/components/RoomCard.tsx:49-60 | `A\|\|B\|\|C`, without white space, parses to `[["A","B","C"]]` |
| RoomCard.ParseTriplePipe | src/components/RoomCard.tsx:49-61 | `a\|\|\|b` is two one-step options: the leftmost `\|\|` is a step separator and leaves an empty step, which is dropped, and the remaining `\|` separates options |
| RoomCard.TriplePipeExample | src/components/RoomCard.tsx:49-61 | `A\|\|\|B` parses to `[["A"],["B"]]` |
| RoomCard.ParsePlaceholderInText | src/components/RoomCard.tsx:48-57 | the placeholder text written into a description separates steps just as `\|\|` does |
| RoomCard.OptionBlock | src/components/RoomCard.tsx:74 | each block of the copy-all text starts with `Option ` |
| RoomCard.CopyAll | src/components/RoomCard.tsx:73-76 | the copy-all button copies nothing iff there are no options; otherwise it copies the copy-all text, whose layout `RoomCard.CopyAllBlocks` gives |
| RoomCard.CopyOptionText | src/components/RoomCard.tsx:84-85 | an index with no option behind it gives the empty text |
| RoomCard.CopyOption | src/components/RoomCard.tsx:84-86 | an index with no option behind it copies nothing; for parsed directions, an existing option copies its steps, one per line |
| RoomCard.CopyAllBlocks | src/components/RoomCard.tsx:73-86 | each block of the copy-all text is `Option n:` (1-based) above the text of that option's own copy button |

## Left out

- Loading the data is not modelled (`fetch`, CSV parsing with PapaParse, the JSON fallback and the loading state; src/App.tsx:51-94). Records are a sequence parameter.
- The fuzzy search (Fuse.js scoring, keys, weights and threshold) is not modelled. Its ranked hits for the trimmed query are a parameter of `App.Search`.
- The early exit while the fuzzy index is not yet built (`if (!fuse) return`, src/App.tsx:97) is left out; it only leaves the previous results in place.
- React state, effects and memoisation are not modelled. Setting the results and badges is modelled as the value `App.Search` returns.
- The highlighting of matched text, the map modal, toasts, timers, animation frames, analytics and all markup are presentation and are not modelled.
- The clipboard write is not modelled. `RoomCard.CopyAll` and `RoomCard.CopyOption` return the text they would write, or `None` where the source returns before writing.
- scripts/convert-csv-to-json.js is not part of this model.
- App.Categories: the sort uses lexicographic order by code point instead of `localeCompare`, which follows the locale's collation rules. The list is still strictly ascending in the modelled order, without duplicates.
- App.Tokens: `toLowerCase` is modelled for ASCII letters only; other letters are left unchanged.
- JsString.Trim: white space is a fixed set of common space, line-break and Unicode space characters; characters are Unicode scalar values, not UTF-16 code units.
- App.SearchStaysInCategory: assumes unique identifiers and fuzzy hits drawn from the dataset. Without these, a fuzzy hit from outside the category could carry the identifier of a base record, because the source filters hits by identifier.
- RoomCard.ParseNoPipe: also requires that the description does not contain the placeholder text `§§STEPSEP§§`. That text written in a description splits it into steps (`RoomCard.ParsePlaceholderInText`), so without this hypothesis the result need not be one step.
- RoomCard.ParseRender: covers directions whose steps hold neither a pipe nor `§`. A pipe in a step cannot be written down at all. Excluding every `§` is only a simple sufficient condition: what goes wrong is a step that spells the placeholder `§§STEPSEP§§` together with the separator next to it, as `a§§STEPSEP§` before ` || ` does.
- RoomCard.ParseRender: a layout puts the same white space around every step separator, and the same around every option separator; a text whose separators of one kind are padded differently from one another is covered only where it has at most one separator of each kind (`RoomCard.ParseStepsAndOptions`, `RoomCard.ParseEmptyStep`).
- A description that ends in a separator, or that holds two option separators in a row, is not covered by any lemma.
- Rooms.Room: every column is a string, so a row read without a column holds the empty string there. This is how the model assumes the loader fills rows. The source keeps such a value `undefined` wherever it does not read it through `\|\| ''`. For example, a row without a floor is labelled `Floor undefined` (src/components/RoomCard.tsx:16), where the model gives `Floor `.
