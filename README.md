# Side menu of the CEP lookup front end, modelled in Dafny

`Menu` is the collapsible side menu of the desktop CEP (postal code) lookup
tool. It lists three services: automatic update, location search and
location insertion. Each entry can be expanded or collapsed on its own.
The component's one piece of state is `focusedServices`, an ordered
sequence of service keys. It starts empty. A click on an entry replaces it
through a single toggle rule:

- a key that is present is filtered out, every occurrence of it;
- a key that is absent is appended at the end.

The rest is derived. A fixed record maps each key to its `{id, label}`
descriptor. The rendered list has one entry per key of the record, in
declaration order. An entry is "focused" when its key is in the sequence.
That flag drives the button's `focused` class, the region's `expanded`
class and the down-arrow glyph.

`menu.dfy` holds the module `SideMenu`:

- `MenuItemKey` is the closed enumeration. `KeyName` and `ParseKey` relate it to its string literals.
- `ServiceItem` and `MenuKeys` are the static record and its key order.
- `Without` and `Toggle` are the updater, a pure function from the previous sequence to the next.
- `Run` folds a series of clicks from the empty state.
- `Entry` and `View` are the rendered list as values.
- The class `Menu` owns `focusedServices`. Its method `ToggleServiceFocus` replaces the sequence through `Toggle`. `Render` and the two navigation-button methods change nothing.

Two facts about the code are worth stating up front:

- Two toggles of the same key restore the prior sequence only when the key was absent, or was present and already last. Otherwise the key moves to the end (`DoubleToggleMovesToEnd`, `DoubleTogglePresent`, `DoubleToggleReorders`).
- The code never enforces uniqueness. It holds because every reachable state is built from `[]` by toggles (`RunInvariant`).

## Model

| member | source | states |
|---|---|---|
| `SideMenu.ParseKey` | WailsBuscaCep/frontend/src/components/Menu.tsx:10 | a string denotes a key only if it is that key's literal; a rejected string is no key's literal |
| `SideMenu.KeyNameRoundTrip` | WailsBuscaCep/frontend/src/components/Menu.tsx:10 | every key is recovered from its own string literal, so the three literals are distinct |
| `SideMenu.ServiceItemIds` | WailsBuscaCep/frontend/src/components/Menu.tsx:24-28 | two keys share a descriptor id exactly when they are the same key (the ids are unique list keys); no descriptor has an icon |
| `SideMenu.MenuKeysEnumerate` | WailsBuscaCep/frontend/src/components/Menu.tsx:31 | the key list has three entries without repeats, contains every key, and is ordered as the ids "1", "2", "3" number the record |
| `SideMenu.Without` | WailsBuscaCep/frontend/src/components/Menu.tsx:18 | the filtered sequence has the input's multiset with every copy of the key removed, and is the input itself when the key is absent |
| `SideMenu.ToggleAbsentAppends` | WailsBuscaCep/frontend/src/components/Menu.tsx:17-20 | toggling an absent key grows the sequence by one, puts the key last and keeps every earlier element at its index |
| `SideMenu.TogglePresentRemoves` | WailsBuscaCep/frontend/src/components/Menu.tsx:17-18 | toggling a present key leaves it absent, keeps the other keys with their multiplicities, and yields a subsequence of the input (relative order kept) |
| `SideMenu.WithoutIsSubsequence` | WailsBuscaCep/frontend/src/components/Menu.tsx:18 | the filter only deletes elements; what remains is in the original order |
| `SideMenu.TogglePresentSplices` | WailsBuscaCep/frontend/src/components/Menu.tsx:17-18 | on a duplicate-free sequence, toggling the key at index i yields exactly the sequence with position i cut out |
| `SideMenu.ToggleFlipsMembership` | WailsBuscaCep/frontend/src/components/Menu.tsx:15-21 | after a toggle the key is present iff it was absent; every other key is present iff it was before |
| `SideMenu.NoDuplicatesWithout` | WailsBuscaCep/frontend/src/components/Menu.tsx:18 | filtering a duplicate-free sequence leaves it duplicate-free |
| `SideMenu.AtMostThree` | WailsBuscaCep/frontend/src/components/Menu.tsx:10 | a duplicate-free sequence over the three-key enumeration has length at most 3 |
| `SideMenu.ToggleKeepsNoDuplicates` | WailsBuscaCep/frontend/src/components/Menu.tsx:15-21 | toggle preserves the invariant: no duplicates, length at most 3 |
| `SideMenu.RunInvariant` | WailsBuscaCep/frontend/src/components/Menu.tsx:13-22 | every sequence reached from the empty initial state by any series of clicks is duplicate-free with length at most 3 |
| `SideMenu.DoubleToggleAbsent` | WailsBuscaCep/frontend/src/components/Menu.tsx:17-20 | toggling an absent key twice restores exactly the original sequence |
| `SideMenu.DoubleToggleMovesToEnd` | WailsBuscaCep/frontend/src/components/Menu.tsx:17-20 | for any sequence containing the key, duplicates allowed, two toggles give the filtered sequence with the key appended once at the end |
| `SideMenu.DoubleTogglePresent` | WailsBuscaCep/frontend/src/components/Menu.tsx:17-20 | on a duplicate-free sequence (every reachable state), toggling a present key twice keeps the multiset and gives back the original iff the key was last |
| `SideMenu.DoubleTogglePresentAt` | WailsBuscaCep/frontend/src/components/Menu.tsx:17-20 | toggling the key at index i twice moves it from position i to the end; the result equals the original iff i is the last index |
| `SideMenu.SpliceToEnd` | WailsBuscaCep/frontend/src/components/Menu.tsx:17-20 | moving element i of a duplicate-free sequence to the end keeps its multiset and changes the sequence unless i is last |
| `SideMenu.DoubleToggleReorders` | WailsBuscaCep/frontend/src/components/Menu.tsx:17-20 | with [a, b] expanded, toggling a twice gives [b, a], which differs from [a, b] |
| `SideMenu.TwoKeysInsertionOrder` | WailsBuscaCep/frontend/src/components/Menu.tsx:13-22 | from mount, clicking distinct a then b gives [a, b]; clicking either again removes only that one |
| `SideMenu.View` | WailsBuscaCep/frontend/src/components/Menu.tsx:51-65 | one entry per key of the record, in declaration order, with that key's descriptor; focused class and expanded class iff the key is in the sequence, arrow iff it is not |
| `SideMenu.InitialViewCollapsed` | WailsBuscaCep/frontend/src/components/Menu.tsx:53-65 | on the empty initial state every entry shows its arrow and is neither focused nor expanded |
| `SideMenu.ViewAfterToggle` | WailsBuscaCep/frontend/src/components/Menu.tsx:53-65 | after a toggle only the toggled key's entry flips expanded; every other entry keeps its state, arrow stays the negation of expanded, descriptors are unchanged |
| `SideMenu.ExpandedEntries` | WailsBuscaCep/frontend/src/components/Menu.tsx:51-65 | for a duplicate-free sequence the expanded entries are exactly the focused keys, as many as the sequence is long |
| `SideMenu.Menu.constructor` | WailsBuscaCep/frontend/src/components/Menu.tsx:13 | the mounted component starts with an empty focused sequence, which satisfies the invariant |
| `SideMenu.Menu.ToggleServiceFocus` | WailsBuscaCep/frontend/src/components/Menu.tsx:15-22 | a click replaces the sequence by `Toggle` of the previous one and keeps the invariant |
| `SideMenu.Menu.Render` | WailsBuscaCep/frontend/src/components/Menu.tsx:51-65 | rendering gives the view of the current sequence: three entries, expanded exactly for the focused keys |
| `SideMenu.Menu.ClickServicesNav` | WailsBuscaCep/frontend/src/components/Menu.tsx:40 | the "Services" button yields its diagnostic line and leaves the focused sequence unchanged |
| `SideMenu.Menu.ClickSettingsNav` | WailsBuscaCep/frontend/src/components/Menu.tsx:43 | the "Settings" button yields its diagnostic line and leaves the focused sequence unchanged |

## Left out

- JSX markup, inline styles, the stylesheet import and the literal class strings (Menu.tsx:2, 38-90). These are presentation only. The class and arrow choices are modelled as the booleans of `MenuEntry`.
- The label repeated fourteen times inside each expandable region (Menu.tsx:68-81). It is presentation only. The model keeps the descriptor of each entry.
- The `useEffect` that logs the focused sequence on every change (Menu.tsx:33-35). It is output to an external console. The navigation buttons' `console.log` becomes the string their methods return.
- React's `useState` and its update scheduling. The updater is modelled as a function from the previous sequence to the next, applied once per click.
- Object.keys ordering is taken to be declaration order, which holds for non-numeric string keys. The key list is written out in that order.
- WailsIntroduce/MM-Task/app.go is not part of this model. It consists of file I/O, goroutine and WaitGroup fan-out, library SHA-256 and hex calls, float timing arithmetic and `strconv.Atoi` with a panic, none of which has a logical core to state.
