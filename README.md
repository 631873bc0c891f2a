# Number pool and theme rotation of the Random-Number-Generator widgets

This project models, in Dafny, the core of a small browser application that draws numbers
without replacement from a pool of 1 to 66.

Two widgets hold the pool, NumberShuffler and Hack-a-Lot. Each keeps the available numbers,
the excluded (already drawn) numbers in draw order, the number currently shown, and two
flags: shuffling and revealed. A draw has two phases:

1. The draw click is ignored when the pool is empty or a shuffle is running. Otherwise it
   hides the number and starts a shuffle. The shuffle's timer callbacks capture the pool as it
   is at that moment.
2. Interval ticks show random numbers from the captured pool. When the timeout fires, it
   picks one number from the captured pool, filters it out of the live pool, appends it to
   the excluded numbers, shows it and ends the shuffle.

A reset, ignored while shuffling, restores the full pool. NumberShuffler shows the excluded
numbers as an ascending copy. Hack-a-Lot shows them in draw order and bumps an animation
counter on every tick.

Each widget is a class. Its React state hooks are fields, and each handler or timer callback
is a method (`DrawNumber`, `ShuffleTick`, `FinishDraw`, `Reset`). The random index
`Math.floor(Math.random() * length)` is a parameter `idx` with `0 <= idx < length`. The
object invariant `Valid()` says six things:

- the available and excluded numbers are disjoint, have no duplicates, and together are
  exactly 1..66 (the available list is also strictly increasing, since it starts as 1..66
  and is only ever filtered);
- exactly one shuffle timeout is pending while a shuffle runs, and none otherwise (a ghost
  counter that `DrawNumber` raises when it schedules and `FinishDraw` lowers when it fires);
  the draw guard is what keeps a second timeout from being scheduled;
- while a shuffle runs, the snapshot its callbacks captured is still the live pool, and that
  pool is non-empty, because the guards block draw and reset during a shuffle;
- while idle, the number shown is the last one drawn (none when nothing is drawn);
- the number is revealed only when idle and at least one number has been drawn;
- a shown number is always between 1 and 66.

Because the snapshot equals the live pool, `FinishDraw` is proved to remove exactly the
drawn position from the live pool.

The shared pure parts are in module `Pool`: the initial pool, the filter, the ascending sort
and the invariant, with lemmas about them.

The ThemeSwitcher's rotation rule is a pure function from the stored theme value to the
theme to apply. It strips double quotes and looks the name up in the two-theme list. A known
theme moves to the next index modulo 2. Anything else gives index 0, `"tech-noir"`.

Files: `Wrappers.dfy` (Option), `Pool.dfy`, `NumberShuffler.dfy`, `HackALot.dfy`,
`ThemeSwitcher.dfy`.

## Model

| member | source | states |
|---|---|---|
| `Pool.InitialNumbers` | src/components/NumberShuffler.tsx:14 | the initial pool has 66 entries, strictly increasing, each between 1 and 66 |
| `Pool.InitialNumbersSpan` | src/components/HackALot.tsx:13 | every number from 1 to 66, and no other, is in the initial pool |
| `Pool.InitialPoolInvariant` | src/components/NumberShuffler.tsx:14-29 | the initial state (full pool, nothing excluded) satisfies the partition invariant |
| `Pool.Without` | src/components/NumberShuffler.tsx:80 | filtering keeps exactly the elements different from the drawn number, and never lengthens the list |
| `Pool.WithoutAbsent` | src/components/NumberShuffler.tsx:80 | filtering out a number that is not in the list leaves it unchanged |
| `Pool.WithoutAt` | src/components/NumberShuffler.tsx:76-80 | in a duplicate-free list, filtering out the element at index k removes exactly that position, keeps the others in order and shortens the list by one |
| `Pool.DrawPreservesPool` | src/components/NumberShuffler.tsx:73-80 | one draw keeps available and excluded disjoint, duplicate-free and covering 1..66, and shrinks the pool by exactly one |
| `Pool.DistinctRangeLength` | src/components/NumberShuffler.tsx:14 | a duplicate-free list whose elements are exactly 1..n has length n |
| `Pool.PoolSizes` | src/components/NumberShuffler.tsx:79-80 | under the invariant, the available and excluded lists hold 66 numbers together |
| `Pool.ExhaustedIffAllExcluded` | src/components/NumberShuffler.tsx:122 | under the invariant, the pool is empty exactly when 66 numbers are excluded |
| `Pool.NothingDrawnIsInitial` | src/components/NumberShuffler.tsx:88-90 | with nothing excluded, the available list is exactly 1..66 in order |
| `Pool.IncreasingSpanIsInitial` | src/components/NumberShuffler.tsx:14 | a strictly increasing list of 66 numbers between 1 and 66 is the initial pool |
| `Pool.Insert` | src/components/NumberShuffler.tsx:142 | insertion adds exactly one copy of the number (multiset) |
| `Pool.InsertSorted` | src/components/NumberShuffler.tsx:142 | inserting into an ascending list keeps it ascending, and strictly increasing when the number is new |
| `Pool.SortAscending` | src/components/NumberShuffler.tsx:140-142 | the numeric sort gives an ascending permutation of its input |
| `Pool.SortDistinct` | src/components/NumberShuffler.tsx:140-142 | sorting a duplicate-free list gives a strictly increasing list |
| `Pool.AllDrawnSortedIsInitial` | src/components/NumberShuffler.tsx:130-147 | once the pool is empty, the sorted excluded display is exactly 1..66 |
| `NumberShufflerComponent.NumberShuffler.constructor` | src/components/NumberShuffler.tsx:26-31 | starts with the full pool, nothing excluded, no number, idle and hidden, and valid |
| `NumberShufflerComponent.NumberShuffler.DrawNumber` | src/components/NumberShuffler.tsx:56-63 | no change at all when the pool is empty or a shuffle runs; otherwise shuffling, hidden, the snapshot taken, and pool, excluded and current number unchanged |
| `NumberShufflerComponent.NumberShuffler.ShuffleTick` | src/components/NumberShuffler.tsx:64-68 | a tick only changes the shown number, to the number at idx in the pool, which is a pool member |
| `NumberShufflerComponent.NumberShuffler.FinishDraw` | src/components/NumberShuffler.tsx:70-83 | the drawn number is the live pool's element at idx; exactly that position leaves the pool, the rest keep their order, the pool shrinks by one, the number is appended to excluded and shown, and the widget is idle and revealed; the invariant is kept |
| `NumberShufflerComponent.NumberShuffler.Reset` | src/components/NumberShuffler.tsx:86-92 | no change while shuffling; otherwise full pool, nothing excluded, no number, hidden |
| `NumberShufflerComponent.NumberShuffler.ExcludedDisplay` | src/components/NumberShuffler.tsx:139-147 | the display is a strictly increasing permutation of the excluded numbers, which themselves are not reordered |
| `NumberShufflerComponent.NumberShuffler.DrawDisabled` | src/components/NumberShuffler.tsx:120-123 | the draw button is disabled (and the click guard at line 57 returns) when the pool is empty or a shuffle runs; in a valid widget, exactly when shuffling or after 66 completed draws |
| `NumberShufflerComponent.NumberShuffler.AllDrawnShown` | src/components/NumberShuffler.tsx:130-134 | the all-drawn message shows when the pool is empty and no shuffle runs; in a valid widget, exactly when idle after 66 completed draws |
| `NumberShufflerComponent.AllDrawnShownIffDisplayComplete` | src/components/NumberShuffler.tsx:130-147 | the all-drawn message shows exactly when idle with the sorted display equal to 1..66 |
| `HackALotComponent.HackALot.constructor` | src/components/HackALot.tsx:18-24 | starts with the full pool, nothing excluded, no number, idle, hidden, counter 0, and valid |
| `HackALotComponent.HackALot.DrawNumber` | src/components/HackALot.tsx:26-32 | no change at all when the pool is empty or a shuffle runs; otherwise shuffling, hidden, the snapshot taken, everything else unchanged |
| `HackALotComponent.HackALot.ShuffleTick` | src/components/HackALot.tsx:34-39 | a tick shows the number at idx in the pool, a pool member, and bumps the animation counter by one; the pool is untouched |
| `HackALotComponent.HackALot.FinishDraw` | src/components/HackALot.tsx:41-54 | the snapshot is the live pool, so the drawn number is the live pool's element at idx and exactly that position leaves it; it is appended to excluded and shown; idle and revealed; invariant kept |
| `HackALotComponent.HackALot.Reset` | src/components/HackALot.tsx:57-63 | no change while shuffling; otherwise full pool, nothing excluded, no number, hidden |
| `HackALotComponent.HackALot.DrawDisabled` | src/components/HackALot.tsx:90-93 | the draw button is disabled (and the click guard at line 27 returns) when the pool is empty or a shuffle runs; in a valid widget, exactly when shuffling or after 66 completed draws |
| `HackALotComponent.HackALot.AllDrawnShown` | src/components/HackALot.tsx:100-104 | the all-drawn message shows when the pool is empty and no shuffle runs; in a valid widget, exactly when idle after 66 completed draws |
| `HackALotComponent.AllDrawnShownIffEverythingExcluded` | src/components/HackALot.tsx:100 | the all-drawn message shows exactly when idle and every number 1..66 is excluded |
| `HackALotComponent.NothingDrawnMeansFullPool` | src/components/HackALot.tsx:57-63 | a valid widget with nothing excluded holds the full pool in order, and shows a number only while shuffling |
| `ThemeSwitcher.StripQuotes` | src/components/ThemeSwitcher.tsx:13 | the result holds exactly the characters of the input other than the double quote |
| `ThemeSwitcher.StripQuotesAppend` | src/components/ThemeSwitcher.tsx:13 | stripping quotes distributes over concatenation |
| `ThemeSwitcher.StripQuotesIdentity` | src/components/ThemeSwitcher.tsx:13 | a string without quotes is left unchanged |
| `ThemeSwitcher.StripQuotesIdempotent` | src/components/ThemeSwitcher.tsx:13 | stripping quotes twice gives the same string as stripping once |
| `ThemeSwitcher.IndexOf` | src/components/ThemeSwitcher.tsx:18 | -1 exactly when the name is absent; otherwise the first index holding it |
| `ThemeSwitcher.NextThemeIndex` | src/components/ThemeSwitcher.tsx:15-24 | an index into the themes; 0 when nothing, an empty value or an unknown name is stored; (i + 1) mod 2 for the stripped name at index i |
| `ThemeSwitcher.NextTheme` | src/components/ThemeSwitcher.tsx:10-27 | always one of the themes (the constant `Themes`, "tech-noir" then "onyx-neon", as at line 10); "tech-noir" when nothing usable is stored; never the stored theme when that is a known one |
| `ThemeSwitcher.RotationAlternates` | src/components/ThemeSwitcher.tsx:21-26 | a stored theme is replaced by the other one, and storing the result brings the first back |
| `ThemeSwitcher.QuotedValueSameTheme` | src/components/ThemeSwitcher.tsx:11-13 | a value stored with surrounding quotes selects the same theme as the bare name |

## Left out

- Bubble generation in src/components/NumberShuffler.tsx and src/components/Bubble.tsx is left out. It only computes random floating-point sizes, positions and CSS strings for display.
- Timing is left out. The interval and timeout are the two steps `ShuffleTick` and `FinishDraw`. Both require a pending timeout, because only `DrawNumber` schedules them and the timeout clears the interval before it draws. That at most one timeout is pending is proved from the draw guard. Durations, the number of ticks and the delayed clearing of bubbles are not modelled.
- Randomness is left out. `Math.floor(Math.random() * length)` is the parameter `idx`, required to be a valid index into the captured pool. Any distribution over indices is allowed.
- React's scheduling is not modelled. Each handler or callback is one atomic transition. A handler reads the latest rendered state; the shuffle's tick and timeout callbacks read the pool they captured when the draw started (`drawSnapshot`), and apply their filter and append to the latest state. Batching of the setter calls within one handler is not represented.
- Rendering is not modelled: JSX, the Card/Button/Badge components, and the CSS classes keyed on the flags. The Hack-a-Lot excluded list is rendered from `excludedNumbers` as it is. Its draw order is the order `FinishDraw` appends in, so it has no separate member.
- `ExcludedDisplay` is a function. It cannot change `excludedNumbers`, which is how the model captures that the source sorts a copy.
- The ThemeSwitcher's read from browser storage and its call that applies the theme are left out. The stored value is the parameter of `NextTheme`.
- src/pages/SetupPage.tsx is not modelled. Its `handleNext` rejects input that parses to NaN or to a value of at most 0, then navigates; it is a thin layer over JavaScript's `parseInt`, a toast and the router.
- Routing and the pages src/App.tsx, src/pages/HomePage.tsx, src/pages/Index.tsx and src/pages/ShufflePage.tsx are not modelled. The page passes a maximum to Hack-a-Lot, but the component ignores it and always uses 1..66, as the model does.
- Reconfiguring the range and persisting exclusions across sessions are not modelled. Neither widget (nor any other component) has code for either, so the pool is always the fixed 1..66.
- JavaScript numbers are modelled as mathematical integers. Every value in the pool is a small integer, for which the two agree.
