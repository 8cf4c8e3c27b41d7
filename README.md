# Card Counter: deck bookkeeping

This project models the state logic of the Card Counter page, a single-page
app for tracking which cards of one 52-card deck have been played.

- `card_types.dfy` (module `CardTypes`) holds the value types of
  `src/types/card.ts`: `Suit`, `Rank`, `Color` and `Card`. A card's identity
  is its suit and rank (`Card.Is`).
- `card_deck.dfy` (module `CardDeck`) models `src/utils/cardDeck.ts`.
  `GenerateDeck` is the nested suits-outer, ranks-inner loop that pushes the
  52 unplayed cards. It is proved equal to the reference deck
  `StandardDeck()`, which is built from one row per suit (`DeckOf`,
  `SuitRow`). The lemmas state the deck's shape, its colours, its played
  flags, and that every identity occurs exactly once. `SuitSymbol` is the
  suit-to-symbol lookup.
- `index_page.dfy` (module `IndexPage`) models the state of
  `src/pages/Index.tsx`.
  - The class `Session` has the two pieces of page state, `deck` and
    `remainingCards`. Its constructor is the state after the mount effect
    has installed `generateDeck()`. `Toggle` and `Reset` stand for
    `toggleCardPlayed` and `resetDeck`.
  - The `setDeck` updater of `toggleCardPlayed` is the state-free method
    `ToggleUpdate`. It is a loop over the deck that flips each matching card
    and adjusts the counter once per matching card, as the map callback does.
  - `Toggled` and `CounterDelta` are the updater's results as functions of
    the deck. `Unplayed` is the unplayed-card count (the same filter as in
    `src/components/SuitSection.tsx`).
  - `SuitGroup` is the suit filter behind the four suit sections.
  - `Session.Valid()` is the invariant of the mounted page. The deck is the
    generated deck up to played flags, and `remainingCards` equals the number
    of unplayed cards, so it lies in 0..52.

Two points about the code that the model states explicitly:

- In the code the deck is empty until the mount effect runs, while the
  counter already reads 52 (`src/pages/Index.tsx:20-28`). The constructor
  models the state after that effect. Before it, no card is rendered, so
  only `resetDeck` can fire, and `Session.Reset` has no precondition: it
  installs the same state as the constructor.
- The code moves the counter by one for each card whose suit and rank match
  (`CounterDelta`, `src/pages/Index.tsx:36`). On a deck that satisfies
  `Session.Valid()` that is exactly one card (`CounterDeltaUnique`,
  `ToggleGeneratedDeck`).

## Model

| member | source | states |
|---|---|---|
| `CardDeck.GenerateDeck` | src/utils/cardDeck.ts:4-23 | the loop over the suits returns exactly the reference deck `StandardDeck()`, one row of 13 unplayed cards per suit, suits in order |
| `CardDeck.PushSuitCards` | src/utils/cardDeck.ts:9-19 | the per-suit callback appends to the deck one unplayed card of the suit's colour for each rank, ranks in order, and leaves the earlier cards as they were |
| `CardDeck.SuitColorRed` | src/utils/cardDeck.ts:10 | a suit's colour is red if and only if the suit is hearts or diamonds, and black if and only if it is clubs or spades |
| `CardDeck.StandardDeckShape` | src/utils/cardDeck.ts:5-20 | the generated deck has 52 cards, and the card at 13*i + j has suit `Suits[i]` (hearts, diamonds, clubs, spades), rank `Ranks[j]` (A, 2..10, J, Q, K), the colour of its suit, and is unplayed |
| `CardDeck.StandardDeckCards` | src/utils/cardDeck.ts:10-17 | every generated card is unplayed, and it is red if and only if its suit is hearts or diamonds |
| `CardDeck.StandardDeckExactlyOnce` | src/utils/cardDeck.ts:9-20 | every (suit, rank) pair occurs in the generated deck at exactly one index, `Position(suit, rank)` |
| `CardDeck.StandardDeckRows` | src/utils/cardDeck.ts:9-20 | the generated deck is the hearts row followed by the diamonds, clubs and spades rows |
| `CardDeck.DeckOfAt` | src/utils/cardDeck.ts:9-20 | for any list of suits over 13 ranks, the loops yield 13 cards per suit, and card 13*i + j is the i-th suit's card of the j-th rank |
| `CardDeck.SuitRowAt` | src/utils/cardDeck.ts:12-19 | the inner loop yields one card per rank, and its j-th card is the suit's unplayed card of the j-th rank |
| `CardDeck.SuitIndex` | src/utils/cardDeck.ts:5 | every suit has a place in the suit order |
| `CardDeck.RankIndex` | src/utils/cardDeck.ts:6 | every rank has a place in the rank order |
| `CardDeck.DeckOfIdentity` | src/utils/cardDeck.ts:9-20 | for suit and rank lists without repeats, the card at index k has the i-th suit and the j-th rank if and only if k is 13*i + j |
| `CardDeck.SuitSymbol` | src/utils/cardDeck.ts:25-31 | `getSuitSymbol` returns a one-character symbol for every suit |
| `CardDeck.SuitSymbolDistinct` | src/utils/cardDeck.ts:25-31 | `getSuitSymbol` gives every suit a one-character symbol, and no two suits share a symbol |
| `IndexPage.ToggleCard` | src/pages/Index.tsx:33-48 | the map callback keeps a card's suit, rank and colour, and changes its played flag if and only if both its suit and its rank match |
| `IndexPage.CounterDelta` | src/pages/Index.tsx:36 | the counter adjustment of one toggle is at most the number of cards in size, in either direction |
| `IndexPage.Toggled` | src/pages/Index.tsx:32-49 | the mapped deck has the same length and order, and each card is the map callback's result for the card at that place |
| `IndexPage.ToggleFlipsOnlyMatches` | src/pages/Index.tsx:32-48 | toggling changes only played flags, and a card's flag changes if and only if its suit and rank both match |
| `IndexPage.ToggleTwice` | src/pages/Index.tsx:30-51 | toggling the same identity twice gives back the original deck |
| `IndexPage.ToggleTwiceCounter` | src/pages/Index.tsx:33-36 | the counter change of a second toggle is the negation of the first toggle's change |
| `IndexPage.ToggleKeepsCount` | src/pages/Index.tsx:33-36 | after a toggle, the number of unplayed cards has changed by exactly the counter adjustment |
| `IndexPage.ToggleAbsent` | src/pages/Index.tsx:30-49 | toggling an identity that no card has, including on the empty pre-mount deck, leaves the deck and the counter unchanged |
| `IndexPage.CounterDeltaUnique` | src/pages/Index.tsx:33-36 | when exactly one card matches, the counter goes down by one if that card becomes played and up by one if it is returned |
| `IndexPage.ToggleGeneratedDeck` | src/pages/Index.tsx:30-51 | on a generated deck, a toggle keeps suits, ranks and colours, flips exactly the card at `Position(suit, rank)`, and changes the counter by exactly one in the direction that keeps it equal to the number of unplayed cards |
| `IndexPage.ToggleUpdate` | src/pages/Index.tsx:31-50 | the `setDeck` updater returns the toggled deck and the counter adjusted once for each matching card |
| `IndexPage.Unplayed` | src/components/SuitSection.tsx:17 | the number of unplayed cards never exceeds the number of cards |
| `IndexPage.UnplayedAll` | src/components/SuitSection.tsx:17 | the unplayed count equals the deck's length if and only if no card is played |
| `IndexPage.SuitGroup` | src/pages/Index.tsx:65-68 | a suit filter is no longer than the deck |
| `IndexPage.SuitGroupMembers` | src/pages/Index.tsx:65-68 | a card is in a suit's group if and only if it is in the deck and has that suit |
| `IndexPage.SuitGroupConcat` | src/pages/Index.tsx:65-68 | filtering keeps relative order: the group of a concatenation is the concatenation of the groups |
| `IndexPage.SuitGroupsPartition` | src/pages/Index.tsx:65-68 | together the four suit groups hold exactly the cards of the deck, each as many times as the deck does |
| `IndexPage.SuitGroupsSizes` | src/pages/Index.tsx:65-68 | the sizes of the four suit groups add up to the size of the deck |
| `IndexPage.UnplayedBySuit` | src/components/SuitSection.tsx:17 | the unplayed counts of the four suit sections add up to the unplayed count of the whole deck |
| `IndexPage.StandardSuitGroup` | src/pages/Index.tsx:65-68 | on a generated deck, each suit's group is exactly that suit's row |
| `IndexPage.StandardSuitGroupCards` | src/pages/Index.tsx:65-68 | on a generated deck, each suit's group has 13 cards, the suit's cards in the order A, 2..10, J, Q, K |
| `IndexPage.Session.Valid` | src/pages/Index.tsx:20-28 | in a mounted state the deck has 52 cards and the counter lies in 0..52 |
| `IndexPage.Session.constructor` | src/pages/Index.tsx:20-28 | after mounting, the deck is `generateDeck()`, the counter is 52, and the invariant holds |
| `IndexPage.Session.Toggle` | src/pages/Index.tsx:30-51 | the deck becomes the toggled deck and the counter moves once for each matching card. The invariant is preserved. In a mounted state the card at `Position(suit, rank)` flips, and the counter drops by one when the card becomes played and rises by one when it is returned |
| `IndexPage.Session.Reset` | src/pages/Index.tsx:53-62 | the deck becomes `generateDeck()` with all cards unplayed, the counter becomes 52, and the invariant holds |
| `IndexPage.ToggleTwiceRestores` | src/pages/Index.tsx:30-51 | toggling the same card twice restores both the deck and the counter |

## Left out

- Toast notifications in the toggle and reset handlers (`src/pages/Index.tsx:39-44`, `56-61`): they only report what happened and do not change state.
- JSX rendering, framer-motion animation, the `Progress` widget, `useIsMobile` and the "Stats" button, which has no handler: these are presentation only.
- `completionPercentage` (`src/pages/Index.tsx:71`): it is floating-point display arithmetic.
- React's `useState`/`useEffect` scheduling and StrictMode. The model applies each handler's update exactly once. A development-mode second run of the `setDeck` updater, with its nested counter update, is not modelled.
- IndexPage.Session.Toggle: it takes the identity (suit, rank) rather than the clicked card object, because the handler reads only those two fields.
- The pre-mount state, with an empty deck and the counter at 52: the constructor starts after mounting. Before mounting no card is rendered (`src/components/SuitSection.tsx:56-60`), so only `resetDeck` can fire, and `Session.Reset` reaches the mounted state from any state. `ToggleAbsent` on the empty deck is only a defensive statement.
- `src/components/PlayingCard.tsx`, `src/components/SuitSection.tsx` and `src/main.tsx`: rendering and bootstrapping. Only the unplayed count of `SuitSection.tsx` is reused, as `Unplayed`.
- `remainingCards` is an unbounded integer. A JavaScript number cannot overflow at these magnitudes, so nothing is lost.
