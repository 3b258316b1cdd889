# CardDeck model

A Dafny model of the card deck of the ppoker poker backend: the `CardDeck`
class in `api/models.py`. A deck is a list of `(rank, suit)` pairs. Building
one (`__init__`, which calls `initialize`) stores the product of the ranks
1..13 and the suits Spade, Heart, Diamond, Club, rank-major and suit-minor.
`shuffle` reorders that list in place.

- `itertools.dfy` (module `Itertools`) models the two library pieces that
  `initialize` uses: `range(lo, hi)` as a sequence comprehension and
  `itertools.product` as a recursive function (outer loop over the first
  factor, inner loop over the second). The lemmas give the product's length, its element at
  each index, its membership test and its lack of repeats.
- `models.dfy` (module `Models`) holds the card types, the fresh deck
  (`FreshDeck`) and its properties, and the class `CardDeck`. The class has
  one field, `deck: seq<Card>`. `Initialize` assigns it wholesale. `Shuffle`
  swaps entries one pair at a time in the loop order of Python's
  `random.shuffle`, and each random draw is left open (`:|`). Its contract
  therefore holds for every outcome of the random source.

`IsFullDeck(d)` says that `d` is a reordering of the fresh deck. The lemmas
show that this holds exactly when every one of the 52 cards occurs in `d`
once and nothing else occurs. It is the invariant that shuffling keeps.

## Model

| member | source | states |
|---|---|---|
| `Itertools.RangeMembership` | api/models.py:30 | an integer is in `range(lo, hi)` if and only if `lo <= k < hi` |
| `Itertools.RowAt` | api/models.py:29-30 | one row of the product pairs a fixed `x` with every `y`, in order, one entry per `y` |
| `Itertools.ProductLength` | api/models.py:29-30 | `itertools.product(xs, ys)` has `len(xs) * len(ys)` entries |
| `Itertools.ProductSplit` | api/models.py:29-30 | the product over `xs` is the product over its first `q` elements followed by the product over the rest |
| `Itertools.ProductAt` | api/models.py:29-30 | the pair `(xs[q], ys[r])` sits at offset `r` after the `q` full rows that come before it, so the first factor is the outer loop |
| `Itertools.ProductMembership` | api/models.py:29-30 | a pair is in the product if and only if its first part is in `xs` and its second part is in `ys` |
| `Itertools.ProductDistinct` | api/models.py:29-30 | when neither factor repeats an element, the product repeats no pair |
| `Itertools.ProductMultiplicity` | api/models.py:29-30 | over factors without repeats, each pair of the product occurs exactly once and no other pair occurs |
| `Itertools.PermutationDistinct` | api/models.py:25-26 | reordering a list without repeats gives a list without repeats |
| `Models.FreshDeckSize` | api/models.py:28-30 | the list stored by `initialize` has exactly 52 cards |
| `Models.FreshDeckAt` | api/models.py:29-30 | rank-major, suit-minor order: index `4 * q + r` holds rank `q + 1` and the `r`-th of Spade, Heart, Diamond, Club (so index `i` holds rank `i / 4 + 1` in suit `i % 4`) |
| `Models.FreshDeckMembership` | api/models.py:29-30 | a card is in the fresh deck if and only if its rank lies in 1..13 (every suit is one of the four) |
| `Models.FreshDeckDistinct` | api/models.py:29-30 | the 52 entries of a fresh deck are pairwise distinct |
| `Models.FreshDeckMultiplicity` | api/models.py:29-30 | each of the 13 x 4 cards occurs exactly once in a fresh deck, and no other value occurs |
| `Models.FullDeckSize` | api/models.py:25-30 | a reordering of a fresh deck, such as a shuffled one, has 52 entries |
| `Models.FullDeckMultiplicity` | api/models.py:25-30 | a reordering of a fresh deck holds each of the 52 cards exactly once and nothing else |
| `Models.OncePerCardIsFull` | api/models.py:25-30 | conversely, a deck that holds each of the 52 cards exactly once and nothing else is a reordering of a fresh deck |
| `Models.FullDeckDistinct` | api/models.py:25-30 | a reordering of a fresh deck repeats no card |
| `Models.CardDeck.constructor` | api/models.py:22-23 | a new deck object holds the fresh deck |
| `Models.CardDeck.Initialize` | api/models.py:28-30 | the field becomes the fresh deck whatever it held before, so a second call changes nothing; only `deck` is modified |
| `Models.CardDeck.Shuffle` | api/models.py:25-26 | the new deck is a permutation of the old one (same multiset, same length), a reordering of a fresh deck stays one, and only `deck` is modified |

## Left out

- `Room` (api/models.py:9-16) is an ORM record with field declarations only and no behaviour.
- Models.CardDeck.Shuffle: the uniform distribution of `random.shuffle` is not modelled; each random draw is an unconstrained choice, so only the permutation property is stated.
- Suits are the strings `'Spade'`, `'Heart'`, `'Diamond'`, `'Club'` in the source; the model uses a four-valued datatype, so "the suit is one of the four names" holds by its type.
- The class attribute `deck = None` is never seen on an instance, because the constructor always calls `initialize`; the model has no `None` state.
- `Game`, `GameError` and `start_game`, which the tests in api/tests.py use, are not part of this model: they are not defined in any of the files it covers.
- api/serializers.py and api/factories.py are framework wiring and test fixtures with no logic of their own.
- Persistence, HTTP, authentication and concurrency belong to the web framework and are not modelled.
