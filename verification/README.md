# Skans market-state preparation, modelled in Dafny

This project models the deterministic part of the Skans risk engine's market
layer: the dependency resolver that turns a collection of positions into a
risk-factor schema, the schema's lookup of tensor indices by factor name, the
immutable market environment that pairs the schema with the simulated state
tensor and the time step, and the portfolio's lookup of trades by id.

- `Resolver.Resolve` walks the positions in order. An equity forward or option
  contributes its underlying id. An FX forward or option contributes its base
  currency code followed directly by its quote code, so ZAR/USD gives
  `"ZARUSD"`. Any other object fails with `UnsupportedInstrumentType`, which
  names that object's type. The collected ids form a set, which is sorted in
  Python string order (`StringOrder.Less`) and numbered from 0.
- The indices are also proved equal to a definition that does not sort:
  `RankIndices` gives each factor the number of factors that sort before it.
  Order-independence and duplicate-independence follow from that.
- `Environment.GetIndex` returns the stored index, or an error carrying the
  missing name and the known names.
- `Environment.MarketEnvironment` is an immutable value. Its only write
  operation, `AssignElement`, always fails and leaves every field unchanged.
- `Portfolios.TradeIndex` models the dict comprehension over the trades, where a
  later trade with the same id overwrites an earlier one (`Dict.FromPairs`).
  `GetTrade` looks a trade up by id. `Length` counts the trades.

Files: `wrappers.dfy` (result types), `dict.dfy` (dict comprehension),
`string_order.dfy` (string order and sorting a set), `enums.dfy`,
`instruments.dfy`, `portfolio.dfy`, `environment.dfy`, `resolver.dfy`.

## Model

| member | source | states |
|---|---|---|
| `Enums.Code` | src/skans/domain/types/enums.py:5-9 | every currency code is a fixed 3-character string |
| `Resolver.FactorId` | src/skans/market/resolver.py:22-38 | an equity instrument's factor is exactly its underlying id; an FX instrument's factor has length 6, with the base code as its first three characters and the quote code as its last three; an unsupported instrument fails with an error naming its type |
| `Resolver.FxFactorIdIsPair` | src/skans/market/resolver.py:29-32 | two FX instruments (forward or option, mixed freely) have the same factor id if and only if they have the same base and quote currencies |
| `Resolver.CollectFactors` | src/skans/market/resolver.py:20-38 | the loop succeeds iff every instrument is supported; on success the result is exactly the set of the positions' factor ids; on failure the error names the type of the first unsupported instrument in iteration order |
| `StringOrder.Sorted` | src/skans/market/resolver.py:40-43 | sorting a set yields a strictly increasing sequence in Python string order, holding exactly the set's elements, one entry per element |
| `Resolver.Enumerate` | src/skans/market/resolver.py:45-47 | the enumerated dict's keys are the listed names, and in a sorted duplicate-free list each name is mapped to its position |
| `Resolver.EnumerateSorted` | src/skans/market/resolver.py:43-47 | numbering a sorted list uses each index 0..N-1 exactly once, and index order matches string order |
| `Resolver.Resolve` | src/skans/market/resolver.py:15-49 | resolution succeeds iff every instrument is supported; otherwise the error names the first unsupported type and no schema is returned; the schema's keys are exactly the positions' factor ids; its indices are exactly 0..N-1 with no repeats; and for keys a and b, a < b iff index(a) < index(b) |
| `Resolver.EnumerateIsRank` | src/skans/market/resolver.py:40-47 | numbering the sorted listing of a set gives each element its rank: the number of elements that sort before it |
| `Resolver.ResolveIndexIsRank` | src/skans/market/resolver.py:40-47 | each resolved index equals the number of the positions' factor ids that sort before that id |
| `Resolver.SameFactorsSameSchema` | src/skans/market/resolver.py:40-47 | two position collections with the same set of factor ids resolve to the identical schema |
| `Resolver.ResolveDependsOnlyOnPositionSet` | src/skans/market/resolver.py:20-43 | two collections containing the same positions, in any order and with any repetition, either both fail or both resolve to the identical schema |
| `Resolver.ResolvePermutationInvariant` | src/skans/market/resolver.py:40-43 | any permutation of the positions gives the same kind of outcome, and on success the identical schema |
| `Resolver.ResolveIgnoresDuplicates` | src/skans/market/resolver.py:20-32 | appending positions that already occur leaves the result unchanged, including which unsupported type a failure names |
| `Resolver.SharedFactorAddsNothing` | src/skans/market/resolver.py:27-32 | a supported position whose factor id is already required adds no schema entry |
| `Resolver.ResolveEmpty` | src/skans/market/resolver.py:20-49 | an empty collection of positions resolves to the empty schema, not to an error |
| `Resolver.LookupResolvedFactor` | src/skans/market/environment.py:27-33 | in the schema resolved from supported positions, looking up a name succeeds iff it is one of the positions' factor ids; the index returned is that id's rank and lies below the number of factors; a failed lookup lists exactly the factor ids |
| `Resolver.ExampleEquityInstruments` | tests/market/test_resolver.py:17-45 | an MSFT equity option followed by an AAPL equity forward resolves to {AAPL: 0, MSFT: 1} |
| `Resolver.ExampleFxInstruments` | tests/market/test_resolver.py:48-75 | an FX forward and an FX option on ZAR/USD resolve to the single entry {ZARUSD: 0} |
| `Resolver.ExampleMixedInstruments` | tests/market/test_resolver.py:78-94 | an AAPL equity forward and a ZAR/USD FX forward resolve to {AAPL: 0, ZARUSD: 1} |
| `Resolver.ExampleUnsupportedInstrument` | tests/market/test_resolver.py:97-110 | a position holding an object of an unsupported type fails with an error naming that type |
| `Environment.GetIndex` | src/skans/market/environment.py:20-33 | lookup succeeds iff the name is a key, and then returns the index stored under it; otherwise the error carries that name and the full set of known names |
| `Environment.AssignElement` | src/skans/market/environment.py:51-56 | every element write to an environment's tensor fails as read-only, and afterwards the schema, tensor contents and dt are all unchanged |
| `Dict.FromPairs` | src/skans/domain/portfolio.py:39 | a dict comprehension's keys are exactly the keys of the pairs, and each key holds the value of the last pair carrying that key |
| `Dict.FromPairsLastWins` | src/skans/domain/portfolio.py:39 | when a pair is the last one with its key, the dict holds that pair's value under that key |
| `Portfolios.TradeIndex` | src/skans/domain/portfolio.py:37-39 | the index's keys are exactly the trades' ids, and each id maps to a trade of the portfolio that carries that id |
| `Portfolios.TradeIndexLastWins` | src/skans/domain/portfolio.py:39 | when several trades share an id, the index holds the last of them |
| `Portfolios.GetTrade` | src/skans/domain/portfolio.py:41-45 | lookup succeeds iff some trade carries the id; the trade found is in the portfolio, carries that id, and is the last trade carrying it; otherwise the error carries the id |
| `Portfolios.GetTradeFindsEachTrade` | src/skans/domain/portfolio.py:41-43 | when trade ids are distinct, every trade is found under its own id |
| `Portfolios.LengthCountsIndexedTrades` | src/skans/domain/portfolio.py:37-48 | the length (the number of trades) is at least the number of indexed ids, and the two are equal iff no trade id repeats |

## Left out

- The GBM path simulator (`src/skans/core/sde.py`) and the random source (`src/skans/core/rng.py`) are not modelled. They consist of floating-point `exp`/`sqrt` over numpy arrays and nondeterministic sampling.
- numpy's `writeable` flag is not modelled. The tensor is an immutable `seq<seq<seq<real>>>`, so the lock in `__post_init__` has no state to change. Locking therefore trivially preserves values and shape, and the one write operation always fails.
- Aliasing is not modelled. The source keeps the caller's own array and dict without copying them. `__post_init__` locks the caller's array itself, so a write through a still-writable base of a view changes `state_tensor`, and anyone can set `writeable` back to true. The caller also still holds the mutable `factor_indices` dict. The source's read-only guarantee is therefore shallow and shared. In the model the schema and tensor are values with no shared state, so the model's immutability is stronger than the source's.
- Construction of `MarketEnvironment` is the datatype constructor. Its fields are the given schema, tensor and dt by definition, and `AssignElement` shows that no write changes them.
- The exact wording of error messages is not modelled. This covers "Unsupported instrument type in resolver: …", "Risk factor '…' not present …" and "Trade '…' not found.". Each error is a datatype carrying the values the message names.
- The order of names in "Available factors" is not modelled. They are carried as a set, because a Dafny map has no key order.
- `Resolver.ExampleUnsupportedInstrument`: the type name is the string the model carries. Python's rendering of `type(inst)` as `<class '…'>` is not modelled.
- `Portfolios.Length` has no contract of its own. Its body is `|p.trades|`, as `__len__` returns `len(self.trades)`. `Portfolios.LengthCountsIndexedTrades` relates it to the size of the trade index.
- `get_index` cannot change the schema, because the schema is an immutable value and the lookup is a function of it. No lemma states this separately.
- `cached_property` is not modelled. The trade index is a pure function of the trades, so repeated lookups agree by construction. Object identity (`is`) and Python's frozen-attribute, `slots` and hash mechanics have no counterpart.
- Instrument fields that play no part in resolution (strike, maturity date, option type, equity currency) are kept as plain fields. `src/skans/domain/types/aliases.py` is not part of this model; its `Price` and `Quantity` are taken as `real`.
- Strings are Dafny strings of Unicode scalar values. Python strings can also hold lone surrogates, and those are not modelled. Python `float` values (`dt` and the tensor entries) are taken as `real`, so rounding and NaN are not modelled.
- The `Side` enumeration is not modelled because nothing in the core uses it.
- `NettingSet` is a plain record with no behaviour.
