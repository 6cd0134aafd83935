# Geocoin Carrier: grid registry and coin economy

This project models the two pieces of sequential logic in the Geocoin Carrier
map game and proves properties of them in Dafny.

- **Grid** (`board.dfy`) models the `Board` of `src/board.ts`.
  - A `Cell` is an object with two integer indices.
  - The board keeps the registry `knownCells`, a map from index pair to the
    canonical cell for that pair.
  - Interning (`GetCanonicalCell`) adds a cell the first time its pair is
    requested. Every later request returns that first object.
  - `GetCellForPoint` interns the cell at already-floored grid indices.
  - `GetCellsNearPoint` walks the square window of offsets `[-r, r) × [-r, r)`
    around the origin cell, with `r` the visibility radius. It has the
    source's two nested loops, row offset outer. It returns the canonical cell
    for each offset.
  - The window is specified by the recursive functions `Row`, `Rows` and
    `Window`. Lemmas give its length, the cell at each index, membership and
    the absence of duplicates.
  - `IsCellNextTo` is the one-line neighbour test, kept exactly as the source
    writes it. `IsAdjacent` is a reference definition of grid adjacency;
    `NextToAcrossColumns`, `NotAdjacentAcrossColumns` and `IsAdjacent`'s
    contract relate the two.
- **Geocoin** (`main.dfy`) models the coin economy of `src/main.ts`.
  - Each cache popup (`Popup`) owns a coin counter and the disabled flags of
    its Collect and Deposit buttons.
  - A `Session` holds the player's coin count and the memo table
    `cachePopups`, which maps each cache position to its popup.
  - The collect and deposit click listeners are the methods `Collect` and
    `Deposit`. They are specified by the pure functions `Collected` and
    `Deposited` on a pair of counters.
  - A click as the page delivers it is `ClickCollect` or `ClickDeposit`. A
    click on a disabled button never reaches its listener, so these methods
    drop it.
  - The session invariant (`Valid`) includes a ghost ledger of every cache's
    coin count. With it, the methods prove that every click keeps the total
    number of coins in the session, and that opening a new cache adds exactly
    that cache's coins.
  - `CachePopup` is the memoised popup constructor. A cache that already has
    a popup gets that popup back. Otherwise exactly one new entry is added.

## Model

| member | source | states |
|---|---|---|
| Grid.Cell.constructor | src/board.ts:3-6 | a cell carries exactly the two indices it is built with |
| Grid.Board.constructor | src/board.ts:14-18 | the new board stores the tile width and the visibility radius, and its registry is empty |
| Grid.Board.GetCanonicalCell | src/board.ts:20-29 | afterwards the cell's pair is registered, and the result is the stored cell with the same indices. If the pair was already present, the registry is unchanged and the first stored cell is returned. Otherwise exactly that one entry is added and the argument itself is returned. Existing entries never change, and no other key is added |
| Grid.Board.CanonicalCellTwice | src/board.ts:22-28 | two requests with equal indices return the identical stored object, even when different cell objects are passed |
| Grid.Board.GetCellForPoint | src/board.ts:31-37 | the result is the canonical cell registered for the given indices and carries them. The registry gains at most that key, and existing entries are kept |
| Grid.Board.GetCellsNearPoint | src/board.ts:51-71 | the result has one cell per window position, in window order. Each cell is the canonical registry entry for its key. The registry afterwards holds exactly the old keys, the origin and the window, and existing entries are kept |
| Grid.Board.PushRow | src/board.ts:60-67 | one pass of the inner loop keeps the cells pushed so far as a prefix and appends the canonical cells of one row, in ascending column order. It registers exactly that row's keys and keeps every existing entry |
| Grid.RowShape | src/board.ts:60-64 | a row pass holds hi + r keys, and the k-th is at column offset k - r |
| Grid.RowsShape | src/board.ts:55-68 | the first hi + r row passes hold (hi + r) * 2r keys. Key n is at row offset n / 2r - r and column offset n % 2r - r |
| Grid.WindowLength | src/board.ts:55-68 | the window holds exactly (2r) * (2r) cells, and none when r <= 0 |
| Grid.WindowAt | src/board.ts:55-66 | window index n is at offset (n / 2r - r, n % 2r - r): row offset outer and column offset inner, both ascending |
| Grid.WindowMembership | src/board.ts:55-65 | a key is in the window if and only if both of its offsets from the origin lie in [-r, r) |
| Grid.WindowDistinct | src/board.ts:55-66 | no key is enumerated twice |
| Grid.IsCellNextTo | src/board.ts:73-75 | holds if and only if the row indices differ by exactly one or the column indices differ by exactly one. Such cells are never the same grid cell |
| Grid.NextToSymmetric | src/board.ts:73-75 | the relation is symmetric |
| Grid.NextToAcrossColumns | src/board.ts:73-75 | any two cells one row apart satisfy IsCellNextTo, whatever their column indices |
| Grid.NotAdjacentAcrossColumns | src/board.ts:73-75 | cells one row apart and more than one column apart are not adjacent, so IsCellNextTo is strictly weaker than adjacency |
| Grid.IsAdjacent | src/board.ts:73-75 | grid adjacency is defined as membership in the eight surrounding cells, and every adjacent pair also satisfies IsCellNextTo |
| Geocoin.Collected | src/main.ts:105-114 | collect keeps the sum of the two counters and keeps them non-negative. It changes nothing if and only if the cache holds no coin. Otherwise it moves exactly one coin from the cache to the player |
| Geocoin.Deposited | src/main.ts:116-125 | deposit keeps the sum and non-negativity. It changes nothing if and only if the player holds no coin. Otherwise it moves exactly one coin from the player to the cache |
| Geocoin.DepositUndoesCollect | src/main.ts:105-125 | a successful collect followed by a deposit restores both counters |
| Geocoin.CollectUndoesDeposit | src/main.ts:105-125 | a successful deposit followed by a collect restores both counters |
| Geocoin.ReplayConserves | src/main.ts:105-125 | any series of clicks on a popup keeps the sum of the counters. Starting from non-negative counters, neither ever goes negative |
| Geocoin.SumOfUpdate | src/main.ts:109-110 | changing one cache's count in the ledger changes the summed coins by exactly the difference |
| Geocoin.SumOfAppend | src/main.ts:127 | memoising a new cache adds its coin count to the summed coins |
| Geocoin.Popup.constructor | src/main.ts:89-101 | a new popup holds the initial coin count, and both buttons start enabled |
| Geocoin.Session.constructor | src/main.ts:21-23 | a session starts with 5 player coins and no popups. The invariant holds, and the total coin count is 5 |
| Geocoin.Session.UpdateCachePopup | src/main.ts:131-143 | redrawing leaves the coin count alone. The collect button is disabled exactly when the cache is empty, and the deposit button exactly when the player has no coin |
| Geocoin.Session.CachePopup | src/main.ts:83-129 | on a hit, the memoised popup is returned and nothing changes. On a miss, a fresh popup with the given coins, drawn from the current counters, is added under that key and nowhere else. The total coin count grows by exactly the new cache's coins. The invariant is kept |
| Geocoin.Session.Memoise | src/main.ts:127 | the popup is added under its key. The invariant and the up-to-date buttons of all popups are kept |
| Geocoin.Session.Collect | src/main.ts:105-114 | the clicked popup's coins and the player's coins change exactly as Collected says. A refused click changes nothing; a successful one redraws the clicked popup. The invariant is kept, and the total coin count is unchanged |
| Geocoin.Session.Deposit | src/main.ts:116-125 | the clicked popup's coins and the player's coins change exactly as Deposited says. A refused click changes nothing; a successful one redraws the clicked popup. The invariant is kept, and the total coin count is unchanged |
| Geocoin.Session.RefreshDepositButtons | src/main.ts:141-142 | afterwards every popup's buttons show the current counters, and no popup's coin count or collect button changes |
| Geocoin.Session.CollectAndRefresh | src/main.ts:105-114 | a collect as Collected says, after which every popup's buttons show the current counters. No other cache's coin count changes, and the total coin count is unchanged |
| Geocoin.Session.DepositAndRefresh | src/main.ts:116-125 | a deposit as Deposited says, after which every popup's buttons show the current counters. No other cache's coin count changes, and the total coin count is unchanged |
| Geocoin.Session.ClickCollect | src/main.ts:105-114 | a click on the collect button changes the counters exactly as Collected says. When the button is disabled the popup is untouched; otherwise the popup is redrawn from the new counters. The invariant is kept, and the total coin count is unchanged |
| Geocoin.Session.ClickDeposit | src/main.ts:116-125 | a click on a disabled deposit button changes nothing. Otherwise the counters change exactly as Deposited says: when the player holds no coin the popup is untouched, and when the deposit succeeds the popup is redrawn from the new counters. The invariant is kept, and the total coin count is unchanged |
| Geocoin.StaleDepositExample | src/main.ts:141-142 | with the listeners as written, for every coin count c of a cache opened while the player had no coin: after the player collects a coin elsewhere, that cache's deposit button is still disabled and a deposit click on it is dropped. When c is 0 its collect button is disabled as well |
| Geocoin.RefreshedDepositExample | src/main.ts:141-142 | with every deposit button redrawn after a click, the same clicks move the player's coin into that cache |

## Left out

- `getCellBounds` (src/board.ts:39-49) is not modelled. It is floating-point arithmetic on Leaflet types. Its declared `number` type at line 44 does not match the `LatLng` it is given.
- Grid.Board.GetCellForPoint takes the indices `Math.floor(lat / tileWidth)` and `Math.floor(lng / tileWidth)` as already computed, because that arithmetic is floating point. `tileWidth` is only stored.
- The visibility radius is an integer. A fractional radius would change the loop bounds, and that is not modelled.
- The random generator `setRandom` and `luck` (src/main.ts:28-34) are left out, because luck.ts is not part of this model. A new cache's coin count is the parameter `initialCoins`, any natural number.
- The cache spawning loop and `createCache` (src/main.ts:70-81) are left out. They work on floating-point positions and Leaflet markers.
- Leaflet map and tile setup, markers, tooltips, DOM creation, `innerHTML` text and the `coins-changed` event (src/main.ts:9-68, 131-138) are left out as user-interface glue. The popup keeps only its coin count and the two disabled flags.
- `cachePopups` is declared with `LatLng` keys, but the value it is actually keyed by depends on how Leaflet calls the popup content function (src/main.ts:79). The model leaves the key type abstract: it may be any type with equality, and keys are equal exactly when that type's equality says so.
- JavaScript numbers are modelled as unbounded integers. The counts stay far below 2^53, where floating-point integers stop being exact.
- Privacy (`private`, `readonly`) is not modelled. The readonly numbers `tileWidth` and `tileVisibilityRadius` are Dafny `const` fields. `knownCells` is readonly only as a reference, and the map it refers to changes. The model holds the map as a value, so that field is a `var`.
- Per-cell overrides, a per-cell deterministic generator and a reset action are not in this code and are not modelled.
- `GetCellsNearPoint` returns the window as a sequence in enumeration order, like the code's array.

## Findings

| source | as written | input that shows it | evidently intended | confidence | as-written member | corrected member |
|---|---|---|---|---|---|---|
| src/main.ts:141-142 | a click redraws only the clicked popup, so the deposit buttons of other memoised popups keep the state they had when last drawn | deposit all 5 coins into cache 0, open cache 1 (any coin count, say 7), collect one coin from cache 0: cache 1's deposit button is still disabled while the player holds 1 coin, and a deposit click on it is dropped. If cache 1 opened with 0 coins, both of its buttons stay disabled | every popup's deposit button is disabled exactly when the player holds no coin | medium, not executed | Geocoin.StaleDepositExample | Geocoin.Session.CollectAndRefresh |
