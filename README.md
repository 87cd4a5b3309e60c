# Game of Life gRPC server — a Dafny model

The server keeps a process-wide map from session id to a game: a width, a
height and an initial bitmap. `RequestGame` checks the requested dimensions,
draws a random bitmap and stores it under a new id. `SubscribeToGame` looks
the id up and then, on every timer tick, writes the current generation number
and bitmap to the stream and advances its own copy of the grid by one
generation of Conway's Life.

The grids are row-major `Uint8Array` buffers of `width * height` cells. The
Life step uses rule B3/S23 on a bounded grid without wraparound.

The model has six modules:

- `Wrappers`: `Option` and `Result`.
- `Uint8`: the byte type, 0/1 buffers and zero-filled buffers.
- `LifeEngine`: the Life step on sequences as functions, and
  `computeNextGeneration` as a method over arrays with the source's four nested
  loops.
- `LifeProperties`: the promises of the step. The neighbour count is the
  number of live in-grid neighbours, positions off the grid contribute
  nothing, corner, edge and interior cells see at most 3, 5 and 8 positions
  (exactly so on a grid at least 2 by 2), and the
  lemmas cover the rule, the all-dead fixed point and locality.
- `GenerateGrid`: both grid generators, specified by one bitmap function of
  the random draws.
- `GameServer`:
  - the session map and the two RPC handlers, as a `GameService` class;
  - each subscriber's loop, as a `Subscription` class whose `Tick` is the
    interval callback and whose `Cancel` is the `cancelled` handler;
  - lemmas about the k-fold step `Evolve` and the frames a stream carries.

Random draws are an input. `draws[i]` is the value `Math.random()` returns for
cell `i`, and the session id normally made by `randomUUID()` is a parameter of
`RequestGame`.

The neighbour count adds the raw byte values of the in-grid neighbours, and
a cell counts as alive only when it holds exactly 1, as in the source. The
lemmas that read the count as a number of live cells require a 0/1 grid.

The source has no shared per-session runner, no session listing, no viewport
extraction and no `CreateSession` call. The model follows the source:
- every subscription restarts at generation 0 from the stored bitmap;
- the stored bitmap is never advanced.

## Model

| member | source | states |
|---|---|---|
| LifeEngine.Index | server/src/lifeEngine.ts:27 | the row-major index `y * width + x` of an on-grid position lies inside the `width * height` buffer |
| LifeEngine.SumStep | server/src/lifeEngine.ts:19-29 | visiting the window position (dx, dy) adds nothing at the centre, the cell's value when (x + dx, y + dy) is on the grid, and 0 when it is off the grid |
| LifeEngine.CountNeighbours | server/src/lifeEngine.ts:17-31 | the accumulated `neighbors` equals `NeighbourSum`, the sum over the eight window offsets of the in-grid values |
| LifeEngine.NextGeneration | server/src/lifeEngine.ts:12-39 | the next generation has exactly `width * height` cells and every cell is 0 or 1 |
| LifeEngine.ComputeNextGeneration | server/src/lifeEngine.ts:7-44 | returns a freshly allocated buffer equal to `NextGeneration` of the input; the input buffer is not in its modifies clause, so it is unchanged |
| LifeProperties.PartialSumCountsLive | server/src/lifeEngine.ts:19-31 | on a 0/1 grid the running sum after the first k offsets is the number of live in-grid positions among them |
| LifeProperties.NeighbourSumIsLiveCount | server/src/lifeEngine.ts:19-31 | on a 0/1 grid the neighbour count of (x, y) is the number of live cells at the in-grid positions (x + dx, y + dy), with dx, dy in {-1, 0, 1} and (dx, dy) not (0, 0) |
| LifeProperties.NeighbourhoodSize | server/src/lifeEngine.ts:26 | the number of counted positions is the number of in-grid columns times the number of in-grid rows of the window, less the cell itself |
| LifeProperties.NeighbourhoodBounds | server/src/lifeEngine.ts:26 | at most 8 counted positions; a corner cell has at most 3, an edge cell at most 5, an interior cell exactly 8; on a grid at least 2 by 2, exactly 3 for a corner and 5 for an edge cell |
| LifeProperties.NeighbourSumBounded | server/src/lifeEngine.ts:19-31 | on a 0/1 grid the neighbour count is at most the number of counted positions, hence at most 8 |
| LifeProperties.NextGenerationAt | server/src/lifeEngine.ts:16-39 | output cell `y * width + x` is the B3/S23 outcome for (x, y), where alive means the cell holds 1 |
| LifeProperties.NextGenerationRule | server/src/lifeEngine.ts:33-39 | on a 0/1 grid a cell is 1 next iff it is 1 with 2 or 3 live neighbours or 0 with exactly 3, and it is 0 next exactly otherwise |
| LifeProperties.RuleConsequences | server/src/lifeEngine.ts:33-39 | a cell with at most 1 live neighbour is dead next, one with exactly 3 is alive next, one with 4 or more is dead next |
| LifeProperties.AllDeadStaysDead | server/src/lifeEngine.ts:12-39 | an all-dead grid maps to an all-dead grid |
| LifeProperties.Locality | server/src/lifeEngine.ts:16-39 | two grids that agree on the bounded 3x3 window of (x, y) give the same output cell `y * width + x` |
| GenerateGrid.InitialBitmap | server/src/generateGrid.ts:33-35 | the bitmap for `total` draws has exactly `total` cells, each 0 or 1 |
| GenerateGrid.GenerateInitialBitmap | server/src/generateGrid.ts:28-38 | returns a fresh buffer whose cell i is 1 when draw i is below the ratio and 0 otherwise; the ratio defaults to 0.3 |
| GenerateGrid.GenerateInitialGrid | server/src/generateGrid.ts:11-26 | returns strictly increasing indices in `[0, width * height)`, at most `width * height` of them, containing i iff draw i is below the ratio, i.e. iff the bitmap drawn from the same draws has a 1 at i; an absent ratio means 0.3 |
| GenerateGrid.AliveIndicesUnique | server/src/generateGrid.ts:16-23 | the draws and the ratio determine the index list: any two lists meeting that description are equal |
| GenerateGrid.BitmapExtremeRatios | server/src/generateGrid.ts:35 | with draws in [0, 1), a ratio of 0 or less gives an all-dead bitmap and a ratio of 1 or more an all-alive one |
| GenerateGrid.AliveIndicesExtremeRatios | server/src/generateGrid.ts:20 | with draws in [0, 1), a ratio of 0 or less lists no cell and a ratio of 1 or more lists every index in order |
| GameServer.Evolve | server/index.ts:81 | the k-fold step of a `width * height` grid keeps its length |
| GameServer.EvolveCompose | server/index.ts:81-82 | stepping a generations and then b more is stepping a + b generations |
| GameServer.EvolveBinary | server/index.ts:81 | after at least one step, or from a 0/1 start, every cell is 0 or 1 |
| GameServer.EvolveAllDead | server/index.ts:73-83 | an all-dead stored bitmap is all dead in every generation a stream carries |
| GameServer.StreamsAgree | server/index.ts:70-83 | two streams of the same session agree frame by frame: the shorter is a prefix of the longer |
| GameServer.StreamShape | server/index.ts:70-83 | along a stream the generations strictly increase, every frame carries the session's width and height and a `width * height` bitmap, and every frame after the first is a 0/1 grid |
| GameServer.Subscription.constructor | server/index.ts:70-71 | a subscription starts from the stored session's width, height and bitmap at generation 0, with nothing written |
| GameServer.Subscription.Tick | server/index.ts:73-83 | a live tick writes the frame (generation, width, height, current bitmap), then replaces the bitmap by a fresh next generation and adds 1 to the generation; after cancellation it does nothing; in both cases the k-th frame is k and the k-fold step of the stored bitmap |
| GameServer.Subscription.Cancel | server/index.ts:85-88 | after cancellation the subscription is cancelled and keeps its frames, bitmap and generation |
| GameServer.GameService.constructor | server/index.ts:21-28 | the service starts with an empty session map |
| GameServer.GameService.RequestGame | server/index.ts:31-54 | a width or height of 0 or less yields INVALID_ARGUMENT "Invalid dimensions." and leaves the map unchanged; otherwise the map gains the session under the given id, with the requested width and height and a fresh bitmap drawn with ratio 0.25, all other entries are untouched, there is one more entry when the id was new, and the response echoes height, width and the id |
| GameServer.GameService.SubscribeToGame | server/index.ts:56-71 | an unknown id destroys the stream with "Invalid session ID." and starts nothing; a known id starts a fresh subscription on the stored width, height and bitmap (not the request's dimensions) at generation 0; it has no modifies clause, so the map and the stored bitmaps are unchanged |
| GameServer.TickTimes | server/index.ts:73-83 | n ticks of a live subscription advance its generation by n and keep its stream in step with the stored bitmap |
| GameServer.TwoSubscribers | server/index.ts:31-89 | two requests with a zero dimension are rejected; after a 5x5 game is created, a first subscriber cancelled after `ticks` frames writes nothing more; a later second subscriber's first `ticks` frames are the first subscriber's frames, and its frame k is generation k with the k-fold step of the stored bitmap, which no tick changed |

## Left out

- gRPC and proto loading, server construction and binding (server/index.ts:1-18, 91-104) are transport plumbing. The request and response messages are plain datatypes, and a stream is the sequence of frames it has written.
- Console logging is left out (server/index.ts:50-52, 57-58, 68, 86).
- The 500 ms `setInterval` timer and the `cancelled` event become calls to `Subscription.Tick` and `Subscription.Cancel`. Scheduling and concurrency between subscriptions are not modelled.
- `Math.random()` is replaced by the input sequence `draws`. Its floating-point values and the `<` comparison with the ratio are modelled as real numbers.
- `randomUUID()` becomes the `sessionId` parameter of `RequestGame`. No freshness is required: a repeated id overwrites its entry, as `Map.set` does, and `|sessions|` grows only for a new id.
- `Buffer.from(bitmap)` becomes a copy of the array's contents into the frame's `seq`.
- The generators take `nat` dimensions. Negative or fractional JavaScript numbers passed to them directly are not modelled. `RequestGame` passes them only positive values; that these are integers rests on the declared message field types, which are not part of this model.
- The generation counter is an unbounded `nat`. JavaScript number precision limits are not modelled.
- The neighbour loops are a separate method, `LifeEngine.CountNeighbours`. The method is called once per cell inside the outer two loops, which compute the same values in the same order.
- The 5x5 blinker (a horizontal line of three alive cells becomes vertical and back) is not computed cell by cell. `LifeProperties.NextGenerationRule` gives the outcome of every cell in terms of its live neighbours.
- client/index.ts (prompting, stream handlers, console rendering) and client/test.ts (a rendering demo) are user interface and I/O and are not part of this model.
