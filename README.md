# LRU cache, Game of Life and dungeon carver in Dafny

This project models three small programs and proves properties of the models.

- **A generic LRU cache (Go).** A map from keys to entry objects is paired with a doubly-linked recency list. The list runs from `head`, the most recently used entry, to `tail`, the least recently used.
  - `LruSpec` is the cache as its caller sees it: a capacity, the recency order of the keys (head first) and the stored values. `Empty` is a new cache. The result of Get is `Lookup` and the state after Get is `Touch`. The state after Put is `Put`.
  - `LruCache` is the object itself. It has the entry class, the map, `head`/`tail` pointers, the `prev`/`next` links and `size`. The ghost sequence `nodes` names the list's entries head to tail, and the ghost map `values` records the stored values.
  - Every public method is proved to keep the object invariant `Valid`: the list is well formed and acyclic, the map indexes exactly the list's entries by their keys, `size` is the list's length, and `0 < capacity` and `size <= capacity`.
  - Each public method is proved against its `LruSpec` functions. The constructor gives `Empty`. `Get` returns `Lookup` of the old state and leaves `Touch` of it. `Put` leaves `Put` of the old state.
  - The ghost set `Repr` holds the cache and every entry it has allocated. The public methods modify only `Repr`, and `Put` adds only fresh objects to it. So a client can call the methods one after another on one cache. `Demonstration` runs the Go `main` sequence that way.
- **Conway's Game of Life (Rust).** A fixed `height × width` boolean grid with a bounds-checked `set_alive` and a neighbour count that does not wrap at the edges. One generation is computed into a second grid and then replaces the first. `Step` is the next generation as a function. The class's loops are proved to compute it, and the rules and their consequences are proved about `Step`.
- **A dungeon carver (Python).** A grid of walls has rectangular rooms carved into it. Consecutive room centres are then joined by L-shaped corridors: along the earlier centre's row, then along the later centre's column. The random draws are inputs. The generator is proved to produce exactly the declarative picture: a cell is floor if and only if it lies in some room or on some corridor.

Where the Go comment on `Put` says the tail is removed "first to make space", the code inserts the new entry first and evicts afterwards. The model follows the code. The final state is the same either way, because the new key is never the tail.

## Model

| member | source | states |
|---|---|---|
| `LruSpec.Without` | go_example_0e3ffb.go:108-123 | Unlinking a key leaves exactly the other keys. A sequence without repeats stays so, and loses exactly one element when the key was in it. |
| `LruSpec.WithoutSplit` | go_example_0e3ffb.go:108-123 | Taking out a key that occurs once keeps the keys before it and after it, in their order. |
| `LruSpec.MoveToFront` | go_example_0e3ffb.go:98-104 | After an access the key is first and the set of keys is the old one. There are no repeats, and moving a present key keeps the length. |
| `LruSpec.MoveToFrontOfHead` | go_example_0e3ffb.go:99-101 | Moving the key that is already at the head changes nothing. |
| `LruSpec.Inv` | go_example_0e3ffb.go:25-35 | The abstract invariant: the capacity is positive, no key occurs twice in the recency order, the order and the map hold the same keys, and there are at most capacity of them. |
| `LruSpec.SizeMirrorsIndex` | go_example_0e3ffb.go:28-35 | Under the invariant, the size equals the number of keys in the index and never exceeds the capacity. |
| `LruSpec.Empty` | go_example_0e3ffb.go:40-48 | A new cache, for a positive capacity only, satisfies the invariant and holds no entries. |
| `LruSpec.Lookup` | go_example_0e3ffb.go:58-63 | The result is found exactly when the key is present, and then it carries the stored value. |
| `LruSpec.Touch` | go_example_0e3ffb.go:54-64 | After Get the invariant holds and the values are unchanged. An absent key leaves the state as it was. A present key becomes the head and the size stays the same. |
| `LruSpec.Put` | go_example_0e3ffb.go:70-92 | After Put the invariant holds, with size at most capacity. The key is at the head holding the new value, and the capacity is unchanged. |
| `LruSpec.GetAbsent` | go_example_0e3ffb.go:62-63 | Get of an absent key returns not-found and changes nothing. |
| `LruSpec.GetPresent` | go_example_0e3ffb.go:58-61 | Get of a present key has three effects. It returns the stored value. It moves the key to the head with the other keys in their old relative order. It adds and evicts nothing. |
| `LruSpec.GetHeadIdempotent` | go_example_0e3ffb.go:99-101 | Get of the head key leaves the cache as it is, so repeating it changes nothing. |
| `LruSpec.PutPresent` | go_example_0e3ffb.go:74-79 | Put of a present key has three effects. It overwrites its value. It moves the key to the head with the others in order. It keeps the key set and the size. |
| `LruSpec.PutNewWithRoom` | go_example_0e3ffb.go:81-86 | Put of a new key below capacity puts it at the head, adds its value and grows the size by one. |
| `LruSpec.PutNewWhenFull` | go_example_0e3ffb.go:81-91 | Put of a new key into a full cache evicts exactly the old tail, from both the order and the index. The cache stays full. |
| `LruSpec.UpdateInPlace` | go_example_0e3ffb.go:74-79 | A second Put of the same key does not change the size, and a later Get finds the second value. |
| `LruSpec.ScenarioFill` | go_example_0e3ffb.go:157-164 | With capacity 3, Put a, b, c gives the order [c, b, a]. |
| `LruSpec.ScenarioGetB` | go_example_0e3ffb.go:166-170 | From there, Get b finds 2 and gives [b, c, a]. |
| `LruSpec.ScenarioPutD` | go_example_0e3ffb.go:172-174 | Put d then evicts a and gives [d, b, c]. |
| `LruSpec.ScenarioGetAC` | go_example_0e3ffb.go:176-185 | Get a then misses and changes nothing. Get c finds 3 and gives [c, d, b]. |
| `LruSpec.ScenarioPutE` | go_example_0e3ffb.go:187-189 | Put e then evicts b and gives [e, c, d]. |
| `LruCache.Entry.constructor` | go_example_0e3ffb.go:82 | A new entry carries its key and value and has no links. |
| `LruCache.KeysDistinct` | go_example_0e3ffb.go:28-35 | Entries that the map indexes by their keys carry pairwise different keys. |
| `LruCache.IndexesMovedToFront` | go_example_0e3ffb.go:98-104 | Relinking an entry at the head keeps the map an index of the list. The list's keys then follow LruSpec's recency update for that key. |
| `LruCache.MoveToFrontIsMoved` | go_example_0e3ffb.go:98-104 | With no repeated keys, moving position i to the front is LruSpec's move of the key at i. |
| `LruCache.IndexesAdded` | go_example_0e3ffb.go:83-84 | A new entry under a new key, added to the map and at the head, keeps the map an index of the list. |
| `LruCache.IndexesDropLast` | go_example_0e3ffb.go:146-148 | Dropping the tail from the list and its key from the map keeps the map an index of the list. |
| `LruCache.DroppedDistinct` | go_example_0e3ffb.go:108-123 | Unlinking an entry leaves a list without repeats that no longer contains it. |
| `LruCache.LruCache.Valid` | go_example_0e3ffb.go:25-35 | The object invariant. The ghost `nodes` runs from `head` to `tail` with matching `prev`/`next` links and no entry twice. The map holds exactly the list's entries, each under its own key. `size` counts the entries and is at most the positive capacity. The cache and all its entries belong to `Repr`. |
| `LruCache.LruCache.ModelInv` | go_example_0e3ffb.go:28-35 | The object invariant implies LruSpec's invariant of the abstract state. |
| `LruCache.LruCache.constructor` | go_example_0e3ffb.go:40-48 | For a positive capacity, the new cache satisfies the invariant, has an empty list and is LruSpec.Empty. Its `Repr` is fresh. |
| `LruCache.LruCache.Get` | go_example_0e3ffb.go:54-64 | Get keeps the invariant. Its result is LruSpec.Lookup of the old state, and its new state is LruSpec.Touch of the old. `Repr` is unchanged. |
| `LruCache.LruCache.Put` | go_example_0e3ffb.go:70-92 | Put keeps the invariant, and its new state is LruSpec.Put of the old. Only fresh objects join `Repr`. |
| `LruCache.LruCache.Update` | go_example_0e3ffb.go:74-79 | Put of a present key: its entry gets the value and moves to the head, which is LruSpec.Put. |
| `LruCache.LruCache.StoreValue` | go_example_0e3ffb.go:76 | Overwriting an entry's value keeps the invariant and records the value under its key. |
| `LruCache.LruCache.Insert` | go_example_0e3ffb.go:81-91 | Put of an absent key, with eviction when overfull, gives LruSpec.Put and restores size ≤ capacity. The fresh entry is the only object added to `Repr`. |
| `LruCache.LruCache.EvictIfOverfull` | go_example_0e3ffb.go:88-91 | With the new entry at the head, the old tail is evicted exactly when the size exceeds the capacity. Together the two steps give LruSpec.Put and restore the invariant. |
| `LruCache.LruCache.Register` | go_example_0e3ffb.go:83-84 | The new entry is stored in the map under its key, its value is recorded, and it joins `Repr`. The map then indexes the list that has the entry at its head. |
| `LruCache.LruCache.AddEntry` | go_example_0e3ffb.go:82-85 | The new entry goes into the map and at the head of the list, and size grows by one. The entry joins `Repr`. |
| `LruCache.LruCache.MoveToFront` | go_example_0e3ffb.go:98-104 | The list stays well formed and becomes the old list with entry i moved to the front. This holds for the head too, which is left alone. |
| `LruCache.LruCache.Remove` | go_example_0e3ffb.go:108-123 | In all four cases (sole, head, tail, interior entry) the list stays well formed and loses exactly position i. The entry's own links are cleared. |
| `LruCache.LruCache.AddFront` | go_example_0e3ffb.go:126-138 | The entry becomes the new head of a well-formed list, and also its tail when the list was empty. |
| `LruCache.LruCache.RemoveTail` | go_example_0e3ffb.go:142-150 | An empty cache is left as it is. Otherwise the tail leaves the list, its key leaves the map and the values, and size drops by one. |
| `LruCache.DemoFill` | go_example_0e3ffb.go:157-164 | On a new cache object of capacity 3, Put a, b and c give the recency order [c, b, a], with all three values stored. |
| `LruCache.DemoGetBPutD` | go_example_0e3ffb.go:166-174 | On that object, Get b returns 2 and found. Put d then leaves [d, b, c], with a evicted. |
| `LruCache.DemoGetA` | go_example_0e3ffb.go:176-179 | Get a then returns not found and changes nothing. |
| `LruCache.DemoGetCPutE` | go_example_0e3ffb.go:181-189 | Get c returns 3 and found. Put e then leaves [e, c, d], with b evicted. |
| `LruCache.Demonstration` | go_example_0e3ffb.go:155-189 | The whole run on one cache object: Get b finds 2, Get a misses, and Get c finds 3. |
| `GameOfLife.DeadGrid` | rust_demo_424bf8.rs:24-26 | height rows of width cells, all dead. |
| `GameOfLife.Neighbours` | rust_demo_424bf8.rs:44-86 | The count of live cells among the eight around a cell is at most 8. |
| `GameOfLife.Rule` | rust_demo_424bf8.rs:100-121 | The four rules. A live cell with fewer than two live neighbours dies, with two or three it lives on, and with more than three it dies. A dead cell comes alive exactly when it has three. |
| `GameOfLife.NextCell` | rust_demo_424bf8.rs:107-121 | A cell's next state is Rule applied to its current state and its neighbour count in the current grid. It is the definition that Step and StepCell build on. |
| `GameOfLife.Step` | rust_demo_424bf8.rs:89-126 | The next generation has the same dimensions. |
| `GameOfLife.WindowScanIsNeighbours` | rust_demo_424bf8.rs:50-83 | Scanning the 3 × 3 window row by row, skipping the centre, counts exactly the eight neighbours. |
| `GameOfLife.StepCell` | rust_demo_424bf8.rs:107-121 | A cell is alive next if and only if it has 3 live neighbours, or it is alive and has 2. |
| `GameOfLife.NeighboursLocal` | rust_demo_424bf8.rs:61-81 | The count depends only on the in-grid cells at distance one. Positions beyond an edge and the cell itself do not count. |
| `GameOfLife.EdgeNoWrap` | rust_demo_424bf8.rs:61-81 | On a grid at least three cells wide, a cell in the leftmost column is not affected by anything in the rightmost column: there is no wrap-around. The width bound is needed, since for widths 1 and 2 the rightmost column is a real neighbour of column 0. |
| `GameOfLife.StepLocal` | rust_demo_424bf8.rs:93-121 | A cell's next state depends only on the 3 × 3 block around it in the current generation. |
| `GameOfLife.DeadStaysDead` | rust_demo_424bf8.rs:107-121 | An all-dead grid stays all-dead. |
| `GameOfLife.GameOfLife.constructor` | rust_demo_424bf8.rs:22-29 | A new game has the given dimensions and an all-dead grid. |
| `GameOfLife.GameOfLife.SetAlive` | rust_demo_424bf8.rs:33-40 | An in-grid (x, y) makes exactly cell [y][x] alive and leaves every other cell as it was. Out-of-grid coordinates leave the grid unchanged. |
| `GameOfLife.GameOfLife.CountLiveNeighbors` | rust_demo_424bf8.rs:44-86 | The nested scan with its edge checks returns Neighbours of the cell. |
| `GameOfLife.GameOfLife.NextGeneration` | rust_demo_424bf8.rs:89-126 | The new grid is Step of the old one: every cell is computed from the old grid only, and the dimensions are kept. |
| `Dungeon.CreateEmptyDungeon` | python_guide_21239a.py:20-34 | The result has max(0, height) rows of max(0, width) cells, all walls. |
| `Dungeon.IsValidPosition` | python_guide_21239a.py:36-50 | A position is valid when 0 ≤ x < width and 0 ≤ y < height. ValidPositionIsCell is the lemma that ties it to the grid's cells. |
| `Dungeon.ValidPositionIsCell` | python_guide_21239a.py:36-50 | For a grid's own extent, a position is valid exactly when it names an existing cell. Negative indices are not valid. |
| `Dungeon.CarveRoom` | python_guide_21239a.py:52-72 | Exactly the in-grid cells of the rectangle become floor, and all other cells are unchanged, as are the dimensions. A non-empty rectangle on a grid with no rows fails before anything is written. |
| `Dungeon.Centre` | python_guide_21239a.py:106 | The recorded centre (x + w // 2, y + h // 2) lies inside the room. |
| `Dungeon.Centres` | python_guide_21239a.py:91-106 | There is one centre per room, in placing order. |
| `Dungeon.PlaceRooms` | python_guide_21239a.py:88-106 | A cell is floor after placing if and only if it lies in a drawn room or was floor before. The centres list is the rooms' centres, one per room. |
| `Dungeon.CarveCorridor` | python_guide_21239a.py:112-124 | Exactly the in-grid cells of the corridor become floor: along row y1 between the columns, then along column x2 between the rows, ends included. |
| `Dungeon.ConnectRooms` | python_guide_21239a.py:110-124 | A cell is floor afterwards if and only if it lies on a corridor between consecutive centres or was floor before. |
| `Dungeon.GenerateDungeon` | python_guide_21239a.py:74-126 | The dungeon has the requested dimensions. A cell is floor if and only if it lies in some room or on some corridor, and is wall otherwise. |
| `Dungeon.RoomInsideBorder` | python_guide_21239a.py:95-100 | A room drawn from the generator's ranges lies in the grid with at least one cell of wall around it. |
| `Dungeon.BorderStaysWall` | python_guide_21239a.py:95-124 | No room and no corridor touches the outer ring of the grid, so the generated dungeon is walled all round. |
| `Dungeon.CorridorJoinsRooms` | python_guide_21239a.py:106-124 | Each corridor starts at a cell of the earlier room and ends at a cell of the later one, passing the corner (x2, y1). |

## Left out

- The mutex of the Go cache (go_example_0e3ffb.go:34, 55-56, 71-72). Each public method is one atomic sequential step; concurrency and linearizability are not modelled.
- `NewLRUCache`'s panic on a non-positive capacity is the constructor's precondition `0 < capacity`: the program treats it as a fatal error, not a result.
- LruCache.LruCache.Get: on a miss it returns an arbitrary value of V, not necessarily Go's zero value for V. Dafny has no zero value for a generic type.
- LruCache.LruCache: the value type is declared `V(0)`, so it must be auto-initializable (have a default value). Go's `any` places no such restriction on V, because every Go type has a zero value. Dafny types with no default value cannot instantiate V: a non-null class type, or a subset type whose witness is not its default.
- LruCache.LruCache.Update: the value is stored after the entry is relinked, where the Go code stores it first. The two steps touch disjoint fields, so the final state is the same.
- Update, Insert, EvictIfOverfull, AddEntry, Register and StoreValue are Put's two branches and their steps, split into methods of their own. They are not operations of the Go code.
- `Repr` only grows: an evicted entry stays in it. `nodes` and the map, not `Repr`, say which entries are live.
- Printing: Go's `println`, `GameOfLife::print`, the glider run of Rust's `main`, `visualize_dungeon` and Python's `__main__` block.
- GameOfLife.GameOfLife.CountLiveNeighbors: the neighbour count returns a natural number, not Rust's `u8`. It never exceeds 8, so no wrap-around can occur.
- Rust's `usize` coordinates are natural numbers. `checked_sub` failing at 0 is the negative-coordinate test. An overflowing `checked_add` at `usize::MAX` would name a column beyond the grid, which the unbounded model does not count either.
- Python's `random.randint` draws are the `draws` input of the dungeon generator. Each draw must lie in the range the generator draws it from. The `ValueError` that `randint` raises on an empty range is not modelled: such a run has no draws.
- The Python grid is a list of lists that carve_room and generate_dungeon update in place. The model passes the grid as a value and returns the updated grid. `create_empty_dungeon` builds every row anew, so no row is shared and no aliasing is lost.
- Dungeon.CarveRoom: the grid must be rectangular. On a ragged list of lists Python would raise `IndexError` part-way through carving; the generator never builds one.
- Python's dynamic typing: coordinates and sizes are integers, and cells are characters.
- The repository's other files are not part of this model: the actor-based WebSocket server, the procedural macro, the HTTP client and the Swing drawing code.
