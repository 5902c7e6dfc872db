# Transposable elements in a circular genome

A genome is a circular sequence of nucleotides. Each cell is `'-'` (no TE),
`'A'` (an active transposable element) or `'x'` (a disabled one). A
dictionary `{id: [start, length]}` lists the active TEs in insertion order,
and a counter issues each new id. A `ListGenome` keeps the cells in a
Python list. A `LinkedListGenome` keeps them in a circular doubly-linked
list (`DLList`) of `Link`s behind a dummy head. Both offer the same
operations:

- `insert_te(pos, length)`: first, scan the table in order. If the probed
  cell holds `'A'`, disable the first TE whose `[start, start + length]`
  covers `pos` and stop the scan. Every TE met before that which starts
  beyond `pos` is shifted by `length`. Then splice `length` `'A'`s in at
  `pos`, record the new TE and return its id.
- `copy_te(te, offset)`: insert a TE of the same length at
  `(start + offset) % len(genome)`, or return `None` if `te` is not active.
- `disable_te(te)`: overwrite the TE's cells with `'x'` and drop it from
  the table.
- `active_tes()`, `len()` and `str()`.

The project has three layers.

- **Abstract model.** `GenomeModel` describes every operation as a function
  of an abstract `Genome(cells, table, counter)`. The table is a `seq<Entry>`
  in dictionary order. `Backing` says which implementation is running. The
  two differ only in the cell the collision test reads and in the positions
  they accept.
- **Laws.** `GenomeProperties` proves what the operations promise. Examples:
  the well-formedness invariant; the splice; the id issued; what a collision
  disables; the overwrite; `None` for an inactive TE; the wrap-around.
- **Implementations.** The classes `ListGenomes.ListGenome`,
  `CircularList.DLList` and `LinkedListGenomes.LinkedListGenome` are
  imperative, with `seq` fields, loops and invariants. Each method is proved
  to move `State()` exactly as the model function says.

The linked list is an arena (`links: seq<Link>`, head at index 0), where an
index stands for a reference to a link. The ghost fields `order`,
`Contents` and `rank` describe the ring, and `DLList.Valid()` ties them to
the arena.

`Representations` compares the two implementations. They agree exactly
when no row covers `pos`, or when their two probes agree on being `'A'`.
It also gives a reachable genome on which the same two calls diverge, a
reachable genome in which two active TEs overlap, and worked runs of each
class.

## Model

| member | source | states |
|---|---|---|
| GenomeModel.New | src/genome.py:108-110 | `['-'] * n`: n blank cells (none for negative n), an empty table, the counter at 1, well-formed |
| GenomeModel.Find | src/genome.py:162-163 | the dictionary lookup: the index of the row holding id, with no earlier row holding it; None exactly when no row holds id |
| GenomeModel.FirstCover | src/genome.py:126-129 | the row the collision scan stops at: the first row covering pos, no earlier row covers it; the table length when none does |
| GenomeModel.Ids | src/genome.py:189-191 | `list(keys())`: one id per row, in table order |
| GenomeModel.Wrap | src/genome.py:169 | `(pos + offset) % len` lands inside the genome, 0 <= r < len |
| GenomeModel.Collision | src/genome.py:126-131 | the index of the row the scan disables (probing the cell the backing reads), or the table length; never beyond it |
| GenomeModel.Covers | src/genome.py:128 | the collision test `info[0] <= pos <= info[0] + info[1]`, closed at both ends |
| GenomeModel.ValidPos | src/genome.py:126-128 | the positions the list `insert_te` accepts: `genome[pos]` is read only when the table is not empty, so 0 <= pos < len with a non-empty table and 0 <= pos <= len with an empty one; for the linked one 1 <= pos <= len, the positions at which `get_position` (src/genome.py:270-277) returns a link holding a cell |
| GenomeModel.Probe | src/genome.py:128 | the cell the collision test reads: `genome[pos]` for the list; the value of link `get_position(pos)`, cell pos-1, for the linked one (src/genome.py:318-322) |
| GenomeModel.ShiftEntry | src/genome.py:132-133 | a row keeps its id and length; its start stays or moves on by the inserted length |
| GenomeModel.Shift | src/genome.py:132-133 | the shift applied to every row met before the break keeps the number of rows |
| GenomeModel.AfterScan | src/genome.py:126-134 | the scan loop's result keeps the genome length and the counter and never adds a row |
| GenomeModel.Splice | src/genome.py:137 | `genome[pos:pos] = length * ['A']` grows the genome by exactly length cells (where they go is InsertSplices) |
| GenomeModel.Insert | src/genome.py:126-145 | insert_te grows the genome by length, leaves at least the new row and at most one more row than before, and moves the counter on by one |
| GenomeModel.Overwrite | src/genome.py:186 | `genome[pos:pos+l] = ['x'] * l` keeps the genome length (which cells change is OverwriteShape) |
| GenomeModel.Disable | src/genome.py:181-186 | disable_te keeps the genome length and the counter and removes exactly one row |
| GenomeModel.Copy | src/genome.py:162-170 | copy_te returns an id exactly when te is active, and with None changes nothing |
| GenomeProperties.AfterScanTable | src/genome.py:126-134 | after the scan: the rows before the disabled one are shifted, the disabled row is gone, the rows after it are untouched, the counter and the length are unchanged |
| GenomeProperties.FindIncreasing | src/genome.py:141-143 | since ids ascend, the lookup of a row's id finds that row |
| GenomeProperties.ListedIffActive | src/genome.py:189-191 | an id is listed by `active_tes` iff it is a key of the table |
| GenomeProperties.ScanStopsAt | src/genome.py:126-131 | a scan that stops at row i, having shifted the rows before it, then disables that row and gives the after-scan genome |
| GenomeProperties.ScanRunsThrough | src/genome.py:126-134 | a scan that finds no collision shifts every row and leaves the cells alone |
| GenomeProperties.OverwriteCells | src/genome.py:186 | a cell-by-cell description of `genome[pos:pos+l] = ['x'] * l` is that slice assignment |
| GenomeProperties.InsertWellFormed | src/genome.py:126-145 | insert_te keeps the invariant: counter >= 1, ids ascend and stay below the counter, every row lies inside the genome |
| GenomeProperties.ScannedRows | src/genome.py:126-134 | the rows the scan leaves keep ascending ids below the counter and fit the genome once it has grown by length |
| GenomeProperties.InsertSplices | src/genome.py:137 | the cells before pos are kept, length 'A's follow, then the rest of the scanned genome |
| GenomeProperties.InsertIssuesId | src/genome.py:140-145 | the returned id was inactive and is now active, recorded last as [pos, length]; the counter goes up by one |
| GenomeProperties.InsertWithoutCollision | src/genome.py:126-143 | with no collision, every old row is kept and shifted iff it starts beyond pos, and the new row is appended |
| GenomeProperties.InsertWithCollision | src/genome.py:126-143 | with a collision, the probe is 'A' and the disabled row is the first covering one; its cells become 'x' and it leaves the table, rows before it are shifted, rows after it are not |
| GenomeProperties.CollidedGone | src/genome.py:128-130 | after a collision the disabled TE's id is in no row of the new table |
| GenomeProperties.OthersStay | src/genome.py:126-143 | after a collision every other active id is still active |
| GenomeProperties.CollisionIff | src/genome.py:128 | a row is disabled exactly when the table is not empty, the probe is 'A' and some row covers pos |
| GenomeProperties.DisableEffect | src/genome.py:181-186 | exactly the TE's cells become 'x', the TE is no longer active, every other id is exactly as active as before (the order of the remaining rows is stated by PopShape) |
| GenomeProperties.OverwriteShape | src/genome.py:186 | `genome[pos:pos+l] = ['x'] * l` keeps the length, sets exactly cells pos .. pos+l-1 to 'x' and keeps the rest |
| GenomeProperties.PopShape | src/genome.py:181 | `pop(te)` closes the table up around the popped row, and its id is no longer found |
| GenomeProperties.PopKeepsOthers | src/genome.py:181 | `pop(te)` leaves every other id exactly as present as it was |
| GenomeProperties.FoundAt | src/genome.py:162 | a row holding the id makes the key lookup succeed |
| GenomeProperties.ActiveCanDisable | src/genome.py:181-186 | on a well-formed genome, every active id can be disabled without leaving the genome |
| GenomeProperties.DisableWellFormed | src/genome.py:181-186 | disable_te keeps the invariant |
| GenomeProperties.InactiveStaysInactive | src/genome.py:126-145 | an id once disabled or dropped never becomes active again through an insertion |
| GenomeProperties.CopyAbsent | src/genome.py:162-163 | copying an inactive TE returns None and changes nothing |
| GenomeProperties.CopyActive | src/genome.py:164-170 | copying an active TE inserts a TE of its length at the wrapped position and returns the counter's value |
| GenomeProperties.CopyWellFormed | src/genome.py:162-170 | copy_te keeps the invariant |
| GenomeProperties.WrapInside | src/genome.py:169 | an offset that stays inside the genome is not wrapped |
| GenomeProperties.WrapFullTurn | src/genome.py:169 | an offset one full turn longer or shorter lands on the same cell |
| GenomeProperties.WrapExamples | src/genome.py:169 | wrapping past the end and before the start (Python's floor `%`) |
| ListGenomes.ListGenome.constructor | src/genome.py:108-110 | the new object's state is `New(n)` and is well-formed |
| ListGenomes.ListGenome.InsertTe | src/genome.py:112-145 | the new state is the array-backed `Insert` of the old one, the returned id is the old counter, and the invariant is kept |
| ListGenomes.ListGenome.ScanTable | src/genome.py:126-134 | the scan loop leaves the array-backed after-scan genome |
| ListGenomes.ListGenome.CopyTe | src/genome.py:147-170 | the new state and the result are the array-backed `Copy` of the old state |
| ListGenomes.ListGenome.DisableTe | src/genome.py:172-186 | the new state is `Disable` of the old one; a well-formed state stays well-formed |
| ListGenomes.ListGenome.ActiveTes | src/genome.py:189-191 | the ids in table order, strictly ascending, exactly the active ones |
| ListGenomes.ListGenome.Length | src/genome.py:193-195 | the number of cells |
| ListGenomes.ListGenome.Str | src/genome.py:197-209 | the cells, from position 0 |
| CircularList.DLList.Neighbours | src/genome.py:215-234 | on a valid ring, the link at rank k has the links at ranks k+1 and k-1 (around the head) as next and prev |
| CircularList.DLList.NodeIsHeadOnlyAtZero | src/genome.py:240-243 | only the dummy head sits at rank 0 |
| CircularList.Spliced | src/genome.py:232-234 | `insert_after` on the arena: one link is appended, holding val, with the old link as prev and its old next as next |
| CircularList.DLList.InsertAfter | src/genome.py:230-234 | a fresh link holding val enters the ring right after `link`, and the ring stays valid |
| CircularList.DLList.constructor | src/genome.py:240-246 | the ring of a fresh list holds exactly the given sequence |
| CircularList.DLList.Values | src/genome.py:257-261 | iterating from head.next yields exactly the values in ring order |
| CircularList.DLList.InsertNElements | src/genome.py:263-268 | m 'A's enter the ring right after `link`, the rest stays in order |
| CircularList.DLList.GetPosition | src/genome.py:270-277 | None for position < 1; otherwise the link at rank `position % (len + 1)`, which for 1 <= position <= len holds the (position-1)-th value |
| CircularList.DLList.Length | src/genome.py:279-285 | counting from head.next up to the head gives the number of values |
| CircularList.DLList.SetVal | src/genome.py:381 | `link.val = v` changes only that link's value; the ring order is unchanged |
| LinkedListGenomes.LinkedListGenome.constructor | src/genome.py:298-302 | the new object's state is `New(n)`, a valid ring |
| LinkedListGenomes.LinkedListGenome.InsertTe | src/genome.py:304-336 | the new state is the link-backed `Insert` of the old one, the returned id is the old counter, and the invariant is kept |
| LinkedListGenomes.LinkedListGenome.ScanTable | src/genome.py:320-328 | the scan loop leaves the link-backed after-scan genome, with the ring order unchanged |
| LinkedListGenomes.LinkedListGenome.CopyTe | src/genome.py:339-360 | the new state and the result are the link-backed `Copy` of the old state |
| LinkedListGenomes.LinkedListGenome.DisableTe | src/genome.py:363-384 | walking from head.next to the start and overwriting gives `Disable` of the old state; the ring order and validity are kept |
| LinkedListGenomes.LinkedListGenome.DisableRun | src/genome.py:380-383 | `len` links from the (start+1)-th one on become 'x', which is `Overwrite` of the contents |
| LinkedListGenomes.LinkedListGenome.ActiveTes | src/genome.py:388-391 | the ids in table order, strictly ascending, exactly the active ones |
| LinkedListGenomes.LinkedListGenome.Length | src/genome.py:393-396 | the number of cells on the ring |
| LinkedListGenomes.LinkedListGenome.Str | src/genome.py:398-410 | the ring's values from head.next |
| Representations.BackingsAgreeIff | src/genome.py:320-328 | for 1 <= pos with `genome[pos]` in range, the two insert_te agree iff no row covers pos or `genome[pos]` and cell pos-1 are both 'A' or both not |
| Representations.NoCoverAgree | src/genome.py:320-328 | where no row covers pos the two insert_te agree |
| Representations.DivergeStart | src/genome.py:112-145 | both classes built with 3 cells take `insert_te(1, 2)` to "-AA--" with TE 1 at [1, 2] |
| Representations.BackingsDiverge | src/genome.py:128 | from that reachable "-AA--", `insert_te(3, 1)` gives "-AAA--" and keeps TE 1 in the list genome, but gives "-xxA--" and disables TE 1 in the linked one (its probe is cell 2) |
| Representations.DivergeList | src/genome.py:126-145 | on "-AA--", the list `insert_te(3, 1)` reads '-' at index 3, disables nothing and gives "-AAA--" with TE 2 at [3, 1] |
| Representations.DivergeLinked | src/genome.py:318-336 | on "-AA--", the linked `insert_te(3, 1)` reads 'A' in the third link, disables TE 1 and gives "-xxA--" with only TE 2 |
| Representations.OverlapSecond | src/genome.py:126-145 | after `ListGenome(5).insert_te(0, 2)` ("AA-----"), `insert_te(2, 2)` reads '-' at index 2, shifts nothing and gives "AAAA-----" with TE 2 at [2, 2] |
| Representations.OverlapWitness | src/genome.py:126-145 | on that reachable "AAAA-----", `insert_te(2, 1)` disables TE 1 rather than TE 2 and leaves TE 2 at [2, 2] unshifted, so TEs 2 and 3 are both active with overlapping recorded ranges |
| Representations.OverlapScan | src/genome.py:126-134 | the scan of that `insert_te(2, 1)` stops at TE 1, overwrites cells 0 and 1 and keeps TE 2 as it is |
| Representations.OverlapThird | src/genome.py:126-145 | that `insert_te(2, 1)` gives "xxAAA-----" with TE 2 at [2, 2] and TE 3 at [2, 1] |
| Representations.OverlapActive | src/genome.py:189-191 | in that genome ids 2 and 3 are active and id 1 is not |
| Representations.ListScenarioInsert | src/genome.py:112-145 | `ListGenome(5).insert_te(0, 2)` gives "AA-----" and TE 1 |
| Representations.ListScenarioCopy | src/genome.py:147-170 | then `copy_te(1, 3)` lands at 3, gives "AA-AA----" and returns 2 |
| Representations.ListScenarioDisable | src/genome.py:172-186 | then `disable_te(1)` gives "xx-AA----" and leaves only TE 2 |
| Representations.LinkedScenarioInsert | src/genome.py:304-336 | `LinkedListGenome(5).insert_te(1, 2)` gives "-AA----" and TE 1 |
| Representations.LinkedScenarioCopy | src/genome.py:339-360 | then `copy_te(1, 3)` lands at 4, gives "-AA-AA---" and returns 2 |
| Representations.LinkedScenarioDisable | src/genome.py:363-384 | then `disable_te(1)` gives "-xx-AA---" and leaves only TE 2 |

## Left out

- Shared class attributes: there is one `transposable_elements` dictionary per class. `ListGenome` declares its own (src/genome.py:105), shared by every `ListGenome`. `LinkedListGenome` declares none, so every `LinkedListGenome` shares the one it inherits from `Genome` (src/genome.py:21). `tes_counter` is likewise one per class (src/genome.py:107, 295). The constructors reset neither. The model gives each object its own table and counter, starting empty and at 1.
- The `Genome` abstract base class and its `abc` machinery: not modelled; both classes state their behaviour against the same model functions instead.
- Crash paths become preconditions:
  - `disable_te` of an inactive id raises `KeyError`, although its docstring calls this a no-op.
  - The list `insert_te` reads `genome[pos]` only when the table is not empty, so it needs 0 <= pos < len then, and 0 <= pos <= len otherwise. With an empty table a pos beyond len does not crash: the slice appends the 'A's at the end and the row records [pos, length], past the cells. The model excludes that input too.
  - The linked `insert_te` needs 1 <= pos <= len. `get_position(0)` returns `None`, which crashes on `.val`; position 0 with length 0 and an empty table happens not to crash, and the model excludes it too. A position beyond len does not crash: `get_position` walks around the ring to the link at rank pos % (len + 1), the head at rank 0 or a real link otherwise. The 'A's go in after that link, while the row records [pos, length]. The model excludes these inputs.
  - Hence a linked `copy_te` whose target wraps to 0 is excluded.
  - `copy_te` on an empty genome divides by zero.
- Negative lengths: lengths are `nat`. In the list `insert_te` a negative length splices in nothing (`length * ['A']` is empty), yet the shift `info[0] + length` still moves later starts back, and a row with the negative length is recorded. In the linked one `while how_long:` in `insert_n_elements` never reaches 0, so the call does not return.
- Python's negative list indices: excluded by requiring 0 <= pos.
- Non-overlap of active TEs: the model does not promise that the recorded ranges of two active TEs are disjoint, because `insert_te` as written does not keep that. `OverlapWitness` gives a reachable genome with TE 2 at [2, 2] and TE 3 at [2, 1] both active. The scan disables the first row covering pos (TE 1), not the TE holding the probed cell, and it shifts only starts beyond pos, so TE 2 stays at 2.
- `DLList` is fixed to `char` values, and the generic `T` is dropped. The head's `None` value is `Option<char>.None`. The constructor's default argument `seq=()` is dropped: `DLList()` is `DLList([])`.
- `DLList.__str__` / `__repr__` and `Link.__str__`: string formatting for debugging, not modelled.
- `DLList.__iter__` is a generator; `DLList.Values` models the sequence it yields.
- `link.val = 'x'` is written through `DLList.SetVal`, since the links live in the list's arena.
- Both `insert_te`s and the linked `disable_te` are split in the model: `ScanTable` is the table scan of each class, `DisableRun` the linked write loop. Each is called only from its operation.
- Complexity, and the drivers and experiment scripts around the genome: not modelled.
- A negative `n` in the constructor gives an empty genome, as `['-'] * n` does. No error is raised.
