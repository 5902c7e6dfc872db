/**
 * The abstract genome shared by both representations: the cells rendered by
 * `__str__`, the TE table in dictionary (insertion) order and the id counter.
 * Every operation is a function of the old abstract genome; the two classes
 * are proved to follow these functions.
 */
module GenomeModel {
  import opened Wrappers

  const Blank: char := '-'
  const Active: char := 'A'
  const Disabled: char := 'x'

  /** One row `{id: [start, length]}` of the table of active TEs. */
  datatype Entry = Entry(id: nat, start: nat, length: nat)

  /** The observable state of a genome. */
  datatype Genome = Genome(cells: seq<char>, table: seq<Entry>, counter: nat)

  /** Which implementation performs an insertion: they probe different cells. */
  datatype Backing = ArrayBacked | LinkBacked

  function Repeat(c: char, n: nat): seq<char>
  {
    seq(n, _ => c)
  }

  /** The ids of the table, in dictionary order (what `active_tes` returns). */
  function Ids(t: seq<Entry>): (ids: seq<nat>)
    ensures |ids| == |t|
    ensures forall i :: 0 <= i < |t| ==> ids[i] == t[i].id
  {
    seq(|t|, i requires 0 <= i < |t| => t[i].id)
  }

  /** Ids ascend in table order: new ids are appended with the counter. */
  predicate IdsIncreasing(t: seq<Entry>)
  {
    forall i, j :: 0 <= i < j < |t| ==> t[i].id < t[j].id
  }

  /** The invariant every reachable genome keeps. */
  predicate WellFormed(g: Genome)
  {
    1 <= g.counter &&
    IdsIncreasing(g.table) &&
    forall i :: 0 <= i < |g.table| ==>
      1 <= g.table[i].id < g.counter && g.table[i].start + g.table[i].length <= |g.cells|
  }

  /** Position of the table row holding `id`, as a dictionary lookup finds it. */
  function Find(t: seq<Entry>, id: nat): (r: Option<nat>)
    ensures r.Some? ==> r.value < |t| && t[r.value].id == id
    ensures r.Some? ==> forall j :: 0 <= j < r.value ==> t[j].id != id
    ensures r.None? ==> forall j :: 0 <= j < |t| ==> t[j].id != id
  {
    if t == [] then None
    else if t[0].id == id then Some(0)
    else match Find(t[1..], id)
      case None => None
      case Some(k) => Some(k + 1)
  }

  predicate IsActive(g: Genome, id: nat)
  {
    Find(g.table, id).Some?
  }

  /** `genome[pos:pos] = length * ['A']` */
  function Splice(cells: seq<char>, pos: nat, n: nat): (r: seq<char>)
    requires pos <= |cells|
    ensures |r| == |cells| + n
  {
    cells[..pos] + Repeat(Active, n) + cells[pos..]
  }

  /** `genome[start:start+n] = ['x'] * n` */
  function Overwrite(cells: seq<char>, start: nat, n: nat): (r: seq<char>)
    requires start + n <= |cells|
    ensures |r| == |cells|
  {
    cells[..start] + Repeat(Disabled, n) + cells[start + n..]
  }

  /** `Genome(n)`: n blank cells; Python's `['-'] * n` is empty for n < 0. */
  function New(n: int): (g: Genome)
    ensures WellFormed(g) && g.table == [] && g.counter == 1
    ensures |g.cells| == (if n < 0 then 0 else n)
    ensures forall i :: 0 <= i < |g.cells| ==> g.cells[i] == Blank
  {
    Genome(Repeat(Blank, if n < 0 then 0 else n), [], 1)
  }

  // ---------------------------------------------------------------------------
  // disable_te

  /** What `disable_te` needs so as not to raise or write past the end. */
  predicate CanDisable(g: Genome, id: nat)
  {
    IdsIncreasing(g.table) &&
    match Find(g.table, id)
    case None => false
    case Some(k) => g.table[k].start + g.table[k].length <= |g.cells|
  }

  /** Pop the row of `id` and overwrite its cells with 'x'. */
  function Disable(g: Genome, id: nat): (r: Genome)
    requires CanDisable(g, id)
    ensures |r.cells| == |g.cells| && |r.table| + 1 == |g.table| && r.counter == g.counter
  {
    var k := Find(g.table, id).value;
    var e := g.table[k];
    Genome(Overwrite(g.cells, e.start, e.length), g.table[..k] + g.table[k + 1..], g.counter)
  }

  // ---------------------------------------------------------------------------
  // insert_te

  /** The collision test `start <= pos <= start + length`. */
  predicate Covers(e: Entry, pos: int)
  {
    e.start <= pos <= e.start + e.length
  }

  /** Index of the first row, in table order, whose range covers `pos`; |t| if none. */
  function FirstCover(t: seq<Entry>, pos: int): (k: nat)
    ensures k <= |t|
    ensures k < |t| ==> Covers(t[k], pos)
    ensures forall j :: 0 <= j < k ==> !Covers(t[j], pos)
  {
    if t == [] then 0
    else if Covers(t[0], pos) then 0
    else 1 + FirstCover(t[1..], pos)
  }

  /** The shift `start > pos ==> start + n` applied to one row. */
  function ShiftEntry(e: Entry, pos: int, n: nat): (r: Entry)
    ensures r.id == e.id && r.length == e.length
    ensures r.start == e.start || r.start == e.start + n
  {
    if e.start > pos then e.(start := e.start + n) else e
  }

  function Shift(t: seq<Entry>, pos: int, n: nat): (r: seq<Entry>)
    ensures |r| == |t|
  {
    seq(|t|, i requires 0 <= i < |t| => ShiftEntry(t[i], pos, n))
  }

  /** The insert positions each implementation accepts without raising. */
  predicate ValidPos(b: Backing, g: Genome, pos: int)
  {
    match b
    // `genome[pos]` is read only when the table is not empty
    case ArrayBacked => 0 <= pos <= |g.cells| && (g.table != [] ==> pos < |g.cells|)
    // `get_position(pos)` is a link of the ring only for 1 <= pos <= len
    case LinkBacked => 1 <= pos <= |g.cells|
  }

  /** The cell whose symbol the collision test reads. */
  function Probe(b: Backing, g: Genome, pos: int): char
    requires ValidPos(b, g, pos) && g.table != []
  {
    match b
    case ArrayBacked => g.cells[pos]
    case LinkBacked => g.cells[pos - 1]
  }

  /** Index of the row the scan disables before breaking, |table| if the scan runs through. */
  function Collision(b: Backing, g: Genome, pos: int): (k: nat)
    requires ValidPos(b, g, pos)
    ensures k <= |g.table|
  {
    if g.table != [] && Probe(b, g, pos) == Active then FirstCover(g.table, pos) else |g.table|
  }

  /** The genome once the scan loop is over and before the splice. */
  function AfterScan(b: Backing, g: Genome, pos: int, n: nat): (r: Genome)
    requires WellFormed(g) && ValidPos(b, g, pos)
    ensures |r.cells| == |g.cells| && |r.table| <= |g.table| && r.counter == g.counter
  {
    var k := Collision(b, g, pos);
    if k < |g.table| then
      var e := g.table[k];
      Genome(Overwrite(g.cells, e.start, e.length), Shift(g.table[..k], pos, n) + g.table[k + 1..], g.counter)
    else
      Genome(g.cells, Shift(g.table, pos, n), g.counter)
  }

  /** `insert_te(pos, n)`: scan, splice, and record the new row under the counter. */
  function Insert(b: Backing, g: Genome, pos: int, n: nat): (r: Genome)
    requires WellFormed(g) && ValidPos(b, g, pos)
    ensures |r.cells| == |g.cells| + n && 1 <= |r.table| <= |g.table| + 1 && r.counter == g.counter + 1
  {
    var s := AfterScan(b, g, pos, n);
    Genome(Splice(s.cells, pos, n), s.table + [Entry(g.counter, pos, n)], g.counter + 1)
  }

  // ---------------------------------------------------------------------------
  // copy_te

  /**
   * `(start + offset) % n`. Python's `%` rounds toward minus infinity; for a
   * positive divisor that agrees with Dafny's Euclidean `%`.
   */
  function Wrap(start: int, offset: int, n: int): (r: int)
    requires n > 0
    ensures 0 <= r < n
  {
    (start + offset) % n
  }

  /** What `copy_te` needs: a non-empty genome and an insert position the backing accepts. */
  predicate CanCopy(b: Backing, g: Genome, te: nat, offset: int)
  {
    match Find(g.table, te)
    case None => true
    case Some(k) => |g.cells| > 0 && ValidPos(b, g, Wrap(g.table[k].start, offset, |g.cells|))
  }

  /** `copy_te(te, offset)`: the new genome and the returned id (None for an inactive te). */
  function Copy(b: Backing, g: Genome, te: nat, offset: int): (r: (Genome, Option<nat>))
    requires WellFormed(g) && CanCopy(b, g, te, offset)
    ensures r.1.Some? <==> IsActive(g, te)
    ensures r.1.None? ==> r.0 == g
  {
    match Find(g.table, te)
    case None => (g, None)
    case Some(k) =>
      var e := g.table[k];
      (Insert(b, g, Wrap(e.start, offset, |g.cells|), e.length), Some(g.counter))
  }
}
