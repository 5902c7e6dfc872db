/**
 * What the abstract genome promises: the splice shape of an insertion, the id
 * it issues, the shift and collision rules, the effect of disabling and of
 * copying, circular wrap-around, and the invariant every operation keeps.
 */
module GenomeProperties {
  import opened Wrappers
  import opened GenomeModel
  import opened ModArith

  /** Row i of the table after the scan comes from row i (shifted) before the collision, row i + 1 after it. */
  lemma AfterScanTable(b: Backing, g: Genome, pos: int, n: nat)
    requires WellFormed(g) && ValidPos(b, g, pos)
    ensures var s := AfterScan(b, g, pos, n); var k := Collision(b, g, pos);
      |s.cells| == |g.cells| && s.counter == g.counter &&
      |s.table| == (if k < |g.table| then |g.table| - 1 else |g.table|) &&
      forall i :: 0 <= i < |s.table| ==>
        s.table[i] == (if i < k then ShiftEntry(g.table[i], pos, n) else g.table[i + 1])
  {
  }

  /** With ascending ids, looking an id up finds the row that holds it. */
  lemma FindIncreasing(t: seq<Entry>, i: nat)
    requires IdsIncreasing(t) && i < |t|
    ensures Find(t, t[i].id) == Some(i)
  {
  }

  /** `te in active_tes()` exactly when te is a key of the table. */
  lemma ListedIffActive(t: seq<Entry>, id: nat)
    ensures id in Ids(t) <==> Find(t, id).Some?
  {
    if id in Ids(t) {
      var i :| 0 <= i < |t| && Ids(t)[i] == id;
      assert t[i].id == id;
    }
  }

  /**
   * The scan loop stopping at row i: once the rows before i are shifted, the
   * first covering row i is disabled and the loop breaks, which is AfterScan.
   */
  lemma ScanStopsAt(b: Backing, g: Genome, pos: int, n: nat, i: nat, mid: seq<Entry>)
    requires WellFormed(g) && ValidPos(b, g, pos) && i < |g.table|
    requires Probe(b, g, pos) == Active && Covers(g.table[i], pos)
    requires forall j :: 0 <= j < i ==> !Covers(g.table[j], pos)
    requires |mid| == |g.table|
    requires forall j :: 0 <= j < i ==> mid[j] == ShiftEntry(g.table[j], pos, n)
    requires forall j :: i <= j < |mid| ==> mid[j] == g.table[j]
    ensures CanDisable(Genome(g.cells, mid, g.counter), g.table[i].id)
    ensures Disable(Genome(g.cells, mid, g.counter), g.table[i].id) == AfterScan(b, g, pos, n)
  {
    assert Collision(b, g, pos) == i;
    forall j | 0 <= j < |mid|
      ensures mid[j].id == g.table[j].id
    {
    }
    SameIdsIncreasing(g.table, mid);
    FindIncreasing(mid, i);
    assert mid[..i] == Shift(g.table[..i], pos, n);
    assert mid[i + 1..] == g.table[i + 1..];
  }

  /** A table with the same ids, row by row, as an ascending one is ascending. */
  lemma SameIdsIncreasing(t: seq<Entry>, u: seq<Entry>)
    requires IdsIncreasing(t) && |u| == |t|
    requires forall j :: 0 <= j < |u| ==> u[j].id == t[j].id
    ensures IdsIncreasing(u)
  {
  }

  /** The scan loop running through the table without a hit shifts every row beyond pos. */
  lemma ScanRunsThrough(b: Backing, g: Genome, pos: int, n: nat, mid: seq<Entry>)
    requires WellFormed(g) && ValidPos(b, g, pos)
    requires g.table != [] && Probe(b, g, pos) == Active ==> forall j :: 0 <= j < |g.table| ==> !Covers(g.table[j], pos)
    requires |mid| == |g.table| && forall j :: 0 <= j < |mid| ==> mid[j] == ShiftEntry(g.table[j], pos, n)
    ensures AfterScan(b, g, pos, n) == Genome(g.cells, mid, g.counter)
  {
    assert Collision(b, g, pos) == |g.table|;
    assert mid == Shift(g.table, pos, n);
  }

  /** Overwrite is characterised cell by cell. */
  lemma OverwriteCells(cells: seq<char>, start: nat, n: nat, r: seq<char>)
    requires start + n <= |cells| && |r| == |cells|
    requires forall c :: 0 <= c < |cells| ==> r[c] == if start <= c < start + n then Disabled else cells[c]
    ensures r == Overwrite(cells, start, n)
  {
  }

  /** Insertion keeps the invariant: ids ascend and stay below the counter, rows stay inside the genome. */
  lemma {:induction false} InsertWellFormed(b: Backing, g: Genome, pos: int, n: nat)
    requires WellFormed(g) && ValidPos(b, g, pos)
    ensures WellFormed(Insert(b, g, pos, n))
  {
    var s := AfterScan(b, g, pos, n);
    ScannedRows(b, g, pos, n);
    var r := Insert(b, g, pos, n);
    assert |r.table| == |s.table| + 1;
    assert forall i :: 0 <= i < |s.table| ==> r.table[i] == s.table[i];
    assert r.table[|s.table|] == Entry(g.counter, pos, n);
  }

  /** The rows left by the scan keep their ids in ascending order below the counter, and fit the spliced genome. */
  lemma ScannedRows(b: Backing, g: Genome, pos: int, n: nat)
    requires WellFormed(g) && ValidPos(b, g, pos)
    ensures var s := AfterScan(b, g, pos, n);
      IdsIncreasing(s.table) &&
      forall i :: 0 <= i < |s.table| ==>
        1 <= s.table[i].id < g.counter && s.table[i].start + s.table[i].length <= |g.cells| + n
  {
    var s := AfterScan(b, g, pos, n);
    var k := Collision(b, g, pos);
    forall i | 0 <= i < |s.table|
      ensures 1 <= s.table[i].id < g.counter && s.table[i].start + s.table[i].length <= |g.cells| + n
    {
      AfterScanRow(b, g, pos, n, i);
    }
    forall i, j | 0 <= i < j < |s.table|
      ensures s.table[i].id < s.table[j].id
    {
      AfterScanRow(b, g, pos, n, i);
      AfterScanRow(b, g, pos, n, j);
      assert s.table[i].id == g.table[if i < k then i else i + 1].id;
      assert s.table[j].id == g.table[if j < k then j else j + 1].id;
    }
  }

  /**
   * The splice shape: the genome grows by exactly n, cells pos .. pos+n-1 are
   * 'A', and the cells before and after are those left by the scan.
   */
  lemma InsertSplices(b: Backing, g: Genome, pos: int, n: nat)
    requires WellFormed(g) && ValidPos(b, g, pos)
    ensures var s := AfterScan(b, g, pos, n); var r := Insert(b, g, pos, n);
      |s.cells| == |g.cells| && |r.cells| == |g.cells| + n &&
      (forall i :: 0 <= i < pos ==> r.cells[i] == s.cells[i]) &&
      (forall i :: pos <= i < pos + n ==> r.cells[i] == Active) &&
      (forall i :: pos <= i < |s.cells| ==> r.cells[i + n] == s.cells[i])
  {
    AfterScanTable(b, g, pos, n);
  }

  /**
   * The id: insert_te returns the counter, records [pos, n] under it as the
   * last row, and advances the counter; the id is fresh and larger than
   * every id in the old table.
   */
  lemma InsertIssuesId(b: Backing, g: Genome, pos: int, n: nat)
    requires WellFormed(g) && ValidPos(b, g, pos)
    ensures var r := Insert(b, g, pos, n);
      r.counter == g.counter + 1 &&
      !IsActive(g, g.counter) && IsActive(r, g.counter) &&
      r.table[|r.table| - 1] == Entry(g.counter, pos, n) &&
      Find(r.table, g.counter) == Some(|r.table| - 1) &&
      forall i :: 0 <= i < |g.table| ==> g.table[i].id < g.counter
  {
    InsertWellFormed(b, g, pos, n);
    var r := Insert(b, g, pos, n);
    assert r.table[|r.table| - 1].id == g.counter;
    assert forall j :: 0 <= j < |r.table| - 1 ==> r.table[j].id < r.table[|r.table| - 1].id;
  }

  /**
   * The shift rule without a collision: every row keeps its id and length,
   * and its start grows by n exactly when it lay beyond pos.
   */
  lemma InsertWithoutCollision(b: Backing, g: Genome, pos: int, n: nat)
    requires WellFormed(g) && ValidPos(b, g, pos)
    requires Collision(b, g, pos) == |g.table|
    ensures var r := Insert(b, g, pos, n);
      |r.table| == |g.table| + 1 &&
      r.cells == g.cells[..pos] + Repeat(Active, n) + g.cells[pos..] &&
      forall i :: 0 <= i < |g.table| ==>
        r.table[i].id == g.table[i].id && r.table[i].length == g.table[i].length &&
        r.table[i].start == (if g.table[i].start > pos then g.table[i].start + n else g.table[i].start)
  {
  }

  /**
   * The collision rule: the first row covering pos is dropped and its cells
   * become 'x'; rows before it are shifted, rows after it keep their start,
   * and no other TE leaves the table.
   */
  lemma InsertWithCollision(b: Backing, g: Genome, pos: int, n: nat)
    requires WellFormed(g) && ValidPos(b, g, pos)
    requires Collision(b, g, pos) < |g.table|
    ensures var k := Collision(b, g, pos); var e := g.table[k];
      var s := AfterScan(b, g, pos, n); var r := Insert(b, g, pos, n);
      Probe(b, g, pos) == Active && Covers(e, pos) &&
      (forall j :: 0 <= j < k ==> !Covers(g.table[j], pos)) &&
      s.cells == Overwrite(g.cells, e.start, e.length) &&
      |r.table| == |g.table| &&
      !IsActive(r, e.id) &&
      (forall i :: 0 <= i < k ==> r.table[i] == ShiftEntry(g.table[i], pos, n)) &&
      (forall i :: k < i < |g.table| ==> r.table[i - 1] == g.table[i]) &&
      forall id :: IsActive(g, id) && id != e.id ==> IsActive(r, id)
  {
    var k := Collision(b, g, pos);
    AfterScanTable(b, g, pos, n);
    CollidedGone(b, g, pos, n);
    forall id | IsActive(g, id) && id != g.table[k].id
      ensures IsActive(Insert(b, g, pos, n), id)
    {
      OthersStay(b, g, pos, n, id);
    }
  }

  /** One row of the table left by the scan. */
  lemma AfterScanRow(b: Backing, g: Genome, pos: int, n: nat, i: nat)
    requires WellFormed(g) && ValidPos(b, g, pos) && i < |AfterScan(b, g, pos, n).table|
    ensures var k := Collision(b, g, pos);
      i + 1 <= |g.table| && (i < k ==> i < |g.table|) &&
      AfterScan(b, g, pos, n).table[i] == (if i < k then ShiftEntry(g.table[i], pos, n) else g.table[i + 1])
  {
    AfterScanTable(b, g, pos, n);
  }

  /** After a collision the disabled TE's id is in no row of the new table. */
  lemma CollidedGone(b: Backing, g: Genome, pos: int, n: nat)
    requires WellFormed(g) && ValidPos(b, g, pos) && Collision(b, g, pos) < |g.table|
    ensures !IsActive(Insert(b, g, pos, n), g.table[Collision(b, g, pos)].id)
  {
    var k := Collision(b, g, pos);
    var id := g.table[k].id;
    var s := AfterScan(b, g, pos, n);
    var r := Insert(b, g, pos, n);
    forall j | 0 <= j < |r.table|
      ensures r.table[j].id != id
    {
      if j < |s.table| {
        AfterScanRow(b, g, pos, n, j);
        assert r.table[j] == s.table[j];
        var src := if j < k then j else j + 1;
        assert r.table[j].id == g.table[src].id;
      }
    }
  }

  /** After a collision every other active id is still active. */
  lemma OthersStay(b: Backing, g: Genome, pos: int, n: nat, id: nat)
    requires WellFormed(g) && ValidPos(b, g, pos) && Collision(b, g, pos) < |g.table|
    requires IsActive(g, id) && id != g.table[Collision(b, g, pos)].id
    ensures IsActive(Insert(b, g, pos, n), id)
  {
    var k := Collision(b, g, pos);
    var s := AfterScan(b, g, pos, n);
    var r := Insert(b, g, pos, n);
    var j := Find(g.table, id).value;
    var jr := if j < k then j else j - 1;
    AfterScanTable(b, g, pos, n);
    AfterScanRow(b, g, pos, n, jr);
    assert r.table[jr] == s.table[jr];
    FoundAt(r.table, id, jr);
  }

  /** The scan disables a TE exactly when the probed cell is 'A' and some row covers pos. */
  lemma CollisionIff(b: Backing, g: Genome, pos: int)
    requires ValidPos(b, g, pos)
    ensures Collision(b, g, pos) < |g.table| <==>
      g.table != [] && Probe(b, g, pos) == Active &&
      exists j :: 0 <= j < |g.table| && Covers(g.table[j], pos)
  {
    if g.table != [] && Probe(b, g, pos) == Active && exists j :: 0 <= j < |g.table| && Covers(g.table[j], pos) {
      var j :| 0 <= j < |g.table| && Covers(g.table[j], pos);
      assert FirstCover(g.table, pos) <= j;
    }
  }

  /**
   * disable_te sets exactly the cells [start, start + length) to 'x', keeps
   * the length and the counter, and removes exactly that id from the table.
   */
  lemma DisableEffect(g: Genome, id: nat)
    requires CanDisable(g, id)
    ensures var e := g.table[Find(g.table, id).value]; var r := Disable(g, id);
      |r.cells| == |g.cells| && r.counter == g.counter &&
      (forall i :: 0 <= i < |g.cells| ==>
        r.cells[i] == (if e.start <= i < e.start + e.length then Disabled else g.cells[i])) &&
      !IsActive(r, id) &&
      forall other :: other != id ==> (IsActive(r, other) <==> IsActive(g, other))
  {
    var k := Find(g.table, id).value;
    var e := g.table[k];
    OverwriteShape(g.cells, e.start, e.length);
    PopShape(g.table, k);
    forall other | other != id
      ensures IsActive(Disable(g, id), other) <==> IsActive(g, other)
    {
      PopKeepsOthers(g.table, k, Disable(g, id).table, other);
    }
  }

  /** `genome[pos:pos+l] = ['x'] * l`, cell by cell. */
  lemma OverwriteShape(cells: seq<char>, start: nat, n: nat)
    requires start + n <= |cells|
    ensures var r := Overwrite(cells, start, n);
      |r| == |cells| && forall i :: 0 <= i < |cells| ==> r[i] == if start <= i < start + n then Disabled else cells[i]
  {
  }

  /** Popping row k of an ascending table: the other rows close up, and k's id is gone. */
  lemma PopShape(t: seq<Entry>, k: nat)
    requires IdsIncreasing(t) && k < |t|
    ensures var r := t[..k] + t[k + 1..];
      |r| == |t| - 1 && (forall i :: 0 <= i < |r| ==> r[i] == t[if i < k then i else i + 1]) &&
      Find(r, t[k].id).None?
  {
    var r := t[..k] + t[k + 1..];
    forall j | 0 <= j < |r|
      ensures r[j].id != t[k].id
    {
      assert r[j] == t[if j < k then j else j + 1];
    }
  }

  /** Popping row k (r is t without it) leaves every other id exactly as active as it was. */
  lemma PopKeepsOthers(t: seq<Entry>, k: nat, r: seq<Entry>, other: nat)
    requires k < |t| && other != t[k].id && |r| == |t| - 1
    requires forall i :: 0 <= i < |r| ==> r[i] == t[if i < k then i else i + 1]
    ensures Find(r, other).Some? <==> Find(t, other).Some?
  {
    if Find(t, other).Some? {
      var j := Find(t, other).value;
      PopKeepsRow(t, k, r, j);
      FoundAt(r, other, if j < k then j else j - 1);
    }
    if Find(r, other).Some? {
      var j := Find(r, other).value;
      FoundAt(t, other, if j < k then j else j + 1);
    }
  }

  /** Every row but k survives the pop, one place earlier when it came after k. */
  lemma PopKeepsRow(t: seq<Entry>, k: nat, r: seq<Entry>, j: nat)
    requires k < |t| && j < |t| && j != k && |r| == |t| - 1
    requires forall i :: 0 <= i < |r| ==> r[i] == t[if i < k then i else i + 1]
    ensures (if j < k then j else j - 1) < |r| && r[if j < k then j else j - 1] == t[j]
  {
    var i := if j < k then j else j - 1;
    assert r[i] == t[if i < k then i else i + 1];
  }

  /** A row holding id makes the lookup succeed. */
  lemma FoundAt(t: seq<Entry>, id: nat, i: nat)
    requires i < |t| && t[i].id == id
    ensures Find(t, id).Some?
  {
  }

  /** A well-formed genome can disable any active id. */
  lemma ActiveCanDisable(g: Genome, id: nat)
    requires WellFormed(g) && IsActive(g, id)
    ensures CanDisable(g, id)
  {
  }

  /** disable_te keeps the invariant. */
  lemma DisableWellFormed(g: Genome, id: nat)
    requires WellFormed(g) && IsActive(g, id)
    ensures WellFormed(Disable(g, id))
  {
    var k := Find(g.table, id).value;
    var r := Disable(g, id);
    assert forall i :: 0 <= i < |r.table| ==> r.table[i] == g.table[if i < k then i else i + 1];
  }

  /** A disabled id is never active again: neither insertion nor disabling can bring it back. */
  lemma InactiveStaysInactive(b: Backing, g: Genome, pos: int, n: nat, id: nat)
    requires WellFormed(g) && ValidPos(b, g, pos)
    requires id < g.counter && !IsActive(g, id)
    ensures !IsActive(Insert(b, g, pos, n), id)
  {
    var k := Collision(b, g, pos);
    var r := Insert(b, g, pos, n);
    AfterScanTable(b, g, pos, n);
    forall j | 0 <= j < |r.table| - 1
      ensures r.table[j].id != id
    {
      var src := if j < k then j else j + 1;
      assert r.table[j].id == g.table[src].id;
    }
  }

  /** A copy of an inactive id returns None and changes nothing. */
  lemma CopyAbsent(b: Backing, g: Genome, te: nat, offset: int)
    requires WellFormed(g) && CanCopy(b, g, te, offset)
    requires !IsActive(g, te)
    ensures Copy(b, g, te, offset) == (g, None)
  {
  }

  /**
   * A copy of an active id inserts a block of the same length at
   * (start + offset) mod len, a position inside the genome, and returns the
   * new id; the copied TE is not disabled by its own copy unless the scan hits it.
   */
  lemma CopyActive(b: Backing, g: Genome, te: nat, offset: int)
    requires WellFormed(g) && CanCopy(b, g, te, offset)
    requires IsActive(g, te)
    ensures var e := g.table[Find(g.table, te).value];
      var p := Wrap(e.start, offset, |g.cells|); var r := Copy(b, g, te, offset);
      0 <= p < |g.cells| &&
      r.1 == Some(g.counter) &&
      |r.0.cells| == |g.cells| + e.length &&
      (forall i :: p <= i < p + e.length ==> r.0.cells[i] == Active) &&
      r.0.table[|r.0.table| - 1] == Entry(g.counter, p, e.length) &&
      IsActive(r.0, g.counter) && r.0.counter == g.counter + 1
  {
    var e := g.table[Find(g.table, te).value];
    var p := Wrap(e.start, offset, |g.cells|);
    InsertSplices(b, g, p, e.length);
    InsertIssuesId(b, g, p, e.length);
  }

  /** copy_te keeps the invariant. */
  lemma CopyWellFormed(b: Backing, g: Genome, te: nat, offset: int)
    requires WellFormed(g) && CanCopy(b, g, te, offset)
    ensures WellFormed(Copy(b, g, te, offset).0)
  {
    if IsActive(g, te) {
      var e := g.table[Find(g.table, te).value];
      InsertWellFormed(b, g, Wrap(e.start, offset, |g.cells|), e.length);
    }
  }

  /** An offset inside the circle lands where it points. */
  lemma WrapInside(start: int, offset: int, n: int)
    requires n > 0 && 0 <= start + offset < n
    ensures Wrap(start, offset, n) == start + offset
  {
  }

  /** A full turn around the circle, in either direction, lands in the same place. */
  lemma WrapFullTurn(start: int, offset: int, n: int)
    requires n > 0
    ensures Wrap(start, offset + n, n) == Wrap(start, offset, n)
    ensures Wrap(start, offset - n, n) == Wrap(start, offset, n)
  {
    var a := start + offset;
    assert a == (a / n) * n + a % n;
    assert a + n == (a / n + 1) * n + a % n;
    assert a - n == (a / n - 1) * n + a % n;
    DivModUnique(a + n, n, a / n + 1, a % n);
    DivModUnique(a - n, n, a / n - 1, a % n);
  }


  /** Wrap-around both ways: start 8, offset 5 on 10 cells lands at 3; start 2, offset -5 at 7. */
  lemma WrapExamples()
    ensures Wrap(8, 5, 10) == 3
    ensures Wrap(2, -5, 10) == 7
  {
  }
}
