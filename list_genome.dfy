/**
 * `ListGenome`: the genome kept as a Python list of cells, updated by slice
 * assignment, with the TE table and the id counter as per-instance fields.
 */
module ListGenomes {
  import opened Wrappers
  import opened GenomeModel
  import opened GenomeProperties

  class ListGenome {
    var genome: seq<char>
    var table: seq<Entry>
    var counter: nat

    /** The abstract genome this object represents. */
    function State(): Genome
      reads this
    {
      Genome(genome, table, counter)
    }

    ghost predicate Valid()
      reads this
    {
      WellFormed(State())
    }

    /** `ListGenome(n)`: n blank cells, an empty table, ids from 1. */
    constructor (n: int)
      ensures Valid() && State() == New(n)
    {
      genome := Repeat(Blank, if n < 0 then 0 else n);
      table := [];
      counter := 1;
    }

    /**
     * `insert_te(pos, length)`: scan the table in order, disabling the first
     * row that covers pos when `genome[pos]` is 'A' and stopping there, and
     * shifting the rows beyond pos met before that; then splice the 'A's in
     * and record the new row under the counter.
     */
    method InsertTe(pos: int, length: nat) returns (id: nat)
      requires Valid() && ValidPos(ArrayBacked, State(), pos)
      modifies this
      ensures Valid()
      ensures State() == Insert(ArrayBacked, old(State()), pos, length)
      ensures id == old(counter)
    {
      ghost var g := State();
      ScanTable(pos, length);
      genome := genome[..pos] + Repeat(Active, length) + genome[pos..];
      id := counter;
      table := table + [Entry(id, pos, length)];
      counter := counter + 1;
      InsertWellFormed(ArrayBacked, g, pos, length);
    }

    /**
     * The table scan of `insert_te`: while `genome[pos]` is 'A', the first
     * row covering pos is disabled and the scan stops; rows beyond pos met
     * before that are shifted by `length`.
     */
    method ScanTable(pos: int, length: nat)
      requires Valid() && ValidPos(ArrayBacked, State(), pos)
      modifies this
      ensures State() == AfterScan(ArrayBacked, old(State()), pos, length)
    {
      ghost var g := State();
      var i := 0;
      while i < |table|
        invariant i <= |g.table| && genome == g.cells && counter == g.counter && |table| == |g.table|
        invariant forall j :: 0 <= j < i ==> table[j] == ShiftEntry(g.table[j], pos, length)
        invariant forall j :: i <= j < |table| ==> table[j] == g.table[j]
        invariant forall j :: 0 <= j < i ==> !(genome[pos] == Active && Covers(g.table[j], pos))
      {
        var e := table[i];
        if genome[pos] == Active && e.start <= pos <= e.start + e.length {
          ScanStopsAt(ArrayBacked, g, pos, length, i, table);
          DisableTe(e.id);
          return;
        }
        if e.start > pos {
          table := table[i := e.(start := e.start + length)];
        }
        i := i + 1;
      }
      ScanRunsThrough(ArrayBacked, g, pos, length, table);
    }

    /**
     * `copy_te(te, offset)`: None for an inactive te; otherwise insert a TE
     * of the same length at `(start + offset) % len(genome)`.
     */
    method CopyTe(te: nat, offset: int) returns (r: Option<nat>)
      requires Valid() && CanCopy(ArrayBacked, State(), te, offset)
      modifies this
      ensures Valid()
      ensures (State(), r) == Copy(ArrayBacked, old(State()), te, offset)
    {
      var f := Find(table, te);
      if f.None? {
        return None;
      }
      var pos := table[f.value].start;
      var length := table[f.value].length;
      var insertionPosition := (pos + offset) % |genome|;
      var id := InsertTe(insertionPosition, length);
      r := Some(id);
    }

    /**
     * `disable_te(te)`: pop the row of te and overwrite its cells with 'x'.
     * The id must be active (Python's `pop` raises otherwise).
     */
    method DisableTe(te: nat)
      requires CanDisable(State(), te)
      modifies this
      ensures State() == Disable(old(State()), te)
      ensures old(Valid()) ==> Valid()
    {
      ghost var g := State();
      ghost var wasValid := Valid();
      var k := Find(table, te).value;
      var dropped := table[k];
      table := table[..k] + table[k + 1..];
      genome := genome[..dropped.start] + Repeat(Disabled, dropped.length) + genome[dropped.start + dropped.length..];
      if wasValid {
        DisableWellFormed(g, te);
      }
    }

    /** `active_tes()`: the table's keys in dictionary order, hence ascending, and exactly the active ids. */
    method ActiveTes() returns (ids: seq<nat>)
      requires Valid()
      ensures |ids| == |table| && forall i :: 0 <= i < |ids| ==> ids[i] == table[i].id
      ensures forall i, j :: 0 <= i < j < |ids| ==> ids[i] < ids[j]
      ensures forall id :: id in ids <==> IsActive(State(), id)
    {
      ids := Ids(table);
      forall id
        ensures id in ids <==> IsActive(State(), id)
      {
        ListedIffActive(table, id);
      }
    }

    /** `__len__`: the number of cells. */
    method Length() returns (n: nat)
      ensures n == |State().cells|
    {
      n := |genome|;
    }

    /** `__str__`: the cells from position 0, one character each. */
    method Str() returns (s: string)
      ensures s == State().cells
    {
      s := genome;
    }
  }
}
