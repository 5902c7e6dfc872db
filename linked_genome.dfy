/**
 * `LinkedListGenome`: the genome kept in a circular doubly-linked list, with
 * the TE table and the id counter as per-instance fields.
 */
module LinkedListGenomes {
  import opened Wrappers
  import opened GenomeModel
  import opened GenomeProperties
  import opened CircularList
  import opened ModArith

  class LinkedListGenome {
    const genome: DLList
    var table: seq<Entry>
    var counter: nat

    /** The abstract genome this object represents. */
    ghost function State(): Genome
      reads this, genome
    {
      Genome(genome.Contents, table, counter)
    }

    ghost predicate Valid()
      reads this, genome
    {
      genome.Valid() && WellFormed(State())
    }

    /** `LinkedListGenome(n)`: a ring of n blank cells, an empty table, ids from 1. */
    constructor (n: int)
      ensures Valid() && State() == New(n) && fresh(genome)
    {
      var seg := Repeat(Blank, if n < 0 then 0 else n);
      genome := new DLList(seg);
      table := [];
      counter := 1;
    }

    /**
     * `insert_te(pos, length)`: find the pos-th link (1-based), scan the table
     * in order, disabling the first row that covers pos when that link holds
     * 'A' and stopping there, and shifting the rows beyond pos met before
     * that; then insert the 'A's after the link and record the new row.
     */
    method InsertTe(pos: int, length: nat) returns (id: nat)
      requires Valid() && ValidPos(LinkBacked, State(), pos)
      modifies this, genome
      ensures Valid()
      ensures State() == Insert(LinkBacked, old(State()), pos, length)
      ensures id == old(counter)
    {
      ghost var g := State();
      var linkOfPos := genome.GetPosition(pos);
      DivModUnique(pos, |genome.order| + 1, 0, pos);
      var link := linkOfPos.value;
      ScanTable(link, pos, length);
      ghost var scanned := genome.Contents;
      genome.InsertNElements(link, length, pos);
      assert genome.Contents == Splice(scanned, pos, length) by {
        assert seq(length, _ => 'A') == Repeat(Active, length);
      }
      id := counter;
      table := table + [Entry(id, pos, length)];
      counter := counter + 1;
      InsertWellFormed(LinkBacked, g, pos, length);
    }

    /**
     * The table scan of `insert_te`: while the pos-th link holds 'A', the
     * first row covering pos is disabled and the scan stops; rows beyond pos
     * met before that are shifted by `length`.
     */
    method ScanTable(link: nat, pos: int, length: nat)
      requires Valid() && ValidPos(LinkBacked, State(), pos) && link == genome.Node(pos)
      modifies this, genome
      ensures genome.Valid() && genome.order == old(genome.order) && counter == old(counter)
      ensures State() == AfterScan(LinkBacked, old(State()), pos, length)
    {
      ghost var g := State();
      ghost var ring := genome.order;
      genome.Neighbours(pos);
      var i := 0;
      while i < |table|
        invariant genome.Valid() && genome.order == ring
        invariant genome.links[link].val == Some(g.cells[pos - 1])
        invariant i <= |g.table| && genome.Contents == g.cells && counter == g.counter && |table| == |g.table|
        invariant forall j :: 0 <= j < i ==> table[j] == ShiftEntry(g.table[j], pos, length)
        invariant forall j :: i <= j < |table| ==> table[j] == g.table[j]
        invariant forall j :: 0 <= j < i ==> !(g.cells[pos - 1] == Active && Covers(g.table[j], pos))
      {
        var e := table[i];
        if genome.links[link].val == Some(Active) {
          if e.start <= pos <= e.start + e.length {
            ScanStopsAt(LinkBacked, g, pos, length, i, table);
            DisableTe(e.id);
            return;
          }
        }
        if e.start > pos {
          table := table[i := e.(start := e.start + length)];
        }
        i := i + 1;
      }
      ScanRunsThrough(LinkBacked, g, pos, length, table);
    }

    /**
     * `copy_te(te, offset)`: None for an inactive te; otherwise insert a TE
     * of the same length at `(start + offset) % len(genome)`.
     */
    method CopyTe(te: nat, offset: int) returns (r: Option<nat>)
      requires Valid() && CanCopy(LinkBacked, State(), te, offset)
      modifies this, genome
      ensures Valid()
      ensures (State(), r) == Copy(LinkBacked, old(State()), te, offset)
    {
      var f := Find(table, te);
      if f.None? {
        return None;
      }
      var pos := table[f.value].start;
      var length := table[f.value].length;
      var size := genome.Length();
      var insertionPosition := (pos + offset) % size;
      var id := InsertTe(insertionPosition, length);
      r := Some(id);
    }

    /**
     * `disable_te(te)`: walk from head.next to the recorded start, overwrite
     * `length` links with 'x', then pop the row. The id must be active
     * (the dictionary lookup raises otherwise).
     */
    method DisableTe(te: nat)
      requires genome.Valid() && CanDisable(State(), te)
      modifies this, genome
      ensures genome.Valid() && genome.order == old(genome.order)
      ensures State() == Disable(old(State()), te)
      ensures old(Valid()) ==> Valid()
    {
      ghost var g := State();
      ghost var wasValid := Valid();
      ghost var n := |genome.order|;
      var k := Find(table, te).value;
      var howLong: nat := table[k].length;
      ghost var start := table[k].start;
      ghost var len := howLong;
      ghost var ring := genome.order;
      assert start + len <= n;
      var activeCounter := 0;
      genome.Neighbours(Head);
      var link := genome.links[Head].next;
      for i := 0 to |table|
        modifies {}
        invariant i <= k ==> activeCounter == 0
        invariant i > k ==> activeCounter == start
        invariant activeCounter <= n && link == genome.Node(Succ(activeCounter, n))
      {
        if table[i].id == te {
          assert i == k;
          while table[i].start != activeCounter
            modifies {}
            invariant activeCounter <= start && link == genome.Node(Succ(activeCounter, n))
            decreases start - activeCounter
          {
            genome.Neighbours(Succ(activeCounter, n));
            link := genome.links[link].next;
            activeCounter := activeCounter + 1;
          }
        }
      }
      DisableRun(link, howLong, start);
      table := table[..k] + table[k + 1..];
      if wasValid {
        DisableWellFormed(g, te);
      }
    }

    /**
     * The write loop of `disable_te`: starting at `link`, the (start+1)-th
     * link, set `len` consecutive links to 'x', following `next`.
     */
    method DisableRun(link: nat, len: nat, ghost start: nat)
      requires genome.Valid() && start + len <= |genome.Contents|
      requires link == genome.Node(Succ(start, |genome.order|))
      modifies genome
      ensures genome.Valid() && genome.order == old(genome.order)
      ensures genome.Contents == Overwrite(old(genome.Contents), start, len)
    {
      ghost var cells := genome.Contents;
      ghost var ring := genome.order;
      ghost var n := |ring|;
      var at := link;
      var howLong: nat := len;
      while howLong != 0
        invariant genome.Valid() && genome.order == ring && |genome.Contents| == n
        invariant howLong <= len && at == genome.Node(Succ(start + (len - howLong), n))
        invariant forall c :: 0 <= c < n ==>
          genome.Contents[c] == if start <= c < start + (len - howLong) then Disabled else cells[c]
      {
        ghost var done := len - howLong;
        genome.SetVal(at, Disabled, start + done + 1);
        genome.Neighbours(start + done + 1);
        at := genome.links[at].next;
        howLong := howLong - 1;
      }
      OverwriteCells(cells, start, len, genome.Contents);
    }

    /** `active_tes()`: the table's keys in dictionary order, hence ascending, and exactly the active ids. */
    method ActiveTes() returns (ids: seq<nat>)
      requires Valid()
      ensures |ids| == |table| && forall i :: 0 <= i < |ids| ==> ids[i] == table[i].id
      ensures forall i, j :: 0 <= i < j < |ids| ==> ids[i] < ids[j]
      ensures forall id :: id in ids <==> IsActive(State(), id)
    {
      ids := Ids(table);
      forall id
        ensures id in ids <==> IsActive(State(), id)
      {
        ListedIffActive(table, id);
      }
    }

    /** `__len__`: the length of the ring, counted by traversal. */
    method Length() returns (n: nat)
      requires Valid()
      ensures n == |State().cells|
    {
      n := genome.Length();
    }

    /** `__str__`: the values met iterating the ring from head.next. */
    method Str() returns (s: string)
      requires Valid()
      ensures s == State().cells
    {
      s := genome.Values();
    }
  }
}
