/**
 * How the list-backed and the link-backed `insert_te` relate. Both scan the
 * table the same way, but the list version reads `genome[pos]` while the
 * linked version reads the value of the pos-th link, i.e. cell pos-1. They
 * therefore agree exactly when the two probes lead to the same collision,
 * and the same calls on the two classes can leave different genomes.
 */
module Representations {
  import opened Wrappers
  import opened GenomeModel
  import opened GenomeProperties

  /**
   * On positions both accept, the two insertions agree iff no row covers pos,
   * or the list's probe `genome[pos]` and the linked probe (cell pos-1) are
   * both 'A' or both not 'A'.
   */
  lemma {:induction false} BackingsAgreeIff(g: Genome, pos: int, n: nat)
    requires WellFormed(g) && ValidPos(ArrayBacked, g, pos) && ValidPos(LinkBacked, g, pos)
    ensures Insert(ArrayBacked, g, pos, n) == Insert(LinkBacked, g, pos, n) <==>
      FirstCover(g.table, pos) == |g.table| || (g.cells[pos] == Active <==> g.cells[pos - 1] == Active)
  {
    var kA, kL := Collision(ArrayBacked, g, pos), Collision(LinkBacked, g, pos);
    var rA, rL := Insert(ArrayBacked, g, pos, n), Insert(LinkBacked, g, pos, n);
    if kA != kL {
      AfterScanTable(ArrayBacked, g, pos, n);
      AfterScanTable(LinkBacked, g, pos, n);
      assert |rA.table| != |rL.table|;
    }
  }

  /** Where no row covers pos, neither scan stops, so the two insertions agree. */
  lemma NoCoverAgree(g: Genome, pos: int, n: nat)
    requires WellFormed(g) && ValidPos(ArrayBacked, g, pos) && ValidPos(LinkBacked, g, pos)
    requires forall j :: 0 <= j < |g.table| ==> !Covers(g.table[j], pos)
    ensures Insert(ArrayBacked, g, pos, n) == Insert(LinkBacked, g, pos, n)
  {
    BackingsAgreeIff(g, pos, n);
  }

  /**
   * The same two calls on both classes, from a genome of 3 blank cells:
   * `insert_te(1, 2)` gives "-AA--" with TE 1 at [1, 2] on both
   * (`DivergeStart`). Then `insert_te(3, 1)` differs: the list version reads
   * '-' at index 3 and keeps TE 1; the linked version reads 'A' in the third
   * link, which TE 1 covers, and disables it.
   */
  lemma BackingsDiverge()
    ensures var g := Genome("-AA--", [Entry(1, 1, 2)], 2);
      WellFormed(g) && ValidPos(ArrayBacked, g, 3) && ValidPos(LinkBacked, g, 3) &&
      Insert(ArrayBacked, g, 3, 1) == Genome("-AAA--", [Entry(1, 1, 2), Entry(2, 3, 1)], 3) &&
      Insert(LinkBacked, g, 3, 1) == Genome("-xxA--", [Entry(2, 3, 1)], 3)
  {
    DivergeList();
    DivergeLinked();
  }

  lemma DivergeStart()
    ensures Insert(ArrayBacked, New(3), 1, 2) == Genome("-AA--", [Entry(1, 1, 2)], 2)
    ensures Insert(LinkBacked, New(3), 1, 2) == Genome("-AA--", [Entry(1, 1, 2)], 2)
  {
    assert New(3) == Genome("---", [], 1);
    assert Splice("---", 1, 2) == "-AA--";
  }

  lemma DivergeList()
    ensures var g := Genome("-AA--", [Entry(1, 1, 2)], 2);
      Insert(ArrayBacked, g, 3, 1) == Genome("-AAA--", [Entry(1, 1, 2), Entry(2, 3, 1)], 3)
  {
    var g := Genome("-AA--", [Entry(1, 1, 2)], 2);
    assert Collision(ArrayBacked, g, 3) == 1;
    assert AfterScan(ArrayBacked, g, 3, 1) == g;
    assert Splice("-AA--", 3, 1) == "-AAA--";
  }

  lemma DivergeLinked()
    ensures var g := Genome("-AA--", [Entry(1, 1, 2)], 2);
      Insert(LinkBacked, g, 3, 1) == Genome("-xxA--", [Entry(2, 3, 1)], 3)
  {
    var g := Genome("-AA--", [Entry(1, 1, 2)], 2);
    assert Collision(LinkBacked, g, 3) == 0;
    assert Overwrite(g.cells, 1, 2) == "-xx--";
    assert AfterScan(LinkBacked, g, 3, 1) == Genome("-xx--", [], 2);
    assert Splice("-xx--", 3, 1) == "-xxA--";
  }

  /**
   * Active TEs can end up claiming overlapping cells. From 5 blank cells,
   * `insert_te(0, 2)` gives TE 1 at [0, 2] (`ListScenarioInsert`) and
   * `insert_te(2, 2)` gives TE 2 at [2, 2] (`OverlapSecond`). Then
   * `insert_te(2, 1)` reads 'A' at index 2, disables TE 1 (the first row
   * covering 2, though TE 2 holds that cell), and does not shift TE 2 (its
   * start is not beyond 2). TE 2 and TE 3 are both active with recorded
   * ranges starting at 2.
   */
  lemma OverlapWitness()
    ensures var g := Genome("AAAA-----", [Entry(1, 0, 2), Entry(2, 2, 2)], 3);
      WellFormed(g) && ValidPos(ArrayBacked, g, 2) &&
      var r := Insert(ArrayBacked, g, 2, 1);
      r == Genome("xxAAA-----", [Entry(2, 2, 2), Entry(3, 2, 1)], 4) &&
      IsActive(r, 2) && IsActive(r, 3) && !IsActive(r, 1)
  {
    OverlapThird();
    OverlapActive();
  }

  lemma OverlapSecond()
    ensures var g := Genome("AA-----", [Entry(1, 0, 2)], 2);
      Insert(ArrayBacked, g, 2, 2) == Genome("AAAA-----", [Entry(1, 0, 2), Entry(2, 2, 2)], 3)
  {
    var g := Genome("AA-----", [Entry(1, 0, 2)], 2);
    assert Collision(ArrayBacked, g, 2) == 1;
    assert AfterScan(ArrayBacked, g, 2, 2) == g;
    assert Splice("AA-----", 2, 2) == "AAAA-----";
  }

  lemma OverlapThird()
    ensures var g := Genome("AAAA-----", [Entry(1, 0, 2), Entry(2, 2, 2)], 3);
      Insert(ArrayBacked, g, 2, 1) == Genome("xxAAA-----", [Entry(2, 2, 2), Entry(3, 2, 1)], 4)
  {
    OverlapScan();
    assert Splice("xxAA-----", 2, 1) == "xxAAA-----";
  }

  lemma OverlapScan()
    ensures var g := Genome("AAAA-----", [Entry(1, 0, 2), Entry(2, 2, 2)], 3);
      WellFormed(g) && AfterScan(ArrayBacked, g, 2, 1) == Genome("xxAA-----", [Entry(2, 2, 2)], 3)
  {
    var g := Genome("AAAA-----", [Entry(1, 0, 2), Entry(2, 2, 2)], 3);
    assert Collision(ArrayBacked, g, 2) == 0;
    assert Overwrite(g.cells, 0, 2) == "xxAA-----";
  }

  lemma OverlapActive()
    ensures var r := Genome("xxAAA-----", [Entry(2, 2, 2), Entry(3, 2, 1)], 4);
      IsActive(r, 2) && IsActive(r, 3) && !IsActive(r, 1)
  {
    var t := [Entry(2, 2, 2), Entry(3, 2, 1)];
    assert Find(t, 2) == Some(0);
    assert Find(t, 3) == Some(1);
  }

  // A run of the list genome: `ListGenome(5)`, then `insert_te(0, 2)` gives
  // TE 1, `copy_te(1, 3)` lands at 3 and gives TE 2, and `disable_te(1)`
  // leaves "xx-AA----".

  lemma ListScenarioInsert()
    ensures Insert(ArrayBacked, New(5), 0, 2) == Genome("AA-----", [Entry(1, 0, 2)], 2)
  {
    assert New(5) == Genome("-----", [], 1);
    assert Splice("-----", 0, 2) == "AA-----";
  }

  lemma ListScenarioCopy()
    ensures var g := Genome("AA-----", [Entry(1, 0, 2)], 2);
      WellFormed(g) && CanCopy(ArrayBacked, g, 1, 3) &&
      Copy(ArrayBacked, g, 1, 3) == (Genome("AA-AA----", [Entry(1, 0, 2), Entry(2, 3, 2)], 3), Some(2))
  {
    var g := Genome("AA-----", [Entry(1, 0, 2)], 2);
    assert Find(g.table, 1) == Some(0);
    assert Wrap(0, 3, 7) == 3;
    assert Collision(ArrayBacked, g, 3) == 1;
    assert AfterScan(ArrayBacked, g, 3, 2) == g;
    assert Splice("AA-----", 3, 2) == "AA-AA----";
    assert Insert(ArrayBacked, g, 3, 2) == Genome("AA-AA----", [Entry(1, 0, 2), Entry(2, 3, 2)], 3);
  }

  lemma ListScenarioDisable()
    ensures var g := Genome("AA-AA----", [Entry(1, 0, 2), Entry(2, 3, 2)], 3);
      CanDisable(g, 1) && Disable(g, 1) == Genome("xx-AA----", [Entry(2, 3, 2)], 3)
  {
    assert Overwrite("AA-AA----", 0, 2) == "xx-AA----";
  }

  // The same run on the linked genome, inserting at pos 1 (the linked version
  // needs pos >= 1): TE 1 occupies cells 1 and 2, `copy_te(1, 3)` lands at 4,
  // and `disable_te(1)` leaves "-xx-AA---".

  lemma LinkedScenarioInsert()
    ensures Insert(LinkBacked, New(5), 1, 2) == Genome("-AA----", [Entry(1, 1, 2)], 2)
  {
    assert New(5) == Genome("-----", [], 1);
    assert Splice("-----", 1, 2) == "-AA----";
  }

  lemma LinkedScenarioCopy()
    ensures var g := Genome("-AA----", [Entry(1, 1, 2)], 2);
      WellFormed(g) && CanCopy(LinkBacked, g, 1, 3) &&
      Copy(LinkBacked, g, 1, 3) == (Genome("-AA-AA---", [Entry(1, 1, 2), Entry(2, 4, 2)], 3), Some(2))
  {
    var g := Genome("-AA----", [Entry(1, 1, 2)], 2);
    assert Find(g.table, 1) == Some(0);
    assert Wrap(1, 3, 7) == 4;
    assert Collision(LinkBacked, g, 4) == 1;
    assert AfterScan(LinkBacked, g, 4, 2) == g;
    assert Splice("-AA----", 4, 2) == "-AA-AA---";
    assert Insert(LinkBacked, g, 4, 2) == Genome("-AA-AA---", [Entry(1, 1, 2), Entry(2, 4, 2)], 3);
  }

  lemma LinkedScenarioDisable()
    ensures var g := Genome("-AA-AA---", [Entry(1, 1, 2), Entry(2, 4, 2)], 3);
      CanDisable(g, 1) && Disable(g, 1) == Genome("-xx-AA---", [Entry(2, 4, 2)], 3)
  {
    assert Overwrite("-AA-AA---", 1, 2) == "-xx-AA---";
  }
}
