/**
 * The circular doubly-linked list with a dummy head. Links live in an arena
 * (`links`, head at index 0); an index stands for a reference to a link.
 * The ghost `order` lists the arena indices of the real links in ring order
 * starting after the head, `Contents` their values, and `rank` maps each
 * arena index back to its rank on the ring (the head has rank 0).
 */
module CircularList {
  import opened Wrappers
  import opened ModArith

  /** A link: its value (None for the dummy head) and its neighbours' indices. */
  datatype Link = Link(val: Option<char>, prev: nat, next: nat)

  const Head: nat := 0

  /** The rank after rank k on a ring of n real links plus the head (rank 0). */
  function Succ(k: nat, n: nat): (r: nat)
    requires k <= n
    ensures r <= n
  {
    if k == n then 0 else k + 1
  }

  /** The rank before rank k on the same ring. */
  function Pred(k: nat, n: nat): (r: nat)
    requires k <= n
    ensures r <= n && Succ(r, n) == k
  {
    if k == 0 then n else k - 1
  }

  /** The arena index at rank k of a ring whose real links are `order`. */
  ghost function NodeIn(order: seq<nat>, k: nat): nat
    requires k <= |order|
  {
    if k == 0 then Head else order[k - 1]
  }

  /**
   * The ring invariant over an arena: the head holds no value, every real
   * link is an arena index reached once (its rank is recorded in `rank`),
   * it holds its value from `contents`, and next and prev follow the ring.
   */
  ghost predicate Ring(links: seq<Link>, order: seq<nat>, rank: seq<nat>, contents: seq<char>)
  {
    |links| == |order| + 1 && |contents| == |order| && |rank| == |links| &&
    links[Head].val == None &&
    (forall k :: 0 <= k < |order| ==> Head < order[k] < |links|) &&
    Ranked(order, rank) && Holds(links, order, contents) && Linked(links, order)
  }

  /** `rank` inverts `order`, so no link is reached twice. */
  ghost predicate Ranked(order: seq<nat>, rank: seq<nat>)
  {
    |rank| == |order| + 1 && (forall k :: 0 <= k < |order| ==> order[k] < |rank|) &&
    rank[Head] == 0 && forall k {:trigger rank[order[k]]} :: 0 <= k < |order| ==> rank[order[k]] == k + 1
  }

  /** The real links hold `contents`, in ring order. */
  ghost predicate Holds(links: seq<Link>, order: seq<nat>, contents: seq<char>)
  {
    |contents| == |order| && (forall k :: 0 <= k < |order| ==> order[k] < |links|) &&
    forall k {:trigger links[order[k]]} :: 0 <= k < |order| ==> links[order[k]].val == Some(contents[k])
  }

  /** next and prev of the link at each rank are the links at the next and previous rank. */
  ghost predicate Linked(links: seq<Link>, order: seq<nat>)
  {
    |links| == |order| + 1 && (forall k :: 0 <= k < |order| ==> order[k] < |links|) &&
    (forall k {:trigger links[NodeIn(order, k)]} :: 0 <= k <= |order| ==>
      links[NodeIn(order, k)].next == NodeIn(order, Succ(k, |order|))) &&
    (forall k {:trigger links[NodeIn(order, k)]} :: 0 <= k <= |order| ==>
      links[NodeIn(order, k)].prev == NodeIn(order, Pred(k, |order|)))
  }

  /** The arena after `insert_after` on the link at rank `at`. */
  ghost function Spliced(links: seq<Link>, at: nat, order: seq<nat>, val: char): (r: seq<Link>)
    requires at <= |order| && |links| == |order| + 1
    requires NodeIn(order, at) < |links| && links[NodeIn(order, at)].next < |links|
    ensures |r| == |links| + 1
    ensures r[|links|] == Link(Some(val), NodeIn(order, at), links[NodeIn(order, at)].next)
  {
    var link := NodeIn(order, at);
    var added := |links|;
    var succ := links[link].next;
    var l1 := links + [Link(Some(val), link, succ)];
    var l2 := l1[link := l1[link].(next := added)];
    l2[succ := l2[succ].(prev := added)]
  }

  /** The ranks after a link is spliced in at rank at + 1: later links move one rank on. */
  ghost function Reranked(rank: seq<nat>, at: nat): (r: seq<nat>)
    ensures |r| == |rank| + 1
  {
    seq(|rank| + 1, i requires 0 <= i <= |rank| =>
      if i == |rank| then at + 1 else if rank[i] > at then rank[i] + 1 else rank[i])
  }

  /** The link at each new rank: unchanged up to `at`, the added link, then the old links one rank on. */
  lemma SplicedOrderAt(order: seq<nat>, at: nat, added: nat, k: nat)
    requires at <= |order| && k <= |order| + 1
    ensures NodeIn(order[..at] + [added] + order[at..], k) ==
      (if k <= at then NodeIn(order, k) else if k == at + 1 then added else NodeIn(order, k - 1))
  {
  }

  lemma SplicedRanked(order: seq<nat>, rank: seq<nat>, at: nat)
    requires Ranked(order, rank) && at <= |order|
    ensures Ranked(order[..at] + [|rank|] + order[at..], Reranked(rank, at))
  {
    var order' := order[..at] + [|rank|] + order[at..];
    forall k | 0 <= k < |order'|
      ensures Reranked(rank, at)[order'[k]] == k + 1
    {
      if k < at {
        assert order'[k] == order[k];
      } else if k > at {
        assert order'[k] == order[k - 1];
      }
    }
  }

  /** The spliced arena link by link: `link` now points on to the added link, `succ` back to it. */
  lemma SplicedShape(links: seq<Link>, order: seq<nat>, at: nat, val: char)
    requires at <= |order| && |links| == |order| + 1
    requires NodeIn(order, at) < |links| && links[NodeIn(order, at)].next < |links|
    ensures var links' := Spliced(links, at, order, val);
      var link := NodeIn(order, at); var succ := links[link].next;
      |links'| == |links| + 1 && links'[|links|] == Link(Some(val), link, succ) &&
      forall i :: 0 <= i < |links| ==>
        links'[i].val == links[i].val &&
        links'[i].next == (if i == link then |links| else links[i].next) &&
        links'[i].prev == (if i == succ then |links| else links[i].prev)
  {
  }

  lemma SplicedHolds(links: seq<Link>, order: seq<nat>, rank: seq<nat>, contents: seq<char>, at: nat, val: char)
    requires Ring(links, order, rank, contents) && at <= |order|
    requires NodeIn(order, at) < |links| && links[NodeIn(order, at)].next < |links|
    ensures Holds(Spliced(links, at, order, val), order[..at] + [|links|] + order[at..], contents[..at] + [val] + contents[at..])
  {
    var links' := Spliced(links, at, order, val);
    var order' := order[..at] + [|links|] + order[at..];
    var contents' := contents[..at] + [val] + contents[at..];
    SplicedShape(links, order, at, val);
    assert Holds(links, order, contents);
    forall k | 0 <= k < |order'|
      ensures order'[k] < |links'| && links'[order'[k]].val == Some(contents'[k])
    {
      if k < at {
        assert order'[k] == order[k] && contents'[k] == contents[k];
        assert links[order[k]].val == Some(contents[k]);
      } else if k > at {
        assert order'[k] == order[k - 1] && contents'[k] == contents[k - 1];
        assert links[order[k - 1]].val == Some(contents[k - 1]);
      } else {
        assert order'[k] == |links| && contents'[k] == val;
      }
    }
  }

  /** The link at rank k has rank k, so it is at no other rank. */
  lemma NodeRankAt(order: seq<nat>, rank: seq<nat>, k: nat)
    requires Ranked(order, rank) && k <= |order|
    ensures NodeIn(order, k) < |rank| && rank[NodeIn(order, k)] == k
  {
  }

  lemma SplicedNextAt(links: seq<Link>, order: seq<nat>, rank: seq<nat>, at: nat, val: char, k: nat)
    requires |links| == |order| + 1 && Linked(links, order) && Ranked(order, rank)
    requires at <= |order| && k <= |order| + 1
    requires NodeIn(order, at) < |links| && links[NodeIn(order, at)].next < |links|
    ensures var links' := Spliced(links, at, order, val); var order' := order[..at] + [|links|] + order[at..];
      links'[NodeIn(order', k)].next == NodeIn(order', Succ(k, |order'|))
  {
    var n := |order|;
    var link := NodeIn(order, at);
    var added := |links|;
    SplicedShape(links, order, at, val);
    SplicedOrderAt(order, at, added, k);
    SplicedOrderAt(order, at, added, Succ(k, n + 1));
    NodeRankAt(order, rank, at);
    if k < at {
      NodeRankAt(order, rank, k);
      assert links[NodeIn(order, k)].next == NodeIn(order, Succ(k, n));
    } else if k > at + 1 {
      NodeRankAt(order, rank, k - 1);
      assert links[NodeIn(order, k - 1)].next == NodeIn(order, Succ(k - 1, n));
    } else if k == at + 1 {
      assert links[link].next == NodeIn(order, Succ(at, n));
    }
  }

  lemma SplicedNext(links: seq<Link>, order: seq<nat>, rank: seq<nat>, contents: seq<char>, at: nat, val: char)
    requires Ring(links, order, rank, contents) && at <= |order|
    requires NodeIn(order, at) < |links| && links[NodeIn(order, at)].next < |links|
    ensures var links' := Spliced(links, at, order, val); var order' := order[..at] + [|links|] + order[at..];
      forall k :: 0 <= k <= |order'| ==> links'[NodeIn(order', k)].next == NodeIn(order', Succ(k, |order'|))
  {
    forall k | 0 <= k <= |order| + 1
      ensures var links' := Spliced(links, at, order, val); var order' := order[..at] + [|links|] + order[at..];
        links'[NodeIn(order', k)].next == NodeIn(order', Succ(k, |order'|))
    {
      SplicedNextAt(links, order, rank, at, val, k);
    }
  }

  lemma SplicedPrevAt(links: seq<Link>, order: seq<nat>, rank: seq<nat>, at: nat, val: char, k: nat)
    requires |links| == |order| + 1 && Linked(links, order) && Ranked(order, rank)
    requires at <= |order| && k <= |order| + 1
    requires NodeIn(order, at) < |links| && links[NodeIn(order, at)].next < |links|
    ensures var links' := Spliced(links, at, order, val); var order' := order[..at] + [|links|] + order[at..];
      links'[NodeIn(order', k)].prev == NodeIn(order', Pred(k, |order'|))
  {
    var n := |order|;
    var link := NodeIn(order, at);
    var added := |links|;
    var succ := links[link].next;
    assert succ == NodeIn(order, Succ(at, n));
    NodeRankAt(order, rank, Succ(at, n));
    SplicedShape(links, order, at, val);
    SplicedOrderAt(order, at, added, k);
    SplicedOrderAt(order, at, added, Pred(k, n + 1));
    if k <= at {
      NodeRankAt(order, rank, k);
      assert links[NodeIn(order, k)].prev == NodeIn(order, Pred(k, n));
    } else if k > at + 1 {
      NodeRankAt(order, rank, k - 1);
      assert links[NodeIn(order, k - 1)].prev == NodeIn(order, Pred(k - 1, n));
    }
  }

  lemma SplicedPrev(links: seq<Link>, order: seq<nat>, rank: seq<nat>, contents: seq<char>, at: nat, val: char)
    requires Ring(links, order, rank, contents) && at <= |order|
    requires NodeIn(order, at) < |links| && links[NodeIn(order, at)].next < |links|
    ensures var links' := Spliced(links, at, order, val); var order' := order[..at] + [|links|] + order[at..];
      forall k :: 0 <= k <= |order'| ==> links'[NodeIn(order', k)].prev == NodeIn(order', Pred(k, |order'|))
  {
    forall k | 0 <= k <= |order| + 1
      ensures var links' := Spliced(links, at, order, val); var order' := order[..at] + [|links|] + order[at..];
        links'[NodeIn(order', k)].prev == NodeIn(order', Pred(k, |order'|))
    {
      SplicedPrevAt(links, order, rank, at, val, k);
    }
  }

  /** insert_after keeps the ring invariant and puts the new link at rank at + 1. */
  lemma SplicedRing(links: seq<Link>, order: seq<nat>, rank: seq<nat>, contents: seq<char>, at: nat, val: char)
    requires Ring(links, order, rank, contents) && at <= |order|
    ensures NodeIn(order, at) < |links| && links[NodeIn(order, at)].next < |links|
    ensures Ring(Spliced(links, at, order, val), order[..at] + [|links|] + order[at..],
                 Reranked(rank, at), contents[..at] + [val] + contents[at..])
  {
    assert links[NodeIn(order, at)].next == NodeIn(order, Succ(at, |order|));
    SplicedRanked(order, rank, at);
    SplicedHolds(links, order, rank, contents, at, val);
    SplicedNext(links, order, rank, contents, at, val);
    SplicedPrev(links, order, rank, contents, at, val);
  }

  class DLList {
    var links: seq<Link>
    ghost var order: seq<nat>
    ghost var Contents: seq<char>
    ghost var rank: seq<nat>

    /** The link at rank k: the head for k = 0, the k-th real link otherwise. */
    ghost function Node(k: nat): nat
      reads this`order
      requires k <= |order|
    {
      NodeIn(order, k)
    }

    /** The ring invariant: circular, prev and next inverse, the head outside Contents. */
    ghost predicate Valid()
      reads this
    {
      Ring(links, order, rank, Contents)
    }

    /** The neighbours of the link at rank k. */
    lemma Neighbours(k: nat)
      requires Valid() && k <= |order|
      ensures links[Node(k)].next == Node(Succ(k, |order|))
      ensures links[Node(k)].prev == Node(Pred(k, |order|))
    {
    }

    /** Only the head sits at rank 0. */
    lemma NodeIsHeadOnlyAtZero(k: nat)
      requires Valid() && k <= |order|
      ensures (Node(k) == Head) == (k == 0)
    {
    }

    /** `insert_after(link, val)`: splice one new link right after the link at rank `at`. */
    method InsertAfter(link: nat, val: char, ghost at: nat)
      requires Valid() && at <= |order| && link == Node(at)
      modifies this
      ensures Valid()
      ensures |links| == old(|links|) + 1 && links[link].next == old(|links|)
      ensures order == old(order)[..at] + [old(|links|)] + old(order)[at..]
      ensures Contents == old(Contents)[..at] + [val] + old(Contents)[at..]
    {
      SplicedRing(links, order, rank, Contents, at, val);
      ghost var spliced := Spliced(links, at, order, val);
      var added := |links|;
      var succ := links[link].next;
      links := links + [Link(Some(val), link, succ)];
      links := links[link := links[link].(next := added)];
      links := links[succ := links[succ].(prev := added)];
      assert links == spliced;
      order := order[..at] + [added] + order[at..];
      rank := Reranked(rank, at);
      Contents := Contents[..at] + [val] + Contents[at..];
    }

    /** `DLList(seq)`: a ring whose values are `s`, in order. */
    constructor (s: seq<char>)
      ensures Valid() && Contents == s
    {
      links := [Link(None, Head, Head)];
      order := [];
      Contents := [];
      rank := [0];
      new;
      for i := 0 to |s|
        invariant Valid() && Contents == s[..i]
      {
        Neighbours(0);
        InsertAfter(links[Head].prev, s[i], |order|);
      }
    }

    /**
     * `get_position(position)`: None below 1; otherwise the link reached by
     * walking position - 1 steps from head.next, which wraps through the head
     * once position exceeds the length.
     */
    method GetPosition(position: int) returns (r: Option<nat>)
      requires Valid()
      ensures position < 1 ==> r == None
      ensures position >= 1 ==> r == Some(Node(position % (|order| + 1)))
      ensures 1 <= position <= |order| ==> links[r.value].val == Some(Contents[position - 1])
    {
      if position < 1 {
        return None;
      }
      Neighbours(0);
      var current := links[Head].next;
      var p := position;
      ghost var at := Succ(0, |order|);
      StepAround(0, |order|, 0);
      while p > 1
        invariant 1 <= p <= position && at <= |order|
        invariant at == (position - p + 1) % (|order| + 1)
        invariant current == Node(at)
      {
        Neighbours(at);
        StepAround(position - p + 1, |order|, at);
        p := p - 1;
        current := links[current].next;
        at := Succ(at, |order|);
      }
      if position <= |order| {
        DivModUnique(position, |order| + 1, 0, position);
      }
      r := Some(current);
    }

    /** `insert_n_elements(link, length)`: m consecutive 'A' values right after the link at rank `at`. */
    method InsertNElements(link: nat, m: nat, ghost at: nat)
      requires Valid() && at <= |order| && link == Node(at)
      modifies this
      ensures Valid()
      ensures Contents == old(Contents)[..at] + seq(m, _ => 'A') + old(Contents)[at..]
    {
      var cur := link;
      var howLong: nat := m;
      while howLong != 0
        decreases howLong
        invariant Valid() && howLong <= m && at + (m - howLong) <= |order|
        invariant cur == Node(at + (m - howLong))
        invariant Contents == old(Contents)[..at] + seq(m - howLong, _ => 'A') + old(Contents)[at..]
      {
        ghost var done := m - howLong;
        ghost var before := Contents;
        InsertAfter(cur, 'A', at + done);
        assert Contents == before[..at + done] + ['A'] + before[at + done..];
        assert before[..at + done] == old(Contents)[..at] + seq(done, _ => 'A');
        assert before[at + done..] == old(Contents)[at..];
        assert seq(done, _ => 'A') + ['A'] == seq(done + 1, _ => 'A');
        cur := links[cur].next;
        howLong := howLong - 1;
      }
    }

    /** `link.val = v` for the link at rank `at` (1-based position in Contents). */
    method SetVal(link: nat, v: char, ghost at: nat)
      requires Valid() && 1 <= at <= |order| && link == Node(at)
      modifies this
      ensures Valid()
      ensures |links| == old(|links|) && order == old(order)
      ensures Contents == old(Contents)[at - 1 := v]
    {
      ghost var oldLinks := links;
      links := links[link := links[link].(val := Some(v))];
      Contents := Contents[at - 1 := v];
      assert forall i :: 0 <= i < |links| ==> links[i].next == oldLinks[i].next && links[i].prev == oldLinks[i].prev;
      forall k | 0 <= k < |order|
        ensures links[order[k]].val == Some(Contents[k])
      {
        if k != at - 1 {
          assert rank[order[k]] != rank[link];
        }
      }
    }

    /** `__iter__`: the values from head.next up to the head. */
    method Values() returns (s: seq<char>)
      requires Valid()
      ensures s == Contents
    {
      Neighbours(0);
      var link := links[Head].next;
      s := [];
      while link != Head
        invariant |s| <= |order|
        invariant link == Node(Succ(|s|, |order|))
        invariant s == Contents[..|s|]
        decreases |order| - |s|
      {
        NodeIsHeadOnlyAtZero(Succ(|s|, |order|));
        s := s + [links[link].val.value];
        link := links[link].next;
      }
      NodeIsHeadOnlyAtZero(Succ(|s|, |order|));
    }

    /** `__len__`: the number of links met walking from head.next back to the head. */
    method Length() returns (length: nat)
      requires Valid()
      ensures length == |Contents|
    {
      Neighbours(0);
      var link := links[Head].next;
      length := 0;
      while link != Head
        invariant length <= |order|
        invariant link == Node(Succ(length, |order|))
        decreases |order| - length
      {
        NodeIsHeadOnlyAtZero(Succ(length, |order|));
        length := length + 1;
        link := links[link].next;
      }
      NodeIsHeadOnlyAtZero(Succ(length, |order|));
    }
  }

  /** One step around a ring of n + 1 ranks advances the rank modulo n + 1. */
  lemma StepAround(x: int, n: nat, at: nat)
    requires at <= n && at == x % (n + 1)
    ensures Succ(at, n) == (x + 1) % (n + 1)
  {
    var m := n + 1;
    assert x == (x / m) * m + at;
    if at == n {
      assert x + 1 == (x / m + 1) * m + 0;
      DivModUnique(x + 1, m, x / m + 1, 0);
    } else {
      assert x + 1 == (x / m) * m + (at + 1);
      DivModUnique(x + 1, m, x / m, at + 1);
    }
  }
}
