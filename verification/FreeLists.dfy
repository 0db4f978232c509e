/**
 The doubly linked free lists that `kernel/memory/BuddyZone.cpp` threads through the page array.
 Link i + 1 belongs to page i of the zone; link 0 stands for the page before the zone, which
 `alloc_block_internal` writes when it takes the last block of a list.
 */
module FreeLists {
  import opened Powers
  import opened BuddyModel

  datatype Link = Link(next: int, prev: int)

  ghost predicate Distinct(l: seq<nat>) {
    forall i: nat, j: nat :: i < j < |l| ==> l[i] != l[j]
  }

  /** Entry i of list l is linked to its neighbours. */
  ghost predicate Linked(links: seq<Link>, l: seq<nat>, i: nat)
    requires i < |l|
  {
    && l[i] + 1 < |links|
    && links[l[i] + 1].next == (if i + 1 < |l| then l[i + 1] else -1)
    && links[l[i] + 1].prev == (if i > 0 then l[i - 1] else -1)
  }

  ghost predicate Chain(links: seq<Link>, l: seq<nat>, head: int) {
    && Distinct(l)
    && head == (if l == [] then -1 else l[0])
    && forall i: nat :: i < |l| ==> Linked(links, l, i)
  }

  lemma ChainElsewhere(links: seq<Link>, links': seq<Link>, l: seq<nat>, head: int)
    requires Chain(links, l, head) && |links'| == |links|
    requires forall i: nat :: i < |l| && l[i] + 1 < |links| ==> links'[l[i] + 1] == links[l[i] + 1]
    ensures Chain(links', l, head)
  {
    forall i: nat | i < |l|
      ensures Linked(links', l, i)
    {
      assert Linked(links, l, i);
    }
  }

  /** Put block b in front of the list that starts at `head`. */
  function PushLinks(links: seq<Link>, head: int, b: nat): seq<Link>
    requires b + 1 < |links| && -1 <= head && head + 1 < |links|
  {
    var links1 := if head != -1 then links[head + 1 := links[head + 1].(prev := b)] else links;
    links1[b + 1 := Link(head, -1)]
  }

  lemma PushChain(links: seq<Link>, l: seq<nat>, head: int, b: nat)
    requires Chain(links, l, head) && b !in l && b + 1 < |links|
    ensures -1 <= head && head + 1 < |links|
    ensures Chain(PushLinks(links, head, b), [b] + l, b)
    ensures forall k: nat :: k < |links| && PushLinks(links, head, b)[k] != links[k] ==>
              k == b + 1 || (k > 0 && k - 1 in l)
  {
    assert l != [] ==> Linked(links, l, 0);
    var l', links' := [b] + l, PushLinks(links, head, b);
    forall i: nat | i < |l'|
      ensures Linked(links', l', i)
    {
      if i > 0 {
        assert Linked(links, l, i - 1);
        assert l[i - 1] in l;
      }
    }
  }

  /** Take the first block off a list; with nothing behind it, link 0 is written. */
  function PopLinks(links: seq<Link>, head: int): seq<Link>
    requires 0 <= head && head + 1 < |links| && -1 <= links[head + 1].next && links[head + 1].next + 1 < |links|
  {
    var next := links[head + 1].next;
    links[next + 1 := links[next + 1].(prev := -1)]
  }

  lemma PopChain(links: seq<Link>, l: seq<nat>, head: int)
    requires Chain(links, l, head) && l != []
    ensures 0 <= head && head + 1 < |links| && -1 <= links[head + 1].next && links[head + 1].next + 1 < |links|
    ensures Chain(PopLinks(links, head), l[1..], links[head + 1].next)
    ensures forall k: nat :: k < |links| && PopLinks(links, head)[k] != links[k] ==> k == 0 || k - 1 in l
  {
    assert Linked(links, l, 0);
    assert |l| > 1 ==> Linked(links, l, 1);
    var l', links' := l[1..], PopLinks(links, head);
    forall i: nat | i < |l'|
      ensures Linked(links', l', i)
    {
      assert Linked(links, l, i + 1);
    }
  }

  /** `remove_from_freelist` on the links of block b. */
  function UnlinkNext(links: seq<Link>, b: nat): seq<Link>
    requires b + 1 < |links| && -1 <= links[b + 1].next && links[b + 1].next + 1 < |links|
  {
    var page := links[b + 1];
    if page.next != -1 then links[page.next + 1 := links[page.next + 1].(prev := page.prev)] else links
  }

  function UnlinkPrev(links: seq<Link>, b: nat): seq<Link>
    requires b + 1 < |links| && -1 <= links[b + 1].prev && links[b + 1].prev + 1 < |links|
  {
    var page := links[b + 1];
    if page.prev != -1 then links[page.prev + 1 := links[page.prev + 1].(next := page.next)] else links
  }

  ghost function Without(l: seq<nat>, k: nat): seq<nat>
    requires k < |l|
  {
    l[..k] + l[k + 1..]
  }

  lemma UnlinkBounds(links: seq<Link>, l: seq<nat>, head: int, k: nat)
    requires Chain(links, l, head) && k < |l|
    ensures l[k] + 1 < |links| && -1 <= links[l[k] + 1].next && links[l[k] + 1].next + 1 < |links|
    ensures -1 <= links[l[k] + 1].prev && links[l[k] + 1].prev + 1 < |links|
    ensures links[l[k] + 1].next != l[k]
    ensures UnlinkNext(links, l[k])[l[k] + 1] == links[l[k] + 1] && |UnlinkNext(links, l[k])| == |links|
  {
    assert Linked(links, l, k);
    if k + 1 < |l| {
      assert Linked(links, l, k + 1);
    }
    if k > 0 {
      assert Linked(links, l, k - 1);
    }
  }

  lemma UnlinkChain(links: seq<Link>, l: seq<nat>, head: int, k: nat)
    requires Chain(links, l, head) && k < |l|
    ensures l[k] + 1 < |links| && -1 <= links[l[k] + 1].next && links[l[k] + 1].next + 1 < |links|
    ensures var links1 := UnlinkNext(links, l[k]);
            && l[k] + 1 < |links1| && -1 <= links1[l[k] + 1].prev && links1[l[k] + 1].prev + 1 < |links1|
            && Chain(UnlinkPrev(links1, l[k]), Without(l, k), if head == l[k] then links[l[k] + 1].next else head)
            && |UnlinkPrev(links1, l[k])| == |links|
            && forall i: nat :: i < |links| && UnlinkPrev(links1, l[k])[i] != links[i] ==> i > 0 && i - 1 in l
  {
    UnlinkBounds(links, l, head, k);
    UnlinkedElsewhere(links, l, head, k);
    WithoutIs(l, k);
    var links', l' := UnlinkPrev(UnlinkNext(links, l[k]), l[k]), Without(l, k);
    forall i: nat | i < |l'|
      ensures Linked(links', l', i)
    {
      UnlinkedAt(links, l, head, k, i);
    }
    assert Linked(links, l, k);
    hide Linked, UnlinkNext, UnlinkPrev, Without;
    assert head == l[0];
    assert k == 0 <==> head == l[k];
  }

  lemma WithoutIs(l: seq<nat>, k: nat)
    requires k < |l|
    ensures |Without(l, k)| == |l| - 1
    ensures forall i: nat :: i < |l| - 1 ==> Without(l, k)[i] == if i < k then l[i] else l[i + 1]
    ensures Distinct(l) ==> Distinct(Without(l, k))
  {
  }

  /** The links written are those of the neighbours of entry k. */
  lemma UnlinkedElsewhere(links: seq<Link>, l: seq<nat>, head: int, k: nat)
    requires Chain(links, l, head) && k < |l|
    requires l[k] + 1 < |links| && -1 <= links[l[k] + 1].next && links[l[k] + 1].next + 1 < |links|
    requires -1 <= links[l[k] + 1].prev && links[l[k] + 1].prev + 1 < |links|
    requires UnlinkNext(links, l[k])[l[k] + 1] == links[l[k] + 1] && |UnlinkNext(links, l[k])| == |links|
    ensures var links' := UnlinkPrev(UnlinkNext(links, l[k]), l[k]);
            && |links'| == |links|
            && forall i: nat :: i < |links| ==>
                 links'[i] == if k + 1 < |l| && i == l[k + 1] + 1 then links[i].(prev := links[l[k] + 1].prev)
                              else if k > 0 && i == l[k - 1] + 1 then links[i].(next := links[l[k] + 1].next)
                              else links[i]
  {
    assert Linked(links, l, k);
    assert k > 0 ==> l[k - 1] + 1 < |links| by { assert k > 0 ==> Linked(links, l, k - 1); }
    assert k + 1 < |l| ==> l[k + 1] + 1 < |links| by { assert k + 1 < |l| ==> Linked(links, l, k + 1); }
    assert k > 0 && k + 1 < |l| ==> l[k - 1] != l[k + 1];
  }

  /** Entry i of the list without entry k, in the links after unlinking. */
  lemma UnlinkedAt(links: seq<Link>, l: seq<nat>, head: int, k: nat, i: nat)
    requires Chain(links, l, head) && k < |l| && i < |l| - 1
    requires l[k] + 1 < |links| && -1 <= links[l[k] + 1].next && links[l[k] + 1].next + 1 < |links|
    requires -1 <= links[l[k] + 1].prev && links[l[k] + 1].prev + 1 < |links|
    requires UnlinkNext(links, l[k])[l[k] + 1] == links[l[k] + 1] && |UnlinkNext(links, l[k])| == |links|
    ensures |Without(l, k)| == |l| - 1 && Linked(UnlinkPrev(UnlinkNext(links, l[k]), l[k]), Without(l, k), i)
  {
    UnlinkedElsewhere(links, l, head, k);
    WithoutIs(l, k);
    hide UnlinkNext, UnlinkPrev, Without;
    var j := if i < k then i else i + 1;
    assert Linked(links, l, j) && Linked(links, l, k);
    assert j != k && l[j] != l[k];
  }

  // ---------- The lists of all orders ----------

  /** The free blocks that the lists of a zone hold. */
  ghost function Listed(lists: seq<seq<nat>>): set<Block> {
    set o: nat, b | o < |lists| && b in lists[o] :: Block(b, o)
  }

  ghost predicate Chains(links: seq<Link>, lists: seq<seq<nat>>, heads: seq<int>) {
    && |heads| >= |lists|
    && forall o: nat :: o < |lists| ==> Chain(links, lists[o], heads[o])
  }

  /** Blocks on the lists of different orders start at different pages. */
  lemma ListsDisjoint(lists: seq<seq<nat>>, top: nat, o: nat, o': nat, b: nat)
    requires BlocksOk(Listed(lists), top) && o < |lists| && o' < |lists| && o != o'
    requires b in lists[o]
    ensures b !in lists[o']
  {
    var c, d := Block(b, o), Block(b, o');
    assert c in Listed(lists) && !Apart(c, d);
    assert b in lists[o'] ==> d in Listed(lists);
  }

  /** A block in use is on no list. */
  lemma NotListed(lists: seq<seq<nat>>, b: Block)
    requires Pages(b) !! FreeSet(Listed(lists))
    ensures forall q: nat :: q < |lists| ==> b.start !in lists[q]
  {
    assert b.Has(b.start) && b.start in Pages(b);
    forall q: nat | q < |lists|
      ensures b.start !in lists[q]
    {
      assert b.start in lists[q] ==> Block(b.start, q) in Listed(lists);
      assert Block(b.start, q).Has(b.start);
    }
  }

  /** Only links of list o (or link 0, or the fresh block b) changed, so the other chains stand. */
  lemma OtherChains(links: seq<Link>, links': seq<Link>, lists: seq<seq<nat>>, heads: seq<int>, o: nat,
                    bits: seq<seq<bool>>, top: nat)
    requires Chains(links, lists, heads) && ZoneOk(Listed(lists), bits, top) && o < |lists| && |links'| == |links|
    requires forall k: nat :: k < |links| && links'[k] != links[k] ==>
               k == 0 || k - 1 in lists[o] || forall q: nat :: q < |lists| ==> k - 1 !in lists[q]
    ensures forall q: nat :: q < |lists| && q != o ==> Chain(links', lists[q], heads[q])
  {
    forall q: nat | q < |lists| && q != o
      ensures Chain(links', lists[q], heads[q])
    {
      forall i: nat | i < |lists[q]| && lists[q][i] + 1 < |links|
        ensures links'[lists[q][i] + 1] == links[lists[q][i] + 1]
      {
        assert lists[q][i] in lists[q];
        ListsDisjoint(lists, top, q, o, lists[q][i]);
      }
      ChainElsewhere(links, links', lists[q], heads[q]);
    }
  }

  lemma ListedAfterPush(lists: seq<seq<nat>>, o: nat, b: nat)
    requires o < |lists|
    ensures Listed(lists[o := [b] + lists[o]]) == Listed(lists) + {Block(b, o)}
  {
    var lists' := lists[o := [b] + lists[o]];
    forall q: nat, c: nat
      ensures q < |lists'| && c in lists'[q] <==> (q < |lists| && c in lists[q]) || (q == o && c == b)
    {
    }
  }

  lemma ListedAfterRemove(lists: seq<seq<nat>>, o: nat, k: nat)
    requires o < |lists| && k < |lists[o]| && Distinct(lists[o])
    ensures Listed(lists[o := Without(lists[o], k)]) == Listed(lists) - {Block(lists[o][k], o)}
  {
    var lists' := lists[o := Without(lists[o], k)];
    forall c: nat
      ensures c in lists'[o] <==> c in lists[o] && c != lists[o][k]
    {
      if c in lists[o] && c != lists[o][k] {
        var i :| 0 <= i < |lists[o]| && lists[o][i] == c;
        assert lists'[o][if i < k then i else i - 1] == c;
      }
    }
    assert Block(lists[o][k], o) in Listed(lists);
  }

  /** The lists are all empty exactly when no page is free. */
  lemma EmptyLists(lists: seq<seq<nat>>)
    ensures (forall o: nat :: o < |lists| ==> lists[o] == []) <==> FreeSet(Listed(lists)) == {}
  {
    if o: nat :| o < |lists| && lists[o] != [] {
      var b := Block(lists[o][0], o);
      assert b in Listed(lists) && b.Has(b.start);
      assert b.start in FreeSet(Listed(lists));
    }
  }

  /** A new zone: one block of the top order, every bit clear but the one of that block. */
  lemma InitialZone(lists: seq<seq<nat>>, bits: seq<seq<bool>>, top: nat)
    requires |lists| == top + 1 && lists[top] == [0] && forall o: nat :: o < top ==> lists[o] == []
    requires |bits| > top && forall o: nat :: o <= top ==> |bits[o]| == NumPairs(o, top)
    requires forall o: nat, j: nat :: o < top && j < |bits[o]| ==> !bits[o][j]
    requires |bits[top]| > 0 && bits[top][0]
    ensures ZoneOk(Listed(lists), bits, top) && FreeSet(Listed(lists)) == Pages(Block(0, top))
  {
    ZeroAligned(top);
    assert Block(0, top) in Listed(lists);
    assert Listed(lists) == {Block(0, top)};
  }

  lemma InitialChains(links: seq<Link>, lists: seq<seq<nat>>, heads: seq<int>, top: nat)
    requires |lists| == top + 1 && lists[top] == [0] && forall o: nat :: o < top ==> lists[o] == []
    requires |links| > 1 && links[1] == Link(-1, -1)
    requires |heads| > top && heads[top] == 0 && forall o: nat :: o < top ==> heads[o] == -1
    ensures Chains(links, lists, heads)
  {
    assert Linked(links, [0], 0);
    assert Chain(links, [0], 0) && Chain(links, [], -1);
  }

  /** When every page is free, the lists hold one block of the top order and nothing else. */
  lemma FullyFreeLists(links: seq<Link>, lists: seq<seq<nat>>, heads: seq<int>, bits: seq<seq<bool>>, top: nat)
    requires ZoneOk(Listed(lists), bits, top) && Chains(links, lists, heads) && |lists| == top + 1
    requires forall x: nat :: x < Pow2(top) ==> x in FreeSet(Listed(lists))
    ensures lists[top] == [0] && forall o: nat :: o < top ==> lists[o] == []
  {
    FullyFreeIsOneBlock(Listed(lists), bits, top);
    assert Chain(links, lists[top], heads[top]);
    assert |lists[top]| >= 2 ==> lists[top][0] != lists[top][1];
    forall o: nat, i: nat | o < |lists| && i < |lists[o]|
      ensures o == top && lists[o][i] == 0
    {
      assert Block(lists[o][i], o) in Listed(lists);
    }
    assert Block(0, top) in Listed(lists) && 0 in lists[top];
  }
}
