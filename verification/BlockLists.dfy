// The circular doubly linked lists of the buddy allocator. A list is a ring
// through its head node; the links live in the block entries themselves, so one
// object holds the links of every list of a pool. Nodes 0..blocks-1 are the
// block entries, node blocks + l is the head of list l.
module BlockLists {

  /** The node at position `j` of list `l`; the head sits before the first and after the last. */
  ghost function At(blocks: nat, lists: seq<seq<nat>>, l: nat, j: int): nat
    requires l < |lists|
  {
    if 0 <= j < |lists[l]| then lists[l][j] else blocks + l
  }

  /** Positions `j - 1` and `j` of list `l` point at each other. */
  ghost predicate Linked(blocks: nat, next: seq<nat>, prev: seq<nat>, lists: seq<seq<nat>>, l: nat, j: nat)
    requires l < |lists|
  {
    && At(blocks, lists, l, j - 1) < |next| && At(blocks, lists, l, j) < |prev|
    && next[At(blocks, lists, l, j - 1)] == At(blocks, lists, l, j)
    && prev[At(blocks, lists, l, j)] == At(blocks, lists, l, j - 1)
  }

  ghost predicate Rings(blocks: nat, next: seq<nat>, prev: seq<nat>, lists: seq<seq<nat>>) {
    forall l, j {:trigger Linked(blocks, next, prev, lists, l, j)} | 0 <= l < |lists| && 0 <= j <= |lists[l]| ::
      Linked(blocks, next, prev, lists, l, j)
  }

  /** No entry is at two places. */
  ghost predicate Distinct(lists: seq<seq<nat>>) {
    forall l, j, l', j' | 0 <= l < |lists| && 0 <= j < |lists[l]| && 0 <= l' < |lists| && 0 <= j' < |lists[l']|
      && lists[l][j] == lists[l'][j'] :: l == l' && j == j'
  }

  /** Entries are block entries, and `inList` marks exactly those on some list. */
  ghost predicate Marked(blocks: nat, inList: seq<bool>, lists: seq<seq<nat>>) {
    && |inList| == blocks
    && (forall l, j | 0 <= l < |lists| && 0 <= j < |lists[l]| :: lists[l][j] < blocks && inList[lists[l][j]])
    && (forall b | 0 <= b < blocks && inList[b] :: OnSome(lists, b))
  }

  ghost predicate OnSome(lists: seq<seq<nat>>, b: nat) {
    exists l :: 0 <= l < |lists| && b in lists[l]
  }

  function Append(lists: seq<seq<nat>>, l: nat, entry: nat): seq<seq<nat>>
    requires l < |lists|
  {
    lists[l := lists[l] + [entry]]
  }

  function Cut(lists: seq<seq<nat>>, l: nat, at: nat): seq<seq<nat>>
    requires l < |lists| && at < |lists[l]|
  {
    lists[l := lists[l][..at] + lists[l][at + 1..]]
  }

  lemma AppendKeepsMarks(blocks: nat, inList: seq<bool>, lists: seq<seq<nat>>, l: nat, entry: nat)
    requires Marked(blocks, inList, lists) && Distinct(lists)
    requires l < |lists| && entry < blocks && !inList[entry]
    ensures Marked(blocks, inList[entry := true], Append(lists, l, entry))
    ensures Distinct(Append(lists, l, entry))
  {
    var lists' := Append(lists, l, entry);
    forall b | 0 <= b < blocks && inList[entry := true][b] ensures OnSome(lists', b) {
      if b == entry {
        assert lists'[l][|lists[l]|] == entry;
      } else {
        assert OnSome(lists, b);
        var k :| 0 <= k < |lists| && b in lists[k];
        assert b in lists'[k];
      }
    }
  }

  lemma AppendLinked(blocks: nat, next: seq<nat>, prev: seq<nat>, lists: seq<seq<nat>>,
                     l: nat, entry: nat, k: nat, j: nat)
    requires Rings(blocks, next, prev, lists) && Distinct(lists) && |next| == |prev| == blocks + |lists|
    requires forall l, j | 0 <= l < |lists| && 0 <= j < |lists[l]| :: lists[l][j] < blocks && lists[l][j] != entry
    requires l < |lists| && entry < blocks
    requires k < |lists| && j <= |Append(lists, l, entry)[k]|
    ensures var head := blocks + l;
            var last := prev[head];
            last < |next| &&
            Linked(blocks, next[entry := head][last := entry], prev[entry := last][head := entry],
              Append(lists, l, entry), k, j)
  {
    var size := |lists[l]|;
    assert Linked(blocks, next, prev, lists, l, size);
    if k != l || j <= size {
      assert Linked(blocks, next, prev, lists, k, j);
    }
  }

  lemma AppendKeepsRings(blocks: nat, next: seq<nat>, prev: seq<nat>, lists: seq<seq<nat>>, l: nat, entry: nat)
    returns (next': seq<nat>, prev': seq<nat>)
    requires Rings(blocks, next, prev, lists) && Distinct(lists) && |next| == |prev| == blocks + |lists|
    requires forall l, j | 0 <= l < |lists| && 0 <= j < |lists[l]| :: lists[l][j] < blocks && lists[l][j] != entry
    requires l < |lists| && entry < blocks
    ensures var head := blocks + l;
            var last := prev[head];
            && last < |next|
            && next' == next[entry := head][last := entry]
            && prev' == prev[entry := last][head := entry]
    ensures Rings(blocks, next', prev', Append(lists, l, entry))
  {
    var head := blocks + l;
    AppendLinked(blocks, next, prev, lists, l, entry, l, 0);
    next' := next[entry := head][prev[head] := entry];
    prev' := prev[entry := prev[head]][head := entry];
    var lists' := Append(lists, l, entry);
    forall k, j | 0 <= k < |lists'| && 0 <= j <= |lists'[k]| ensures Linked(blocks, next', prev', lists', k, j) {
      AppendLinked(blocks, next, prev, lists, l, entry, k, j);
    }
  }

  /** Where an entry of the shortened lists comes from. */
  function Before(l: nat, at: nat, k: nat, j: nat): nat {
    if k == l && j >= at then j + 1 else j
  }

  lemma CutEntry(lists: seq<seq<nat>>, l: nat, at: nat, k: nat, j: nat)
    requires Distinct(lists) && l < |lists| && at < |lists[l]|
    requires k < |lists| && j < |Cut(lists, l, at)[k]|
    ensures Before(l, at, k, j) < |lists[k]|
    ensures Cut(lists, l, at)[k][j] == lists[k][Before(l, at, k, j)] != lists[l][at]
  {
  }

  lemma CutKeepsDistinct(lists: seq<seq<nat>>, l: nat, at: nat)
    requires Distinct(lists) && l < |lists| && at < |lists[l]|
    ensures Distinct(Cut(lists, l, at))
    ensures forall k | 0 <= k < |lists| :: lists[l][at] !in Cut(lists, l, at)[k]
  {
    var lists' := Cut(lists, l, at);
    forall k, j | 0 <= k < |lists| && 0 <= j < |lists'[k]|
      ensures Before(l, at, k, j) < |lists[k]|
      ensures lists'[k][j] == lists[k][Before(l, at, k, j)] != lists[l][at]
    {
      CutEntry(lists, l, at, k, j);
    }
    forall k, j, k', j' | 0 <= k < |lists'| && 0 <= j < |lists'[k]| && 0 <= k' < |lists'| && 0 <= j' < |lists'[k']|
      && lists'[k][j] == lists'[k'][j']
      ensures k == k' && j == j'
    {
      assert lists[k][Before(l, at, k, j)] == lists[k'][Before(l, at, k', j')];
    }
  }

  lemma CutKeepsMarks(blocks: nat, inList: seq<bool>, lists: seq<seq<nat>>, l: nat, at: nat)
    requires Marked(blocks, inList, lists) && Distinct(lists)
    requires l < |lists| && at < |lists[l]|
    ensures Marked(blocks, inList[lists[l][at] := false], Cut(lists, l, at))
  {
    var lists', entry := Cut(lists, l, at), lists[l][at];
    forall k, j | 0 <= k < |lists'| && 0 <= j < |lists'[k]|
      ensures lists'[k][j] < blocks && inList[entry := false][lists'[k][j]]
    {
      CutEntry(lists, l, at, k, j);
    }
    forall b | 0 <= b < blocks && inList[entry := false][b] ensures OnSome(lists', b) {
      StaysOnSome(lists, l, at, b);
    }
  }

  lemma StaysOnSome(lists: seq<seq<nat>>, l: nat, at: nat, b: nat)
    requires l < |lists| && at < |lists[l]| && OnSome(lists, b) && b != lists[l][at]
    ensures OnSome(Cut(lists, l, at), b)
  {
    var lists' := Cut(lists, l, at);
    var k :| 0 <= k < |lists| && b in lists[k];
    var j :| 0 <= j < |lists[k]| && lists[k][j] == b;
    assert lists'[k][if k == l && j > at then j - 1 else j] == b;
  }

  lemma CutLinked(blocks: nat, next: seq<nat>, prev: seq<nat>, lists: seq<seq<nat>>, l: nat, at: nat, k: nat, j: nat)
    requires Rings(blocks, next, prev, lists) && Distinct(lists) && |next| == |prev| == blocks + |lists|
    requires forall l, j | 0 <= l < |lists| && 0 <= j < |lists[l]| :: lists[l][j] < blocks
    requires l < |lists| && at < |lists[l]|
    requires k < |lists| && j <= |Cut(lists, l, at)[k]|
    ensures var entry := lists[l][at];
            entry < blocks && prev[entry] < |next| && next[entry] < |prev| &&
            Linked(blocks, next[prev[entry] := next[entry]], prev[next[entry] := prev[entry]], Cut(lists, l, at), k, j)
  {
    assert Linked(blocks, next, prev, lists, l, at) && Linked(blocks, next, prev, lists, l, at + 1);
    if k != l || j < at {
      assert Linked(blocks, next, prev, lists, k, j);
    } else if j > at {
      assert Linked(blocks, next, prev, lists, k, j + 1);
    }
  }

  lemma CutKeepsRings(blocks: nat, next: seq<nat>, prev: seq<nat>, lists: seq<seq<nat>>, l: nat, at: nat)
    returns (next': seq<nat>, prev': seq<nat>)
    requires Rings(blocks, next, prev, lists) && Distinct(lists) && |next| == |prev| == blocks + |lists|
    requires forall l, j | 0 <= l < |lists| && 0 <= j < |lists[l]| :: lists[l][j] < blocks
    requires l < |lists| && at < |lists[l]|
    ensures var entry := lists[l][at];
            && prev[entry] < |next| && next[entry] < |prev|
            && next' == next[prev[entry] := next[entry]]
            && prev' == prev[next[entry] := prev[entry]]
    ensures Rings(blocks, next', prev', Cut(lists, l, at))
  {
    var entry := lists[l][at];
    CutLinked(blocks, next, prev, lists, l, at, l, at);
    next' := next[prev[entry] := next[entry]];
    prev' := prev[next[entry] := prev[entry]];
    var lists' := Cut(lists, l, at);
    forall k, j | 0 <= k < |lists'| && 0 <= j <= |lists'[k]| ensures Linked(blocks, next', prev', lists', k, j) {
      CutLinked(blocks, next, prev, lists, l, at, k, j);
    }
  }

  /** What holds of the lists; a proof names the facets it uses. */
  datatype Facet = Lengths | Marks | Places | Links

  class Lists {
    const blocks: nat
    const next: array<nat>
    const prev: array<nat>
    const inList: array<bool>
    ghost var lists: seq<seq<nat>>

    ghost predicate Has(f: Facet)
      reads this, next, prev, inList
    {
      match f
      case Lengths => next != prev && next.Length == prev.Length == blocks + |lists|
      case Marks => Marked(blocks, inList[..], lists)
      case Places => Distinct(lists)
      case Links => Rings(blocks, next[..], prev[..], lists)
    }

    ghost predicate Valid()
      reads this, next, prev, inList
    {
      forall f {:trigger Has(f)} :: Has(f)
    }

    /** An entry is marked exactly when it is on a list. */
    lemma MarkedWhenOnList(b: nat)
      requires Valid() && b < blocks
      ensures b < inList.Length && Distinct(lists)
      ensures inList[b] <==> OnSome(lists, b)
    {
      assert Has(Marks) && Has(Places);
    }

    lemma DistinctLists()
      requires Valid()
      ensures Distinct(lists)
    {
      assert Has(Places);
    }

    /** `count` empty lists over `blocks` entries. */
    constructor (blocks: nat, count: nat)
      ensures Valid() && fresh(next) && fresh(prev) && fresh(inList)
      ensures this.blocks == blocks && lists == seq(count, _ => [])
    {
      var n := new nat[blocks + count](i => i);
      var p := new nat[blocks + count](i => i);
      var f := new bool[blocks](_ => false);
      this.blocks, next, prev, inList := blocks, n, p, f;
      lists := seq(count, _ => []);
      new;
      assert Has(Lengths) && Has(Marks) && Has(Places) && Has(Links);
    }

    method PushBack(l: nat, entry: nat)
      requires Valid() && l < |lists| && entry < blocks && !OnSome(lists, entry)
      modifies next, prev, inList, this
      ensures Valid()
      ensures lists == Append(old(lists), l, entry)
    {
      assert Has(Lengths) && Has(Marks) && Has(Places) && Has(Links);
      AppendKeepsMarks(blocks, inList[..], lists, l, entry);
      ghost var n, p := AppendKeepsRings(blocks, next[..], prev[..], lists, l, entry);
      inList[entry] := true;
      var last := prev[blocks + l];
      prev[entry] := last;
      next[entry] := blocks + l;
      next[last] := entry;
      prev[blocks + l] := entry;
      lists := Append(lists, l, entry);
      assert next[..] == n && prev[..] == p;
      assert Has(Lengths) && Has(Marks) && Has(Places) && Has(Links);
    }

    /** Unlinks an entry; `l` is the list it is in and `at` its position there. */
    method Remove(entry: nat, ghost l: nat) returns (ghost at: nat)
      requires Valid() && l < |lists| && entry in lists[l]
      modifies next, prev, inList, this
      ensures Valid()
      ensures at < |old(lists)[l]| && old(lists)[l][at] == entry
      ensures lists == Cut(old(lists), l, at)
      ensures forall k | 0 <= k < |lists| :: entry !in lists[k]
      ensures entry < blocks
    {
      assert Has(Lengths) && Has(Marks) && Has(Places) && Has(Links);
      at :| 0 <= at < |lists[l]| && lists[l][at] == entry;
      CutKeepsMarks(blocks, inList[..], lists, l, at);
      CutKeepsDistinct(lists, l, at);
      ghost var n, p := CutKeepsRings(blocks, next[..], prev[..], lists, l, at);
      inList[entry] := false;
      var before, after := prev[entry], next[entry];
      next[before] := after;
      prev[after] := before;
      lists := Cut(lists, l, at);
      assert next[..] == n && prev[..] == p;
      assert Has(Lengths) && Has(Marks) && Has(Places) && Has(Links);
    }

    method Empty(l: nat) returns (empty: bool)
      requires Valid() && l < |lists|
      ensures empty == (lists[l] == [])
    {
      assert Has(Lengths) && Has(Marks) && Has(Links);
      assert Linked(blocks, next[..], prev[..], lists, l, |lists[l]|);
      empty := prev[blocks + l] == blocks + l;
    }

    /** The node before position `j` of list `l`, walking backwards from its head. */
    method Previous(node: nat, ghost l: nat, ghost j: nat) returns (before: nat)
      requires Valid() && l < |lists| && j <= |lists[l]| && node == At(blocks, lists, l, j)
      ensures before == At(blocks, lists, l, j - 1)
      ensures j > 0 ==> before < blocks
    {
      assert Has(Lengths) && Has(Marks) && Has(Links);
      assert Linked(blocks, next[..], prev[..], lists, l, j);
      before := prev[node];
    }

    method IsMarked(b: nat) returns (marked: bool)
      requires Valid() && b < blocks
      ensures marked == OnSome(lists, b)
    {
      MarkedWhenOnList(b);
      marked := inList[b];
    }
  }
}
