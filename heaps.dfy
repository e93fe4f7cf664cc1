/** The value-level meaning of the binary min-heap behind A*: records of
    (vertex, f_score) kept in an array where every record's f_score is at least
    its parent's. A record whose vertex is negative is a tombstone: `update`
    marks a stale record that way instead of removing it. Each operation of the
    heap class is specified by one of the functions below. */
module Heaps {
  import opened Options

  /** A heap record. `vertex` is a graph vertex, or -1 once the record is a tombstone. */
  datatype Entry = Entry(vertex: int, fScore: int)

  /** Every record's f_score is at least that of its parent, at index (i - 1) / 2. */
  ghost predicate HeapOrdered(h: seq<Entry>) {
    forall i {:trigger h[i]} :: 0 < i < |h| ==> h[(i - 1) / 2].fScore <= h[i].fScore
  }

  function Swap(h: seq<Entry>, i: nat, j: nat): (r: seq<Entry>)
    requires i < |h| && j < |h|
    ensures |r| == |h| && multiset(r) == multiset(h)
  {
    h[i := h[j]][j := h[i]]
  }

  /** The loop of `add` (lines 151-159): swap the record at `c` with its parent
      while it is strictly smaller. */
  function SiftUp(h: seq<Entry>, c: nat): (r: seq<Entry>)
    requires c < |h|
    ensures |r| == |h| && multiset(r) == multiset(h)
    decreases c
  {
    if c == 0 then h
    else if h[c].fScore < h[(c - 1) / 2].fScore then SiftUp(Swap(h, c, (c - 1) / 2), (c - 1) / 2)
    else h
  }

  /** The inner loop of `remove_min` (lines 177-191): swap the record at `c`
      with its smaller child (the left one on a tie) while it is strictly larger. */
  function SiftDown(h: seq<Entry>, c: nat): (r: seq<Entry>)
    requires c <= |h|
    ensures |r| == |h| && multiset(r) == multiset(h)
    decreases |h| - c
  {
    var smaller := SmallerChild(h, c);
    if smaller < |h| && h[c].fScore > h[smaller].fScore then SiftDown(Swap(h, c, smaller), smaller)
    else h
  }

  /** Lines 178-183: the right child when it exists and is strictly smaller, else the left one. */
  function SmallerChild(h: seq<Entry>, c: nat): (m: nat)
    ensures m == 2 * c + 1 || m == 2 * c + 2
    ensures m < |h| ==> forall o :: 0 <= o < |h| && (o == 2 * c + 1 || o == 2 * c + 2) ==> h[m].fScore <= h[o].fScore
    ensures m >= |h| ==> 2 * c + 1 >= |h|
  {
    var left, right := 2 * c + 1, 2 * c + 2;
    if right < |h| && h[right].fScore < h[left].fScore then right else left
  }

  /** `add`: push the record, then sift it up. */
  function Push(h: seq<Entry>, e: Entry): (r: seq<Entry>)
    ensures |r| == |h| + 1 && multiset(r) == multiset(h) + multiset{e}
  {
    assert multiset(h + [e]) == multiset(h) + multiset{e};
    SiftUp(h + [e], |h|)
  }

  /** One round of the do-while loop of `remove_min` (lines 169-191): take the
      root away, move the last record to the root and sift it down. */
  function PopRoot(h: seq<Entry>): (r: seq<Entry>)
    requires |h| > 0
    ensures |r| == |h| - 1 && multiset(r) + multiset{h[0]} == multiset(h)
  {
    var n := |h|;
    if n == 1 then []
    else
      assert h == h[..n - 1] + [h[n - 1]];
      assert multiset(h[..n - 1]) == multiset{h[0]} + multiset(h[1..n - 1]) by {
        assert h[..n - 1] == [h[0]] + h[1..n - 1];
      }
      assert h[..n - 1][0 := h[n - 1]] == [h[n - 1]] + h[1..n - 1];
      SiftDown(h[..n - 1][0 := h[n - 1]], 0)
  }

  /** What `remove_min` returns: `undefined` on an empty heap, the popped record,
      or the TypeError raised when only tombstones were left. */
  datatype PopResult = Undefined | Popped(entry: Entry) | TypeError

  /** The result of `remove_min` together with the heap it leaves behind. */
  datatype Removal = Removal(result: PopResult, rest: seq<Entry>)

  /** The do-while loop of `remove_min`: pop roots until one is live. When a
      tombstone was the last record, the next round reads `heap[0]` of an empty
      array, writes `undefined` back into slot 0 (line 174) and dereferences it
      in the loop condition (line 192); the model ends there with `TypeError`. */
  function Drain(h: seq<Entry>): (r: Removal)
    requires |h| > 0
    ensures |r.rest| < |h| && !r.result.Undefined?
    ensures r.result.Popped? ==> r.result.entry.vertex >= 0
    ensures r.result.TypeError? ==> r.rest == []
    decreases |h|
  {
    var rest := PopRoot(h);
    if h[0].vertex >= 0 then Removal(Popped(h[0]), rest)
    else if rest == [] then Removal(TypeError, [])
    else Drain(rest)
  }

  /** `remove_min` (lines 163-197): `undefined` exactly for an empty heap; a
      popped record is live and the heap shrinks; a TypeError leaves nothing
      behind. */
  function RemoveMin(h: seq<Entry>): (r: Removal)
    ensures r.result.Undefined? <==> h == []
    ensures r.result.Popped? ==> r.result.entry.vertex >= 0 && |r.rest| < |h|
    ensures r.result.TypeError? ==> r.rest == []
  {
    if h == [] then Removal(Undefined, []) else Drain(h)
  }

  /** A heap holding one live record gives it up and is left empty. */
  lemma RemoveMinSingle(e: Entry)
    requires e.vertex >= 0
    ensures RemoveMin([e]) == Removal(Popped(e), [])
  {
    assert PopRoot([e]) == [];
  }

  /** The first index holding a record for `v` (the scan of `has` and `update`),
      or |h| when there is none. */
  function FirstIndex(h: seq<Entry>, v: int): (i: nat)
    ensures i <= |h|
    ensures i < |h| ==> h[i].vertex == v
    ensures forall j :: 0 <= j < i ==> h[j].vertex != v
    ensures i == |h| <==> forall j :: 0 <= j < |h| ==> h[j].vertex != v
  {
    if h == [] then 0
    else if h[0].vertex == v then 0
    else 1 + FirstIndex(h[1..], v)
  }

  /** Line 212: the record at `i` becomes a tombstone; its f_score stays, and
      every other record stays where it is. */
  function Tombstone(h: seq<Entry>, i: nat): (r: seq<Entry>)
    requires i < |h|
    ensures |r| == |h| && r[i].vertex < 0
    ensures forall j :: 0 <= j < |h| ==> r[j].fScore == h[j].fScore
    ensures multiset(r) + multiset{h[i]} == multiset(h) + multiset{Entry(-1, h[i].fScore)}
  {
    h[i := Entry(-1, h[i].fScore)]
  }

  /** `update` (lines 209-218): `None` stands for the "No such node in the heap." throw. */
  function Update(h: seq<Entry>, v: int, f: int): (r: Option<seq<Entry>>)
    ensures r.None? <==> forall j :: 0 <= j < |h| ==> h[j].vertex != v
    ensures r.Some? ==> |r.value| == |h| + 1
  {
    var i := FirstIndex(h, v);
    if i == |h| then None else Some(Push(Tombstone(h, i), Entry(v, f)))
  }


  /** At most one live record per vertex, and that record is held once. */
  ghost predicate LiveUnique(m: multiset<Entry>) {
    forall a, b :: a in m && b in m && a.vertex >= 0 && a.vertex == b.vertex ==> a == b && m[a] == 1
  }

  // ---------------------------------------------------------------------------
  // Heap order

  /** The root holds the smallest f_score of an ordered heap. */
  lemma {:induction false} RootIsMinimal(h: seq<Entry>, i: nat)
    requires HeapOrdered(h) && i < |h|
    ensures h[0].fScore <= h[i].fScore
    decreases i
  {
    if i > 0 {
      RootIsMinimal(h, (i - 1) / 2);
    }
  }

  /** The order holds for every parent/child pair except (parent of c, c), and
      c's parent is no larger than c's children: the state of `add`'s loop. */
  ghost predicate OrderedAbove(h: seq<Entry>, c: nat) {
    && c < |h|
    && (forall i {:trigger h[i]} :: 0 < i < |h| && i != c ==> h[(i - 1) / 2].fScore <= h[i].fScore)
    && (forall i :: 0 < i < |h| && (i - 1) / 2 == c && 0 < c ==> h[(c - 1) / 2].fScore <= h[i].fScore)
  }

  lemma {:induction false} SiftUpOrders(h: seq<Entry>, c: nat)
    requires OrderedAbove(h, c)
    ensures HeapOrdered(SiftUp(h, c))
    decreases c
  {
    if c > 0 && h[c].fScore < h[(c - 1) / 2].fScore {
      var p := (c - 1) / 2;
      var s := Swap(h, c, p);
      forall i {:trigger s[i]} | 0 < i < |s| && i != p
        ensures s[(i - 1) / 2].fScore <= s[i].fScore
      {
        var q := (i - 1) / 2;
        assert s[i] == if i == c then h[p] else h[i];
        assert s[q] == if q == p then h[c] else if q == c then h[p] else h[q];
        if q == p && i != c {
          assert h[p].fScore <= h[i].fScore;
        } else if q == c {
          assert h[(c - 1) / 2].fScore <= h[i].fScore;
        }
      }
      forall i | 0 < i < |s| && (i - 1) / 2 == p && 0 < p
        ensures s[(p - 1) / 2].fScore <= s[i].fScore
      {
        assert h[(p - 1) / 2].fScore <= h[p].fScore;
        if i != c {
          assert h[p].fScore <= h[i].fScore;
        }
      }
      SiftUpOrders(s, p);
    }
  }

  /** The order holds for every pair whose parent is not c, and c's parent is no
      larger than c's children: the state of `remove_min`'s inner loop. */
  ghost predicate OrderedBelow(h: seq<Entry>, c: nat) {
    && (forall i {:trigger h[i]} :: 0 < i < |h| && (i - 1) / 2 != c ==> h[(i - 1) / 2].fScore <= h[i].fScore)
    && (forall i :: 0 < i < |h| && (i - 1) / 2 == c && 0 < c ==> h[(c - 1) / 2].fScore <= h[i].fScore)
  }

  /** Index arithmetic of the array layout: the children of c are 2c+1 and 2c+2. */
  lemma ParentIndex(i: nat, c: nat)
    requires 0 < i
    ensures (i - 1) / 2 == c <==> i == 2 * c + 1 || i == 2 * c + 2
  {
  }

  /** One swap of `remove_min`'s inner loop moves the disorder from c down to
      its smaller child m. */
  lemma SwapDownStep(h: seq<Entry>, c: nat, m: nat)
    requires OrderedBelow(h, c)
    requires m < |h| && (m == 2 * c + 1 || m == 2 * c + 2)
    requires forall o :: 0 <= o < |h| && (o == 2 * c + 1 || o == 2 * c + 2) ==> h[m].fScore <= h[o].fScore
    requires h[c].fScore > h[m].fScore
    ensures OrderedBelow(Swap(h, c, m), m)
  {
    SwapDownParents(h, c, m);
    SwapDownGrandparent(h, c, m);
  }

  /** After the swap, every record whose parent is not m is ordered below it. */
  lemma SwapDownParents(h: seq<Entry>, c: nat, m: nat)
    requires OrderedBelow(h, c)
    requires m < |h| && (m == 2 * c + 1 || m == 2 * c + 2)
    requires forall o :: 0 <= o < |h| && (o == 2 * c + 1 || o == 2 * c + 2) ==> h[m].fScore <= h[o].fScore
    requires h[c].fScore > h[m].fScore
    ensures var s := Swap(h, c, m);
      forall i {:trigger s[i]} :: 0 < i < |s| && (i - 1) / 2 != m ==> s[(i - 1) / 2].fScore <= s[i].fScore
  {
    var s := Swap(h, c, m);
    assert s[c] == h[m] && s[m] == h[c];
    ParentIndex(m, c);
    forall i {:trigger s[i]} | 0 < i < |s| && (i - 1) / 2 != m
      ensures s[(i - 1) / 2].fScore <= s[i].fScore
    {
      var p := (i - 1) / 2;
      if i == m {
      } else if p == c {
        assert s[i] == h[i];
        assert h[m].fScore <= h[i].fScore by { ParentIndex(i, c); }
      } else if i == c {
        assert s[p] == h[p];
      } else {
        assert s[i] == h[i] && s[p] == h[p];
      }
    }
  }

  /** After the swap, m's children are no smaller than m's new parent. */
  lemma SwapDownGrandparent(h: seq<Entry>, c: nat, m: nat)
    requires OrderedBelow(h, c)
    requires m < |h| && (m == 2 * c + 1 || m == 2 * c + 2)
    requires forall o :: 0 <= o < |h| && (o == 2 * c + 1 || o == 2 * c + 2) ==> h[m].fScore <= h[o].fScore
    ensures var s := Swap(h, c, m);
      forall i :: 0 < i < |s| && (i - 1) / 2 == m && 0 < m ==> s[(m - 1) / 2].fScore <= s[i].fScore
  {
    var s := Swap(h, c, m);
    ParentIndex(m, c);
    forall i | 0 < i < |s| && (i - 1) / 2 == m && 0 < m
      ensures s[(m - 1) / 2].fScore <= s[i].fScore
    {
      ParentIndex(i, m);
      assert s[i] == h[i];
    }
  }


  /** Once c is no larger than its smaller child m, the whole heap is ordered. */
  lemma SettledOrdered(h: seq<Entry>, c: nat, m: nat)
    requires OrderedBelow(h, c)
    requires m == 2 * c + 1 || m == 2 * c + 2
    requires m < |h| ==> forall o :: 0 <= o < |h| && (o == 2 * c + 1 || o == 2 * c + 2) ==> h[m].fScore <= h[o].fScore
    requires m < |h| ==> h[c].fScore <= h[m].fScore
    requires m >= |h| ==> 2 * c + 1 >= |h|
    ensures HeapOrdered(h)
  {
    forall i {:trigger h[i]} | 0 < i < |h|
      ensures h[(i - 1) / 2].fScore <= h[i].fScore
    {
      ParentIndex(i, c);
    }
  }

  lemma {:induction false} SiftDownOrders(h: seq<Entry>, c: nat)
    requires c <= |h| && OrderedBelow(h, c)
    ensures HeapOrdered(SiftDown(h, c))
    decreases |h| - c
  {
    var m := SmallerChild(h, c);
    if m < |h| && h[c].fScore > h[m].fScore {
      SwapDownStep(h, c, m);
      SiftDownOrders(Swap(h, c, m), m);
    } else {
      SettledOrdered(h, c, m);
    }
  }

  /** `add` keeps the heap ordered. */
  lemma PushKeepsOrder(h: seq<Entry>, e: Entry)
    requires HeapOrdered(h)
    ensures HeapOrdered(Push(h, e))
  {
    SiftUpOrders(h + [e], |h|);
  }

  /** One pop keeps the heap ordered. */
  lemma PopRootKeepsOrder(h: seq<Entry>)
    requires HeapOrdered(h) && |h| > 0
    ensures HeapOrdered(PopRoot(h))
  {
    var n := |h|;
    if n > 1 {
      var s := h[..n - 1][0 := h[n - 1]];
      assert OrderedBelow(s, 0) by {
        forall i {:trigger s[i]} | 0 < i < |s| && (i - 1) / 2 != 0
          ensures s[(i - 1) / 2].fScore <= s[i].fScore
        {
          assert s[i] == h[i] && s[(i - 1) / 2] == h[(i - 1) / 2];
        }
      }
      SiftDownOrders(s, 0);
    }
  }

  /** Tombstoning changes no f_score, so the order stays. */
  lemma TombstoneKeepsOrder(h: seq<Entry>, i: nat)
    requires HeapOrdered(h) && i < |h|
    ensures HeapOrdered(Tombstone(h, i))
  {
  }

  // ---------------------------------------------------------------------------
  // remove_min

  /** Everything in a sub-multiset of h is somewhere in h. */
  lemma InSubMultiset(h: seq<Entry>, rest: seq<Entry>, e: Entry)
    requires multiset(rest) <= multiset(h) && e in rest
    ensures exists i :: 0 <= i < |h| && h[i] == e
  {
    assert e in multiset(rest);
    assert e in multiset(h);
  }

  /** The pop loop throws exactly when every record is a tombstone, and never
      returns `undefined`. */
  lemma {:induction false} DrainThrowsOnlyOnTombstones(h: seq<Entry>)
    requires |h| > 0
    ensures !Drain(h).result.Undefined?
    ensures Drain(h).result.TypeError? <==> forall i :: 0 <= i < |h| ==> h[i].vertex < 0
    ensures !Drain(h).result.Popped? ==> Drain(h).rest == []
    decreases |h|
  {
    var rest := PopRoot(h);
    if h[0].vertex < 0 && rest != [] {
      DrainThrowsOnlyOnTombstones(rest);
      if forall i :: 0 <= i < |rest| ==> rest[i].vertex < 0 {
        forall i | 0 <= i < |h| ensures h[i].vertex < 0 {
          if h[i] != h[0] {
            assert h[i] in multiset(h);
            assert h[i] in multiset(rest);
          }
        }
      } else {
        var j :| 0 <= j < |rest| && rest[j].vertex >= 0;
        InSubMultiset(h, rest, rest[j]);
      }
    }
  }

  /** The pop loop takes away the returned record and tombstones, nothing else. */
  lemma {:induction false} DrainTakesOnlyTombstones(h: seq<Entry>)
    requires |h| > 0
    ensures var r := Drain(h);
      r.result.Popped? ==>
        && multiset(r.rest) + multiset{r.result.entry} <= multiset(h)
        && forall e :: e in multiset(h) - multiset(r.rest) - multiset{r.result.entry} ==> e.vertex < 0
    decreases |h|
  {
    var rest := PopRoot(h);
    if h[0].vertex >= 0 {
      assert multiset(h) - multiset(rest) - multiset{h[0]} == multiset{};
    } else if rest != [] {
      DrainTakesOnlyTombstones(rest);
      var r := Drain(rest);
      if r.result.Popped? {
        DropTombstone(multiset(h), multiset(rest), multiset(r.rest), h[0], r.result.entry);
      }
    }
  }

  /** One tombstone more in the heap before a drain is one tombstone more
      among what the drain takes away. */
  lemma DropTombstone(before: multiset<Entry>, popped: multiset<Entry>, after: multiset<Entry>, t: Entry, m: Entry)
    requires before == popped + multiset{t} && t.vertex < 0
    requires after + multiset{m} <= popped
    requires forall e :: e in popped - after - multiset{m} ==> e.vertex < 0
    ensures after + multiset{m} <= before
    ensures forall e :: e in before - after - multiset{m} ==> e.vertex < 0
  {
    forall e | e in before - after - multiset{m} ensures e.vertex < 0 {
      if e != t {
        assert e in popped - after - multiset{m};
      }
    }
  }


  /** The popped root is no larger than anything left after one pop. */
  lemma RootBelowRest(h: seq<Entry>)
    requires |h| > 0 && HeapOrdered(h)
    ensures forall i :: 0 <= i < |PopRoot(h)| ==> h[0].fScore <= PopRoot(h)[i].fScore
  {
    var rest := PopRoot(h);
    forall i | 0 <= i < |rest| ensures h[0].fScore <= rest[i].fScore {
      InSubMultiset(h, rest, rest[i]);
      var k :| 0 <= k < |h| && h[k] == rest[i];
      RootIsMinimal(h, k);
    }
  }

  /** On an ordered heap, the pop loop returns a live record and leaves an ordered heap. */
  lemma {:induction false} DrainKeepsOrder(h: seq<Entry>)
    requires |h| > 0 && HeapOrdered(h)
    ensures var r := Drain(h);
      r.result.Popped? ==> r.result.entry.vertex >= 0 && HeapOrdered(r.rest)
    decreases |h|
  {
    PopRootKeepsOrder(h);
    if h[0].vertex < 0 && PopRoot(h) != [] {
      DrainKeepsOrder(PopRoot(h));
    }
  }

  /** A record other than the root is still there after one pop. */
  lemma SurvivesPop(h: seq<Entry>, i: nat) returns (j: nat)
    requires i < |h| && h[i] != h[0]
    ensures j < |PopRoot(h)| && PopRoot(h)[j] == h[i]
  {
    var rest := PopRoot(h);
    assert h[i] in multiset(h);
    assert h[i] in multiset(rest);
    j :| 0 <= j < |rest| && rest[j] == h[i];
  }

  /** On an ordered heap, the pop loop returns a record no larger than any
      record left or any live record it started with. */
  lemma {:induction false} DrainReturnsMinimum(h: seq<Entry>)
    requires |h| > 0 && HeapOrdered(h)
    ensures var r := Drain(h);
      r.result.Popped? ==>
        && (forall i :: 0 <= i < |r.rest| ==> r.result.entry.fScore <= r.rest[i].fScore)
        && (forall i :: 0 <= i < |h| && h[i].vertex >= 0 ==> r.result.entry.fScore <= h[i].fScore)
    decreases |h|
  {
    var rest := PopRoot(h);
    if h[0].vertex >= 0 {
      RootBelowRest(h);
      forall i | 0 <= i < |h| ensures h[0].fScore <= h[i].fScore {
        RootIsMinimal(h, i);
      }
    } else if rest != [] {
      PopRootKeepsOrder(h);
      DrainReturnsMinimum(rest);
      var m := Drain(rest).result;
      if m.Popped? {
        forall i | 0 <= i < |h| && h[i].vertex >= 0 ensures m.entry.fScore <= h[i].fScore {
          var j := SurvivesPop(h, i);
        }
      }
    }
  }

  /** What `remove_min` promises when it returns `m` and leaves `rest` of `h`:
      a live record, no larger than any record left or any live record of `h`,
      with one copy of `m` and otherwise only tombstones taken away, and the
      order kept. */
  ghost predicate RemovesMinimum(h: seq<Entry>, m: Entry, rest: seq<Entry>) {
    && m.vertex >= 0
    && HeapOrdered(rest)
    && (forall i :: 0 <= i < |rest| ==> m.fScore <= rest[i].fScore)
    && (forall i :: 0 <= i < |h| && h[i].vertex >= 0 ==> m.fScore <= h[i].fScore)
    && multiset(rest) + multiset{m} <= multiset(h) && |rest| < |h|
    && (forall e :: e in multiset(h) - multiset(rest) - multiset{m} ==> e.vertex < 0)
  }

  /** `remove_min` as a whole: `undefined` exactly on an empty heap, a TypeError
      exactly when only tombstones remain, and otherwise the minimum live record. */
  lemma RemoveMinOutcome(h: seq<Entry>)
    requires HeapOrdered(h)
    ensures RemoveMin(h).result.Undefined? <==> h == []
    ensures RemoveMin(h).result.TypeError? <==> h != [] && forall i :: 0 <= i < |h| ==> h[i].vertex < 0
    ensures !RemoveMin(h).result.Popped? ==> RemoveMin(h).rest == []
    ensures RemoveMin(h).result.Popped? ==> RemovesMinimum(h, RemoveMin(h).result.entry, RemoveMin(h).rest)
  {
    if h != [] {
      var r := Drain(h);
      assert RemoveMin(h) == r;
      DrainThrowsOnlyOnTombstones(h);
      DrainTakesOnlyTombstones(h);
      DrainKeepsOrder(h);
      DrainReturnsMinimum(h);
    }
  }

  // ---------------------------------------------------------------------------
  // One live record per vertex

  /** Two positions holding records for the same live vertex are one position. */
  lemma LiveRecordIsUnique(h: seq<Entry>, i: nat, j: nat)
    requires LiveUnique(multiset(h))
    requires i < |h| && j < |h| && h[i].vertex >= 0 && h[i].vertex == h[j].vertex
    ensures i == j
  {
    if i < j {
      RepeatedRecord(h, i, j);
    } else if j < i {
      RepeatedRecord(h, j, i);
    }
  }

  /** Two positions holding equal records make that record's multiplicity at least two. */
  lemma RepeatedRecord(h: seq<Entry>, i: nat, j: nat)
    requires i < j < |h|
    ensures h[i] == h[j] ==> multiset(h)[h[i]] >= 2
  {
    assert h == h[..i] + [h[i]] + h[i + 1..j] + [h[j]] + h[j + 1..];
  }

  /** Taking records away keeps at most one live record per vertex. */
  lemma SubMultisetLiveUnique(m: multiset<Entry>, sub: multiset<Entry>)
    requires LiveUnique(m) && sub <= m
    ensures LiveUnique(sub)
  {
    forall a, b | a in sub && b in sub && a.vertex >= 0 && a.vertex == b.vertex
      ensures a == b && sub[a] == 1
    {
      assert a in m && b in m;
    }
  }

  /** Adding a tombstone, or a record for a vertex with no record yet, keeps at
      most one live record per vertex. */
  lemma ExtendLiveUnique(m: multiset<Entry>, e: Entry)
    requires LiveUnique(m)
    requires e.vertex < 0 || forall x :: x in m ==> x.vertex != e.vertex
    ensures LiveUnique(m + multiset{e})
  {
    var n := m + multiset{e};
    forall a, b | a in n && b in n && a.vertex >= 0 && a.vertex == b.vertex
      ensures a == b && n[a] == 1
    {
      if a.vertex == e.vertex {
        assert a !in m && b !in m;
      } else {
        assert a in m && b in m;
      }
    }
  }

  /** The `add` branch of A*: adding a record for a vertex the heap holds no
      record for keeps at most one live record per vertex. */
  lemma AddKeepsLiveUnique(h: seq<Entry>, v: nat, f: int)
    requires LiveUnique(multiset(h))
    requires forall j :: 0 <= j < |h| ==> h[j].vertex != v
    ensures LiveUnique(multiset(Push(h, Entry(v, f))))
  {
    ExtendLiveUnique(multiset(h), Entry(v, f));
  }

  /** The `update` branch of A*: tombstoning the vertex's record and adding the
      new one keeps at most one live record per vertex, and the new record is
      then the only record for the vertex. */
  lemma UpdateKeepsLiveUnique(h: seq<Entry>, v: nat, f: int)
    requires LiveUnique(multiset(h))
    requires Update(h, v, f).Some?
    ensures LiveUnique(multiset(Update(h, v, f).value))
    ensures forall e :: e in Update(h, v, f).value && e.vertex == v ==> e == Entry(v, f)
  {
    var i := FirstIndex(h, v);
    var t := Tombstone(h, i);
    var tomb := Entry(-1, h[i].fScore);
    assert multiset(t) <= multiset(h) + multiset{tomb};
    ExtendLiveUnique(multiset(h), tomb);
    SubMultisetLiveUnique(multiset(h) + multiset{tomb}, multiset(t));
    forall j | 0 <= j < |t| ensures t[j].vertex != v {
      if j != i && h[j].vertex == v {
        LiveRecordIsUnique(h, i, j);
      }
    }
    AddKeepsLiveUnique(t, v, f);
    forall e | e in Update(h, v, f).value && e.vertex == v ensures e == Entry(v, f) {
      assert e in multiset(t) + multiset{Entry(v, f)};
      assert e !in t;
    }
  }

  /** `remove_min` only takes records away, so it keeps one live record per vertex. */
  lemma RemoveMinKeepsLiveUnique(h: seq<Entry>)
    requires HeapOrdered(h) && LiveUnique(multiset(h))
    ensures LiveUnique(multiset(RemoveMin(h).rest))
  {
    RemoveMinOutcome(h);
    var r := RemoveMin(h);
    if r.result.Popped? {
      assert multiset(r.rest) <= multiset(r.rest) + multiset{r.result.entry};
    }
    SubMultisetLiveUnique(multiset(h), multiset(r.rest));
  }

  /** After `add` or `update` of (v, f) in A*, the live records of `r` are those
      of `h` for other vertices together with the one new record (v, f). */
  ghost predicate LiveReplaced(h: seq<Entry>, r: seq<Entry>, v: nat, f: int) {
    && |r| == |h| + 1
    && LiveUnique(multiset(r))
    && Entry(v, f) in multiset(r)
    && (forall e :: e in multiset(r) && e.vertex >= 0 && e != Entry(v, f) ==> e in multiset(h) && e.vertex != v)
    && (forall e :: e in multiset(h) && e.vertex >= 0 && e.vertex != v ==> e in multiset(r))
  }

  /** The `add` branch of A* (line 126). */
  lemma AddReplacesLive(h: seq<Entry>, v: nat, f: int)
    requires LiveUnique(multiset(h))
    requires forall j :: 0 <= j < |h| ==> h[j].vertex != v
    ensures LiveReplaced(h, Push(h, Entry(v, f)), v, f)
  {
    AddKeepsLiveUnique(h, v, f);
    forall e | e in multiset(Push(h, Entry(v, f))) && e.vertex >= 0 && e != Entry(v, f)
      ensures e in multiset(h) && e.vertex != v
    {
      assert e in multiset(h);
    }
  }

  /** The `update` branch of A* (line 124): only the vertex's old record turns
      into a tombstone. */
  lemma UpdateReplacesLive(h: seq<Entry>, v: nat, f: int)
    requires LiveUnique(multiset(h))
    requires Update(h, v, f).Some?
    ensures LiveReplaced(h, Update(h, v, f).value, v, f)
  {
    UpdateKeepsLiveUnique(h, v, f);
    var i := FirstIndex(h, v);
    var t := Tombstone(h, i);
    var r := Update(h, v, f).value;
    var tomb := Entry(-1, h[i].fScore);
    assert multiset(r) == multiset(t) + multiset{Entry(v, f)};
    forall e: Entry | e in multiset(r) && e.vertex >= 0 && e != Entry(v, f)
      ensures e in multiset(h) && e.vertex != v
    {
      assert e in multiset(t);
      assert e in multiset(h) + multiset{tomb};
    }
    forall e | e in multiset(h) && e.vertex >= 0 && e.vertex != v
      ensures e in multiset(r)
    {
      assert e != h[i];
      assert e in multiset(t) + multiset{h[i]};
    }
  }
}
