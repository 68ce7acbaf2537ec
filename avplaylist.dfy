/**
 * The playlist catalog (libavformat/avplaylist.c, avplaylist.h): four
 * parallel arrays, one entry per playlist item, holding the item's path, its
 * cached format context, the running total of item durations and the running
 * total of item stream counts. Inserting and removing shift all four arrays
 * in place; closing removes items from the tail until none is left.
 *
 * Opening an item is outside the model: the caller passes `open`, which says
 * what probing a path yields (its duration and stream count) or that it
 * cannot be opened.
 */
module AvPlaylist {
  import opened Common

  /** What opening an item's path yields. */
  datatype OpenResult = Opened(duration: int, nbStreams: int) | OpenFailed

  /** An opened format context cached for an item. */
  datatype FormatContext = FormatContext(id: nat)

  // ---------------------------------------------------------------------
  // Shifting a table by one slot

  /** `s` with `x` placed at `pos` and the entries from `pos` on one further. */
  function InsertAt<T>(s: seq<T>, pos: nat, x: T): (r: seq<T>)
    requires pos <= |s|
    ensures |r| == |s| + 1 && r[pos] == x
    ensures forall k :: 0 <= k < pos ==> r[k] == s[k]
    ensures forall k :: pos < k < |r| ==> r[k] == s[k - 1]
  {
    s[..pos] + [x] + s[pos..]
  }

  /** `s` without its entry at `pos`, the later entries one place down. */
  function RemoveAt<T>(s: seq<T>, pos: nat): (r: seq<T>)
    requires pos < |s|
    ensures |r| == |s| - 1
    ensures forall k :: 0 <= k < pos ==> r[k] == s[k]
    ensures forall k :: pos <= k < |r| ==> r[k] == s[k + 1]
  {
    s[..pos] + s[pos + 1..]
  }

  /**
   * Grows a table by one slot and moves every entry from `pos` on up by one,
   * walking down from the new last slot. The slot at `pos` keeps its old
   * entry (or `filler`, the grown slot's content, when `pos` is the end)
   * until the caller overwrites it.
   */
  method ShiftUp<T>(s: seq<T>, pos: nat, filler: T) returns (r: seq<T>)
    requires pos <= |s|
    ensures |r| == |s| + 1
    ensures r[..pos] == s[..pos] && r[pos + 1..] == s[pos..]
    ensures r[pos] == if pos < |s| then s[pos] else filler
  {
    r := s + [filler];
    var i := |s|;
    while i > pos
      invariant pos <= i <= |s|
      invariant |r| == |s| + 1
      invariant forall k :: 0 <= k <= i ==> r[k] == (s + [filler])[k]
      invariant forall k :: i < k < |r| ==> r[k] == s[k - 1]
    {
      r := r[i := r[i - 1]];
      i := i - 1;
    }
  }

  /** After a shift up, filling the opened slot is an insertion. */
  lemma FillOpenedSlot<T>(s: seq<T>, r: seq<T>, pos: nat, x: T)
    requires pos <= |s| && |r| == |s| + 1
    requires r[..pos] == s[..pos] && r[pos + 1..] == s[pos..]
    ensures r[pos := x] == InsertAt(s, pos, x)
  {
    assert r[pos := x] == r[..pos] + [x] + r[pos + 1..];
  }

  /**
   * Moves every entry after `pos` down by one, walking up from `pos`, and
   * shrinks the table by its last slot.
   */
  method ShiftDown<T>(s: seq<T>, pos: nat) returns (r: seq<T>)
    requires pos < |s|
    ensures r == RemoveAt(s, pos)
  {
    r := s;
    var i := pos;
    while i < |s| - 1
      invariant pos <= i <= |s| - 1
      invariant |r| == |s|
      invariant forall k :: 0 <= k < pos ==> r[k] == s[k]
      invariant forall k :: pos <= k < i ==> r[k] == s[k + 1]
      invariant forall k :: i <= k < |s| ==> r[k] == s[k]
    {
      r := r[i := r[i + 1]];
      i := i + 1;
    }
    r := r[..|s| - 1];
  }

  // ---------------------------------------------------------------------
  // The shift loops as written

  /**
   * The slots the insertion's shift loop writes, in order: it starts at the
   * grown size, so `i` runs from `newSize` down to `pos + 1`.
   */
  function InsertShiftWrites(newSize: int, pos: int): (w: seq<int>)
    requires pos <= newSize
    ensures |w| == newSize - pos
  {
    seq(newSize - pos, k requires 0 <= k < newSize - pos => newSize - k)
  }

  /** The first write lands one past the last slot of the grown arrays. */
  lemma InsertShiftWritesPastEnd(newSize: int, pos: int)
    requires 0 <= pos < newSize
    ensures InsertShiftWrites(newSize, pos)[0] == newSize
  {
  }

  /**
   * The slots the removal's path shift reads, in order: `i` runs from `pos`
   * while below the size before shrinking, and `i + 1` is read.
   */
  function RemoveShiftReads(size: int, pos: int): (rd: seq<int>)
    requires pos <= size
    ensures |rd| == size - pos
  {
    seq(size - pos, k requires 0 <= k < size - pos => pos + k + 1)
  }

  /** The last read is one past the last slot of the path array. */
  lemma RemoveShiftReadsPastEnd(size: int, pos: int)
    requires 0 <= pos < size
    ensures RemoveShiftReads(size, pos)[size - pos - 1] == size
  {
  }

  // ---------------------------------------------------------------------
  // Running totals

  /** The sum of a sequence of amounts. */
  function Sum(xs: seq<int>): int {
    if xs == [] then 0 else Sum(xs[..|xs| - 1]) + xs[|xs| - 1]
  }

  /** The running totals of `xs`: entry `i` is the sum of items `0..i`. */
  function PrefixSums(xs: seq<int>): (r: seq<int>)
    ensures |r| == |xs|
  {
    seq(|xs|, i requires 0 <= i < |xs| => Sum(xs[..i + 1]))
  }

  /**
   * The running-total entry an inserted item receives: its own amount plus
   * the entry before `pos`, or its own amount alone at the front.
   */
  function NewEntry(table: seq<int>, pos: nat, amount: int): (e: int)
    requires pos <= |table|
    ensures pos == 0 ==> e == amount
    ensures pos > 0 ==> e - amount == table[pos - 1]
  {
    if pos > 0 then amount + table[pos - 1] else amount
  }

  lemma {:induction false} SumAppend(a: seq<int>, b: seq<int>)
    ensures Sum(a + b) == Sum(a) + Sum(b)
  {
    if b != [] {
      assert (a + b)[..|a + b| - 1] == a + b[..|b| - 1];
      SumAppend(a, b[..|b| - 1]);
    } else {
      assert a + b == a;
    }
  }

  lemma SumSingle(x: int)
    ensures Sum([x]) == x
  {
    assert [x][..0] == [];
  }

  lemma SumSnoc(xs: seq<int>, x: int)
    ensures Sum(xs + [x]) == Sum(xs) + x
  {
    assert (xs + [x])[..|xs|] == xs;
  }

  /** Totals before the inserted item sum the same items as before. */
  lemma InsertTotalBefore(items: seq<int>, pos: nat, amount: int, i: nat)
    requires i < pos <= |items|
    ensures PrefixSums(InsertAt(items, pos, amount))[i] == PrefixSums(items)[i]
  {
    var newItems := InsertAt(items, pos, amount);
    assert newItems[..i + 1] == items[..i + 1];
  }

  /** The inserted item's total is the one NewEntry computes. */
  lemma InsertTotalAt(items: seq<int>, pos: nat, amount: int)
    requires pos <= |items|
    ensures PrefixSums(InsertAt(items, pos, amount))[pos] == NewEntry(PrefixSums(items), pos, amount)
  {
    var newItems := InsertAt(items, pos, amount);
    assert newItems[..pos + 1] == items[..pos] + [amount];
    SumSnoc(items[..pos], amount);
    if pos > 0 {
      assert items[..pos] == items[..pos - 1 + 1];
    } else {
      assert items[..pos] == [];
    }
  }

  /**
   * Inserting an item keeps the running totals right up to and including
   * the new entry: every entry before `pos` sums the same items as before,
   * and the new one adds the item to the total before it.
   */
  lemma InsertKeepsTotalsUpTo(items: seq<int>, pos: nat, amount: int)
    requires pos <= |items|
    ensures var table := PrefixSums(items);
            var newItems := InsertAt(items, pos, amount);
            InsertAt(table, pos, NewEntry(table, pos, amount))[..pos + 1]
              == PrefixSums(newItems)[..pos + 1]
  {
    var table := PrefixSums(items);
    var moved := InsertAt(table, pos, NewEntry(table, pos, amount));
    var sums := PrefixSums(InsertAt(items, pos, amount));
    var head, want := moved[..pos + 1], sums[..pos + 1];
    forall i | 0 <= i < pos + 1 ensures head[i] == want[i] {
      if i < pos {
        InsertTotalBefore(items, pos, amount, i);
      } else {
        InsertTotalAt(items, pos, amount);
      }
    }
  }

  /** Appending an item keeps every running total right. */
  lemma AppendKeepsTotals(items: seq<int>, amount: int)
    ensures var table := PrefixSums(items);
            InsertAt(table, |items|, NewEntry(table, |items|, amount))
              == PrefixSums(items + [amount])
  {
    InsertKeepsTotalsUpTo(items, |items|, amount);
    assert InsertAt(items, |items|, amount) == items + [amount];
  }

  /**
   * Inserting an item of amount `b` in front of a one-item playlist of
   * amount `a` yields totals `b, a`, where the running totals are `b, a + b`:
   * the entries after `pos` are moved but not re-summed, so they are wrong
   * whenever the new item is not zero (5 before 10: 5, 10 instead of 5, 15).
   */
  lemma InsertLeavesLaterTotalsStale(a: int, b: int)
    ensures var table := PrefixSums([a]);
            InsertAt(table, 0, NewEntry(table, 0, b)) == [b, a]
            && PrefixSums(InsertAt([a], 0, b)) == [b, a + b]
  {
    TotalsOfOne(a);
    var table := PrefixSums([a]);
    var moved := InsertAt(table, 0, NewEntry(table, 0, b));
    assert moved[0] == b && moved[1] == a;
    var newItems := InsertAt([a], 0, b);
    assert newItems == [b, a];
    TotalsOfTwo(b, a);
  }

  /**
   * Removing the front item of a playlist of amounts `a` and `b` leaves the
   * total `a + b`, where the one remaining item sums to `b` (10 and 5: 15
   * instead of 5).
   */
  lemma RemoveLeavesLaterTotalsStale(a: int, b: int)
    ensures RemoveAt(PrefixSums([a, b]), 0) == [a + b]
            && PrefixSums(RemoveAt([a, b], 0)) == [b]
  {
    TotalsOfTwo(a, b);
    var rest := RemoveAt([a, b], 0);
    assert rest == [b];
    TotalsOfOne(b);
  }

  lemma TotalsOfOne(a: int)
    ensures PrefixSums([a]) == [a]
  {
    var items: seq<int> := [a];
    assert items[..1] == items;
    SumSingle(a);
  }

  lemma TotalsOfTwo(a: int, b: int)
    ensures PrefixSums([a, b]) == [a, a + b]
  {
    var items: seq<int> := [a, b];
    assert items[..1] == [a] && items[..2] == [a] + [b];
    SumSingle(a);
    SumSnoc([a], b);
  }

  /** `table` with `delta` added to every entry from `from` on. */
  function AddFrom(table: seq<int>, from: nat, delta: int): (r: seq<int>)
    ensures |r| == |table|
    ensures forall k :: 0 <= k < |r| && k < from ==> r[k] == table[k]
    ensures forall k :: from <= k < |r| ==> r[k] == table[k] + delta
  {
    seq(|table|, k requires 0 <= k < |table| => if k < from then table[k] else table[k] + delta)
  }

  /**
   * The evident intent of the insertion: adding the new item's amount to
   * every entry after it restores all the running totals.
   */
  lemma ResummedInsertKeepsTotals(items: seq<int>, pos: nat, amount: int)
    requires pos <= |items|
    ensures var table := PrefixSums(items);
            AddFrom(InsertAt(table, pos, NewEntry(table, pos, amount)), pos + 1, amount)
              == PrefixSums(InsertAt(items, pos, amount))
  {
    var table := PrefixSums(items);
    var sums := PrefixSums(InsertAt(items, pos, amount));
    var fixed := AddFrom(InsertAt(table, pos, NewEntry(table, pos, amount)), pos + 1, amount);
    forall i | 0 <= i < |fixed| ensures fixed[i] == sums[i] {
      if i < pos {
        InsertTotalBefore(items, pos, amount, i);
      } else if i == pos {
        InsertTotalAt(items, pos, amount);
      } else {
        InsertTotalAfter(items, pos, amount, i);
      }
    }
  }

  /** A total after the inserted item is the old total before it plus the item. */
  lemma InsertTotalAfter(items: seq<int>, pos: nat, amount: int, i: nat)
    requires pos < i <= |items|
    ensures PrefixSums(InsertAt(items, pos, amount))[i] == PrefixSums(items)[i - 1] + amount
  {
    var newItems := InsertAt(items, pos, amount);
    var front, back := items[..pos], items[pos..i];
    assert newItems[..i + 1] == (front + [amount]) + back;
    assert items[..i] == front + back;
    SumAppend(front + [amount], back);
    SumSnoc(front, amount);
    SumAppend(front, back);
  }

  /** Removing an item keeps the running totals before `pos` right. */
  lemma RemoveKeepsTotalsBefore(items: seq<int>, pos: nat)
    requires pos < |items|
    ensures RemoveAt(PrefixSums(items), pos)[..pos] == PrefixSums(RemoveAt(items, pos))[..pos]
  {
    var newItems := RemoveAt(items, pos);
    forall i | 0 <= i < pos
      ensures RemoveAt(PrefixSums(items), pos)[i] == PrefixSums(newItems)[i]
    {
      assert newItems[..i + 1] == items[..i + 1];
    }
  }

  /**
   * The evident intent of the removal: subtracting the removed item's amount
   * from every entry from `pos` on restores all the running totals.
   */
  lemma ResummedRemoveKeepsTotals(items: seq<int>, pos: nat)
    requires pos < |items|
    ensures AddFrom(RemoveAt(PrefixSums(items), pos), pos, -items[pos])
              == PrefixSums(RemoveAt(items, pos))
  {
    var newItems := RemoveAt(items, pos);
    var fixed := AddFrom(RemoveAt(PrefixSums(items), pos), pos, -items[pos]);
    forall i | 0 <= i < |fixed| ensures fixed[i] == PrefixSums(newItems)[i] {
      if i < pos {
        assert newItems[..i + 1] == items[..i + 1];
      } else {
        assert items[..i + 2] == items[..pos] + [items[pos]] + items[pos + 1..i + 2];
        assert newItems[..i + 1] == items[..pos] + items[pos + 1..i + 2];
        SumAppend(items[..pos] + [items[pos]], items[pos + 1..i + 2]);
        SumAppend(items[..pos], [items[pos]]);
        SumAppend(items[..pos], items[pos + 1..i + 2]);
        assert Sum([items[pos]]) == items[pos] by {
          assert [items[pos]][..0] == [];
        }
      }
    }
  }

  // ---------------------------------------------------------------------
  // insert_playlist's outcome

  /**
   * How many of `paths` an insertion of them in order adds: all of them when
   * every one opens, else up to and including the first that does not (it
   * is added before its opening fails).
   */
  function Attempted(paths: seq<seq<char>>, open: seq<char> -> OpenResult): (n: nat)
    ensures n <= |paths|
    ensures forall i :: 0 <= i < n - 1 ==> open(paths[i]).Opened?
    ensures n < |paths| ==> n > 0 && open(paths[n - 1]).OpenFailed?
    ensures n == |paths| && n > 0 && open(paths[n - 1]).Opened? ==>
              forall i :: 0 <= i < |paths| ==> open(paths[i]).Opened?
  {
    if paths == [] then 0
    else if open(paths[0]).OpenFailed? then 1
    else 1 + Attempted(paths[1..], open)
  }

  /** Inserting `x` just after a spliced segment extends the segment. */
  lemma SpliceStep<T>(s: seq<T>, pos: nat, seg: seq<T>, x: T, before: seq<T>, after: seq<T>)
    requires pos <= |s| && before == s[..pos] + seg + s[pos..]
    requires after == InsertAt(before, pos + |seg|, x)
    ensures after == s[..pos] + (seg + [x]) + s[pos..]
  {
    assert before[..pos + |seg|] == s[..pos] + seg;
    assert before[pos + |seg|..] == s[pos..];
  }

  /** Two sequences with the same first `q` entries have the same first `p <= q`. */
  lemma PrefixOfPrefix<T>(before: seq<T>, after: seq<T>, p: nat, q: nat)
    requires p <= q <= |before| && q <= |after| && after[..q] == before[..q]
    ensures after[..p] == before[..p]
  {
    assert after[..p] == after[..q][..p];
    assert before[..p] == before[..q][..p];
  }

  /** `n` empty format-context slots. */
  function Nones(n: nat): (r: seq<Option<FormatContext>>)
    ensures |r| == n && forall k :: 0 <= k < n ==> r[k] == None
  {
    seq(n, _ => None)
  }

  // ---------------------------------------------------------------------
  // The catalog

  class PlaylistContext {
    /** The item paths. */
    var flist: seq<seq<char>>
    /** The cached format context of each item, if one is open. */
    var formatContexts: seq<Option<FormatContext>>
    /** The number of items. */
    var pelistSize: int
    /** The item packets are read from; nothing here moves it. */
    var peCuridx: int
    /** Entry `i`: the durations of items `0..i` added up. */
    var durations: seq<int>
    /** Entry `i`: the stream counts of items `0..i` added up. */
    var nbStreamsList: seq<int>
    /** Whether the arrays have been allocated; a fresh playlist has none. */
    var arraysAllocated: bool
    /** The format contexts removal has closed, in order. */
    ghost var closedContexts: seq<FormatContext>

    /** One entry per item in every array; items exist only in allocated arrays. */
    predicate Valid()
      reads this
    {
      |flist| == pelistSize && |formatContexts| == pelistSize
      && |durations| == pelistSize && |nbStreamsList| == pelistSize
      && (pelistSize > 0 ==> arraysAllocated)
    }

    /** av_playlist_alloc: an empty playlist with nothing allocated. */
    constructor()
      ensures Valid() && pelistSize == 0 && peCuridx == 0 && !arraysAllocated
      ensures flist == [] && formatContexts == [] && durations == [] && nbStreamsList == []
      ensures closedContexts == []
    {
      flist := [];
      formatContexts := [];
      pelistSize := 0;
      peCuridx := 0;
      durations := [];
      nbStreamsList := [];
      arraysAllocated := false;
      closedContexts := [];
    }

    /**
     * Inserts `itempath` at `pos`: every array grows by one and shifts up
     * from `pos`, the new item has no cached context, and its path is
     * stored. When the item opens, its running totals are its duration and
     * stream count plus the entries before it; the entries after it are
     * moved, not re-summed. When it cannot be opened the call fails with the
     * item already inserted and its two total entries left as they were.
     */
    method InsertItem(itempath: seq<char>, pos: int, open: seq<char> -> OpenResult) returns (err: int)
      requires Valid() && 0 <= pos <= pelistSize
      modifies this
      ensures Valid() && arraysAllocated
      ensures pelistSize == old(pelistSize) + 1 && peCuridx == old(peCuridx)
      ensures closedContexts == old(closedContexts)
      ensures flist == InsertAt(old(flist), pos, itempath)
      ensures formatContexts == InsertAt(old(formatContexts), pos, None)
      ensures durations[..pos] == old(durations)[..pos] && nbStreamsList[..pos] == old(nbStreamsList)[..pos]
      ensures open(itempath).OpenFailed? ==>
                err == AVERROR_NOMEM
                && durations[pos + 1..] == old(durations)[pos..] && nbStreamsList[pos + 1..] == old(nbStreamsList)[pos..]
      ensures open(itempath).Opened? ==>
                err == 0
                && durations == InsertAt(old(durations), pos, NewEntry(old(durations), pos, open(itempath).duration))
                && nbStreamsList ==
                     InsertAt(old(nbStreamsList), pos, NewEntry(old(nbStreamsList), pos, open(itempath).nbStreams))
    {
      pelistSize := pelistSize + 1;
      arraysAllocated := true;
      var oldFlist := flist;
      var oldContexts := formatContexts;
      var oldDurations := durations;
      var oldNbStreams := nbStreamsList;
      flist := ShiftUp(flist, pos, []);
      durations := ShiftUp(durations, pos, 0);
      nbStreamsList := ShiftUp(nbStreamsList, pos, 0);
      formatContexts := ShiftUp(formatContexts, pos, None);
      FillOpenedSlot(oldContexts, formatContexts, pos, None);
      formatContexts := formatContexts[pos := None];
      FillOpenedSlot(oldFlist, flist, pos, itempath);
      flist := flist[pos := itempath];
      var ic := open(itempath);
      if ic.OpenFailed? {
        return AVERROR_NOMEM;
      }
      var d := NewEntry(oldDurations, pos, ic.duration);
      var n := NewEntry(oldNbStreams, pos, ic.nbStreams);
      FillOpenedSlot(oldDurations, durations, pos, d);
      FillOpenedSlot(oldNbStreams, nbStreamsList, pos, n);
      durations := durations[pos := d];
      nbStreamsList := nbStreamsList[pos := n];
      return 0;
    }

    /**
     * Inserts the items of `other` in order, item `i` at `pos + i`, and stops
     * at the first that fails, returning its error; the failed item is
     * already in place.
     */
    method InsertPlaylist(other: PlaylistContext, pos: int, open: seq<char> -> OpenResult) returns (err: int)
      requires Valid() && other.Valid() && other != this
      requires 0 <= pos <= pelistSize
      modifies this
      ensures Valid()
      ensures err == 0 || err == AVERROR_NOMEM
      ensures err == 0 <==> forall i :: 0 <= i < |other.flist| ==> open(other.flist[i]).Opened?
      ensures var n := Attempted(other.flist, open);
              pelistSize == old(pelistSize) + n
              && flist == old(flist)[..pos] + other.flist[..n] + old(flist)[pos..]
              && formatContexts == old(formatContexts)[..pos] + Nones(n) + old(formatContexts)[pos..]
      ensures peCuridx == old(peCuridx) && closedContexts == old(closedContexts)
      ensures durations[..pos] == old(durations)[..pos] && nbStreamsList[..pos] == old(nbStreamsList)[..pos]
    {
      var paths := other.flist;
      var i := 0;
      err := 0;
      while i < |paths|
        invariant 0 <= i <= |paths| && paths == other.flist && err == 0
        invariant Valid() && pelistSize == old(pelistSize) + i
        invariant forall k :: 0 <= k < i ==> open(paths[k]).Opened?
        invariant flist == old(flist)[..pos] + paths[..i] + old(flist)[pos..]
        invariant formatContexts == old(formatContexts)[..pos] + Nones(i) + old(formatContexts)[pos..]
        invariant peCuridx == old(peCuridx) && closedContexts == old(closedContexts)
        invariant durations[..pos] == old(durations)[..pos] && nbStreamsList[..pos] == old(nbStreamsList)[..pos]
      {
        ghost var before := (flist, formatContexts, durations, nbStreamsList);
        err := InsertItem(paths[i], pos + i, open);
        assert paths[..i + 1] == paths[..i] + [paths[i]];
        SpliceStep(old(flist), pos, paths[..i], paths[i], before.0, flist);
        assert Nones(i + 1) == Nones(i) + [None];
        SpliceStep(old(formatContexts), pos, Nones(i), None, before.1, formatContexts);
        PrefixOfPrefix(before.2, durations, pos, pos + i);
        PrefixOfPrefix(before.3, nbStreamsList, pos, pos + i);
        if err != 0 {
          AttemptedStopsAt(paths, open, i);
          return;
        }
        i := i + 1;
      }
      AttemptedAll(paths, open);
    }

    /**
     * Removes the item at `pos`. Past the end, or before any array exists,
     * it fails with AVERROR_INVALIDDATA and changes nothing. Otherwise every
     * array shifts down over `pos` and shrinks by one, and the item's cached
     * context, if any, is closed; the running totals after `pos` are moved,
     * not re-summed, and the read cursor is not adjusted.
     */
    method RemoveItem(pos: int) returns (err: int)
      requires Valid()
      requires pos < pelistSize && arraysAllocated ==> pos >= 0
      modifies this
      ensures Valid() && peCuridx == old(peCuridx) && arraysAllocated == old(arraysAllocated)
      ensures pos >= old(pelistSize) || !old(arraysAllocated) ==>
                err == AVERROR_INVALIDDATA
                && flist == old(flist) && formatContexts == old(formatContexts)
                && durations == old(durations) && nbStreamsList == old(nbStreamsList)
                && pelistSize == old(pelistSize) && closedContexts == old(closedContexts)
      ensures 0 <= pos < old(pelistSize) && old(arraysAllocated) ==>
                err == 0
                && pelistSize == old(pelistSize) - 1
                && flist == RemoveAt(old(flist), pos)
                && durations == RemoveAt(old(durations), pos)
                && nbStreamsList == RemoveAt(old(nbStreamsList), pos)
                && formatContexts == RemoveAt(old(formatContexts), pos)
                && closedContexts == old(closedContexts) + PresentIn(old(formatContexts)[pos])
    {
      if pos >= pelistSize || !arraysAllocated {
        return AVERROR_INVALIDDATA;
      }
      flist := ShiftDown(flist, pos);
      pelistSize := pelistSize - 1;
      durations := ShiftDown(durations, pos);
      nbStreamsList := ShiftDown(nbStreamsList, pos);
      if formatContexts[pos].Some? {
        closedContexts := closedContexts + [formatContexts[pos].value];
        formatContexts := formatContexts[pos := None];
      }
      formatContexts := ShiftDown(formatContexts, pos);
      return 0;
    }

    /**
     * Removes the last item until none is left, closing the cached contexts
     * from the tail towards the front.
     */
    method Close() returns (err: int)
      requires Valid()
      modifies this
      ensures Valid() && err == 0 && pelistSize == 0
      ensures flist == [] && formatContexts == [] && durations == [] && nbStreamsList == []
      ensures closedContexts == old(closedContexts) + ClosedFromTail(old(formatContexts))
    {
      while pelistSize > 0
        invariant Valid() && pelistSize <= old(pelistSize)
        invariant formatContexts == old(formatContexts)[..pelistSize]
        invariant closedContexts == old(closedContexts) + ClosedFromTail(old(formatContexts)[pelistSize..])
      {
        ghost var n := pelistSize;
        ghost var closedBefore := closedContexts;
        err := RemoveItem(pelistSize - 1);
        ClosedFromTailStep(old(formatContexts), n);
        assert formatContexts == old(formatContexts)[..n - 1];
      }
      err := 0;
    }
  }

  /** The context an entry holds, as a list of zero or one. */
  function PresentIn(c: Option<FormatContext>): seq<FormatContext> {
    if c.Some? then [c.value] else []
  }

  /** The contexts of a table taken from its last entry to its first. */
  function ClosedFromTail(cs: seq<Option<FormatContext>>): (r: seq<FormatContext>)
    ensures |r| <= |cs|
    ensures forall c <- r :: Some(c) in cs
  {
    if cs == [] then []
    else PresentIn(cs[|cs| - 1]) + ClosedFromTail(cs[..|cs| - 1])
  }

  /** Closing from the tail meets the front entry last. */
  lemma {:induction false} ClosedFromTailCons(x: Option<FormatContext>, t: seq<Option<FormatContext>>)
    ensures ClosedFromTail([x] + t) == ClosedFromTail(t) + PresentIn(x)
  {
    var u := [x] + t;
    if t == [] {
      assert u[..|u| - 1] == [];
    } else {
      var front := t[..|t| - 1];
      assert u[..|u| - 1] == [x] + front;
      assert u[|u| - 1] == t[|t| - 1];
      ClosedFromTailCons(x, front);
      var last := PresentIn(t[|t| - 1]);
      assert ClosedFromTail(u) == last + (ClosedFromTail(front) + PresentIn(x));
      assert ClosedFromTail(t) == last + ClosedFromTail(front);
      SeqAssoc(last, ClosedFromTail(front), PresentIn(x));
    }
  }

  lemma ClosedFromTailStep(cs: seq<Option<FormatContext>>, n: nat)
    requires 0 < n <= |cs|
    ensures ClosedFromTail(cs[n - 1..]) == ClosedFromTail(cs[n..]) + PresentIn(cs[n - 1])
  {
    assert cs[n - 1..] == [cs[n - 1]] + cs[n..];
    ClosedFromTailCons(cs[n - 1], cs[n..]);
  }

  lemma {:induction false} AttemptedStopsAt(paths: seq<seq<char>>, open: seq<char> -> OpenResult, i: nat)
    requires i < |paths| && open(paths[i]).OpenFailed?
    requires forall k :: 0 <= k < i ==> open(paths[k]).Opened?
    ensures Attempted(paths, open) == i + 1
  {
    if i > 0 {
      AttemptedStopsAt(paths[1..], open, i - 1);
    }
  }

  lemma {:induction false} AttemptedAll(paths: seq<seq<char>>, open: seq<char> -> OpenResult)
    requires forall k :: 0 <= k < |paths| ==> open(paths[k]).Opened?
    ensures Attempted(paths, open) == |paths|
  {
    if paths != [] {
      AttemptedAll(paths[1..], open);
    }
  }
}
