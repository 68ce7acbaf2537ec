/**
 * The concatenating read loop (libavformat/concatgen.c). Packets are read
 * from the current item; a successful packet's decoding time is moved on by
 * the stream's time offset, the total duration of the items already played.
 * A failed read while items remain adds the finished item's per-stream
 * durations to the offsets, advances the cursor of the packet's stream and
 * reads again.
 *
 * The items' demuxers are outside the model and come in as `Items`: what
 * each read answers, and each item's stream count, B-frame flags, stream
 * durations and time-base conversion, which libavformat computes elsewhere.
 */
module ConcatGen {

  /** The fields of a packet the loop reads or rewrites. */
  datatype Packet = Packet(streamIndex: int, dts: int, pts: int)

  /** A read's return code and the packet as the read left it. */
  datatype Reply = Reply(ret: int, pkt: Packet)

  /** What the items' demuxers answer. */
  datatype Items = Items(
    /** `read(k, n)`: item `k`'s answer to the `n`-th read of one call. */
    read: (nat, nat) -> Reply,
    /** The number of streams of item `k`. */
    nbStreams: nat -> int,
    /** Whether stream `i` of item `k` has B-frames. */
    hasBFrames: (nat, int) -> bool,
    /** The duration of stream `i` of item `k`. */
    duration: (nat, int) -> int,
    /** An offset converted into the time base of stream `i` of item `k`. */
    convTime: (nat, int, int) -> int)

  /** The seek call forwarded to an item's demuxer. */
  datatype SeekCall = SeekCall(item: nat, streamIndex: int, pts: int, flags: int)

  /**
   * A packet of item `item` moved by `offset`: its decoding time gains the
   * offset in the stream's time base, and a stream without B-frames gets a
   * presentation time one past the new decoding time.
   */
  function Rebase(items: Items, item: nat, p: Packet, offset: int): (r: Packet)
    ensures r.streamIndex == p.streamIndex
    ensures r.dts - p.dts == items.convTime(item, p.streamIndex, offset)
    ensures items.hasBFrames(item, p.streamIndex) ==> r.pts == p.pts
    ensures !items.hasBFrames(item, p.streamIndex) ==> r.pts == r.dts + 1
  {
    var dts := p.dts + items.convTime(item, p.streamIndex, offset);
    Packet(p.streamIndex, dts, if items.hasBFrames(item, p.streamIndex) then p.pts else dts + 1)
  }

  /**
   * Two packets of one stream rebased by one offset keep their decoding
   * order, and a stream without B-frames presents every packet after it is
   * decoded.
   */
  lemma RebaseKeepsOrder(items: Items, item: nat, p: Packet, q: Packet, offset: int)
    requires p.streamIndex == q.streamIndex && p.dts <= q.dts
    ensures Rebase(items, item, p, offset).dts <= Rebase(items, item, q, offset).dts
    ensures !items.hasBFrames(item, p.streamIndex) ==>
              Rebase(items, item, p, offset).dts < Rebase(items, item, p, offset).pts
  {
  }

  /**
   * The offsets after finishing item `item`: stream `i`'s offset gains the
   * item's stream-`i` duration for every `i` below both the item's stream
   * count and the number of offsets; no other offset changes.
   */
  function AddedDurations(offsets: seq<int>, items: Items, item: nat): (r: seq<int>)
    ensures |r| == |offsets|
    ensures forall i :: 0 <= i < |r| && i < items.nbStreams(item) ==>
              r[i] - offsets[i] == items.duration(item, i)
    ensures forall i :: 0 <= i < |r| && !(i < items.nbStreams(item)) ==> r[i] == offsets[i]
  {
    seq(|offsets|, i requires 0 <= i < |offsets| =>
      if i < items.nbStreams(item) then offsets[i] + items.duration(item, i) else offsets[i])
  }

  /** The loop of concatgen.c that adds the finished item's durations, stream by stream. */
  method AddDurations(offsets: seq<int>, items: Items, item: nat) returns (r: seq<int>)
    ensures r == AddedDurations(offsets, items, item)
  {
    r := offsets;
    var i := 0;
    while i < items.nbStreams(item) && i < |r|
      invariant 0 <= i <= |r| == |offsets| && (i == 0 || i <= items.nbStreams(item))
      invariant forall k :: 0 <= k < i ==> r[k] == offsets[k] + items.duration(item, k)
      invariant forall k :: i <= k < |r| ==> r[k] == offsets[k]
    {
      r := r[i := r[i] + items.duration(item, i)];
      i := i + 1;
    }
  }

  /** The per-stream cursors and time offsets a read works on. */
  datatype Progress = Progress(cursors: seq<int>, offsets: seq<int>)

  /** No cursor is before the first item. */
  predicate NonNegative(cursors: seq<int>) {
    forall j :: 0 <= j < |cursors| ==> cursors[j] >= 0
  }

  /**
   * One failed read, the `k`-th of a call: the packet it left names a stream
   * `si`; the item under that stream's cursor is finished, so its durations
   * are added to the offsets and the cursor moves to the next item.
   */
  function SwitchStep(items: Items, st: Progress, k: nat): (r: Progress)
    requires |st.cursors| > 0 && NonNegative(st.cursors)
    ensures |r.cursors| == |st.cursors| && |r.offsets| == |st.offsets| && NonNegative(r.cursors)
  {
    var si := items.read(st.cursors[0], k).pkt.streamIndex;
    if 0 <= si < |st.cursors| then
      Progress(st.cursors[si := st.cursors[si] + 1], AddedDurations(st.offsets, items, st.cursors[si]))
    else st
  }

  /** The cursors and offsets after the first `n` reads of a call failed and switched. */
  function AfterSwitches(items: Items, start: Progress, n: nat): (r: Progress)
    requires |start.cursors| > 0 && NonNegative(start.cursors)
    ensures |r.cursors| == |start.cursors| && |r.offsets| == |start.offsets| && NonNegative(r.cursors)
  {
    if n == 0 then start else SwitchStep(items, AfterSwitches(items, start, n - 1), n - 1)
  }

  /** A failed read whose packet names stream `si` switches that stream. */
  lemma SwitchAt(items: Items, st: Progress, k: nat, si: int)
    requires |st.cursors| > 0 && NonNegative(st.cursors)
    requires si == items.read(st.cursors[0], k).pkt.streamIndex && 0 <= si < |st.cursors|
    ensures SwitchStep(items, st, k) ==
              Progress(st.cursors[si := st.cursors[si] + 1], AddedDurations(st.offsets, items, st.cursors[si]))
  {
  }

  /** One more switch is one more step after the switches so far. */
  lemma SwitchesUnfold(items: Items, start: Progress, n: nat)
    requires |start.cursors| > 0 && NonNegative(start.cursors)
    ensures AfterSwitches(items, start, n + 1) == SwitchStep(items, AfterSwitches(items, start, n), n)
  {
  }

  /**
   * With durations that are never negative, switching never lowers a time
   * offset, so the decoding times of later items are not moved back.
   */
  lemma {:induction false} SwitchesKeepOffsetsRising(items: Items, start: Progress, n: nat)
    requires |start.cursors| > 0 && NonNegative(start.cursors)
    requires forall k: nat, i: int :: items.duration(k, i) >= 0
    ensures var r := AfterSwitches(items, start, n);
            forall i :: 0 <= i < |start.offsets| ==> start.offsets[i] <= r.offsets[i]
  {
    if n > 0 {
      SwitchesKeepOffsetsRising(items, start, n - 1);
      var prev := AfterSwitches(items, start, n - 1);
      var r := SwitchStep(items, prev, n - 1);
      assert AfterSwitches(items, start, n) == r;
      forall i | 0 <= i < |start.offsets|
        ensures prev.offsets[i] <= r.offsets[i]
      {
        var si := items.read(prev.cursors[0], n - 1).pkt.streamIndex;
        if 0 <= si < |prev.cursors| && i < items.nbStreams(prev.cursors[si]) {
          assert r.offsets[i] - prev.offsets[i] == items.duration(prev.cursors[si], i);
        }
      }
    }
  }

  /** How many switches the cursors have left: the items after each cursor. */
  function Gap(cursors: seq<int>, size: int): (g: nat)
    ensures cursors == [] ==> g == 0
  {
    if cursors == [] then 0
    else
      var c := cursors[|cursors| - 1];
      Gap(cursors[..|cursors| - 1], size) + (if c < size - 1 then size - 1 - c else 0)
  }

  /** Advancing one cursor that is below the last item uses up one switch. */
  lemma {:induction false} GapStep(cursors: seq<int>, size: int, j: nat)
    requires j < |cursors| && cursors[j] < size - 1
    ensures Gap(cursors[j := cursors[j] + 1], size) == Gap(cursors, size) - 1
  {
    var n := |cursors|;
    var next := cursors[j := cursors[j] + 1];
    if j < n - 1 {
      assert next[..n - 1] == cursors[..n - 1][j := cursors[j] + 1];
      GapStep(cursors[..n - 1], size, j);
    } else {
      assert next[..n - 1] == cursors[..n - 1];
    }
  }

  /** Every cursor is on one of `size` items, and there is a first stream's cursor. */
  predicate CursorsOn(cursors: seq<int>, size: int) {
    |cursors| > 0 && forall j :: 0 <= j < |cursors| ==> 0 <= cursors[j] < size
  }

  /** No cursor is behind where it started. */
  predicate NotBehind(start: seq<int>, cursors: seq<int>) {
    |start| == |cursors| && forall j :: 0 <= j < |cursors| ==> start[j] <= cursors[j]
  }

  /**
   * Advancing the cursor of stream `si` past an item that is not the last
   * keeps every cursor on an item, never moves a cursor back from where it
   * started, and uses up one switch.
   */
  lemma AdvanceCursor(start: seq<int>, cursors: seq<int>, size: int, si: nat)
    requires CursorsOn(cursors, size) && NotBehind(start, cursors)
    requires si < |cursors| && cursors[si] < size - 1
    ensures CursorsOn(cursors[si := cursors[si] + 1], size)
    ensures NotBehind(start, cursors[si := cursors[si] + 1])
    ensures Gap(cursors[si := cursors[si] + 1], size) == Gap(cursors, size) - 1
  {
    GapStep(cursors, size, si);
  }

  /** Every packet a read leaves names a stream below `streams`. */
  ghost predicate StreamsBelow(items: Items, streams: nat) {
    forall k: nat, n: nat :: 0 <= items.read(k, n).pkt.streamIndex < streams
  }

  /** Each of the first `n` reads from `start`, made where the switches before it led, failed. */
  ghost predicate FailedBefore(items: Items, start: Progress, n: nat)
    requires |start.cursors| > 0 && NonNegative(start.cursors)
  {
    n == 0 || (FailedBefore(items, start, n - 1)
               && items.read(AfterSwitches(items, start, n - 1).cursors[0], n - 1).ret < 0)
  }

  /** After any switch the first read of the call had failed. */
  lemma {:induction false} FirstReadFailed(items: Items, start: Progress, n: nat)
    requires |start.cursors| > 0 && NonNegative(start.cursors)
    requires FailedBefore(items, start, n) && n > 0
    ensures items.read(start.cursors[0], 0).ret < 0
  {
    if n > 1 {
      FirstReadFailed(items, start, n - 1);
    }
  }

  /**
   * Where `n` switches from `start` lead: every cursor still on one of
   * `size` items and none behind where it started, the `n` reads before
   * failed, the cursors and offsets those of `AfterSwitches`, and `n`
   * switches used up.
   */
  ghost predicate Reached(items: Items, size: int, start: Progress, st: Progress, n: nat) {
    CursorsOn(start.cursors, size) && CursorsOn(st.cursors, size) && NotBehind(start.cursors, st.cursors)
    && FailedBefore(items, start, n)
    && st == AfterSwitches(items, start, n)
    && n == Gap(start.cursors, size) - Gap(st.cursors, size)
  }

  /**
   * The `k`-th read failed with a packet of stream `si` whose item is not
   * the last: the item's durations go into the offsets and the stream's
   * cursor moves on, which is the next step of `AfterSwitches` and uses up
   * one switch.
   */
  method Switch(items: Items, size: int, start: Progress, st: Progress, k: nat) returns (next: Progress)
    requires Reached(items, size, start, st, k)
    requires items.read(st.cursors[0], k).ret < 0
    requires var si := items.read(st.cursors[0], k).pkt.streamIndex;
             0 <= si < |st.cursors| && st.cursors[si] < size - 1
    ensures Reached(items, size, start, next, k + 1)
    ensures Gap(next.cursors, size) < Gap(st.cursors, size)
  {
    var si := items.read(st.cursors[0], k).pkt.streamIndex;
    AdvanceCursor(start.cursors, st.cursors, size, si);
    var offs := AddDurations(st.offsets, items, st.cursors[si]);
    SwitchAt(items, st, k, si);
    SwitchesUnfold(items, start, k);
    next := Progress(st.cursors[si := st.cursors[si] + 1], offs);
  }

  /**
   * The read answered `reply` at `st` and the loop stops with it: a success
   * answers the packet rebased by its stream's offset, and a failure is
   * answered only when the packet's stream is on the last item.
   */
  ghost predicate Answered(items: Items, size: int, st: Progress, k: nat, ret: int, last: Packet)
    requires |st.cursors| > 0 && NonNegative(st.cursors)
    requires StreamsBelow(items, |st.cursors|) && StreamsBelow(items, |st.offsets|)
  {
    var reply := items.read(st.cursors[0], k);
    var si := reply.pkt.streamIndex;
    ret == reply.ret
    && (ret >= 0 ==> last == Rebase(items, st.cursors[si], reply.pkt, st.offsets[si]))
    && (ret < 0 ==> last == reply.pkt && st.cursors[si] == size - 1)
  }

  /**
   * One pass of the read loop, the `k`-th read: it either stops with the
   * read's answer or, after a failure with items left on the packet's
   * stream, switches once.
   */
  method ReadOnce(items: Items, size: int, start: Progress, st: Progress, k: nat)
    returns (done: bool, ret: int, last: Packet, next: Progress)
    requires Reached(items, size, start, st, k)
    requires StreamsBelow(items, |st.cursors|) && StreamsBelow(items, |st.offsets|)
    ensures done ==> next == st && Answered(items, size, st, k, ret, last)
    ensures !done ==> Reached(items, size, start, next, k + 1)
    ensures !done ==> Gap(next.cursors, size) < Gap(st.cursors, size)
  {
    var reply := items.read(st.cursors[0], k);
    ret := reply.ret;
    last := reply.pkt;
    var si := last.streamIndex;
    var item := st.cursors[si];
    next := st;
    done := true;
    if ret >= 0 {
      last := Rebase(items, item, last, st.offsets[si]);
    } else if item < size - 1 {
      next := Switch(items, size, start, st, k);
      done := false;
    }
  }

  /**
   * The read loop of concatgen_read_packet on the cursors and offsets it
   * starts from. Every read goes to the first stream's item; the packet's
   * own stream decides which item's time base and B-frame flag apply and
   * whose cursor a failure advances. `switches` reads made before the last
   * one failed and each advanced one cursor by one, so the loop ends. After
   * a switch the packet is read into a fresh buffer: the caller's packet,
   * `visible`, keeps what the first, failed read left in it.
   */
  method ReadLoop(items: Items, size: int, start: Progress)
    returns (ret: int, visible: Packet, last: Packet, switches: nat, st: Progress)
    requires CursorsOn(start.cursors, size)
    requires StreamsBelow(items, |start.cursors|) && StreamsBelow(items, |start.offsets|)
    ensures Reached(items, size, start, st, switches)
    ensures var reply := items.read(st.cursors[0], switches);
            var si := reply.pkt.streamIndex;
            ret == reply.ret
            && (ret >= 0 ==> last == Rebase(items, st.cursors[si], reply.pkt, st.offsets[si]))
            && (ret < 0 ==> last == reply.pkt && st.cursors[si] == size - 1)
    ensures switches == 0 ==> visible == last
    ensures switches > 0 ==> visible == items.read(start.cursors[0], 0).pkt
    ensures items.read(start.cursors[0], 0).ret >= 0 ==> switches == 0
  {
    switches := 0;
    st := start;
    while true
      invariant Reached(items, size, start, st, switches)
      decreases Gap(st.cursors, size)
    {
      var done, next;
      done, ret, last, next := ReadOnce(items, size, start, st, switches);
      if done {
        break;
      }
      st, switches := next, switches + 1;
    }
    // The caller's packet is the first read's: rebased in place when that
    // read succeeded, else as the failed read left it.
    visible := if switches == 0 then last else items.read(start.cursors[0], 0).pkt;
    if switches > 0 {
      FirstReadFailed(items, start, switches);
    }
  }

  /** The per-stream state of a concatenating demuxer. */
  class PlaylistC {
    /** The number of items. */
    var pelistSize: int
    /** Per stream, the item its packets come from. */
    var cursors: seq<int>
    /** Per stream, the duration of the items already played. */
    var timeOffsets: seq<int>

    /** Every cursor is on an item, and there is a first stream's cursor. */
    predicate Valid()
      reads this
    {
      CursorsOn(cursors, pelistSize)
    }

    constructor(size: int, nbStreams: nat, offsetsSize: nat)
      requires size > 0 && nbStreams > 0
      ensures Valid() && pelistSize == size
      ensures cursors == seq(nbStreams, _ => 0) && timeOffsets == seq(offsetsSize, _ => 0)
    {
      pelistSize := size;
      cursors := seq(nbStreams, _ => 0);
      timeOffsets := seq(offsetsSize, _ => 0);
    }

    /**
     * Reads one packet through `ReadLoop` and stores the cursors and offsets
     * it leaves; after a switch they are those of `AfterSwitches`.
     */
    method ReadPacket(items: Items) returns (ret: int, visible: Packet, last: Packet, switches: nat)
      requires Valid() && StreamsBelow(items, |cursors|) && StreamsBelow(items, |timeOffsets|)
      modifies this
      ensures Valid() && pelistSize == old(pelistSize)
      ensures NotBehind(old(cursors), cursors) && |timeOffsets| == |old(timeOffsets)|
      ensures Progress(cursors, timeOffsets) == AfterSwitches(items, Progress(old(cursors), old(timeOffsets)), switches)
      ensures switches == Gap(old(cursors), pelistSize) - Gap(cursors, pelistSize)
      ensures var reply := items.read(cursors[0], switches);
              var si := reply.pkt.streamIndex;
              ret == reply.ret
              && (ret >= 0 ==> last == Rebase(items, cursors[si], reply.pkt, timeOffsets[si]))
              && (ret < 0 ==> last == reply.pkt && cursors[si] == pelistSize - 1)
      ensures switches == 0 ==>
                visible == last && cursors == old(cursors) && timeOffsets == old(timeOffsets)
      ensures switches > 0 ==> visible == items.read(old(cursors)[0], 0).pkt
      ensures FailedBefore(items, Progress(old(cursors), old(timeOffsets)), switches)
      ensures items.read(old(cursors)[0], 0).ret >= 0 ==> switches == 0
    {
      var st;
      ret, visible, last, switches, st := ReadLoop(items, pelistSize, Progress(cursors, timeOffsets));
      cursors, timeOffsets := st.cursors, st.offsets;
    }

    /**
     * Seeking is handed unchanged to the first stream's item: no time is
     * translated and no cursor moves. The answer is the call forwarded.
     */
    method ReadSeek(streamIndex: int, pts: int, flags: int) returns (call: SeekCall)
      requires Valid()
      ensures call.item == cursors[0]
      ensures call.streamIndex == streamIndex && call.pts == pts && call.flags == flags
    {
      call := SeekCall(cursors[0], streamIndex, pts, flags);
    }
  }
}
