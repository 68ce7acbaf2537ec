/**
 * The M3U demuxer (libavformat/m3u.c): its probe, which trusts the header
 * when the buffer is long enough and only otherwise looks at the file name,
 * its item listing, and its read loop, which moves on to the next item when
 * the current one fails. Its compare_bufs is the same loop as the playlist
 * demuxer's and is `Playlist.CompareBufs` here; its line splitter is
 * `Playlist.ListFiles`.
 */
module M3u {
  import opened Common
  import opened Playlist

  /**
   * With a buffer of at least 7 bytes the header alone decides: the maximum
   * score for `#EXTM3U`, else 0. Only without such a buffer is the file
   * name consulted, and an `m3u` extension then scores half the maximum.
   */
  method M3uProbe(buf: Option<seq<byte>>, bufSize: int, filename: Option<seq<char>>)
    returns (score: int)
    requires buf.Some? ==> bufSize <= |buf.value|
    ensures bufSize >= 7 && buf.Some? ==>
              (score == AVPROBE_SCORE_MAX || score == 0)
              && (score == AVPROBE_SCORE_MAX <==> EXTM3U <= buf.value)
    ensures !(bufSize >= 7 && buf.Some?) ==>
              (score == AVPROBE_SCORE_MAX / 2 || score == 0)
              && (score == AVPROBE_SCORE_MAX / 2 <==>
                    filename.Some? && HasExtension(filename.value, M3U_EXTN))
  {
    if bufSize >= 7 && buf.Some? {
      var m := CompareBufs(buf.value, EXTM3U);
      if m == 1 {
        return AVPROBE_SCORE_MAX;
      }
      return 0;
    }
    var e := CheckFileExtn(filename, M3U_EXTN);
    if e == 1 {
      return AVPROBE_SCORE_MAX / 2;
    }
    return 0;
  }

  /**
   * m3u_list_files: the same split as the playlist demuxer's, and the count
   * it reports is the number of completed entries, so an unterminated last
   * line is not counted.
   */
  method M3uListFiles(buffer: seq<byte>, bufferSize: nat)
    returns (entries: seq<seq<byte>>, trailing: seq<byte>, count: nat)
    requires bufferSize <= |buffer|
    requires FitsTable(ListingOf(UntilNul(buffer[..bufferSize])))
    ensures Listing(entries, trailing) == ListingOf(UntilNul(buffer[..bufferSize]))
    ensures count == |entries|
    ensures forall e <- entries :: e != [] && HASH !in e && NEWLINE !in e && NUL !in e
  {
    entries, trailing := ListFiles(buffer, bufferSize);
    ListingEntriesClean(UntilNul(buffer[..bufferSize]));
    count := |entries|;
  }

  /** The M3U demuxer's state: the item being read and the number of items. */
  class PlaylistD {
    var peCuridx: int
    var pelistSize: int

    /** The current item is one of the playlist's items. */
    predicate Valid()
      reads this
    {
      0 <= peCuridx < pelistSize
    }

    constructor(size: int)
      requires size > 0
      ensures Valid() && peCuridx == 0 && pelistSize == size
    {
      peCuridx := 0;
      pelistSize := size;
    }

    /**
     * Reads from the current item; a failure while a later item exists moves
     * to that item and reads again. `read(k)` is what item `k`'s demuxer
     * answers. The result is the first success from the current item on, or
     * the last item's error, and the cursor stops on the item that answered.
     */
    method ReadPacket(read: nat -> int) returns (ret: int)
      requires Valid()
      modifies this
      ensures Valid() && pelistSize == old(pelistSize)
      ensures old(peCuridx) <= peCuridx
      ensures ret == read(peCuridx)
      ensures forall k :: old(peCuridx) <= k < peCuridx ==> read(k) < 0
      ensures ret < 0 ==> peCuridx == pelistSize - 1
      ensures read(old(peCuridx)) >= 0 ==> peCuridx == old(peCuridx)
    {
      ret := read(peCuridx);
      while ret < 0 && peCuridx < pelistSize - 1
        invariant Valid() && pelistSize == old(pelistSize)
        invariant old(peCuridx) <= peCuridx
        invariant ret == read(peCuridx)
        invariant forall k :: old(peCuridx) <= k < peCuridx ==> read(k) < 0
        decreases pelistSize - peCuridx
      {
        peCuridx := peCuridx + 1;
        ret := read(peCuridx);
      }
    }
  }
}
