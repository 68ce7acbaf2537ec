/**
 * The text scanning of the playlist demuxer (libavformat/playlist.c): the
 * prefix test on the probe buffer, the file-extension test, the probe score,
 * the comment-stripping line splitter that lists the playlist's items, and
 * the counting loop that sizes the playlist from that list.
 */
module Playlist {
  import opened Common

  const NUL: byte := 0
  const NEWLINE: byte := 10
  const HASH: byte := 35

  /** The M3U header tag `#EXTM3U`, byte by byte. */
  const EXTM3U: seq<byte> := [35, 69, 88, 84, 77, 51, 85]

  /** The extension both probes look for. */
  const M3U_EXTN: seq<char> := "m3u"

  /** The item table of the line splitter: 512 rows of 512 bytes. */
  const TABLE_ROWS: nat := 512
  const ROW_BYTES: nat := 512

  // ---------------------------------------------------------------------
  // compare_bufs

  /**
   * Walks the NUL-terminated `rbuf` (given here without its terminator)
   * against `buf` and answers 1 exactly when `rbuf` is a prefix of `buf`.
   */
  method CompareBufs(buf: seq<byte>, rbuf: seq<byte>) returns (r: int)
    requires NUL !in rbuf
    requires |rbuf| <= |buf|
    ensures r == 0 || r == 1
    ensures r == 1 <==> rbuf <= buf
  {
    var k := 0;
    while k < |rbuf|
      invariant 0 <= k <= |rbuf|
      invariant buf[..k] == rbuf[..k]
    {
      if rbuf[k] != buf[k] {
        return 0;
      }
      k := k + 1;
    }
    assert buf[..|rbuf|] == rbuf;
    return 1;
  }

  // ---------------------------------------------------------------------
  // check_file_extn

  /** `name[i]` is a dot immediately followed by every character of `extn`. */
  ghost predicate DotThenExtn(name: seq<char>, extn: seq<char>, i: int) {
    0 <= i < |name| && name[i] == '.' && i + 1 + |extn| <= |name|
    && name[i + 1 .. i + 1 + |extn|] == extn
  }

  /** Some dot of `name` is immediately followed by all of `extn`. */
  ghost predicate HasExtension(name: seq<char>, extn: seq<char>) {
    exists i :: DotThenExtn(name, extn, i)
  }

  /** Where a complete match may still start: the live dot, or the next character. */
  ghost function Frontier(k: int, pos: int): int {
    if pos >= 0 then k - pos - 1 else k
  }

  /**
   * What check_file_extn knows after `k` characters with state `pos`: `pos`
   * is -1 while no match is live and otherwise counts the characters of
   * `extn` matched since the last dot; no complete match starts before the
   * frontier.
   */
  ghost predicate ExtnScanState(s: seq<char>, extn: seq<char>, k: int, pos: int) {
    0 <= k <= |s| && -1 <= pos && (pos < |extn| || pos == 0)
    && (pos >= 0 ==> k - pos - 1 >= 0 && s[k - pos - 1] == '.' && s[k - pos .. k] == extn[..pos])
    && (extn != [] && '.' !in extn ==>
          forall i :: 0 <= i < Frontier(k, pos) ==> !DotThenExtn(s, extn, i))
  }

  /** The state after one more character: a dot restarts, a mismatch abandons. */
  function ExtnNext(s: seq<char>, extn: seq<char>, k: nat, pos: int): int
    requires k < |s|
  {
    if s[k] == '.' then 0
    else if pos >= 0 && pos < |extn| && s[k] == extn[pos] then pos + 1
    else -1
  }

  /** One more matching character lengthens the live match by one. */
  lemma MatchExtends(s: seq<char>, extn: seq<char>, k: nat, pos: int)
    requires 0 <= pos < |extn| && pos <= k < |s|
    requires s[k - pos .. k] == extn[..pos] && s[k] == extn[pos]
    ensures s[k - pos .. k + 1] == extn[..pos + 1]
  {
    var grown, want := s[k - pos .. k + 1], extn[..pos + 1];
    var seen, wanted := s[k - pos .. k], extn[..pos];
    forall j | 0 <= j < pos + 1
      ensures grown[j] == want[j]
    {
      if j < pos {
        assert seen[j] == wanted[j];
      }
    }
  }

  lemma ExtnScanStep(s: seq<char>, extn: seq<char>, k: nat, pos: int)
    requires ExtnScanState(s, extn, k, pos) && k < |s|
    ensures s[k] != '.' && pos >= 0 && ExtnNext(s, extn, k, pos) == |extn| ==>
              DotThenExtn(s, extn, k - pos - 1)
    ensures s[k] == '.' || pos < 0 || ExtnNext(s, extn, k, pos) != |extn| ==>
              ExtnScanState(s, extn, k + 1, ExtnNext(s, extn, k, pos))
  {
    var p := ExtnNext(s, extn, k, pos);
    if p > 0 {
      MatchExtends(s, extn, k, pos);
      if p == |extn| {
        assert extn[..p] == extn;
      }
    }
    if extn != [] && '.' !in extn && (s[k] == '.' || p == -1) {
      var stop := if s[k] == '.' then k else k + 1;
      if pos >= 0 {
        if s[k] == '.' {
          NoDotInMatch(s, extn, k - pos - 1, k);
        } else {
          assert !DotThenExtn(s, extn, k - pos - 1);
        }
        NoDotsBetween(s, extn, k - pos, k, pos);
      }
      forall i | Frontier(k, pos) <= i < stop ensures !DotThenExtn(s, extn, i) {
        if pos < 0 || i > k - pos - 1 {
          assert s[i] != '.';
        }
      }
      assert Frontier(k + 1, p) == stop;
    }
  }

  /** A finished scan with no match has seen no dot followed by `extn`. */
  lemma ExtnScanDone(s: seq<char>, extn: seq<char>, pos: int)
    requires ExtnScanState(s, extn, |s|, pos) && extn != [] && '.' !in extn
    ensures !HasExtension(s, extn)
  {
    var k := |s|;
    if pos >= 0 {
      NoDotsBetween(s, extn, k - pos, k, pos);
    }
    forall i | 0 <= i < |s| ensures !DotThenExtn(s, extn, i) {
      if pos >= 0 && i == k - pos - 1 {
        assert i + 1 + |extn| > |s|;
      }
    }
  }

  /**
   * check_file_extn: every dot restarts the match and a mismatch abandons it
   * until the next dot; the answer is 1 as soon as the whole extension has
   * been matched, so trailing characters (`a.m3ux`, `a.m3u.bak`) do not
   * prevent a match. A NULL or empty name answers 0. Stated as an
   * equivalence for extensions that are not empty and hold no dot, which is
   * how the probes call it.
   */
  method CheckFileExtn(name: Option<seq<char>>, extn: seq<char>) returns (r: int)
    requires '\0' !in extn
    ensures r == 0 || r == 1
    ensures name.None? || name.value == [] ==> r == 0
    ensures extn == [] ==> r == 0
    ensures extn != [] && '.' !in extn ==>
              (r == 1 <==> name.Some? && HasExtension(name.value, extn))
  {
    if name.None? {
      return 0;
    }
    var s := name.value;
    if s == [] {
      return 0;
    }
    var pos := -1;
    var k := 0;
    while k < |s|
      invariant ExtnScanState(s, extn, k, pos)
    {
      ExtnScanStep(s, extn, k, pos);
      if s[k] == '.' {
        pos := 0;
      } else if pos >= 0 {
        if pos < |extn| && s[k] == extn[pos] {
          pos := pos + 1;
        } else {
          pos := -1;
        }
        if pos == |extn| {
          return 1;
        }
      }
      k := k + 1;
    }
    if extn != [] && '.' !in extn {
      ExtnScanDone(s, extn, pos);
    }
    return 0;
  }

  /** The matched stretch after the live dot holds no dot. */
  lemma NoDotsBetween(s: seq<char>, extn: seq<char>, lo: int, hi: int, pos: int)
    requires 0 <= lo <= hi <= |s| && hi - lo == pos && 0 <= pos <= |extn|
    requires s[lo .. hi] == extn[..pos] && '.' !in extn
    ensures forall i :: lo <= i < hi ==> s[i] != '.'
  {
    forall i | lo <= i < hi ensures s[i] != '.' {
      assert s[lo .. hi][i - lo] == s[i];
      assert extn[..pos][i - lo] in extn;
    }
  }

  /** A live match whose next character is a dot can never complete. */
  lemma NoDotInMatch(s: seq<char>, extn: seq<char>, j: int, k: int)
    requires 0 <= j < k < |s| && s[k] == '.' && k - j - 1 < |extn| && '.' !in extn
    ensures !DotThenExtn(s, extn, j)
  {
  }

  // ---------------------------------------------------------------------
  // playlist_probe

  /**
   * A buffer of at least 7 bytes that starts with `#EXTM3U` scores the
   * maximum; otherwise, unlike the M3U demuxer's probe, the file name is
   * still tried and an `m3u` extension also scores the maximum.
   */
  method PlaylistProbe(buf: Option<seq<byte>>, bufSize: int, filename: Option<seq<char>>)
    returns (score: int)
    requires buf.Some? ==> bufSize <= |buf.value|
    ensures score == 0 || score == AVPROBE_SCORE_MAX
    ensures score == AVPROBE_SCORE_MAX <==>
              (bufSize >= 7 && buf.Some? && EXTM3U <= buf.value)
              || (filename.Some? && HasExtension(filename.value, M3U_EXTN))
  {
    if bufSize >= 7 && buf.Some? {
      var m := CompareBufs(buf.value, EXTM3U);
      if m == 1 {
        return AVPROBE_SCORE_MAX;
      }
    }
    var e := CheckFileExtn(filename, M3U_EXTN);
    if e == 1 {
      return AVPROBE_SCORE_MAX;
    }
    return 0;
  }

  // ---------------------------------------------------------------------
  // playlist_list_files (and m3u_list_files, which scans the same way)

  /** The bytes before the first NUL. */
  function UntilNul(s: seq<byte>): (r: seq<byte>)
    ensures r <= s && NUL !in r
    ensures |r| < |s| ==> s[|r|] == NUL
  {
    if s == [] || s[0] == NUL then [] else [s[0]] + UntilNul(s[1..])
  }

  /**
   * `s` cut at every newline: each byte extends the last line, and a newline
   * starts a new, empty one. The last line is the unterminated rest.
   */
  function SplitLines(s: seq<byte>): (lines: seq<seq<byte>>)
    ensures |lines| >= 1
  {
    if s == [] then [[]]
    else
      var init := SplitLines(s[..|s| - 1]);
      var c := s[|s| - 1];
      if c == NEWLINE then init + [[]]
      else init[..|init| - 1] + [init[|init| - 1] + [c]]
  }

  /** No line holds a newline, and a line holds only bytes of `s`. */
  lemma {:induction false} SplitLinesBytes(s: seq<byte>)
    ensures forall l <- SplitLines(s) :: NEWLINE !in l && forall b <- l :: b in s
  {
    if s != [] {
      var t := s[..|s| - 1];
      SplitLinesBytes(t);
      var init := SplitLines(t);
      assert forall b <- t :: b in s;
      var c := s[|s| - 1];
      if c != NEWLINE {
        var last := init[|init| - 1];
        assert last in init;
        forall l | l in SplitLines(s) ensures NEWLINE !in l && forall b <- l :: b in s {
          if l in init[..|init| - 1] {
            assert l in init;
          } else {
            assert l == last + [c];
          }
        }
      }
    }
  }

  /** A line without the comment that a `#` starts. */
  function StripComment(line: seq<byte>): (r: seq<byte>)
    ensures r <= line && HASH !in r
    ensures HASH !in line ==> r == line
    ensures |r| < |line| ==> line[|r|] == HASH
  {
    if line == [] || line[0] == HASH then [] else [line[0]] + StripComment(line[1..])
  }

  /** The stripped lines that still hold a character, in order. */
  function KeptEntries(lines: seq<seq<byte>>): seq<seq<byte>> {
    if lines == [] then []
    else
      var e := StripComment(lines[|lines| - 1]);
      KeptEntries(lines[..|lines| - 1]) + (if e == [] then [] else [e])
  }

  /** What the splitter makes of `text`. */
  datatype Listing = Listing(entries: seq<seq<byte>>, trailing: seq<byte>)

  /**
   * Every newline-terminated line of `text`, stripped of its comment, is an
   * entry unless nothing is left of it; the unterminated last line, stripped
   * the same way, is left over and is not an entry.
   */
  function ListingOf(text: seq<byte>): Listing {
    var lines := SplitLines(text);
    Listing(KeptEntries(lines[..|lines| - 1]), StripComment(lines[|lines| - 1]))
  }

  /** The listing fits the 512 rows of 512 bytes, each row NUL-terminated. */
  predicate FitsTable(l: Listing) {
    |l.entries| < TABLE_ROWS && |l.trailing| < ROW_BYTES && RowsFit(l.entries)
  }

  /** Every entry fits a row with its terminating NUL. */
  predicate RowsFit(entries: seq<seq<byte>>) {
    entries == [] || (|entries[0]| < ROW_BYTES && RowsFit(entries[1..]))
  }

  lemma {:induction false} StripCommentSnoc(line: seq<byte>, c: byte)
    ensures StripComment(line + [c]) ==
              if HASH in line || c == HASH then StripComment(line) else StripComment(line) + [c]
  {
    if line == [] {
      assert [c][1..] == [];
    } else {
      assert (line + [c])[1..] == line[1..] + [c];
      if line[0] != HASH {
        StripCommentSnoc(line[1..], c);
      }
    }
  }

  /**
   * The splitter's state after a prefix of the text: the entries completed,
   * the row being filled and whether a `#` was met on the current line.
   */
  datatype Scan = Scan(entries: seq<seq<byte>>, current: seq<byte>, hashedOut: bool)

  /** One character of the scan. */
  function ScanStep(st: Scan, c: byte): Scan {
    if c == HASH then st.(hashedOut := true)
    else if c == NEWLINE then
      Scan(st.entries + (if st.current == [] then [] else [st.current]), [], false)
    else if st.hashedOut then st
    else st.(current := st.current + [c])
  }

  /** The scan of a whole text, one character at a time. */
  function ScanOf(text: seq<byte>): Scan {
    if text == [] then Scan([], [], false)
    else ScanStep(ScanOf(text[..|text| - 1]), text[|text| - 1])
  }

  /**
   * The character-by-character scan agrees with the line-by-line listing:
   * its completed entries are the kept lines, its current row is the
   * stripped last line.
   */
  lemma {:induction false} ScanOfIsListing(text: seq<byte>)
    ensures var lines := SplitLines(text);
            ScanOf(text) == Scan(KeptEntries(lines[..|lines| - 1]), StripComment(lines[|lines| - 1]),
                                 HASH in lines[|lines| - 1])
  {
    if text == [] {
      assert SplitLines(text) == [[]];
    } else {
      var t := text[..|text| - 1];
      var c := text[|text| - 1];
      ScanOfIsListing(t);
      var lines := SplitLines(t);
      var n := |lines|;
      var last := lines[n - 1];
      var st := ScanOf(t);
      assert st == Scan(KeptEntries(lines[..n - 1]), StripComment(last), HASH in last);
      assert ScanOf(text) == ScanStep(st, c);
      StripCommentSnoc(last, c);
      if c == NEWLINE {
        var lines' := lines + [[]];
        assert SplitLines(text) == lines';
        assert lines'[..n] == lines;
        assert KeptEntries(lines) ==
                 KeptEntries(lines[..n - 1]) + (if StripComment(last) == [] then [] else [StripComment(last)]);
      } else {
        var lines' := lines[..n - 1] + [last + [c]];
        assert SplitLines(text) == lines';
        assert lines'[..n - 1] == lines[..n - 1];
        assert lines'[n - 1] == last + [c];
        assert HASH in last + [c] <==> HASH in last || c == HASH;
      }
    }
  }

  /**
   * The splitter: characters from a `#` to the end of the line are dropped,
   * a newline completes the entry being built only if it received a
   * character, scanning stops at the first NUL or after `bufferSize` bytes,
   * and the kept characters are copied in order and untrimmed. `trailing` is
   * what the unterminated last line left in the next row of the table; the
   * number of entries is what m3u_list_files stores in `*lfx_ptr`.
   */
  method ListFiles(buffer: seq<byte>, bufferSize: nat) returns (entries: seq<seq<byte>>, trailing: seq<byte>)
    requires bufferSize <= |buffer|
    requires FitsTable(ListingOf(UntilNul(buffer[..bufferSize])))
    ensures Listing(entries, trailing) == ListingOf(UntilNul(buffer[..bufferSize]))
  {
    entries := [];
    var current: seq<byte> := [];
    var hashedOut := false;
    var i := 0;
    while i < bufferSize
      invariant 0 <= i <= bufferSize
      invariant NUL !in buffer[..i]
      invariant Scan(entries, current, hashedOut) == ScanOf(buffer[..i])
    {
      var c := buffer[i];
      if c == NUL {
        break;
      }
      ScanOfExtend(buffer, i);
      assert buffer[..i + 1] == buffer[..i] + [c];
      if c == HASH {
        hashedOut := true;
      } else if c == NEWLINE {
        hashedOut := false;
        if current != [] {
          entries := entries + [current];
          current := [];
        }
      } else if !hashedOut {
        current := current + [c];
      }
      i := i + 1;
    }
    assert buffer[..bufferSize][..i] == buffer[..i];
    UntilNulIs(buffer[..bufferSize], i);
    ghost var text := UntilNul(buffer[..bufferSize]);
    assert text == buffer[..i];
    ScanOfIsListing(text);
    trailing := current;
    assert ListingOf(text) == Listing(entries, trailing);
  }

  /** The scan of one more character of `s` is one more step. */
  lemma ScanOfExtend(s: seq<byte>, i: nat)
    requires i < |s|
    ensures ScanOf(s[..i + 1]) == ScanStep(ScanOf(s[..i]), s[i])
  {
    assert s[..i + 1][..i] == s[..i];
  }

  lemma {:induction false} UntilNulIs(s: seq<byte>, i: nat)
    requires i <= |s| && NUL !in s[..i] && (i == |s| || s[i] == NUL)
    ensures UntilNul(s) == s[..i]
  {
    if s != [] && s[0] != NUL {
      assert i > 0;
      assert s[1..][..i - 1] == s[1..i];
      UntilNulIs(s[1..], i - 1);
    }
  }

  // ---------------------------------------------------------------------
  // Properties of the listing

  /** Every entry is non-empty and holds no `#`, newline or NUL. */
  lemma {:induction false} KeptEntriesClean(lines: seq<seq<byte>>)
    requires forall l <- lines :: NEWLINE !in l && NUL !in l
    ensures forall e <- KeptEntries(lines) :: e != [] && HASH !in e && NEWLINE !in e && NUL !in e
  {
    if lines != [] {
      var last := lines[|lines| - 1];
      assert last in lines;
      var e := StripComment(last);
      forall b | b in e ensures b in last { assert e == last[..|e|]; }
      KeptEntriesClean(lines[..|lines| - 1]);
    }
  }

  /** The splitter's entries are clean: non-empty, without `#`, newline or NUL. */
  lemma ListingEntriesClean(text: seq<byte>)
    requires NUL !in text
    ensures forall e <- ListingOf(text).entries :: e != [] && HASH !in e && NEWLINE !in e && NUL !in e
    ensures HASH !in ListingOf(text).trailing && NEWLINE !in ListingOf(text).trailing
  {
    var lines := SplitLines(text);
    SplitLinesBytes(text);
    forall l | l in lines[..|lines| - 1] ensures NEWLINE !in l && NUL !in l {
      assert l in lines;
    }
    KeptEntriesClean(lines[..|lines| - 1]);
    assert lines[|lines| - 1] in lines;
  }

  /** Text that ends in a newline leaves no unterminated line behind. */
  lemma TerminatedTextLeavesNothing(text: seq<byte>)
    requires text != [] && text[|text| - 1] == NEWLINE
    ensures ListingOf(text).trailing == []
  {
    var init := text[..|text| - 1];
    assert text == init + [NEWLINE];
    assert (init + [NEWLINE])[..|init|] == init;
  }

  /**
   * A line added after the listed text adds exactly one entry when something
   * survives its comment, and none for a blank or comment-only line.
   */
  lemma {:induction false} ListingAddLine(text: seq<byte>, line: seq<byte>)
    requires NEWLINE !in line
    requires text == [] || text[|text| - 1] == NEWLINE
    ensures ListingOf(text + line + [NEWLINE]).entries ==
              ListingOf(text).entries + (if StripComment(line) == [] then [] else [StripComment(line)])
  {
    LinesOfTextPlusLine(text, line);
    var lines := SplitLines(text);
    assert (text + line + [NEWLINE])[..|text + line|] == text + line;
    var after := SplitLines(text + line);
    assert (after + [[]])[..|after|] == after;
    assert after[..|after| - 1] == lines[..|lines| - 1];
  }

  /** Appending a newline-free line only extends the last line. */
  lemma {:induction false} LinesOfTextPlusLine(text: seq<byte>, line: seq<byte>)
    requires NEWLINE !in line
    requires text == [] || text[|text| - 1] == NEWLINE
    ensures var lines := SplitLines(text);
            var after := SplitLines(text + line);
            |after| == |lines| && after[..|after| - 1] == lines[..|lines| - 1]
            && after[|after| - 1] == line
  {
    if line == [] {
      assert text + line == text;
      if text != [] {
        var init := text[..|text| - 1];
        assert text == init + [NEWLINE];
        assert (init + [NEWLINE])[..|init|] == init;
      }
    } else {
      var init := line[..|line| - 1];
      var c := line[|line| - 1];
      assert line == init + [c];
      assert NEWLINE !in init by { assert forall b <- init :: b in line; }
      LinesOfTextPlusLine(text, init);
      assert c in line;
      SeqAssoc(text, init, [c]);
      SplitLinesSnoc(text + init, c);
    }
  }

  /** A byte other than a newline extends the last line. */
  lemma SplitLinesSnoc(t: seq<byte>, c: byte)
    requires c != NEWLINE
    ensures var before := SplitLines(t);
            SplitLines(t + [c]) == before[..|before| - 1] + [before[|before| - 1] + [c]]
  {
    var s := t + [c];
    assert s[..|s| - 1] == t;
  }

  // ---------------------------------------------------------------------
  // The counting loop of av_make_playlistd

  /** A table row that ends the list: a NULL pointer or an empty string. */
  predicate EndsList(row: Option<seq<byte>>) {
    row.None? || row.value == []
  }

  /**
   * Counts the rows before the first NULL or empty one; the playlist starts
   * reading at item 0. The table must hold such a row, since the loop reads
   * until it finds one.
   */
  method CountItems(flist: seq<Option<seq<byte>>>) returns (pelistSize: nat, peCuridx: nat)
    requires exists k :: 0 <= k < |flist| && EndsList(flist[k])
    ensures pelistSize < |flist| && EndsList(flist[pelistSize])
    ensures forall k :: 0 <= k < pelistSize ==> !EndsList(flist[k])
    ensures peCuridx == 0
  {
    peCuridx := 0;
    pelistSize := 0;
    while !EndsList(flist[pelistSize])
      invariant pelistSize < |flist|
      invariant forall k :: 0 <= k < pelistSize ==> !EndsList(flist[k])
      decreases |flist| - pelistSize
    {
      pelistSize := pelistSize + 1;
    }
  }

  /**
   * The table playlist_list_files hands to av_make_playlistd: the entries,
   * then the row the unterminated last line was written into, then empty
   * rows.
   */
  function ListedTable(l: Listing): (table: seq<Option<seq<byte>>>)
    requires |l.entries| < TABLE_ROWS
    ensures |table| == TABLE_ROWS
  {
    seq(TABLE_ROWS, k requires 0 <= k < TABLE_ROWS =>
      Some(if k < |l.entries| then l.entries[k] else if k == |l.entries| then l.trailing else []))
  }

  /**
   * Sized from playlist_list_files' table, the playlist counts the
   * unterminated last line as an item when anything of it survives the
   * comment stripping, although m3u_list_files' count leaves it out.
   */
  lemma PlaylistCountsTrailingLine(text: seq<byte>, n: nat)
    requires NUL !in text
    requires |ListingOf(text).entries| + 1 < TABLE_ROWS
    requires n < TABLE_ROWS && EndsList(ListedTable(ListingOf(text))[n])
    requires forall k :: 0 <= k < n ==> !EndsList(ListedTable(ListingOf(text))[k])
    ensures n == |ListingOf(text).entries| + (if ListingOf(text).trailing == [] then 0 else 1)
  {
    var l := ListingOf(text);
    ListingEntriesClean(text);
    var table := ListedTable(l);
    var m := |l.entries| + (if l.trailing == [] then 0 else 1);
    assert EndsList(table[m]);
    assert forall k :: 0 <= k < m ==> !EndsList(table[k]);
  }
}
