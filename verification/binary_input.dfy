/** `BinaryInput`: the body of a binary file, read through a byte window of
    fixed capacity that is refilled from a channel. The file is read afresh
    and the header is skipped by looking for the line `end_header`; the
    bytes after it are the body.

    The channel delivers at most `chunk` bytes per read (at least one while
    data remains), so short reads are part of the model. The window's
    meaning is the stream it still has to deliver: its unread bytes followed
    by the channel's pending bytes. */
module BinaryInput {
  import opened Wrappers
  import opened PlyErrors
  import opened PlyTypes
  import opened Bytes
  import opened BodyInput

  /** Capacity of the reader's `ByteBuffer`. */
  const Capacity: nat := 8192

  /** A value read finding fewer bytes than it needs compacts the window
      first when fewer than this many bytes of room would be left. */
  const Reserve: nat := 20

  const Newline: byte := 10

  /** The US-ASCII bytes of `end_header`. */
  const EndMarker: seq<byte> := [101, 110, 100, 95, 104, 101, 97, 100, 101, 114]

  /** A channel over the file's bytes: `offset` bytes have been delivered,
      and one read delivers at most `chunk` bytes. */
  datatype Channel = Channel(data: seq<byte>, offset: nat, chunk: nat)

  predicate ChannelOk(ch: Channel) {
    ch.offset <= |ch.data| && ch.chunk > 0
  }

  function Pending(ch: Channel): seq<byte>
    requires ChannelOk(ch)
  {
    ch.data[ch.offset..]
  }

  /** `channel.read(buffer)` into `space` free bytes while data remains: it
      delivers some of the pending bytes, in order. */
  function Transfer(ch: Channel, space: nat): (r: (seq<byte>, Channel))
    requires ChannelOk(ch) && ch.offset < |ch.data| && space > 0
    ensures 0 < |r.0| <= space
    ensures ChannelOk(r.1) && r.1.data == ch.data && r.1.chunk == ch.chunk && r.1.offset > ch.offset
    ensures r.0 + Pending(r.1) == Pending(ch)
  {
    var n := Min(Min(ch.chunk, space), |ch.data| - ch.offset);
    var bytes := ch.data[ch.offset..ch.offset + n];
    assert bytes + ch.data[ch.offset + n..] == ch.data[ch.offset..];
    (bytes, ch.(offset := ch.offset + n))
  }

  function Min(a: int, b: int): int {
    if a < b then a else b
  }

  /** The readable part of the buffer (`[0, limit)`) and its position. */
  datatype Window = Window(buf: seq<byte>, pos: nat)

  predicate WindowOk(w: Window) {
    w.pos <= |w.buf| <= Capacity
  }

  /** The bytes still to be delivered: the window's unread bytes, then the
      channel's. */
  function Unread(w: Window, ch: Channel): seq<byte>
    requires WindowOk(w) && ChannelOk(ch)
  {
    w.buf[w.pos..] + Pending(ch)
  }

  // ---------------------------------------------------------------------
  // Reading values

  /** The refill step of a read that found fewer than `width` bytes: compact
      the window if it is close to full, then one channel read into the
      free room. The room is never empty, since a value is at most 8 bytes
      wide, so the channel never returns 0 here. */
  function Refill(w: Window, ch: Channel, width: nat): (r: (Window, Channel))
    requires WindowOk(w) && ChannelOk(ch) && ch.offset < |ch.data|
    requires |w.buf| - w.pos < width <= 8
    ensures WindowOk(r.0) && ChannelOk(r.1) && r.1.data == ch.data && r.1.offset > ch.offset
    ensures Unread(r.0, r.1) == Unread(w, ch)
  {
    var w' := if w.pos > Capacity - Reserve then Window(w.buf[w.pos..], 0) else w;
    assert w'.buf[w'.pos..] == w.buf[w.pos..];
    var (bytes, ch') := Transfer(ch, Capacity - |w'.buf|);
    var w'' := Window(w'.buf + bytes, w'.pos);
    assert w''.buf[w''.pos..] == w'.buf[w'.pos..] + bytes;
    (w'', ch')
  }

  /** `BinaryInput.read(type)`: decode from the window when it holds enough
      bytes, otherwise refill and try again; end of stream fails. */
  function Read(w: Window, ch: Channel, t: PlyType, order: ByteOrder): (r: Result<(Number, Window, Channel), PlyError>)
    requires WindowOk(w) && ChannelOk(ch)
    ensures r.Ok? ==> WindowOk(r.value.1) && ChannelOk(r.value.2) && r.value.2.data == ch.data
    decreases |ch.data| - ch.offset
  {
    var width := Width(t);
    if |w.buf| - w.pos >= width then
      Ok((DecodeBinary(t, w.buf[w.pos..w.pos + width], order), Window(w.buf, w.pos + width), ch))
    else if ch.offset == |ch.data| then Err(UnexpectedEof)
    else
      var (w', ch') := Refill(w, ch, width);
      Read(w', ch', t, order)
  }

  /** A read result seen through the window's meaning. */
  function AsStream(r: Result<(Number, Window, Channel), PlyError>, order: ByteOrder): Result<(Number, Source), PlyError>
    requires r.Ok? ==> WindowOk(r.value.1) && ChannelOk(r.value.2)
  {
    match r
    case Ok((v, w, ch)) => Ok((v, Stream(Unread(w, ch), order)))
    case Err(e) => Err(e)
  }

  /** The windowed read delivers exactly what reading the stream of unread
      bytes delivers: the same value or the same error, and the same bytes
      left afterwards. */
  lemma {:induction false} ReadRefines(w: Window, ch: Channel, t: PlyType, order: ByteOrder)
    requires WindowOk(w) && ChannelOk(ch)
    ensures AsStream(Read(w, ch, t, order), order) == ReadValue(Stream(Unread(w, ch), order), t)
    decreases |ch.data| - ch.offset
  {
    if |w.buf| - w.pos >= Width(t) {
      ReadInWindow(w, ch, t, order);
    } else if ch.offset < |ch.data| {
      var (w', ch') := Refill(w, ch, Width(t));
      assert Read(w, ch, t, order) == Read(w', ch', t, order);
      ReadRefines(w', ch', t, order);
    }
  }

  /** A value the window holds is decoded from the window's unread bytes. */
  lemma ReadInWindow(w: Window, ch: Channel, t: PlyType, order: ByteOrder)
    requires WindowOk(w) && ChannelOk(ch) && |w.buf| - w.pos >= Width(t)
    ensures AsStream(Read(w, ch, t, order), order) == ReadValue(Stream(Unread(w, ch), order), t)
  {
    var width := Width(t);
    var u := Unread(w, ch);
    assert u[..width] == w.buf[w.pos..w.pos + width];
    assert u[width..] == w.buf[w.pos + width..] + Pending(ch);
  }


  /** `BinaryInput.needEnd()`: the window must be used up and one more
      channel read must report end of stream. */
  function NeedEnd(w: Window, ch: Channel): (r: Result<(), PlyError>)
    requires WindowOk(w) && ChannelOk(ch)
    ensures r.Err? ==> r.error == TrailingData
  {
    if w.pos != |w.buf| then Err(TrailingData)
    else if ch.offset < |ch.data| then Err(TrailingData)
    else Ok(())
  }

  /** The windowed end check succeeds exactly when the stream of unread
      bytes is empty. */
  lemma NeedEndRefines(w: Window, ch: Channel, order: ByteOrder)
    requires WindowOk(w) && ChannelOk(ch)
    ensures NeedEnd(w, ch) == BodyInput.NeedEnd(Stream(Unread(w, ch), order))
  {
  }

  // ---------------------------------------------------------------------
  // Skipping the header

  /** Position `s` of the stream starts a line. */
  ghost predicate LineStartAt(data: seq<byte>, s: int) {
    s == 0 || (0 < s <= |data| && data[s - 1] == Newline)
  }

  /** No newline among the stream bytes `lo` up to `hi`. */
  ghost predicate NoNewline(data: seq<byte>, lo: int, hi: int)
    requires 0 <= lo <= hi <= |data|
  {
    hi == lo || (NoNewline(data, lo, hi - 1) && data[hi - 1] != Newline)
  }

  /** The newline at `k` ends a line that is exactly `end_header`. */
  ghost predicate IsEndAt(data: seq<byte>, k: int) {
    |EndMarker| <= k < |data| && data[k] == Newline && LineStartAt(data, k - |EndMarker|)
    && data[k - |EndMarker|..k] == EndMarker
  }

  /** No `end_header` line ends before position `n`. */
  ghost predicate NoEndBefore(data: seq<byte>, n: nat)
  {
    n == 0 || (NoEndBefore(data, n - 1) && !IsEndAt(data, n - 1))
  }

  /** A line starting at `s` whose first `Capacity` bytes hold no newline:
      it cannot fit the window. */
  ghost predicate LongLineAt(data: seq<byte>, s: int) {
    0 <= s && s + Capacity <= |data| && LineStartAt(data, s) && NoNewline(data, s, s + Capacity)
  }

  datatype ScanOutcome = Found(at: nat) | Unfinished(lineStart: nat)

  /** The scan of newly read bytes from `i` on: each newline ends a line,
      and a line of exactly the marker's length is compared with it. */
  function ScanChunk(buf: seq<byte>, i: nat, lineStart: nat): (r: ScanOutcome)
    requires lineStart <= i <= |buf|
    ensures r.Found? ==> i <= r.at < |buf|
    ensures r.Unfinished? ==> lineStart <= r.lineStart <= |buf|
    decreases |buf| - i
  {
    if i == |buf| then Unfinished(lineStart)
    else if buf[i] == Newline then
      if i - lineStart == |EndMarker| && buf[lineStart..i] == EndMarker then Found(i)
      else ScanChunk(buf, i + 1, i + 1)
    else ScanChunk(buf, i + 1, lineStart)
  }

  /** The header skip, from a window holding `buf` (`bufferLength` bytes) in
      which the current line starts at `lineStart`: read, scan what was
      read, and either stop after the `end_header` line or carry on,
      compacting a full window down to its current line (a full window
      that is one line fails). The window's position stays at the end of
      the bytes read; see `ScanPassAsWritten` for where it goes instead. */
  function SkipHeader(buf: seq<byte>, lineStart: nat, ch: Channel): (r: Result<(Window, Channel), PlyError>)
    requires |buf| < Capacity && lineStart <= |buf| && ChannelOk(ch)
    ensures r.Ok? ==> WindowOk(r.value.0) && ChannelOk(r.value.1) && r.value.1.data == ch.data
    ensures r.Err? ==> r.error in {HeaderNotFound, LineTooLong}
    decreases |ch.data| - ch.offset, 0
  {
    if ch.offset == |ch.data| then Err(HeaderNotFound)
    else
      var (bytes, ch') := Transfer(ch, Capacity - |buf|);
      var buf' := buf + bytes;
      AfterScan(buf', ScanChunk(buf', |buf|, lineStart), ch')
  }

  /** The skip after scanning a window of `buf` bytes: stop after the
      `end_header` line, or read on with the window as it is, compacted
      down to its current line, or (a full window that is one line) fail. */
  function AfterScan(buf: seq<byte>, scan: ScanOutcome, ch: Channel): (r: Result<(Window, Channel), PlyError>)
    requires |buf| <= Capacity && ChannelOk(ch)
    requires scan.Found? ==> scan.at < |buf|
    requires scan.Unfinished? ==> scan.lineStart <= |buf|
    ensures r.Ok? ==> WindowOk(r.value.0) && ChannelOk(r.value.1) && r.value.1.data == ch.data
    ensures r.Err? ==> r.error in {HeaderNotFound, LineTooLong}
    decreases |ch.data| - ch.offset, 1
  {
    match scan
    case Found(i) => Ok((Window(buf[i + 1..], 0), ch))
    case Unfinished(ls) =>
      if |buf| < Capacity then SkipHeader(buf, ls, ch)
      else if ls == 0 then Err(LineTooLong)
      else SkipHeader(buf[ls..], 0, ch)
  }

  /** The body window of a binary file. */
  function Open(data: seq<byte>, chunk: nat): (r: Result<(Window, Channel), PlyError>)
    requires chunk > 0
    ensures r.Ok? ==> WindowOk(r.value.0) && ChannelOk(r.value.1)
  {
    SkipHeader([], 0, Channel(data, 0, chunk))
  }

  /** What the header skip yields, whatever the read sizes: after success the
      unread bytes are exactly those after the first `end_header` line;
      `HeaderNotFound` means there is no such line; `LineTooLong` means a
      line that cannot fit the window comes before it. */
  ghost predicate SkipSound(data: seq<byte>, r: Result<(Window, Channel), PlyError>)
    requires r.Ok? ==> WindowOk(r.value.0) && ChannelOk(r.value.1)
  {
    if r.Ok? then
      exists k :: IsEndAt(data, k) && NoEndBefore(data, k) && Unread(r.value.0, r.value.1) == data[k + 1..]
    else if r.error == HeaderNotFound then NoEndBefore(data, |data|)
    else r.error == LineTooLong && exists s :: LongLineAt(data, s) && NoEndBefore(data, s)
  }

  lemma OpenSpec(data: seq<byte>, chunk: nat)
    requires chunk > 0
    ensures SkipSound(data, Open(data, chunk))
  {
    SkipHeaderSpec(data, 0, [], 0, Channel(data, 0, chunk));
  }

  /** The loop invariant of the skip: `buf` is the stream from `base` up to
      what the channel delivered, its current line starts at `lineStart`
      and holds no newline yet, and no `end_header` line has ended. */
  ghost predicate Skipping(data: seq<byte>, base: nat, buf: seq<byte>, lineStart: nat, ch: Channel) {
    ChannelOk(ch) && ch.data == data && base + |buf| == ch.offset && buf == data[base..ch.offset]
    && |buf| < Capacity && lineStart <= |buf|
    && LineStartAt(data, base + lineStart) && NoNewline(data, base + lineStart, ch.offset)
    && NoEndBefore(data, ch.offset)
  }

  lemma {:induction false} SkipHeaderSpec(data: seq<byte>, base: nat, buf: seq<byte>, lineStart: nat, ch: Channel)
    requires Skipping(data, base, buf, lineStart, ch)
    ensures SkipSound(data, SkipHeader(buf, lineStart, ch))
    decreases |ch.data| - ch.offset, 0
  {
    var r := SkipHeader(buf, lineStart, ch);
    if ch.offset < |ch.data| {
      var (bytes, ch') := Transfer(ch, Capacity - |buf|);
      var scan := ScanChunk(buf + bytes, |buf|, lineStart);
      ScanStep(data, base, buf, lineStart, ch);
      AfterScanSpec(data, base, buf + bytes, scan, ch');
      assert r == AfterScan(buf + bytes, scan, ch');
    } else {
      assert r == Err(HeaderNotFound);
    }
  }

  /** The state after one read and scan: the window mirrors the stream from
      `base` and the scan outcome is sound. */
  ghost predicate Scanned(data: seq<byte>, base: nat, buf: seq<byte>, scan: ScanOutcome, ch: Channel) {
    ChannelOk(ch) && ch.data == data && base + |buf| == ch.offset && buf == data[base..ch.offset]
    && |buf| <= Capacity && ScanSound(data, base, |buf|, scan)
    && (scan.Found? ==> scan.at < |buf|)
  }

  /** One read and scan of the skip keeps the stream and the window in step. */
  lemma ScanStep(data: seq<byte>, base: nat, buf: seq<byte>, lineStart: nat, ch: Channel)
    requires Skipping(data, base, buf, lineStart, ch) && ch.offset < |ch.data|
    ensures var (bytes, ch') := Transfer(ch, Capacity - |buf|);
            Scanned(data, base, buf + bytes, ScanChunk(buf + bytes, |buf|, lineStart), ch')
  {
    TransferMirrors(data, base, buf, ch);
    var (bytes, ch') := Transfer(ch, Capacity - |buf|);
    ScanChunkSpec(data, base, buf + bytes, |buf|, lineStart);
  }

  lemma {:induction false} AfterScanSpec(data: seq<byte>, base: nat, buf: seq<byte>, scan: ScanOutcome, ch: Channel)
    requires Scanned(data, base, buf, scan, ch)
    ensures SkipSound(data, AfterScan(buf, scan, ch))
    decreases |ch.data| - ch.offset, 1
  {
    match scan
    case Found(i) =>
      SkipFoundSound(data, base, buf, i, ch);
    case Unfinished(ls) =>
      if |buf| < Capacity {
        SkipHeaderSpec(data, base, buf, ls, ch);
      } else if ls == 0 {
        SkipLongSound(data, base, buf);
      } else {
        CompactSkipping(data, base, buf, ls, ch);
        SkipHeaderSpec(data, base + ls, buf[ls..], 0, ch);
      }
  }

  /** After a channel read the window still mirrors the stream from `base`. */
  lemma TransferMirrors(data: seq<byte>, base: nat, buf: seq<byte>, ch: Channel)
    requires ChannelOk(ch) && ch.data == data && ch.offset < |data| && base + |buf| == ch.offset
    requires buf == data[base..ch.offset] && |buf| < Capacity
    ensures var (bytes, ch') := Transfer(ch, Capacity - |buf|);
            base + |buf + bytes| == ch'.offset && buf + bytes == data[base..ch'.offset]
  {
    var (bytes, ch') := Transfer(ch, Capacity - |buf|);
    assert bytes == data[ch.offset..ch'.offset];
  }

  lemma SkipFoundSound(data: seq<byte>, base: nat, buf: seq<byte>, i: nat, ch: Channel)
    requires ChannelOk(ch) && ch.data == data && base + |buf| == ch.offset && buf == data[base..ch.offset]
    requires i < |buf| <= Capacity && IsEndAt(data, base + i) && NoEndBefore(data, base + i)
    ensures SkipSound(data, Ok((Window(buf[i + 1..], 0), ch)))
  {
    var w := Window(buf[i + 1..], 0);
    assert buf[i + 1..] == data[base + i + 1..ch.offset];
    assert Unread(w, ch) == data[base + i + 1..];
  }

  lemma SkipLongSound(data: seq<byte>, base: nat, buf: seq<byte>)
    requires base + |buf| <= |data| && |buf| == Capacity
    requires LineStartAt(data, base) && NoNewline(data, base, base + |buf|) && NoEndBefore(data, base + |buf|)
    ensures SkipSound(data, Err(LineTooLong))
  {
    NoEndBeforeMono(data, base, base + |buf|);
    assert LongLineAt(data, base);
  }

  /** Compacting a full window down to its current line keeps the loop
      invariant. */
  lemma CompactSkipping(data: seq<byte>, base: nat, buf: seq<byte>, ls: nat, ch: Channel)
    requires ChannelOk(ch) && ch.data == data && base + |buf| == ch.offset && buf == data[base..ch.offset]
    requires 0 < ls <= |buf| == Capacity
    requires LineStartAt(data, base + ls) && NoNewline(data, base + ls, ch.offset) && NoEndBefore(data, ch.offset)
    ensures Skipping(data, base + ls, buf[ls..], 0, ch)
  {
    assert buf[ls..] == data[base + ls..ch.offset];
  }

  /** The scan finds the first `end_header` line among the bytes it covers,
      or reports where the last, unfinished line starts. */
  lemma {:induction false} ScanChunkSpec(data: seq<byte>, base: nat, buf: seq<byte>, i: nat, lineStart: nat)
    requires base + |buf| <= |data| && buf == data[base..base + |buf|]
    requires lineStart <= i <= |buf|
    requires LineStartAt(data, base + lineStart) && NoNewline(data, base + lineStart, base + i)
    requires NoEndBefore(data, base + i)
    ensures ScanSound(data, base, |buf|, ScanChunk(buf, i, lineStart))
    decreases |buf| - i
  {
    var r := ScanChunk(buf, i, lineStart);
    if i == |buf| {
      assert r == Unfinished(lineStart);
    } else if buf[i] == Newline {
      ScanAtNewline(data, base, buf, i, lineStart);
      if i - lineStart == |EndMarker| && buf[lineStart..i] == EndMarker {
        assert r == Found(i);
      } else {
        ScanChunkSpec(data, base, buf, i + 1, i + 1);
        assert r == ScanChunk(buf, i + 1, i + 1);
      }
    } else {
      ScanInLine(data, base, buf, i, lineStart);
      ScanChunkSpec(data, base, buf, i + 1, lineStart);
      assert r == ScanChunk(buf, i + 1, lineStart);
    }
  }

  /** A newline in the window ends a line: the marker line if it matches,
      and in any case a new line starts after it. */
  lemma ScanAtNewline(data: seq<byte>, base: nat, buf: seq<byte>, i: nat, lineStart: nat)
    requires base + |buf| <= |data| && buf == data[base..base + |buf|]
    requires lineStart <= i < |buf| && buf[i] == Newline
    requires LineStartAt(data, base + lineStart) && NoNewline(data, base + lineStart, base + i)
    requires NoEndBefore(data, base + i)
    ensures LineStartAt(data, base + i + 1) && NoNewline(data, base + i + 1, base + i + 1)
    ensures if i - lineStart == |EndMarker| && buf[lineStart..i] == EndMarker then IsEndAt(data, base + i)
            else NoEndBefore(data, base + i + 1)
  {
    assert data[base + i] == buf[i];
    MirrorSlice(data, base, buf, lineStart, i);
    LineEndMatches(data, base + lineStart, base + i, buf[lineStart..i]);
  }

  /** The line ending at the newline `k` is an `end_header` line exactly
      when its bytes `line` are the marker. */
  lemma LineEndMatches(data: seq<byte>, ls: nat, k: nat, line: seq<byte>)
    requires ls <= k < |data| && data[k] == Newline && line == data[ls..k]
    requires LineStartAt(data, ls) && NoNewline(data, ls, k) && NoEndBefore(data, k)
    ensures if |line| == |EndMarker| && line == EndMarker then IsEndAt(data, k)
            else NoEndBefore(data, k + 1)
  {
    EndAtLineEnd(data, ls, k);
  }

  /** Any other byte extends the current line and ends no line. */
  lemma ScanInLine(data: seq<byte>, base: nat, buf: seq<byte>, i: nat, lineStart: nat)
    requires base + |buf| <= |data| && buf == data[base..base + |buf|]
    requires lineStart <= i < |buf| && buf[i] != Newline
    requires NoNewline(data, base + lineStart, base + i) && NoEndBefore(data, base + i)
    ensures NoNewline(data, base + lineStart, base + i + 1) && NoEndBefore(data, base + i + 1)
  {
    assert data[base + i] == buf[i];
    NoEndStep(data, base + i);
    NoNewlineStep(data, base + lineStart, base + i);
  }

  /** What a scan outcome tells about the stream, for a window that starts
      at `base` and holds `n` bytes. */
  ghost predicate ScanSound(data: seq<byte>, base: nat, n: nat, r: ScanOutcome)
    requires base + n <= |data|
  {
    match r
    case Found(at) => IsEndAt(data, base + at) && NoEndBefore(data, base + at)
    case Unfinished(ls) =>
      ls <= n && LineStartAt(data, base + ls) && NoNewline(data, base + ls, base + n) && NoEndBefore(data, base + n)
  }

  lemma NoEndStep(data: seq<byte>, n: nat)
    requires NoEndBefore(data, n) && (n < |data| ==> data[n] != Newline || !IsEndAt(data, n))
    ensures NoEndBefore(data, n + 1)
  {
  }

  lemma {:induction false} NoEndBeforeAt(data: seq<byte>, n: nat, k: nat)
    requires NoEndBefore(data, n) && k < n
    ensures !IsEndAt(data, k)
    decreases n
  {
    if k < n - 1 {
      NoEndBeforeAt(data, n - 1, k);
    }
  }

  lemma {:induction false} NoEndBeforeMono(data: seq<byte>, m: nat, n: nat)
    requires NoEndBefore(data, n) && m <= n
    ensures NoEndBefore(data, m)
    decreases n
  {
    if m < n {
      NoEndBeforeMono(data, m, n - 1);
    }
  }

  lemma {:induction false} NoNewlineAt(data: seq<byte>, lo: nat, hi: nat, j: nat)
    requires lo <= hi <= |data| && NoNewline(data, lo, hi) && lo <= j < hi
    ensures data[j] != Newline
    decreases hi
  {
    if j < hi - 1 {
      NoNewlineAt(data, lo, hi - 1, j);
    }
  }

  lemma NoNewlineStep(data: seq<byte>, lo: nat, hi: nat)
    requires lo <= hi < |data| && NoNewline(data, lo, hi) && data[hi] != Newline
    ensures NoNewline(data, lo, hi + 1)
  {
  }

  /** A slice of a window that mirrors the stream from `base` is the
      corresponding slice of the stream. */
  lemma MirrorSlice(data: seq<byte>, base: nat, buf: seq<byte>, a: nat, b: nat)
    requires base + |buf| <= |data| && buf == data[base..base + |buf|] && a <= b <= |buf|
    ensures buf[a..b] == data[base + a..base + b]
  {
    forall j | 0 <= j < b - a
      ensures buf[a..b][j] == data[base + a..base + b][j]
    {
      assert buf[a + j] == data[base + a + j];
    }
  }

  /** At a newline, the line just ended is `end_header` exactly when it is
      as long as the marker and equals it. */
  lemma EndAtLineEnd(data: seq<byte>, ls: nat, k: nat)
    requires ls <= k < |data| && data[k] == Newline
    requires LineStartAt(data, ls) && NoNewline(data, ls, k)
    ensures IsEndAt(data, k) <==> k - ls == |EndMarker| && data[ls..k] == EndMarker
  {
    if IsEndAt(data, k) {
      EndLineStart(data, ls, k);
    }
  }

  /** An `end_header` line ending at `k` starts at the start of the line
      that holds `k`. */
  lemma EndLineStart(data: seq<byte>, ls: nat, k: nat)
    requires ls <= k <= |data| && LineStartAt(data, ls) && NoNewline(data, ls, k) && IsEndAt(data, k)
    ensures k - |EndMarker| == ls
  {
    var s := k - |EndMarker|;
    NoNewlineAll(data, ls, k);
    assert forall j | s <= j < k :: data[j] == data[s..k][j - s];
  }

  lemma NoNewlineAll(data: seq<byte>, lo: nat, hi: nat)
    requires lo <= hi <= |data| && NoNewline(data, lo, hi)
    ensures forall j | lo <= j < hi :: data[j] != Newline
  {
    forall j | lo <= j < hi
      ensures data[j] != Newline
    {
      NoNewlineAt(data, lo, hi, j);
    }
  }

  // ---------------------------------------------------------------------
  // The skip as written: the position after a scan pass

  /** Byte `j` of the buffer's backing array, whose unwritten bytes are 0. */
  function Get(mem: seq<byte>, j: nat): byte {
    if j < |mem| then mem[j] else 0
  }

  /** Bytes `lo` up to `hi` of the backing array. */
  function Slice(mem: seq<byte>, lo: nat, hi: nat): (s: seq<byte>)
    requires lo <= hi
    ensures |s| == hi - lo
  {
    seq(hi - lo, j requires 0 <= j < hi - lo => Get(mem, lo + j))
  }

  /** The backing array after writing `bytes` at `at`. */
  function WriteAt(mem: seq<byte>, at: nat, bytes: seq<byte>): (m: seq<byte>)
    ensures forall j :: at <= j < at + |bytes| ==> Get(m, j) == bytes[j - at]
    ensures forall j :: 0 <= j < at ==> Get(m, j) == Get(mem, j)
  {
    var pre := seq(at, j requires 0 <= j < at => Get(mem, j));
    var post := if at + |bytes| < |mem| then mem[at + |bytes|..] else [];
    pre + bytes + post
  }

  datatype PassOutcome = PassFound(at: nat) | PassOpen(lineStart: nat, position: nat) | PassOutOfRange

  /** One scan pass as the reader performs it, over the backing array `mem`
      from `i` up to `bufferLength`: comparing a line of the marker's length
      against the marker goes through relative `get`s, which leave the
      buffer position just past that line, and nothing puts the position
      back at the end of the bytes read. An absolute `get` at or past the
      capacity fails. */
  function ScanPassAsWritten(mem: seq<byte>, i: nat, bufferLength: nat, lineStart: nat, position: nat): (r: PassOutcome)
    requires lineStart <= i <= bufferLength && i <= Capacity && position <= Capacity
    ensures r.PassFound? ==> i <= r.at < bufferLength && r.at < Capacity
    ensures r.PassOpen? ==> r.lineStart <= bufferLength <= Capacity && r.position <= Capacity
    decreases bufferLength - i
  {
    if i == bufferLength then PassOpen(lineStart, position)
    else if i == Capacity then PassOutOfRange
    else if Get(mem, i) == Newline then
      if i - lineStart == |EndMarker| then
        if Slice(mem, lineStart, i) == EndMarker then PassFound(i)
        else ScanPassAsWritten(mem, i + 1, bufferLength, i + 1, lineStart + |EndMarker| + 1)
      else ScanPassAsWritten(mem, i + 1, bufferLength, i + 1, position)
    else ScanPassAsWritten(mem, i + 1, bufferLength, lineStart, position)
  }

  /** The header skip as the reader performs it: each channel read writes
      at the buffer position, which a failed comparison has moved back to
      just past the compared line, while `bufferLength` grows as if the
      bytes had been appended. */
  function SkipHeaderAsWritten(mem: seq<byte>, bufferLength: nat, lineStart: nat, position: nat, ch: Channel)
    : (r: Result<(Window, Channel), PlyError>)
    requires ChannelOk(ch) && lineStart <= bufferLength <= Capacity && position < Capacity
    decreases |ch.data| - ch.offset
  {
    if ch.offset == |ch.data| then Err(HeaderNotFound)
    else
      var (bytes, ch') := Transfer(ch, Capacity - position);
      var mem' := WriteAt(mem, position, bytes);
      var length := bufferLength + |bytes|;
      match ScanPassAsWritten(mem', bufferLength, length, lineStart, position + |bytes|)
      case PassFound(i) => Ok((Window(Slice(mem', i + 1, length), 0), ch'))
      case PassOutOfRange => Err(IndexOutOfRange)
      case PassOpen(ls, pos) =>
        if pos < Capacity then SkipHeaderAsWritten(mem', length, ls, pos, ch')
        else if ls == 0 then Err(LineTooLong)
        else SkipHeaderAsWritten(WriteAt(mem', 0, Slice(mem', ls, length)), length - ls, 0, length - ls, ch')
  }

  /** The body window of a binary file, as the reader computes it. */
  function OpenAsWritten(data: seq<byte>, chunk: nat): Result<(Window, Channel), PlyError>
    requires chunk > 0
  {
    SkipHeaderAsWritten([], 0, 0, 0, Channel(data, 0, chunk))
  }

  /** The bytes of `comment xx`, `end_header`, each on its own line. */
  const ShortLineHeader: seq<byte> :=
    [99, 111, 109, 109, 101, 110, 116, 32, 120, 120, 10,
     101, 110, 100, 95, 104, 101, 97, 100, 101, 114, 10]

  /** With reads of 13 bytes, the header above is not found as written: the
      second read lands two bytes early and the `end_header` line is never
      seen whole. The corrected skip finds it, with an empty body after. */
  lemma ShortLineCounterexample()
    ensures OpenAsWritten(ShortLineHeader, 13) == Err(HeaderNotFound)
    ensures Open(ShortLineHeader, 13).Ok?
    ensures Unread(Open(ShortLineHeader, 13).value.0, Open(ShortLineHeader, 13).value.1) == []
  {
    ShortLineAsWritten();
    ShortLineCorrected();
  }

  /** As written, the first pass leaves the position at 11, where the
      second read then writes. */
  lemma ShortLineAsWritten()
    ensures OpenAsWritten(ShortLineHeader, 13) == Err(HeaderNotFound)
  {
    var d := ShortLineHeader;
    assert |d| == 22;
    var ch1 := Channel(d, 13, 13);
    assert Transfer(Channel(d, 0, 13), Capacity) == (d[..13], ch1);
    var mem1 := d[..13];
    assert WriteAt([], 0, d[..13]) == mem1;
    ShortLineFirstPass(mem1);
    ShortLineSecondRead(mem1, ch1);
  }

  lemma ShortLineFirstPass(mem: seq<byte>)
    requires mem == ShortLineHeader[..13]
    ensures ScanPassAsWritten(mem, 0, 13, 0, 13) == PassOpen(11, 11)
  {
    assert |mem| == 13 && mem[0] == 99 && mem[10] == Newline;
    assert Get(mem, 0) == 99 && Get(mem, 10) == Newline;
    assert Slice(mem, 0, 10)[0] == 99;
    ScanPassSkip(mem, 0, 10, 13, 0, 13);
    ScanPassSkip(mem, 11, 13, 13, 11, 11);
  }

  lemma ShortLineSecondRead(mem: seq<byte>, ch: Channel)
    requires mem == ShortLineHeader[..13] && ch == Channel(ShortLineHeader, 13, 13)
    ensures SkipHeaderAsWritten(mem, 13, 11, 11, ch) == Err(HeaderNotFound)
  {
    var d := ShortLineHeader;
    assert |d| == 22;
    var ch2 := Channel(d, 22, 13);
    assert Transfer(ch, Capacity - 11) == (d[13..22], ch2);
    var mem2 := WriteAt(mem, 11, d[13..22]);
    assert Get(mem2, 19) == Newline;
    ScanPassSkip(mem2, 13, 19, 22, 11, 20);
    ScanPassSkip(mem2, 20, 22, 22, 20, 20);
    assert ScanPassAsWritten(mem2, 13, 22, 11, 20) == PassOpen(20, 20);
  }

  /** Corrected, the second read is appended and the marker line is found. */
  lemma ShortLineCorrected()
    ensures Open(ShortLineHeader, 13).Ok?
    ensures Unread(Open(ShortLineHeader, 13).value.0, Open(ShortLineHeader, 13).value.1) == []
  {
    var d := ShortLineHeader;
    assert |d| == 22;
    var ch1, ch2 := Channel(d, 13, 13), Channel(d, 22, 13);
    assert Transfer(Channel(d, 0, 13), Capacity) == (d[..13], ch1);
    assert Transfer(ch1, Capacity - 13) == (d[13..22], ch2);
    assert [] + d[..13] == d[..13];
    ShortLineFirstScan(d[..13]);
    assert Open(d, 13) == AfterScan(d[..13], Unfinished(11), ch1);
    assert d[..13] + d[13..22] == d;
    ShortLineSecondScan(d);
    assert SkipHeader(d[..13], 11, ch1) == AfterScan(d, Found(21), ch2);
    assert Open(d, 13) == Ok((Window(d[22..], 0), ch2));
  }

  lemma ShortLineFirstScan(buf: seq<byte>)
    requires buf == ShortLineHeader[..13]
    ensures ScanChunk(buf, 0, 0) == Unfinished(11)
  {
    assert buf[10] == Newline && buf[0] == 99;
    assert buf[0..10][0] == 99;
    ScanChunkSkip(buf, 0, 10, 0);
    ScanChunkSkip(buf, 11, 13, 11);
  }

  lemma ShortLineSecondScan(d: seq<byte>)
    requires d == ShortLineHeader
    ensures ScanChunk(d, 13, 11) == Found(21)
  {
    assert d[21] == Newline;
    assert d[11..21] == EndMarker;
    ScanChunkSkip(d, 13, 21, 11);
  }

  /** A pass over bytes that hold no newline changes nothing. */
  lemma {:induction false} ScanPassSkip(mem: seq<byte>, i: nat, k: nat, bufferLength: nat, lineStart: nat, position: nat)
    requires lineStart <= i <= k <= bufferLength && k <= Capacity && position <= Capacity
    requires forall j :: i <= j < k ==> Get(mem, j) != Newline
    ensures ScanPassAsWritten(mem, i, bufferLength, lineStart, position)
            == ScanPassAsWritten(mem, k, bufferLength, lineStart, position)
    decreases k - i
  {
    if i < k {
      ScanPassSkip(mem, i + 1, k, bufferLength, lineStart, position);
    }
  }

  /** Likewise for the scan of the corrected skip. */
  lemma {:induction false} ScanChunkSkip(buf: seq<byte>, i: nat, k: nat, lineStart: nat)
    requires lineStart <= i <= k <= |buf|
    requires forall j :: i <= j < k ==> buf[j] != Newline
    ensures ScanChunk(buf, i, lineStart) == ScanChunk(buf, k, lineStart)
    decreases k - i
  {
    if i < k {
      ScanChunkSkip(buf, i + 1, k, lineStart);
    }
  }
}
