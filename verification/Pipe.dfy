/** read_pipe_messages: putting the workers' messages back together from whatever pieces the pipe delivers. */
module Pipe {
  import opened Memory

  const NEWLINE: byte := 10
  const PIPE_BUF := 4096
  const PIPE_READ_BUF := 32768

  // ------------------------------------------------------------------ lines of a stream

  /** What follows the last newline. */
  function Rest(s: Bytes): (r: Bytes)
    ensures |r| <= |s| && NEWLINE !in r
  {
    if s == [] || s[|s| - 1] == NEWLINE then [] else Rest(s[..|s| - 1]) + [s[|s| - 1]]
  }

  /** The lines a newline has ended, in order, without their newlines. */
  function Complete(s: Bytes): seq<Bytes> {
    if s == [] then []
    else Complete(s[..|s| - 1]) + if s[|s| - 1] == NEWLINE then [Rest(s[..|s| - 1])] else []
  }

  /** Lines as they are printed, each followed by a newline. */
  function Join(lines: seq<Bytes>): Bytes {
    if lines == [] then [] else Join(lines[..|lines| - 1]) + (lines[|lines| - 1] + [NEWLINE])
  }

  lemma {:induction false} JoinConcat(a: seq<Bytes>, b: seq<Bytes>)
    ensures Join(a + b) == Join(a) + Join(b)
  {
    if b == [] {
      assert a + b == a;
    } else {
      assert (a + b)[..|a + b| - 1] == a + b[..|b| - 1];
      JoinConcat(a, b[..|b| - 1]);
    }
  }

  lemma JoinAppend(lines: seq<Bytes>, line: Bytes)
    ensures Join(lines + [line]) == Join(lines) + line + [NEWLINE]
  {
    assert (lines + [line])[..|lines|] == lines;
    assert Join(lines) + (line + [NEWLINE]) == Join(lines) + line + [NEWLINE];
  }

  /** Nothing is lost by cutting a stream into lines. */
  lemma {:induction false} CutAndJoin(s: Bytes)
    ensures Join(Complete(s)) + Rest(s) == s
  {
    if s == [] {
      assert Join([]) == [];
    } else {
      var front := s[..|s| - 1];
      CutAndJoin(front);
      assert s == front + [s[|s| - 1]];
      if s[|s| - 1] == NEWLINE {
        JoinAppend(Complete(front), Rest(front));
        assert Join(Complete(s)) + [] == Join(Complete(s));
      } else {
        assert Complete(s) == Complete(front);
        assert Join(Complete(front)) + (Rest(front) + [s[|s| - 1]]) == Join(Complete(front)) + Rest(front) + [s[|s| - 1]];
      }
    }
  }

  /** A stream can be cut anywhere: the part after the cut only needs the unfinished line before it. */
  lemma {:induction false} CutAnywhere(a: Bytes, b: Bytes)
    ensures Complete(a + b) == Complete(a) + Complete(Rest(a) + b)
    ensures Rest(a + b) == Rest(Rest(a) + b)
  {
    if b == [] {
      assert a + b == a && Rest(a) + b == Rest(a);
      NoNewline(Rest(a));
    } else {
      var front, c := b[..|b| - 1], b[|b| - 1];
      assert (a + b)[..|a + b| - 1] == a + front;
      assert (Rest(a) + b)[..|Rest(a) + b| - 1] == Rest(a) + front;
      CutAnywhere(a, front);
    }
  }

  lemma {:induction false} NoNewline(s: Bytes)
    requires NEWLINE !in s
    ensures Complete(s) == [] && Rest(s) == s
  {
    if s != [] {
      NoNewline(s[..|s| - 1]);
    }
  }

  /** printf stops at the first NUL of each line. */
  function Printed(lines: seq<Bytes>): (out: seq<Bytes>)
    ensures |out| == |lines|
  {
    seq(|lines|, i requires 0 <= i < |lines| => CString(lines[i]))
  }

  lemma PrintedConcat(a: seq<Bytes>, b: seq<Bytes>)
    ensures Printed(a + b) == Printed(a) + Printed(b)
  {}

  // ------------------------------------------------------------------ the reader

  /** What the buffer is taken to hold before a chunk is added: it starts over when the chunk does not fit. */
  function Kept(pending: Bytes, chunk: Bytes): Bytes {
    if |pending| + |chunk| >= PIPE_READ_BUF then [] else pending
  }

  class Reader {
    const buf: array<byte>
    var len: nat
    /** The lines printed so far. */
    ghost var printed: seq<Bytes>

    constructor ()
      ensures Valid() && Pending() == [] && printed == [] && fresh(buf)
    {
      buf := new byte[PIPE_READ_BUF];
      len, printed := 0, [];
    }

    ghost predicate Valid()
      reads this
    {
      buf.Length == PIPE_READ_BUF && len < PIPE_READ_BUF
    }

    ghost function Pending(): Bytes
      requires Valid()
      reads this, buf
    {
      buf[..len]
    }

    /** memchr. */
    method FindNewline(left: nat) returns (right: nat)
      requires Valid() && left <= len
      ensures left <= right <= len && (right < len ==> buf[right] == NEWLINE)
      ensures forall k :: left <= k < right ==> buf[k] != NEWLINE
    {
      right := left;
      while right < len && buf[right] != NEWLINE
        invariant left <= right <= len
        invariant forall k :: left <= k < right ==> buf[k] != NEWLINE
      {
        right := right + 1;
      }
    }

    /** print_msg on the buffer from left on. */
    method PrintMsg(left: nat, right: nat)
      requires Valid() && left <= right < len && buf[right] == 0
      modifies this`printed
      ensures printed == old(printed) + [CString(buf[left..right])]
    {
      StopsAtNul(buf[left..], right - left);
      assert buf[left..][..right - left] == buf[left..right];
      printed := printed + [CString(buf[left..])];
    }

    /** One call of read_pipe_messages that got a chunk. The buffer never overflows, whatever arrives; every completed
        line is printed up to its first NUL, and the unfinished line is kept. */
    method ReadMessages(chunk: Bytes)
      requires Valid() && |chunk| <= PIPE_BUF
      modifies this, buf
      ensures Valid()
      ensures var s := Kept(old(Pending()), chunk) + chunk;
              Pending() == Rest(s) && printed == old(printed) + Printed(Complete(s))
    {
      hide Rest, Complete, Printed;
      ghost var s := Kept(Pending(), chunk) + chunk;
      Receive(chunk);
      var left := PrintLines(s);
      MoveDown(left);
    }

    /** The chunk goes behind the unfinished line, or to the front if it does not fit there. */
    method Receive(chunk: Bytes)
      requires Valid() && |chunk| <= PIPE_BUF
      modifies this`len, buf
      ensures Valid() && Pending() == Kept(old(Pending()), chunk) + chunk
    {
      if len + |chunk| >= PIPE_READ_BUF {
        len := 0;
      }
      forall k | 0 <= k < |chunk| {
        buf[len + k] := chunk[k];
      }
      len := len + |chunk|;
    }

    /** memmove of what is left. */
    method MoveDown(left: nat)
      requires Valid() && left <= len
      modifies this`len, buf
      ensures Valid() && Pending() == old(buf[left..len])
    {
      var remaining := len - left;
      forall k | 0 <= k < remaining {
        buf[k] := buf[left + k];
      }
      len := remaining;
    }

    /** The loop of read_pipe_messages. */
    method PrintLines(ghost s: Bytes) returns (left: nat)
      requires Valid() && Pending() == s
      modifies this`printed, buf
      ensures left <= len && buf[left..len] == Rest(s)
      ensures printed == old(printed) + Printed(Complete(s))
    {
      hide Rest, Complete, Printed;
      left := 0;
      CutNothing(s);
      assert forall k :: 0 <= k < len ==> buf[k] == s[k];
      var right := FindNewline(left);
      while right < len
        invariant left <= right <= len && forall k :: left <= k < len ==> buf[k] == s[k]
        invariant forall k :: left <= k < right ==> s[k] != NEWLINE
        invariant right < len ==> s[right] == NEWLINE
        invariant Rest(s[..left]) == [] && printed == old(printed) + Printed(Complete(s[..left]))
      {
        NextLine(s, left, right);
        buf[right] := 0;
        PrintMsg(left, right);
        assert buf[left..right] == s[left..right];
        PrintedConcat(Complete(s[..left]), [s[left..right]]);
        PrintedOne(s[left..right]);
        left := right + 1;
        right := FindNewline(left);
      }
      LastLine(s, left);
      assert buf[left..len] == s[left..];
    }
  }

  lemma CutNothing(s: Bytes)
    ensures s[..0] == [] && Rest([]) == [] && Complete([]) == [] && Printed([]) == []
  {}

  lemma PrintedOne(line: Bytes)
    ensures Printed([line]) == [CString(line)]
  {}

  lemma {:induction false} StopsAtNul(s: Bytes, n: nat)
    requires n < |s| && s[n] == 0
    ensures CString(s) == CString(s[..n])
  {
    if n > 0 && s[0] != 0 {
      StopsAtNul(s[1..], n - 1);
      assert s[1..][..n - 1] == s[..n][1..];
    }
  }

  /** The line found next. */
  lemma NextLine(s: Bytes, left: nat, right: nat)
    requires left <= right < |s| && s[right] == NEWLINE && Rest(s[..left]) == []
    requires forall k :: left <= k < right ==> s[k] != NEWLINE
    ensures Complete(s[..right + 1]) == Complete(s[..left]) + [s[left..right]] && Rest(s[..right + 1]) == []
  {
    SkipLine(s, left, right);
    assert s[..right + 1][..right] == s[..right];
  }

  lemma SkipLine(s: Bytes, left: nat, right: nat)
    requires left <= right <= |s| && Rest(s[..left]) == []
    requires forall k :: left <= k < right ==> s[k] != NEWLINE
    ensures Complete(s[..right]) == Complete(s[..left]) && Rest(s[..right]) == s[left..right]
  {
    hide Complete, Rest;
    var line := s[left..right];
    assert s[..right] == s[..left] + line;
    CutAnywhere(s[..left], line);
    assert [] + line == line;
    NoNewline(line);
  }

  lemma LastLine(s: Bytes, left: nat)
    requires left <= |s| && Rest(s[..left]) == []
    requires forall k :: left <= k < |s| ==> s[k] != NEWLINE
    ensures Complete(s) == Complete(s[..left]) && Rest(s) == s[left..]
  {
    SkipLine(s, left, |s|);
    assert s[..|s|] == s && s[left..|s|] == s[left..];
  }

  // ------------------------------------------------------------------ a whole stream

  /** What the reader shows after some chunks: the lines printed and the line kept. */
  datatype Shown = Shown(lines: seq<Bytes>, pending: Bytes)

  function Stream(chunks: seq<Bytes>): Bytes {
    if chunks == [] then [] else Stream(chunks[..|chunks| - 1]) + chunks[|chunks| - 1]
  }

  function After(chunks: seq<Bytes>): Shown {
    if chunks == [] then Shown([], [])
    else
      var n := |chunks| - 1;
      var before := After(chunks[..n]);
      var s := Kept(before.pending, chunks[n]) + chunks[n];
      Shown(before.lines + Printed(Complete(s)), Rest(s))
  }

  /** Reading a sequence of chunks does what After says. */
  method ReadAll(chunks: seq<Bytes>) returns (reader: Reader)
    requires forall i :: 0 <= i < |chunks| ==> |chunks[i]| <= PIPE_BUF
    ensures fresh(reader) && reader.Valid() && Shown(reader.printed, reader.Pending()) == After(chunks)
  {
    reader := new Reader();
    var i := 0;
    while i < |chunks|
      invariant 0 <= i <= |chunks| && fresh(reader) && fresh(reader.buf) && reader.Valid()
      invariant Shown(reader.printed, reader.Pending()) == After(chunks[..i])
    {
      reader.ReadMessages(chunks[i]);
      assert chunks[..i + 1][..i] == chunks[..i];
      i := i + 1;
    }
    assert chunks[..|chunks|] == chunks;
  }

  /** The bytes dropped when the buffer starts over with an unfinished line in it. */
  function Lost(chunks: seq<Bytes>): nat {
    if chunks == [] then 0
    else
      var n := |chunks| - 1;
      var pending := After(chunks[..n]).pending;
      Lost(chunks[..n]) + |pending| - |Kept(pending, chunks[n])|
  }

  /** As long as no unfinished line is dropped, the lines printed are those of the stream, up to their first NULs,
      however the stream was cut into chunks. */
  lemma {:induction false} AnyChunking(chunks: seq<Bytes>)
    requires Lost(chunks) == 0
    ensures After(chunks) == Shown(Printed(Complete(Stream(chunks))), Rest(Stream(chunks)))
  {
    if chunks != [] {
      var n := |chunks| - 1;
      AnyChunking(chunks[..n]);
      CutAnywhere(Stream(chunks[..n]), chunks[n]);
      var front := Stream(chunks[..n]);
      PrintedConcat(Complete(front), Complete(Rest(front) + chunks[n]));
    }
  }

  /** ... so two ways to cut the same stream show the same. */
  lemma ChunkingDoesNotMatter(a: seq<Bytes>, b: seq<Bytes>)
    requires Stream(a) == Stream(b) && Lost(a) == 0 == Lost(b)
    ensures After(a) == After(b)
  {
    AnyChunking(a);
    AnyChunking(b);
  }

  lemma {:induction false} NoNulNoCut(s: Bytes)
    requires 0 !in s
    ensures CString(s) == s
  {
    if s != [] {
      NoNulNoCut(s[1..]);
    }
  }

  lemma {:induction false} LinesWithoutNul(s: Bytes)
    requires 0 !in s
    ensures 0 !in Rest(s) && forall line :: line in Complete(s) ==> 0 !in line
  {
    if s != [] {
      LinesWithoutNul(s[..|s| - 1]);
    }
  }

  lemma PrintedAsTheyAre(s: Bytes)
    requires 0 !in s
    ensures Printed(Complete(s)) == Complete(s)
  {
    LinesWithoutNul(s);
    forall i | 0 <= i < |Complete(s)| ensures CString(Complete(s)[i]) == Complete(s)[i] {
      assert Complete(s)[i] in Complete(s);
      NoNulNoCut(Complete(s)[i]);
    }
  }

  /** In a stream without NULs every byte is accounted for: printed, kept, or lost. */
  lemma {:induction false} BytesAreAccountedFor(chunks: seq<Bytes>)
    requires 0 !in Stream(chunks)
    ensures |Join(After(chunks).lines)| + |After(chunks).pending| + Lost(chunks) == |Stream(chunks)|
    ensures 0 !in After(chunks).pending
  {
    if chunks != [] {
      var n := |chunks| - 1;
      var before := After(chunks[..n]);
      assert forall b :: b in Stream(chunks[..n]) || b in chunks[n] ==> b in Stream(chunks);
      BytesAreAccountedFor(chunks[..n]);
      var s := Kept(before.pending, chunks[n]) + chunks[n];
      assert 0 !in s;
      PrintedAsTheyAre(s);
      LinesWithoutNul(s);
      CutAndJoin(s);
      JoinConcat(before.lines, Complete(s));
    }
  }

  /** Each chunk finds room behind the unfinished line of the stream before it, or there is no unfinished line. */
  ghost predicate AlwaysRoom(chunks: seq<Bytes>) {
    forall i :: 0 <= i < |chunks| ==> RoomFor(Rest(Stream(chunks[..i])), chunks[i])
  }

  predicate RoomFor(unfinished: Bytes, chunk: Bytes) {
    unfinished == [] || |unfinished| + |chunk| < PIPE_READ_BUF
  }

  /** Nothing is dropped exactly as long as there is always room. */
  lemma {:induction false} NothingLostExactly(chunks: seq<Bytes>)
    ensures Lost(chunks) == 0 <==> AlwaysRoom(chunks)
  {
    hide Rest, RoomFor, Complete, Printed;
    if chunks != [] {
      var n := |chunks| - 1;
      var front := chunks[..n];
      NothingLostExactly(front);
      if AlwaysRoom(front) {
        AnyChunking(front);
        RoomForLast(chunks);
        LostAtLast(chunks);
      } else {
        NoRoomBefore(chunks);
      }
    }
  }

  lemma LostAtLast(chunks: seq<Bytes>)
    requires chunks != []
    ensures var front, last := chunks[..|chunks| - 1], chunks[|chunks| - 1];
            Lost(chunks) == Lost(front) + if RoomFor(After(front).pending, last) then 0 else |After(front).pending|
    ensures !RoomFor(After(chunks[..|chunks| - 1]).pending, chunks[|chunks| - 1]) ==> After(chunks[..|chunks| - 1]).pending != []
  {
    hide After;
  }

  lemma NoRoomBefore(chunks: seq<Bytes>)
    requires chunks != [] && !AlwaysRoom(chunks[..|chunks| - 1])
    ensures !AlwaysRoom(chunks)
  {
    hide RoomFor, Rest, Stream;
    var n := |chunks| - 1;
    var front := chunks[..n];
    var i :| 0 <= i < n && !RoomFor(Rest(Stream(front[..i])), front[i]);
    SamePrefix(chunks, n, i);
  }

  lemma RoomForLast(chunks: seq<Bytes>)
    requires chunks != [] && AlwaysRoom(chunks[..|chunks| - 1])
    ensures AlwaysRoom(chunks) <==> RoomFor(Rest(Stream(chunks[..|chunks| - 1])), chunks[|chunks| - 1])
  {
    hide RoomFor, Rest, Stream;
    var n := |chunks| - 1;
    var front := chunks[..n];
    forall i | 0 <= i < n ensures RoomFor(Rest(Stream(chunks[..i])), chunks[i]) {
      SamePrefix(chunks, n, i);
      assert RoomFor(Rest(Stream(front[..i])), front[i]);
    }
  }

  lemma SamePrefix(chunks: seq<Bytes>, n: nat, i: nat)
    requires i < n <= |chunks|
    ensures chunks[..n][..i] == chunks[..i] && chunks[..n][i] == chunks[i]
  {}

  /** For a stream without NULs, the printed lines followed by the kept remainder are the stream, exactly when each chunk
      finds room behind the unfinished line before it. */
  lemma StreamIsShown(chunks: seq<Bytes>)
    requires 0 !in Stream(chunks)
    ensures Join(After(chunks).lines) + After(chunks).pending == Stream(chunks) <==> AlwaysRoom(chunks)
    ensures Lost(chunks) == 0 <==> AlwaysRoom(chunks)
  {
    hide AlwaysRoom;
    NothingLostExactly(chunks);
    BytesAreAccountedFor(chunks);
    if Lost(chunks) == 0 {
      AnyChunking(chunks);
      PrintedAsTheyAre(Stream(chunks));
      CutAndJoin(Stream(chunks));
    }
  }

  /** Messages that leave room for a full read are never lost: it is enough that no unfinished line ever grows to
      PIPE_READ_BUF - PIPE_BUF bytes. */
  lemma {:induction false} ShortLinesAreSafe(chunks: seq<Bytes>)
    requires forall i :: 0 <= i < |chunks| ==> |chunks[i]| <= PIPE_BUF
    requires forall k :: 0 <= k <= |Stream(chunks)| ==> |Rest(Stream(chunks)[..k])| < PIPE_READ_BUF - PIPE_BUF
    ensures Lost(chunks) == 0
  {
    if chunks != [] {
      var n := |chunks| - 1;
      var front := Stream(chunks[..n]);
      forall k | 0 <= k <= |front| ensures |Rest(front[..k])| < PIPE_READ_BUF - PIPE_BUF {
        assert Stream(chunks)[..k] == front[..k];
      }
      ShortLinesAreSafe(chunks[..n]);
      AnyChunking(chunks[..n]);
      assert Stream(chunks)[..|front|] == front;
    }
  }

  /** A message is printed as it is. */
  lemma OneMessage(message: Bytes)
    requires 10 !in message && 0 !in message
    ensures After([message + [10]]) == Shown([message], [])
  {
    var s: Bytes := message + [10];
    var chunks := [s];
    assert chunks[..0] == [];
    assert [] + s == s && s[..|s| - 1] == message;
    NoNewline(message);
    NoNulNoCut(message);
  }

  /** A chunk of n bytes without a newline. */
  function Dashes(n: nat): (s: Bytes)
    ensures |s| == n
  {
    seq(n, _ => 45)
  }

  /** A line that arrives in k full reads and does not end. */
  function LongLine(k: nat): seq<Bytes> {
    seq(k, _ => Dashes(PIPE_BUF))
  }

  /** Up to seven full reads of an unfinished line are kept. */
  lemma {:induction false} LongLineKept(k: nat)
    requires k <= 7
    ensures Lost(LongLine(k)) == 0 && After(LongLine(k)).lines == [] && |After(LongLine(k)).pending| == k * PIPE_BUF
    ensures NEWLINE !in After(LongLine(k)).pending
  {
    if k > 0 {
      var chunks := LongLine(k);
      assert chunks[..k - 1] == LongLine(k - 1);
      LongLineKept(k - 1);
      var before := After(LongLine(k - 1));
      NoNewline(before.pending + chunks[k - 1]);
    }
  }

  /** ... and the eighth drops them all. */
  lemma LongLineIsLost()
    ensures |LongLine(8)| == 8 && forall i :: 0 <= i < 8 ==> |LongLine(8)[i]| <= PIPE_BUF
    ensures Lost(LongLine(8)) == 28672 && 0 !in Stream(LongLine(8))
    ensures Join(After(LongLine(8)).lines) + After(LongLine(8)).pending != Stream(LongLine(8))
  {
    var chunks := LongLine(8);
    assert chunks[..7] == LongLine(7);
    LongLineKept(7);
    NoNulInLongLine(8);
    StreamIsShown(chunks);
  }

  lemma {:induction false} NoNulInLongLine(k: nat)
    ensures 0 !in Stream(LongLine(k))
  {
    if k > 0 {
      assert LongLine(k)[..k - 1] == LongLine(k - 1);
      NoNulInLongLine(k - 1);
    }
  }
}
