/** The stdio layer under whirlpoolsum: files as byte contents that may fail
    at some offset, FILE streams with a position and a sticky error
    indicator, fread into a buffer, fgets of one line, and what the program's
    loops over them read. */
module Stdio {
  import opened Wrappers
  import opened Whirlpool

  const NEWLINE: byte := 10

  /** What a path names: its bytes, and the offset, if any, at which the
      device fails before the end is reached. */
  datatype FileContent = FileContent(bytes: seq<byte>, fault: Option<nat>)

  /** Where reading stops: at the fault, or at end of file. */
  function Limit(bytes: seq<byte>, fault: Option<nat>): (n: nat)
    ensures n <= |bytes|
  {
    if fault.Some? && fault.value < |bytes| then fault.value else |bytes|
  }

  /** The character a byte is read as, and back. */
  function ByteChar(b: byte): char {
    (b as int) as char
  }

  function CharByte(c: char): byte
    requires c as int < 256
  {
    (c as int) as byte
  }

  function Text(bs: seq<byte>): (s: string)
    ensures |s| == |bs|
  {
    seq(|bs|, i requires 0 <= i < |bs| => ByteChar(bs[i]))
  }

  predicate IsByteText(s: string) {
    forall i :: 0 <= i < |s| ==> s[i] as int < 256
  }

  function Bytes(s: string): (bs: seq<byte>)
    requires IsByteText(s)
    ensures |bs| == |s|
  {
    seq(|s|, i requires 0 <= i < |s| => CharByte(s[i]))
  }

  /** Writing text out as bytes and reading it back gives the same text. */
  lemma TextOfBytes(s: string)
    requires IsByteText(s)
    ensures Text(Bytes(s)) == s
  {
    forall i | 0 <= i < |s| ensures Text(Bytes(s))[i] == s[i] {
      CharOfByte(s[i]);
    }
  }

  lemma CharOfByte(c: char)
    requires c as int < 256
    ensures ByteChar(CharByte(c)) == c
  {
  }

  // ------------------------------------------------------------------ fgets

  /** How many bytes fgets takes from pos with room for n characters: it
      stops after a newline, after n bytes, or where reading stops. */
  function LineSpan(bytes: seq<byte>, end: nat, pos: nat, n: nat): (k: nat)
    requires pos <= end <= |bytes|
    ensures k <= n && pos + k <= end
    decreases n
  {
    if n == 0 || pos == end then 0
    else if bytes[pos] == NEWLINE then 1
    else 1 + LineSpan(bytes, end, pos + 1, n - 1)
  }

  /** fgets ran into the fault: it wanted more, saw no newline, and reading
      failed where it stops. */
  predicate FgetsFault(bytes: seq<byte>, fault: Option<nat>, pos: nat, n: nat)
    requires pos <= Limit(bytes, fault)
  {
    var end := Limit(bytes, fault);
    var k := LineSpan(bytes, end, pos, n);
    end < |bytes| && k < n && (k == 0 || bytes[pos + k - 1] != NEWLINE)
  }

  /** What fgets returns: NULL when it read nothing or met a read error,
      otherwise the characters read, newline included. */
  function FgetsResult(bytes: seq<byte>, fault: Option<nat>, pos: nat, n: nat): Option<string>
    requires pos <= Limit(bytes, fault)
  {
    var k := LineSpan(bytes, Limit(bytes, fault), pos, n);
    if k == 0 || FgetsFault(bytes, fault, pos, n) then None
    else Some(Text(bytes[pos..pos + k]))
  }

  /** The lines that successive fgets calls with room for n characters hand
      out from pos on, up to the first NULL. */
  function Lines(bytes: seq<byte>, fault: Option<nat>, pos: nat, n: nat): seq<string>
    requires pos <= Limit(bytes, fault)
    decreases Limit(bytes, fault) - pos
  {
    match FgetsResult(bytes, fault, pos, n)
    case None => []
    case Some(line) => [line] + Lines(bytes, fault, pos + LineSpan(bytes, Limit(bytes, fault), pos, n), n)
  }

  /** One fgets call that returns a line, followed by the rest. */
  lemma LinesStep(bytes: seq<byte>, fault: Option<nat>, pos: nat, n: nat, line: string)
    requires pos <= Limit(bytes, fault) && FgetsResult(bytes, fault, pos, n) == Some(line)
    ensures Lines(bytes, fault, pos, n) == [line] + Lines(bytes, fault, pos + LineSpan(bytes, Limit(bytes, fault), pos, n), n)
  {
  }

  /** A stretch that ends with its only newline and fits in n is taken by
      fgets whole. */
  lemma {:induction false} LineSpanWhole(bytes: seq<byte>, end: nat, pos: nat, n: nat)
    requires pos < end <= |bytes| && end - pos <= n
    requires bytes[end - 1] == NEWLINE
    requires forall i :: pos <= i < end - 1 ==> bytes[i] != NEWLINE
    ensures LineSpan(bytes, end, pos, n) == end - pos
    decreases end - pos
  {
    if bytes[pos] != NEWLINE {
      LineSpanWhole(bytes, end, pos + 1, n - 1);
    }
  }

  /** Text holding one line, with its newline last and no longer than n
      characters, is read back by fgets as exactly that one line. */
  lemma ReadBackOneLine(line: string, n: nat)
    requires IsByteText(line) && 0 < |line| <= n
    requires line[|line| - 1] == '\n'
    requires forall i :: 0 <= i < |line| - 1 ==> line[i] != '\n'
    ensures Lines(Bytes(line), None, 0, n) == [line]
  {
    var bs := Bytes(line);
    forall i | 0 <= i < |line| - 1 ensures bs[i] != NEWLINE {
      assert line[i] != '\n';
    }
    LineSpanWhole(bs, |bs|, 0, n);
    TextOfBytes(line);
    assert bs[0..|bs|] == bs;
    assert FgetsResult(bs, None, 0, n) == Some(line);
    assert FgetsResult(bs, None, |bs|, n) == None;
  }

  // ------------------------------------------------------------------ fread

  /** What the fread loop of calculate_file_digest feeds to whirlpool_add,
      reading chunks of n bytes from pos: the pieces in order, and whether it
      gave up on the error indicator. A read that returns nothing ends the
      loop, at end of file and at a fault alike; a read that returns
      something is added before the error indicator is looked at. */
  datatype Feed = Feed(pieces: seq<seq<byte>>, failed: bool)

  function ReadLoop(bytes: seq<byte>, end: nat, pos: nat, err: bool, n: nat): Feed
    requires n > 0 && pos <= end <= |bytes|
    decreases end - pos
  {
    if pos == end then Feed([], false)
    else
      var k := Min(n, end - pos);
      var piece := bytes[pos..pos + k];
      if err || (k < n && end < |bytes|) then Feed([piece], true)
      else
        var rest := ReadLoop(bytes, end, pos + k, false, n);
        Feed([piece] + rest.pieces, rest.failed)
  }

  /** One round of the loop from pos, read as fread reports it: k bytes
      come back and the error indicator ends up as failed. With the pieces
      fed before it, the round either gives up on this chunk or leaves the
      rounds after it to do the rest. */
  lemma ReadLoopRound(bytes: seq<byte>, end: nat, pos: nat, err: bool, n: nat,
                      k: nat, failed: bool, fed: seq<seq<byte>>)
    requires n > 0 && pos < end <= |bytes| && k == Min(n, end - pos)
    requires failed == (err || (k < n && end < |bytes|))
    ensures failed ==> ReadLoop(bytes, end, pos, err, n) == Feed([bytes[pos..pos + k]], true)
    ensures !failed ==>
      var f, rest := ReadLoop(bytes, end, pos, err, n), ReadLoop(bytes, end, pos + k, false, n);
      f.failed == rest.failed && fed + f.pieces == (fed + [bytes[pos..pos + k]]) + rest.pieces
  {
    if !failed {
      var rest := ReadLoop(bytes, end, pos + k, false, n);
      assert fed + ([bytes[pos..pos + k]] + rest.pieces) == (fed + [bytes[pos..pos + k]]) + rest.pieces;
    }
  }

  /** The pieces are non-empty and at most n bytes; without an error
      already pending they are, concatenated, exactly the bytes from pos to
      where reading stops, whether or not the loop then fails. */
  lemma {:induction false} ReadLoopPieces(bytes: seq<byte>, end: nat, pos: nat, err: bool, n: nat)
    requires n > 0 && pos <= end <= |bytes|
    ensures var f := ReadLoop(bytes, end, pos, err, n);
      && (forall i :: 0 <= i < |f.pieces| ==> 0 < |f.pieces[i]| <= n)
      && (!err ==> Flatten(f.pieces) == bytes[pos..end])
    decreases end - pos
  {
    if pos < end {
      var k := Min(n, end - pos);
      var piece := bytes[pos..pos + k];
      if err || (k < n && end < |bytes|) {
        assert Flatten([piece]) == piece + Flatten([]);
      } else {
        ReadLoopPieces(bytes, end, pos + k, false, n);
        var rest := ReadLoop(bytes, end, pos + k, false, n);
        assert ([piece] + rest.pieces)[1..] == rest.pieces;
        assert bytes[pos..end] == piece + bytes[pos + k..end];
      }
    }
  }

  /** The loop fails exactly when an error was already pending and there
      was something to read, or the point where reading stops is a fault
      that does not fall on a chunk boundary. A fault on a chunk boundary
      makes fread return nothing, which the loop takes for end of file. */
  lemma {:induction false} ReadLoopFails(bytes: seq<byte>, end: nat, pos: nat, err: bool, n: nat)
    requires n > 0 && pos <= end <= |bytes|
    ensures ReadLoop(bytes, end, pos, err, n).failed
        <==> (err && pos < end) || (end < |bytes| && (end - pos) % n != 0)
    decreases end - pos
  {
    if pos == end {
      assert (end - pos) % n == 0;
    } else if !err {
      var f := ReadLoop(bytes, end, pos, err, n);
      if n <= end - pos {
        var rest := ReadLoop(bytes, end, pos + n, false, n);
        assert f.failed == rest.failed;
        ReadLoopFails(bytes, end, pos + n, false, n);
        ModStep(end - pos, n);
        assert end - (pos + n) == end - pos - n;
      } else {
        assert Min(n, end - pos) == end - pos;
        assert ReadLoop(bytes, end, end, false, n) == Feed([], false);
        assert f.failed == (end < |bytes|);
        ModSmall(end - pos, n);
      }
    }
  }

  lemma ModSmall(a: nat, n: nat)
    requires 0 < a < n
    ensures a % n != 0
  {
  }

  lemma ModStep(a: nat, n: nat)
    requires 0 < n <= a
    ensures a % n == (a - n) % n
  {
    var q, r := a / n, a % n;
    var q', r' := (a - n) / n, (a - n) % n;
    assert q * n + r == a && q' * n + r' == a - n;
    var d := q - q' - 1;
    assert d * n == q * n - q' * n - n;
    if d >= 1 {
      MulAtLeast(d, n);
    } else if d <= -1 {
      MulAtLeast(-d, n);
    }
  }

  lemma MulAtLeast(d: int, n: nat)
    requires d >= 1
    ensures d * n >= n
  {
    var i := 1;
    while i < d
      invariant 1 <= i <= d && i * n >= n
    {
      i := i + 1;
    }
  }

  /** Reading a source that has no fault gives the same bytes to the
      primitive, and succeeds, whatever the chunk size: the digest the
      program prints does not depend on BUFSIZE. */
  lemma ChunkSizeInvariance(bytes: seq<byte>, n1: nat, n2: nat)
    requires n1 > 0 && n2 > 0
    ensures var f1, f2 := ReadLoop(bytes, |bytes|, 0, false, n1), ReadLoop(bytes, |bytes|, 0, false, n2);
      && !f1.failed && !f2.failed
      && Flatten(f1.pieces) == Flatten(f2.pieces) == bytes
  {
    ReadLoopPieces(bytes, |bytes|, 0, false, n1);
    ReadLoopPieces(bytes, |bytes|, 0, false, n2);
    ReadLoopFails(bytes, |bytes|, 0, false, n1);
    ReadLoopFails(bytes, |bytes|, 0, false, n2);
    assert bytes[0..|bytes|] == bytes;
  }

  /** A fault at a multiple of the chunk size from the start of a fresh
      stream is not detected: the loop succeeds on the bytes before it, a
      strict prefix of the file. */
  lemma FaultOnChunkBoundaryUnnoticed(content: FileContent, n: nat)
    requires n > 0 && content.fault.Some? && content.fault.value < |content.bytes|
    requires content.fault.value % n == 0
    ensures var f := ReadLoop(content.bytes, Limit(content.bytes, content.fault), 0, false, n);
      && !f.failed
      && Flatten(f.pieces) == content.bytes[..content.fault.value]
      && |Flatten(f.pieces)| < |content.bytes|
  {
    ReadLoopPieces(content.bytes, Limit(content.bytes, content.fault), 0, false, n);
    ReadLoopFails(content.bytes, Limit(content.bytes, content.fault), 0, false, n);
  }

  // ------------------------------------------------------------- the stream

  /** A FILE: the content it was opened on, its position and its error
      indicator. */
  class CFile {
    const bytes: seq<byte>
    const fault: Option<nat>
    var pos: nat
    var err: bool

    /** Where reading this stream stops. */
    function End(): nat {
      Limit(bytes, fault)
    }

    ghost predicate Valid()
      reads this
    {
      pos <= End()
    }

    /** fopen on a path that names content. */
    constructor Open(content: FileContent)
      ensures Valid()
      ensures bytes == content.bytes && fault == content.fault
      ensures pos == 0 && !err
    {
      bytes, fault := content.bytes, content.fault;
      pos, err := 0, false;
    }

    /** fread(buf, 1, n, stream): as many bytes as there are up to n, copied
        to the front of buf; asking for more than there is sets the error
        indicator if reading stopped at the fault, not at end of file. */
    method Fread(buf: array<byte>, n: nat) returns (count: nat)
      requires Valid() && n <= buf.Length
      modifies this, buf
      ensures Valid()
      ensures count == Min(n, End() - old(pos))
      ensures pos == old(pos) + count
      ensures buf[..count] == bytes[old(pos)..pos]
      ensures buf[count..] == old(buf[count..])
      ensures err == (old(err) || (count < n && End() < |bytes|))
    {
      count := Min(n, End() - pos);
      for i := 0 to count
        invariant pos == old(pos) && err == old(err)
        invariant forall k :: 0 <= k < i ==> buf[k] == bytes[pos + k]
        invariant forall k :: i <= k < buf.Length ==> buf[k] == old(buf[k])
      {
        buf[i] := bytes[pos + i];
      }
      assert buf[..count] == bytes[pos..pos + count];
      pos := pos + count;
      if count < n && End() < |bytes| {
        err := true;
      }
    }

    /** fgets(s, size, stream): up to size - 1 characters, up to and
        including a newline; NULL when nothing was read or a read error
        occurred in this call. The error indicator is sticky. */
    method Fgets(size: nat) returns (line: Option<string>)
      requires Valid() && size >= 2
      modifies this
      ensures Valid()
      ensures pos == old(pos) + LineSpan(bytes, End(), old(pos), size - 1)
      ensures line == FgetsResult(bytes, fault, old(pos), size - 1)
      ensures err == (old(err) || FgetsFault(bytes, fault, old(pos), size - 1))
    {
      var n := size - 1;
      var k := LineSpan(bytes, End(), pos, n);
      var failed := FgetsFault(bytes, fault, pos, n);
      line := if k == 0 || failed then None else Some(Text(bytes[pos..pos + k]));
      pos := pos + k;
      err := err || failed;
    }
  }
}
