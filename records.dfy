/** Checksum lines: how process_input_file in check mode takes a line read
    by fgets apart into a recorded digest and a path, in the BSD-tagged form
    `WHIRLPOOL (path) = digest` or the GNU form `digest *path` /
    `digest  path`, and the line the compute mode prints, which it reads
    back. */
module Records {
  import opened Wrappers
  import opened CStrings
  import opened Whirlpool
  import opened Hex
  import opened Stdio

  /** line_size and path_size of process_input_file. */
  const LineSize: nat := 8096
  const PathSize: nat := 4096
  /** The length of a digest written in hex, DIGESTBYTES * 2. */
  const DigestLen: nat := 2 * DIGESTBYTES
  /** The first word of a BSD-tagged line. */
  const Tag: string := "WHIRLPOOL"

  /** The delimiter sets given to strtok. */
  const Blanks: set<char> := {' ', '\t'}
  const CloseParen: set<char> := {')'}
  const DigestEnd: set<char> := {' ', '\t', '\n'}
  const PathEnd: set<char> := {'\t', '\n'}

  datatype Format = Gnu | BsdTagged

  /** An accepted line: the digest text as recorded (compared later, case
      insensitively) and the path to check. */
  datatype Record = Record(format: Format, digest: string, path: string)

  /** Why a line is skipped; each has its own warning text. */
  datatype Reject = MalformedLine | InvalidFilename | InvalidTagFormat | InvalidDigestLength

  /** The outcome of parsing one line, and what binary_mode is set to on the
      way, if anything. */
  datatype Parse = Parse(mode: Option<bool>, result: Result<Record, Reject>)

  // ---------------------------------------------------------- specification

  /** A line as fgets left it in fline: without a newline at the end of its
      C string it is malformed (a line cut by the buffer size, or the last
      line of a file without one); otherwise its fields decide. */
  function Parsed(fline: string): Parse {
    var line := CStr(fline);
    if line == [] || line[|line| - 1] != '\n' then Parse(None, Err(MalformedLine))
    else Fields(line)
  }

  /** The first strtok word, cut to 128 characters like prefix, selects the
      form: the tag word for BSD, otherwise the word must be a digest of
      exactly 128 characters after the cut. */
  function Fields(line: string): Parse {
    var t1 := Strtok(line, 0, Blanks);
    var prefix := Truncate(t1.token, DigestLen + 1);
    if prefix == Tag then BsdFields(line, t1.next)
    else if |prefix| != DigestLen then Parse(None, Err(InvalidDigestLength))
    else GnuFields(line, t1.next, prefix)
  }

  /** The BSD-tagged form from the cursor after the tag word. binary_mode is
      set whatever follows. The text up to the next `)` (cut to 4096
      characters) must start with `(`; of the next word only its first
      character is kept, and it must be `=`; the word after that, cut to 128
      characters, must have 128. The closing `)` itself is never looked
      for. */
  function BsdFields(line: string, from: nat): Parse
    requires from <= |line|
  {
    var t2 := Strtok(line, from, CloseParen);
    var checkPath := Truncate(t2.token, PathSize + 1);
    if checkPath == [] || checkPath[0] != '(' then Parse(Some(true), Err(InvalidFilename))
    else
      var t3 := Strtok(line, t2.next, Blanks);
      if Truncate(t3.token, 2) != "=" then Parse(Some(true), Err(InvalidTagFormat))
      else
        var t4 := Strtok(line, t3.next, DigestEnd);
        var found := Truncate(t4.token, DigestLen + 1);
        if |found| != DigestLen then Parse(Some(true), Err(InvalidDigestLength))
        else Parse(Some(true), Ok(Record(BsdTagged, found, checkPath[1..])))
  }

  /** The GNU form, the digest word already accepted: the rest up to a tab or
      newline (cut to 4096 characters) must start with `*`, binary, or a
      space, text; the path is what follows that marker. binary_mode is set
      only for an accepted line. */
  function GnuFields(line: string, from: nat, found: string): Parse
    requires from <= |line|
  {
    var t2 := Strtok(line, from, PathEnd);
    var checkPath := Truncate(t2.token, PathSize + 1);
    if checkPath == [] || (checkPath[0] != '*' && checkPath[0] != ' ') then Parse(None, Err(InvalidFilename))
    else Parse(Some(checkPath[0] == '*'), Ok(Record(Gnu, found, checkPath[1..])))
  }

  /** The line compute mode prints for fname and its digest. */
  function OutputLine(bsd: bool, binary: bool, fname: string, d: Digest): string {
    if bsd then "WHIRLPOOL (" + fname + ") = " + HexOf(d) + "\n"
    else HexOf(d) + " " + (if binary then "*" else " ") + fname + "\n"
  }

  // ------------------------------------------------------------ the parser

  /** Lines 191-267: a line whose C string is empty or does not end with a
      newline is malformed; any other is taken apart by ParseFields. */
  method ParseLine(fline: string) returns (p: Parse)
    ensures p == Parsed(fline)
  {
    var len := CLen(fline);
    if len == 0 || fline[len - 1] != '\n' {
      return Parse(None, Err(MalformedLine));
    }
    assert CStr(fline) == fline[..len];
    p := ParseFields(fline[..len]);
  }

  /** Lines 198-267: the fields of a NUL-free line that ends with a newline,
      taken apart with strtok into the fixed buffers prefix (129 bytes),
      check_path (4097), eq_sign (2) and found_digest (129). */
  method ParseFields(line: string) returns (p: Parse)
    requires NulFree(line)
    ensures p == Fields(line)
  {
    var prefix := new char[DigestLen + 1];
    var t1 := NextToken(line, 0, Blanks);
    StrtokNulFree(line, 0, Blanks);
    StrcpySafe(prefix, t1.token, DigestLen + 1);
    if CStr(prefix[..]) == Tag {
      p := ParseBsd(line, t1.next);
    } else if CLen(prefix[..]) != DigestLen {
      p := Parse(None, Err(InvalidDigestLength));
    } else {
      p := ParseGnu(line, t1.next, CStr(prefix[..]));
    }
  }

  /** Lines 205-240, the BSD-tagged branch. */
  method ParseBsd(line: string, from: nat) returns (p: Parse)
    requires NulFree(line) && from <= |line|
    ensures p == BsdFields(line, from)
  {
    var checkPath := new char[PathSize + 1];
    var t2 := NextToken(line, from, CloseParen);
    StrtokNulFree(line, from, CloseParen);
    StrcpySafe(checkPath, t2.token, PathSize + 1);
    if checkPath[0] != '(' {
      return Parse(Some(true), Err(InvalidFilename));
    }
    DropMarker(checkPath);
    var eqSign := new char[2];
    var t3 := NextToken(line, t2.next, Blanks);
    StrtokNulFree(line, t2.next, Blanks);
    StrcpySafe(eqSign, t3.token, 2);
    if CStr(eqSign[..]) != "=" {
      return Parse(Some(true), Err(InvalidTagFormat));
    }
    var foundDigest := new char[DigestLen + 1];
    var t4 := NextToken(line, t3.next, DigestEnd);
    StrtokNulFree(line, t3.next, DigestEnd);
    StrcpySafe(foundDigest, t4.token, DigestLen + 1);
    if CLen(foundDigest[..]) != DigestLen {
      return Parse(Some(true), Err(InvalidDigestLength));
    }
    p := Parse(Some(true), Ok(Record(BsdTagged, CStr(foundDigest[..]), CStr(checkPath[..]))));
  }

  /** Lines 243-266, the GNU branch, found being the accepted digest word. */
  method ParseGnu(line: string, from: nat, found: string) returns (p: Parse)
    requires NulFree(line) && from <= |line|
    ensures p == GnuFields(line, from, found)
  {
    var checkPath := new char[PathSize + 1];
    var t2 := NextToken(line, from, PathEnd);
    StrtokNulFree(line, from, PathEnd);
    StrcpySafe(checkPath, t2.token, PathSize + 1);
    if checkPath[0] != '*' && checkPath[0] != ' ' {
      return Parse(None, Err(InvalidFilename));
    }
    var binary := checkPath[0] == '*';
    DropMarker(checkPath);
    p := Parse(Some(binary), Ok(Record(Gnu, found, CStr(checkPath[..]))));
  }

  /** Lines 216-218 and 264-266: the marker in front of the path goes by
      moving the C string one place left, path_len being raised to 2 so that
      a lone marker leaves the empty string. */
  method DropMarker(a: array<char>)
    requires a.Length >= 2 && a[0] != NUL && a[a.Length - 1] == NUL
    modifies a
    ensures CStr(a[..]) == old(CStr(a[..]))[1..]
  {
    ghost var s0 := a[..];
    var pathLen := CLen(a[..]);
    if pathLen < 2 {
      pathLen := 2;
    }
    ShiftLeft(a, pathLen - 1);
    a[pathLen - 1] := NUL;
    var t := CStr(s0)[1..];
    assert a[..][..|t|] == t;
    CStrTerminated(a[..], t);
  }

  // ------------------------------------------------------------ properties

  /** An accepted record holds a digest of exactly 128 characters and a path
      shorter than path_size, both free of NUL; every accepted line sets
      binary_mode, a BSD-tagged one to binary. */
  lemma AcceptedRecord(fline: string)
    requires Parsed(fline).result.Ok?
    ensures var p := Parsed(fline); var r := p.result.value;
      && |r.digest| == DigestLen
      && |r.path| < PathSize
      && NulFree(r.digest) && NulFree(r.path)
      && p.mode.Some?
      && (r.format == BsdTagged ==> p.mode == Some(true))
  {
    var line := CStr(fline);
    assert NulFree(line);
    var t1 := Strtok(line, 0, Blanks);
    StrtokNulFree(line, 0, Blanks);
    var prefix := Truncate(t1.token, DigestLen + 1);
    assert Fields(line) == Parsed(fline);
    if prefix == Tag {
      BsdAccepted(line, t1.next);
    } else {
      GnuAccepted(line, t1.next, prefix);
    }
  }

  lemma BsdAccepted(line: string, from: nat)
    requires NulFree(line) && from <= |line| && BsdFields(line, from).result.Ok?
    ensures var p := BsdFields(line, from); var r := p.result.value;
      && |r.digest| == DigestLen && |r.path| < PathSize
      && NulFree(r.digest) && NulFree(r.path)
      && p.mode == Some(true) && r.format == BsdTagged
  {
    var t2 := Strtok(line, from, CloseParen);
    StrtokNulFree(line, from, CloseParen);
    var t3 := Strtok(line, t2.next, Blanks);
    StrtokNulFree(line, t3.next, DigestEnd);
  }

  lemma GnuAccepted(line: string, from: nat, found: string)
    requires NulFree(line) && from <= |line| && GnuFields(line, from, found).result.Ok?
    ensures var p := GnuFields(line, from, found); var r := p.result.value;
      && r.digest == found && |r.path| < PathSize && NulFree(r.path)
      && p.mode.Some? && r.format == Gnu
  {
    StrtokNulFree(line, from, PathEnd);
  }

  /** A line whose first word is the tag sets binary_mode to binary,
      whether it is then accepted or not. */
  lemma TaggedLineSetsBinary(fline: string)
    requires var line := CStr(fline);
      && line != [] && line[|line| - 1] == '\n'
      && Truncate(Strtok(line, 0, Blanks).token, DigestLen + 1) == Tag
    ensures Parsed(fline).mode == Some(true)
  {
  }

  /** A rejected line changes binary_mode only when it is BSD-tagged, and
      then to binary: a rejected GNU line leaves it alone. */
  lemma RejectedLineMode(fline: string)
    requires Parsed(fline).result.Err?
    ensures Parsed(fline).mode.Some? ==> Parsed(fline).mode == Some(true)
  {
  }

  /** A first word longer than 128 characters is not rejected: it is cut to
      its first 128 characters, and those are the recorded digest. */
  lemma OverlongDigestAccepted(d: Digest, extra: string, fname: string, binary: bool)
    requires extra != [] && NulFree(extra) && forall k :: 0 <= k < |extra| ==> extra[k] !in DigestEnd
    requires NulFree(fname) && '\t' !in fname && '\n' !in fname && |fname| < PathSize
    ensures var line := HexOf(d) + extra + " " + (if binary then "*" else " ") + fname + "\n";
      Parsed(line) == Parse(Some(binary), Ok(Record(Gnu, HexOf(d), fname)))
  {
    var h := HexOf(d);
    var word := h + extra;
    HexNoDelims(d);
    NulFreeJoin(h, extra);
    forall k | 0 <= k < |word| ensures word[k] !in Blanks {
      if k < |h| {
        assert word[k] == h[k];
      } else {
        assert word[k] == extra[k - |h|];
      }
    }
    assert word[..DigestLen] == h;
    GnuLine(word, h, binary, fname);
  }

  /** A first word shorter than 128 characters that is not the tag is
      rejected for its length, and binary_mode is left alone. */
  lemma ShortDigestRejected(word: string, rest: string)
    requires word != [] && word != Tag && |word| < DigestLen
    requires NulFree(word + rest) && forall k :: 0 <= k < |word| ==> word[k] !in Blanks
    requires rest != [] && rest[0] in Blanks && rest[|rest| - 1] == '\n'
    ensures Parsed(word + rest) == Parse(None, Err(InvalidDigestLength))
  {
    var line := word + rest;
    CStrNulFree(line);
    assert line[|line| - 1] == '\n';
    StrtokAt(line, 0, Blanks, [], word);
  }

  /** Of the word after the path only the first character is compared: any
      word that starts with `=` is taken for the equals sign. */
  lemma EqualsPrefixAccepted(d: Digest, fname: string, eq: string)
    requires NulFree(fname) && ')' !in fname && '\n' !in fname && |fname| < PathSize
    requires eq != [] && eq[0] == '=' && NulFree(eq) && forall k :: 0 <= k < |eq| ==> eq[k] !in Blanks
    ensures Parsed("WHIRLPOOL (" + fname + ") " + eq + " " + HexOf(d) + "\n")
      == Parse(Some(true), Ok(Record(BsdTagged, HexOf(d), fname)))
  {
    BsdParse(d, fname, eq);
  }

  /** The closing `)` is only a strtok delimiter, never looked for: without
      one, the path token runs to the end of the line, no word is left for
      the equals sign, and the line is rejected for its tag format. */
  lemma NoCloseParenRejected(rest: string)
    requires rest != [] && rest[|rest| - 1] == '\n' && NulFree(rest) && ')' !in rest
    ensures Parsed("WHIRLPOOL (" + rest) == Parse(Some(true), Err(InvalidTagFormat))
  {
    var line := "WHIRLPOOL (" + rest;
    var path := "(" + rest;
    NulFreeJoin("WHIRLPOOL (", rest);
    CStrNulFree(line);
    assert line[|line| - 1] == '\n';
    assert line[0..9] == Tag && line[9] == ' ';
    StrtokAt(line, 0, Blanks, [], Tag);
    assert line[10..10 + |path|] == path;
    forall k | 0 <= k < |path| ensures path[k] !in CloseParen {
      if k > 0 {
        assert path[k] == rest[k - 1];
      }
    }
    StrtokAt(line, 10, CloseParen, [], path);
    assert Truncate(Some(Tag), DigestLen + 1) == Tag;
    assert Truncate(Some(path), PathSize + 1)[0] == '(';
  }

  /** The GNU line compute mode prints reads back as its digest, its name
      and its binary or text marker, provided the name has no tab, newline
      or NUL and fits check_path. */
  lemma GnuRoundTrip(d: Digest, fname: string, binary: bool)
    requires NulFree(fname) && '\t' !in fname && '\n' !in fname && |fname| < PathSize
    ensures Parsed(OutputLine(false, binary, fname, d)) == Parse(Some(binary), Ok(Record(Gnu, HexOf(d), fname)))
  {
    var h := HexOf(d);
    HexNoDelims(d);
    assert h[..DigestLen] == h;
    GnuLine(h, h, binary, fname);
  }

  /** The BSD-tagged line compute mode prints reads back as its digest and
      its name, in binary mode, provided the name has no `)`, newline or NUL
      and fits check_path. */
  lemma BsdRoundTrip(d: Digest, fname: string, binary: bool)
    requires NulFree(fname) && ')' !in fname && '\n' !in fname && |fname| < PathSize
    ensures Parsed(OutputLine(true, binary, fname, d)) == Parse(Some(true), Ok(Record(BsdTagged, HexOf(d), fname)))
  {
    assert OutputLine(true, binary, fname, d) == "WHIRLPOOL (" + fname + ") " + "=" + " " + HexOf(d) + "\n";
    BsdParse(d, fname, "=");
  }

  /** A manifest holding just a line compute mode printed is read by fgets
      as that one line, which parses back to the digest, the name and the
      binary or text marker (binary for the BSD-tagged form). */
  lemma ManifestRoundTrip(bsd: bool, binary: bool, fname: string, d: Digest)
    requires IsByteText(fname) && NulFree(fname) && '\n' !in fname && |fname| < PathSize
    requires if bsd then ')' !in fname else '\t' !in fname
    ensures var line := OutputLine(bsd, binary, fname, d);
      && IsByteText(line)
      && Lines(Bytes(line), None, 0, LineSize - 1) == [line]
      && Parsed(line).result == Ok(Record(if bsd then BsdTagged else Gnu, HexOf(d), fname))
      && Parsed(line).mode == Some(bsd || binary)
  {
    var line := OutputLine(bsd, binary, fname, d);
    var h := HexOf(d);
    HexNoDelims(d);
    assert Plain(fname);
    var body;
    if bsd {
      body := "WHIRLPOOL (" + fname + ") = " + h;
      PlainJoin("WHIRLPOOL (", fname);
      PlainJoin("WHIRLPOOL (" + fname, ") = ");
      PlainJoin("WHIRLPOOL (" + fname + ") = ", h);
      BsdRoundTrip(d, fname, binary);
    } else {
      var mark := if binary then "*" else " ";
      body := h + " " + mark + fname;
      PlainJoin(h, " ");
      PlainJoin(h + " ", mark);
      PlainJoin(h + " " + mark, fname);
      GnuRoundTrip(d, fname, binary);
    }
    assert line == body + "\n";
    PlainLineReadBack(body);
  }

  /** A line of single-byte characters without NUL or newline, and short
      enough, is what fgets reads back from a file holding just it. */
  lemma PlainLineReadBack(body: string)
    requires Plain(body) && |body| < LineSize - 1
    ensures IsByteText(body + "\n") && Lines(Bytes(body + "\n"), None, 0, LineSize - 1) == [body + "\n"]
  {
    var line := body + "\n";
    forall i | 0 <= i < |line| ensures line[i] as int < 256 {
      if i < |body| {
        assert line[i] == body[i];
      }
    }
    assert forall i :: 0 <= i < |line| - 1 ==> line[i] == body[i];
    ReadBackOneLine(line, LineSize - 1);
  }

  // --------------------------------------------------------------- helpers

  /** Rendered digits are none of the delimiters, nor NUL. */
  lemma HexNoDelims(d: seq<byte>)
    ensures Plain(HexOf(d)) && NulFree(HexOf(d))
    ensures forall k :: 0 <= k < |HexOf(d)| ==> HexOf(d)[k] !in DigestEnd && HexOf(d)[k] != ')'
  {
    HexOfDigits(d);
    var h := HexOf(d);
    forall k | 0 <= k < |h| ensures h[k] != NUL && h[k] !in DigestEnd && h[k] != ')' && h[k] as int < 256 {
      assert IsLowerHexDigit(h[k]);
    }
  }

  /** Text of single bytes with no NUL and no newline. */
  predicate Plain(s: string) {
    forall i :: 0 <= i < |s| ==> s[i] != NUL && s[i] != '\n' && s[i] as int < 256
  }

  lemma PlainJoin(a: string, b: string)
    requires Plain(a) && Plain(b)
    ensures Plain(a + b)
  {
    forall i | 0 <= i < |a + b| ensures (a + b)[i] == if i < |a| then a[i] else b[i - |a|] {
    }
  }

  lemma NulFreeJoin(a: string, b: string)
    requires NulFree(a) && NulFree(b)
    ensures NulFree(a + b)
  {
    forall i | 0 <= i < |a + b| ensures (a + b)[i] == if i < |a| then a[i] else b[i - |a|] {
    }
  }

  /** A GNU line whose first word, cut to 128 characters, is the digest h. */
  lemma GnuLine(word: string, h: string, binary: bool, fname: string)
    requires |h| == DigestLen && |word| >= DigestLen && word[..DigestLen] == h
    requires NulFree(word) && forall k :: 0 <= k < |word| ==> word[k] !in Blanks
    requires NulFree(fname) && '\t' !in fname && '\n' !in fname && |fname| < PathSize
    ensures Parsed(word + " " + (if binary then "*" else " ") + fname + "\n")
      == Parse(Some(binary), Ok(Record(Gnu, h, fname)))
  {
    var mark := if binary then "*" else " ";
    var line := word + " " + mark + fname + "\n";
    NulFreeJoin(word, " ");
    NulFreeJoin(word + " ", mark);
    NulFreeJoin(word + " " + mark, fname);
    NulFreeJoin(word + " " + mark + fname, "\n");
    CStrNulFree(line);
    GnuWordToken(line, word, mark, fname);
    GnuPathToken(line, |word| + 1, mark, fname);
    GnuFieldsOf(line, word, h, mark + fname);
  }

  /** Fields of a line whose first word is cut to the 128 characters h,
      once the strtok call for the path is known. */
  lemma GnuFieldsOf(line: string, word: string, h: string, t: string)
    requires CStr(line) == line && line != [] && line[|line| - 1] == '\n'
    requires |h| == DigestLen && |word| >= DigestLen && word[..DigestLen] == h
    requires |word| + 1 <= |line| && Strtok(line, 0, Blanks) == Tok(Some(word), 0, |word| + 1)
    requires 0 < |t| <= PathSize && (t[0] == '*' || t[0] == ' ')
    requires Strtok(line, |word| + 1, PathEnd).token == Some(t)
    ensures Parsed(line) == Parse(Some(t[0] == '*'), Ok(Record(Gnu, h, t[1..])))
  {
    assert Truncate(Some(word), DigestLen + 1) == h;
    assert h != Tag by { assert |h| != |Tag|; }
    assert Truncate(Some(t), PathSize + 1) == t;
  }

  lemma GnuWordToken(line: string, word: string, mark: string, fname: string)
    requires line == word + " " + mark + fname + "\n"
    requires word != [] && forall k :: 0 <= k < |word| ==> word[k] !in Blanks
    ensures Strtok(line, 0, Blanks) == Tok(Some(word), 0, |word| + 1)
  {
    assert line[0..|word|] == word && line[|word|] == ' ';
    StrtokAt(line, 0, Blanks, [], word);
  }

  /** The GNU path field: after the digest word and its blank, the marker
      and a name free of tab and newline, then the final newline. */
  lemma GnuPathToken(line: string, from: nat, mark: string, fname: string)
    requires |mark| == 1 && (mark[0] == '*' || mark[0] == ' ')
    requires '\t' !in fname && '\n' !in fname
    requires from + 1 + |fname| + 1 == |line|
    requires line[from..] == mark + fname + "\n"
    ensures Strtok(line, from, PathEnd).token == Some(mark + fname)
  {
    var t := mark + fname;
    assert line[from..from + |t|] == t;
    forall k | 0 <= k < |t| ensures t[k] !in PathEnd {
      if k > 0 {
        assert t[k] == fname[k - 1];
      }
    }
    assert line[from + |t|] == '\n';
    StrtokAt(line, from, PathEnd, [], t);
  }

  /** The BSD-tagged line with eq as its equals word. */
  lemma BsdParse(d: Digest, fname: string, eq: string)
    requires NulFree(fname) && ')' !in fname && '\n' !in fname && |fname| < PathSize
    requires eq != [] && eq[0] == '=' && NulFree(eq) && forall k :: 0 <= k < |eq| ==> eq[k] !in Blanks
    ensures Parsed("WHIRLPOOL (" + fname + ") " + eq + " " + HexOf(d) + "\n")
      == Parse(Some(true), Ok(Record(BsdTagged, HexOf(d), fname)))
  {
    var h := HexOf(d);
    var line := "WHIRLPOOL (" + fname + ") " + eq + " " + h + "\n";
    HexNoDelims(d);
    NulFreeJoin("WHIRLPOOL (", fname);
    NulFreeJoin("WHIRLPOOL (" + fname, ") ");
    NulFreeJoin("WHIRLPOOL (" + fname + ") ", eq);
    NulFreeJoin("WHIRLPOOL (" + fname + ") " + eq, " ");
    NulFreeJoin("WHIRLPOOL (" + fname + ") " + eq + " ", h);
    NulFreeJoin("WHIRLPOOL (" + fname + ") " + eq + " " + h, "\n");
    CStrNulFree(line);
    BsdTagToken(line, fname, eq, h);
    BsdPathToken(line, fname, eq, h);
    BsdEqToken(line, fname, eq, h);
    BsdDigestToken(line, fname, eq, h);
    assert line[|line| - 1] == '\n';
    BsdFieldsOf(line, fname, eq, h);
  }

  /** BsdFields once its three strtok calls are known. */
  lemma BsdFieldsOf(line: string, fname: string, eq: string, h: string)
    requires CStr(line) == line && line != [] && line[|line| - 1] == '\n'
    requires |fname| < PathSize && eq != [] && eq[0] == '=' && |h| == DigestLen
    requires 10 + |fname| + 3 + |eq| + 1 <= |line|
    requires Strtok(line, 0, Blanks) == Tok(Some(Tag), 0, 10)
    requires Strtok(line, 10, CloseParen) == Tok(Some("(" + fname), 10, 10 + |fname| + 2)
    requires Strtok(line, 10 + |fname| + 2, Blanks) == Tok(Some(eq), 10 + |fname| + 3, 10 + |fname| + 3 + |eq| + 1)
    requires Strtok(line, 10 + |fname| + 3 + |eq| + 1, DigestEnd) == Tok(Some(h), 10 + |fname| + 3 + |eq| + 1, |line|)
    ensures Parsed(line) == Parse(Some(true), Ok(Record(BsdTagged, h, fname)))
  {
    var path := "(" + fname;
    assert Truncate(Some(Tag), DigestLen + 1) == Tag;
    assert Truncate(Some(path), PathSize + 1) == path && path[1..] == fname;
    assert Truncate(Some(eq), 2) == "=";
    assert Truncate(Some(h), DigestLen + 1) == h;
  }

  lemma BsdTagToken(line: string, fname: string, eq: string, h: string)
    requires line == "WHIRLPOOL (" + fname + ") " + eq + " " + h + "\n"
    ensures Strtok(line, 0, Blanks) == Tok(Some(Tag), 0, 10)
  {
    assert line[0..9] == Tag && line[9] == ' ';
    StrtokAt(line, 0, Blanks, [], Tag);
  }

  lemma BsdPathToken(line: string, fname: string, eq: string, h: string)
    requires line == "WHIRLPOOL (" + fname + ") " + eq + " " + h + "\n"
    requires ')' !in fname
    ensures Strtok(line, 10, CloseParen) == Tok(Some("(" + fname), 10, 10 + |fname| + 2)
  {
    var path := "(" + fname;
    assert line[10..10 + |path|] == path;
    forall k | 0 <= k < |path| ensures path[k] !in CloseParen {
      if k > 0 {
        assert path[k] == fname[k - 1];
      }
    }
    assert line[10 + |path|] == ')';
    StrtokAt(line, 10, CloseParen, [], path);
  }

  lemma BsdEqToken(line: string, fname: string, eq: string, h: string)
    requires line == "WHIRLPOOL (" + fname + ") " + eq + " " + h + "\n"
    requires eq != [] && forall k :: 0 <= k < |eq| ==> eq[k] !in Blanks
    ensures Strtok(line, 10 + |fname| + 2, Blanks) == Tok(Some(eq), 10 + |fname| + 3, 10 + |fname| + 3 + |eq| + 1)
  {
    var b := 10 + |fname| + 2;
    assert line[b..b + 1] == " " && line[b + 1..b + 1 + |eq|] == eq;
    assert line[b + 1 + |eq|] == ' ';
    StrtokAt(line, b, Blanks, " ", eq);
  }

  lemma BsdDigestToken(line: string, fname: string, eq: string, h: string)
    requires line == "WHIRLPOOL (" + fname + ") " + eq + " " + h + "\n"
    requires h != [] && forall k :: 0 <= k < |h| ==> h[k] !in DigestEnd
    ensures Strtok(line, 10 + |fname| + 3 + |eq| + 1, DigestEnd) == Tok(Some(h), 10 + |fname| + 3 + |eq| + 1, |line|)
  {
    var c := 10 + |fname| + 3 + |eq| + 1;
    assert line[c..c + |h|] == h;
    assert line[c + |h|] == '\n';
    StrtokAt(line, c, DigestEnd, [], h);
  }
}
