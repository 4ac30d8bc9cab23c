/** whirlpoolsum: what the program does with each FILE operand
    (process_input_file), the streaming digest of one file
    (calculate_file_digest), and the exit status the globals return_code
    and binary_mode carry through a run. */
module WhirlpoolSum {
  import opened Wrappers
  import opened CStrings
  import opened Whirlpool
  import opened Stdio
  import opened Hex
  import opened Records

  const EXIT_SUCCESS: int := 0
  const EXIT_FAILURE: int := 1

  /** BUFSIZE: calculate_file_digest reads in chunks of 8 MiB. */
  const BUFSIZE: nat := 8 * 1024 * 1024

  /** strerror(ENOENT), for a path that names nothing. */
  const NoSuchFile: string := "No such file or directory"
  const ReadErrorText: string := "Error in reading from file"

  // ------------------------------------------------------------ messages

  function DigitChar(n: nat): char
    requires n < 10
  {
    ('0' as int + n) as char
  }

  /** %d of a line number. */
  function Decimal(n: nat): string
    decreases n
  {
    if n < 10 then [DigitChar(n)] else Decimal(n / 10) + [DigitChar(n % 10)]
  }

  /** A diagnostic on standard error about the file name. */
  function Diag(name: string, text: string): string {
    "whirlpoolsum: " + name + ": " + text + "\n"
  }

  /** The warning text for a skipped line. */
  function RejectText(r: Reject, lineNo: nat): string {
    match r
    case MalformedLine => "Malformed line " + Decimal(lineNo)
    case InvalidFilename => "Invalid filename in line " + Decimal(lineNo)
    case InvalidTagFormat => "Invalid tag format in line " + Decimal(lineNo)
    case InvalidDigestLength => "Invalid digest length in line " + Decimal(lineNo)
  }

  // ----------------------------------------------------- digest of a source

  /** A stream as it stands when calculate_file_digest starts on it. */
  datatype Stream = Stream(bytes: seq<byte>, fault: Option<nat>, pos: nat, err: bool)

  predicate Readable(s: Stream) {
    s.pos <= Limit(s.bytes, s.fault)
  }

  /** What a path other than "-" opens: the file from its start, or
      nothing. */
  function FileSource(files: map<string, FileContent>, path: string): (s: Option<Stream>)
    ensures s.Some? ==> Readable(s.value)
  {
    if path in files then Some(Stream(files[path].bytes, files[path].fault, 0, false)) else None
  }

  /** How calculate_file_digest ends: with a digest, or failing to open or
      to read. */
  datatype DigestRun = Computed(digest: Digest) | NotOpened | ReadError

  /** The end of calculate_file_digest on a source: the fread loop with
      chunks of BUFSIZE decides, and on success the digest is the
      transform of everything it fed to the primitive. */
  function RunOf(transform: seq<byte> -> Digest, src: Option<Stream>): DigestRun
    requires src.Some? ==> Readable(src.value)
  {
    match src
    case None => NotOpened
    case Some(s) =>
      var f := ReadLoop(s.bytes, Limit(s.bytes, s.fault), s.pos, s.err, BUFSIZE);
      if f.failed then ReadError else Computed(transform(Flatten(f.pieces)))
  }

  /** What calculate_file_digest prints on standard error. */
  function RunDiag(name: string, run: DigestRun): string {
    match run
    case Computed(_) => ""
    case NotOpened => Diag(name, NoSuchFile)
    case ReadError => Diag(name, ReadErrorText)
  }

  /** The digest compared with the recorded one: the computed one, or,
      when calculate_file_digest failed, whatever calc_digest held. */
  function Used(run: DigestRun, junk: Digest): Digest {
    if run.Computed? then run.digest else junk
  }

  /** A file that opens and has no fault is digested whole, whatever
      BUFSIZE is. */
  lemma WholeFileDigest(transform: seq<byte> -> Digest, files: map<string, FileContent>, path: string)
    requires path in files && files[path].fault.None?
    ensures RunOf(transform, FileSource(files, path)) == Computed(transform(files[path].bytes))
  {
    var bytes := files[path].bytes;
    ChunkSizeInvariance(bytes, BUFSIZE, BUFSIZE);
  }

  /** The fread loop of calculate_file_digest, lines 147-158: chunks of
      BUFSIZE go to whirlpool_add until fread returns nothing, and the loop
      gives up after adding a chunk when the stream's error indicator is
      set. What it adds, and whether it gives up, is ReadLoop. */
  method FeedAll(infile: CFile, w: Nessie) returns (ok: bool)
    requires infile.Valid() && w.Valid() && w.Pieces == []
    modifies infile, w
    ensures infile.Valid() && w.Valid()
    ensures var f := ReadLoop(infile.bytes, infile.End(), old(infile.pos), old(infile.err), BUFSIZE);
      ok == !f.failed && w.Pieces == f.pieces
    ensures infile.pos == old(infile.pos) + |w.absorbed|
    ensures infile.err == (old(infile.err) || (infile.pos == infile.End() && infile.End() < |infile.bytes|))
  {
    ghost var p0, e0, end := infile.pos, infile.err, infile.End();
    var buf := new byte[BUFSIZE + 1];
    while true
      invariant infile.Valid() && w.Valid()
      invariant infile.pos == p0 + |w.absorbed|
      invariant infile.err == (e0 && infile.pos == p0)
      invariant ReadLoop(infile.bytes, end, p0, e0, BUFSIZE)
        == var rest := ReadLoop(infile.bytes, end, infile.pos, infile.err, BUFSIZE);
           Feed(w.Pieces + rest.pieces, rest.failed)
      decreases end - infile.pos
    {
      ghost var p, e, pieces := infile.pos, infile.err, w.Pieces;
      var numRead := infile.Fread(buf, BUFSIZE);
      if numRead == 0 {
        break;
      }
      w.Add(buf, 8 * numRead);
      assert 8 * numRead / 8 == numRead;
      assert w.Pieces == pieces + [infile.bytes[p..p + numRead]];
      ReadLoopRound(infile.bytes, end, p, e, BUFSIZE, numRead, infile.err, pieces);
      if infile.err {
        return false;
      }
    }
    assert ReadLoop(infile.bytes, end, infile.pos, infile.err, BUFSIZE) == Feed([], false);
    return true;
  }

  /** fgets(fline, LINESIZE, infile) at line 189: the next of the lines
      the manifest holds from where the stream stands, or NULL when there is
      none. */
  method NextLine(f: CFile) returns (line: Option<string>)
    requires f.Valid()
    modifies f
    ensures f.Valid() && f.pos >= old(f.pos)
    ensures line.None? ==> Lines(f.bytes, f.fault, old(f.pos), LineSize - 1) == []
    ensures line.Some? ==> f.pos > old(f.pos)
    ensures line.Some? ==>
      Lines(f.bytes, f.fault, old(f.pos), LineSize - 1) == [line.value] + Lines(f.bytes, f.fault, f.pos, LineSize - 1)
  {
    line := f.Fgets(LineSize);
    if line.Some? {
      LinesStep(f.bytes, f.fault, old(f.pos), LineSize - 1, line.value);
    }
  }

  // ----------------------------------------------- what check mode reports

  /** What a manifest line came to: skipped, or compared. */
  datatype Outcome =
    | Skipped(reason: Reject)
    | Compared(path: string, recorded: string, run: DigestRun, matched: bool)

  /** The outcome o is the one the parse p of its line calls for: the
      rejection, or the comparison of the recorded digest, case
      insensitively, with the rendering of the digest used. */
  predicate Agrees(o: Outcome, p: Parse, junk: Digest) {
    match p.result
    case Err(r) => o == Skipped(r)
    case Ok(rec) =>
      && o.Compared? && o.path == rec.path && o.recorded == rec.digest
      && o.matched == StrCaseEq(HexOf(Used(o.run, junk)), rec.digest)
  }

  /** Agrees, line by line, for outcomes and parses of the same length. */
  predicate AgreesAll(outs: seq<Outcome>, parses: seq<Parse>, junk: Digest) {
    |outs| == |parses| && forall i :: 0 <= i < |outs| ==> Agrees(outs[i], parses[i], junk)
  }

  /** f of each element of s, in order. */
  function Map<A, B>(f: A -> B, s: seq<A>): (r: seq<B>)
    ensures |r| == |s|
  {
    if s == [] then [] else Map(f, s[..|s| - 1]) + [f(s[|s| - 1])]
  }

  lemma {:induction false} MapAt<A, B>(f: A -> B, s: seq<A>, i: nat)
    requires i < |s|
    ensures Map(f, s)[i] == f(s[i])
  {
    var n := |s| - 1;
    if i < n {
      MapAt(f, s[..n], i);
      assert s[..n][i] == s[i];
    }
  }

  /** Every line compared against a path other than "-" has the run of
      that file from its start. */
  predicate FileRuns(outs: seq<Outcome>, transform: seq<byte> -> Digest, files: map<string, FileContent>) {
    outs == [] ||
    (FileRuns(outs[..|outs| - 1], transform, files) &&
     var o := outs[|outs| - 1];
     o.Compared? && o.path != "-" ==> o.run == RunOf(transform, FileSource(files, o.path)))
  }

  lemma {:induction false} FileRunsMeans(outs: seq<Outcome>, transform: seq<byte> -> Digest, files: map<string, FileContent>)
    requires FileRuns(outs, transform, files)
    ensures forall i :: 0 <= i < |outs| && outs[i].Compared? && outs[i].path != "-" ==>
      outs[i].run == RunOf(transform, FileSource(files, outs[i].path))
  {
    if outs != [] {
      var n := |outs| - 1;
      FileRunsMeans(outs[..n], transform, files);
      forall i | 0 <= i < n ensures outs[..n][i] == outs[i] {
      }
    }
  }

  /** return_code after one line. */
  function LineCode(code: int, o: Outcome, strict: bool): int {
    match o
    case Skipped(_) => if strict then EXIT_FAILURE else code
    case Compared(_, _, _, matched) => if matched then code else EXIT_FAILURE
  }

  /** return_code after the lines of a manifest, in order. */
  function RunCode(code: int, outs: seq<Outcome>, strict: bool): int {
    if outs == [] then code else LineCode(RunCode(code, outs[..|outs| - 1], strict), outs[|outs| - 1], strict)
  }

  /** line_processed: the lines that reached the comparison. */
  function CountCompared(outs: seq<Outcome>): nat {
    if outs == [] then 0
    else CountCompared(outs[..|outs| - 1]) + (if outs[|outs| - 1].Compared? then 1 else 0)
  }

  /** return_code once the whole manifest is read: a manifest none of whose
      lines was compared fails. */
  function FinalCode(code: int, outs: seq<Outcome>, strict: bool): int {
    if CountCompared(outs) == 0 then EXIT_FAILURE else RunCode(code, outs, strict)
  }

  /** A manifest that passes: some line was compared, every comparison
      matched, and under --strict no line was skipped. */
  predicate Clean(outs: seq<Outcome>, strict: bool) {
    && (exists i :: 0 <= i < |outs| && outs[i].Compared?)
    && (forall i :: 0 <= i < |outs| && outs[i].Compared? ==> outs[i].matched)
    && (strict ==> forall i :: 0 <= i < |outs| ==> outs[i].Compared?)
  }

  /** What the lines print on standard output. */
  function Report(o: Outcome, quiet: bool, status: bool): string {
    match o
    case Skipped(_) => ""
    case Compared(path, _, _, matched) =>
      if matched then (if !quiet && !status then path + ": OK\n" else "")
      else if !status then path + ": FAILED\n" else ""
  }

  function Reports(outs: seq<Outcome>, quiet: bool, status: bool): string {
    if outs == [] then [] else Reports(outs[..|outs| - 1], quiet, status) + Report(outs[|outs| - 1], quiet, status)
  }

  /** What line lineNo prints on standard error: a warning for a skipped
      line under --warn, or what calculate_file_digest said. */
  function Warning(fname: string, lineNo: nat, o: Outcome, warn: bool): string {
    match o
    case Skipped(r) => if warn then Diag(fname, RejectText(r, lineNo)) else ""
    case Compared(path, _, run, _) => RunDiag(path, run)
  }

  function Warnings(fname: string, outs: seq<Outcome>, warn: bool): string {
    if outs == [] then []
    else Warnings(fname, outs[..|outs| - 1], warn) + Warning(fname, |outs|, outs[|outs| - 1], warn)
  }

  /** binary_mode after the parses of the lines, each setting it or
      leaving it. */
  function ModeAfter(mode: bool, parses: seq<Parse>): bool {
    if parses == [] then mode
    else
      var m := parses[|parses| - 1].mode;
      if m.Some? then m.value else ModeAfter(mode, parses[..|parses| - 1])
  }

  /** No line compared names standard input. */
  predicate NoStdin(outs: seq<Outcome>) {
    forall i :: 0 <= i < |outs| && outs[i].Compared? ==> outs[i].path != "-"
  }

  /** A line that, accepted, has standard input itself digested. */
  predicate NamesStdin(p: Parse) {
    p.result.Ok? && p.result.value.path == "-"
  }

  /** The lines read from a stream that held the lines held, with their
      outcomes: each line read before "-" was first digested is the next
      line the stream held. */
  ghost predicate ReadInOrder(lines: seq<string>, outs: seq<Outcome>, held: seq<string>) {
    forall i :: 0 <= i < |lines| && i <= |outs| && NoStdin(outs[..i]) ==> i < |held| && lines[i] == held[i]
  }

  /** The lines read so far, with their outcomes, from a stream that held
      the lines held and still holds rest: read in order, and, as long as
      the stream is followed line by line (a manifest file, or standard
      input before "-" was digested), the lines read and rest make up what
      it held. */
  ghost predicate ReadSoFar(lines: seq<string>, outs: seq<Outcome>, held: seq<string>, rest: seq<string>, followed: bool) {
    && ReadInOrder(lines, outs, held)
    && (followed || NoStdin(outs) ==> lines + rest == held)
  }

  /** The outcomes of the manifest "-" when standard input held the lines
      held: up to and including the first line that has "-" digested, each
      is the one the parse of the next line held calls for, and when no line
      does, there is one per line held. */
  ghost predicate StdinOutcomes(outs: seq<Outcome>, held: seq<string>, junk: Digest) {
    && (forall i :: 0 <= i < |outs| && NoStdin(outs[..i]) ==> i < |held| && Agrees(outs[i], Parsed(held[i]), junk))
    && (NoStdin(outs) ==> |outs| == |held|)
  }

  /** The globals check mode changes: return_code, binary_mode and what
      has been written to standard output and standard error. */
  datatype Globals = Globals(code: int, binary: bool, out: string, err: string)

  /** The options that decide what a checked line prints and how it counts. */
  datatype Options = Options(quiet: bool, status: bool, warn: bool, strict: bool)

  /** The globals after line lineNo of manifest fname, parsed as p, came
      to outcome o. */
  function Step(opts: Options, fname: string, g: Globals, p: Parse, o: Outcome, lineNo: nat): Globals {
    var m := p.mode;
    Globals(LineCode(g.code, o, opts.strict), if m.Some? then m.value else g.binary,
            g.out + Report(o, opts.quiet, opts.status), g.err + Warning(fname, lineNo, o, opts.warn))
  }

  /** The globals after the lines of manifest fname, parsed as parses,
      from g0: Step, line by line. */
  function After(opts: Options, fname: string, g0: Globals, parses: seq<Parse>, outs: seq<Outcome>): Globals
    requires |parses| == |outs|
  {
    if outs == [] then g0
    else
      var n := |outs| - 1;
      Step(opts, fname, After(opts, fname, g0, parses[..n], outs[..n]), parses[n], outs[n], n + 1)
  }

  /** What the lines of a manifest leave: return_code folded over the
      outcomes, binary_mode as the last parse that set it, and the reports
      and warnings of the lines appended in order. */
  lemma {:induction false} AfterMeans(opts: Options, fname: string, g0: Globals, parses: seq<Parse>, outs: seq<Outcome>)
    requires |parses| == |outs|
    ensures After(opts, fname, g0, parses, outs)
      == Globals(RunCode(g0.code, outs, opts.strict), ModeAfter(g0.binary, parses),
                 g0.out + Reports(outs, opts.quiet, opts.status), g0.err + Warnings(fname, outs, opts.warn))
  {
    if outs != [] {
      var n := |outs| - 1;
      var prev := After(opts, fname, g0, parses[..n], outs[..n]);
      AfterMeans(opts, fname, g0, parses[..n], outs[..n]);
      var g := Step(opts, fname, prev, parses[n], outs[n], n + 1);
      assert After(opts, fname, g0, parses, outs) == g;
      assert g.code == RunCode(g0.code, outs, opts.strict);
      assert g.binary == ModeAfter(g0.binary, parses);
      var report := Report(outs[n], opts.quiet, opts.status);
      assert Reports(outs, opts.quiet, opts.status) == Reports(outs[..n], opts.quiet, opts.status) + report;
      Assoc(g0.out, Reports(outs[..n], opts.quiet, opts.status), report);
      var warning := Warning(fname, n + 1, outs[n], opts.warn);
      assert Warnings(fname, outs, opts.warn) == Warnings(fname, outs[..n], opts.warn) + warning;
      Assoc(g0.err, Warnings(fname, outs[..n], opts.warn), warning);
    }
  }

  // --------------------------------------------------------------- the run

  /** The state of one run of the program: the option flags main sets, the
      file system and standard input it reads, and the globals and streams
      it changes. */
  class Program {
    const checkMode: bool
    const quietMode: bool
    const statusMode: bool
    const warnMode: bool
    const strictMode: bool
    const bsdMode: bool
    /** The Whirlpool transform from a message to its digest. */
    const transform: seq<byte> -> Digest
    /** What each path names; fopen fails on a path not in it. */
    const files: map<string, FileContent>
    /** Standard input, shared by every use of "-". */
    const stdin: CFile
    /** What a newly allocated calc_digest holds before anything is written
        to it. */
    const junk: Digest

    var binaryMode: bool
    var returnCode: int
    var stdout: string
    var stderr: string
    /** FILE handles fopen returned that are not closed yet. */
    var openFiles: nat

    ghost predicate Valid()
      reads this, stdin
    {
      stdin.Valid() && (returnCode == EXIT_SUCCESS || returnCode == EXIT_FAILURE)
    }

    /** The program after main has read its options. */
    constructor (checkMode: bool, quietMode: bool, statusMode: bool, warnMode: bool, strictMode: bool,
                 bsdMode: bool, binaryMode: bool, transform: seq<byte> -> Digest,
                 files: map<string, FileContent>, input: FileContent, junk: Digest)
      ensures Valid() && fresh(stdin)
      ensures this.checkMode == checkMode && this.quietMode == quietMode && this.statusMode == statusMode
      ensures this.warnMode == warnMode && this.strictMode == strictMode && this.bsdMode == bsdMode
      ensures this.binaryMode == binaryMode && this.transform == transform && this.files == files
      ensures this.junk == junk
      ensures stdin.bytes == input.bytes && stdin.fault == input.fault && stdin.pos == 0 && !stdin.err
      ensures returnCode == EXIT_SUCCESS && stdout == [] && stderr == [] && openFiles == 0
    {
      this.checkMode, this.quietMode, this.statusMode := checkMode, quietMode, statusMode;
      this.warnMode, this.strictMode, this.bsdMode := warnMode, strictMode, bsdMode;
      this.binaryMode, this.transform, this.files, this.junk := binaryMode, transform, files, junk;
      stdin := new CFile.Open(input);
      returnCode, stdout, stderr, openFiles := EXIT_SUCCESS, [], [], 0;
    }

    ghost function State(): Globals
      reads this
    {
      Globals(returnCode, binaryMode, stdout, stderr)
    }

    function Opts(): Options {
      Options(quietMode, statusMode, warnMode, strictMode)
    }

    /** What calculate_file_digest reads for fname: standard input as it
        stands, or the file. */
    ghost function Source(fname: string): (s: Option<Stream>)
      reads this, stdin
      requires stdin.Valid()
      ensures s.Some? ==> Readable(s.value)
    {
      if fname == "-" then Some(Stream(stdin.bytes, stdin.fault, stdin.pos, stdin.err))
      else FileSource(files, fname)
    }

    /** calculate_file_digest(fname, digest), lines 127-166: 1 with the
        digest of what the fread loop fed to the primitive in
        digest[..DIGESTBYTES], or -1 after a message when the file does not
        open or a read fails, digest untouched. A file it opened is closed
        on every path; standard input is left where reading stopped. */
    method CalculateFileDigest(fname: string, digest: array<byte>) returns (result: int)
      requires Valid() && digest.Length == DIGESTBYTES + 1
      modifies this`stderr, this`openFiles, stdin, digest
      ensures Valid()
      ensures var run := RunOf(transform, old(Source(fname)));
        && (result == 1 || result == -1)
        && (result == 1 <==> run.Computed?)
        && (run.Computed? ==> digest[..DIGESTBYTES] == run.digest)
        && (!run.Computed? ==> digest[..DIGESTBYTES] == old(digest[..DIGESTBYTES]))
        && stderr == old(stderr) + RunDiag(fname, run)
      ensures digest[DIGESTBYTES] == old(digest[DIGESTBYTES])
      ensures openFiles == old(openFiles)
      ensures fname != "-" ==> unchanged(stdin)
      ensures fname == "-" ==>
        var s := old(Source(fname)).value;
        var f := ReadLoop(s.bytes, Limit(s.bytes, s.fault), s.pos, s.err, BUFSIZE);
        && stdin.pos == s.pos + |Flatten(f.pieces)|
        && stdin.err == (s.err || (stdin.pos == stdin.End() && stdin.End() < |stdin.bytes|))
    {
      ghost var src := Source(fname);
      var infile: CFile;
      if fname == "-" {
        infile := stdin;
      } else if fname in files {
        infile := new CFile.Open(files[fname]);
        openFiles := openFiles + 1;
      } else {
        stderr := stderr + Diag(fname, NoSuchFile);
        return -1;
      }
      var w := new Nessie.Init(transform);
      var ok := FeedAll(infile, w);
      if infile != stdin {
        openFiles := openFiles - 1;
      }
      if !ok {
        stderr := stderr + Diag(fname, ReadErrorText);
        return -1;
      }
      w.Finalize(digest);
      return 1;
    }

    /** One line of a manifest, lines 191-300: a line whose C string does
        not end with a newline is malformed; otherwise it is parsed, and an
        accepted one has its file digested, rendered in hex and compared
        case insensitively with the recorded digest. A skipped line warns
        under --warn and fails the run under --strict; a compared one says
        OK or FAILED and fails the run on a mismatch. */
    method CheckLine(fname: string, lineNo: nat, fline: string)
      returns (processed: bool, ghost parse: Parse, ghost outcome: Outcome)
      requires Valid()
      modifies this`binaryMode, this`returnCode, this`stdout, this`stderr, this`openFiles, stdin
      ensures Valid()
      ensures parse == Parsed(fline) && Agrees(outcome, parse, junk)
      ensures outcome.Compared? ==> outcome.run == RunOf(transform, old(Source(outcome.path)))
      ensures processed == outcome.Compared?
      ensures binaryMode == if parse.mode.Some? then parse.mode.value else old(binaryMode)
      ensures returnCode == LineCode(old(returnCode), outcome, strictMode)
      ensures stdout == old(stdout) + Report(outcome, quietMode, statusMode)
      ensures stderr == old(stderr) + Warning(fname, lineNo, outcome, warnMode)
      ensures openFiles == old(openFiles)
      ensures stdin.pos >= old(stdin.pos)
      ensures outcome.Skipped? || outcome.path != "-" ==> unchanged(stdin)
    {
      var p := ParseLine(fline);
      parse := p;
      if p.mode.Some? {
        binaryMode := p.mode.value;
      }
      if p.result.Err? {
        outcome := Skipped(p.result.error);
        Skip(fname, lineNo, p.result.error);
        return false, parse, outcome;
      }
      var rec := p.result.value;
      var matched;
      ghost var run;
      matched, run := Compare(rec.path, rec.digest);
      outcome := Compared(rec.path, rec.digest, run, matched);
      processed := true;
    }

    /** The comparison of an accepted line, lines 266-299: the digest of
        path, or what calc_digest held when that failed, rendered in hex and
        compared case insensitively with the recorded digest; a match says
        OK unless --quiet or --status, a mismatch says FAILED unless
        --status and fails the run. */
    method Compare(path: string, recorded: string) returns (matched: bool, ghost run: DigestRun)
      requires Valid()
      modifies this`returnCode, this`stdout, this`stderr, this`openFiles, stdin
      ensures Valid()
      ensures run == RunOf(transform, old(Source(path)))
      ensures matched == StrCaseEq(HexOf(Used(run, junk)), recorded)
      ensures returnCode == LineCode(old(returnCode), Compared(path, recorded, run, matched), strictMode)
      ensures stdout == old(stdout) + Report(Compared(path, recorded, run, matched), quietMode, statusMode)
      ensures stderr == old(stderr) + RunDiag(path, run)
      ensures openFiles == old(openFiles)
      ensures stdin.pos >= old(stdin.pos)
      ensures path != "-" ==> unchanged(stdin)
    {
      var digestBuf;
      digestBuf, run := HexDigest(path);
      matched := StrCaseEq(CStr(digestBuf[..]), recorded);
      if matched {
        if !quietMode && !statusMode {
          stdout := stdout + (path + ": OK\n");
        }
      } else {
        if !statusMode {
          stdout := stdout + (path + ": FAILED\n");
        }
        returnCode := EXIT_FAILURE;
      }
    }

    /** Lines 266-285: calc_digest is allocated, filled by
        calculate_file_digest (or left as it was when that fails), and
        rendered as 128 lower-case hex digits and a NUL in digest_buf. */
    method HexDigest(path: string) returns (digestBuf: array<char>, ghost run: DigestRun)
      requires Valid()
      modifies this`stderr, this`openFiles, stdin
      ensures Valid()
      ensures run == RunOf(transform, old(Source(path)))
      ensures CStr(digestBuf[..]) == HexOf(Used(run, junk))
      ensures stderr == old(stderr) + RunDiag(path, run)
      ensures openFiles == old(openFiles)
      ensures stdin.pos >= old(stdin.pos)
      ensures path != "-" ==> unchanged(stdin)
    {
      run := RunOf(transform, Source(path));
      var calcDigest := new byte[DIGESTBYTES + 1](i => if 0 <= i < DIGESTBYTES then junk[i] else 0);
      assert calcDigest[..DIGESTBYTES] == junk;
      var r := CalculateFileDigest(path, calcDigest);
      if r == 0 {
        // the test !calculate_file_digest(...) at line 271 is never true
        assert false;
      }
      assert calcDigest[..DIGESTBYTES] == Used(run, junk);
      digestBuf := new char[2 * DIGESTBYTES + 1];
      RenderHex(calcDigest[..DIGESTBYTES], digestBuf);
    }

    /** CheckLine on line lineNo of manifest fname, accounted for against
        the lines ls before it, their outcomes os and the globals g0 the
        manifest started from. */
    method CheckNext(fname: string, lineNo: nat, fline: string,
                     ghost g0: Globals, ghost ps: seq<Parse>, ghost os: seq<Outcome>)
      returns (processed: bool, ghost parse: Parse, ghost outcome: Outcome)
      requires Valid() && lineNo == |ps| + 1 && |ps| == |os|
      requires State() == After(Opts(), fname, g0, ps, os)
      requires AgreesAll(os, ps, junk) && FileRuns(os, transform, files)
      modifies this`binaryMode, this`returnCode, this`stdout, this`stderr, this`openFiles, stdin
      ensures Valid()
      ensures parse == Parsed(fline)
      ensures State() == After(Opts(), fname, g0, ps + [parse], os + [outcome])
      ensures AgreesAll(os + [outcome], ps + [parse], junk) && FileRuns(os + [outcome], transform, files)
      ensures processed == outcome.Compared?
      ensures CountCompared(os + [outcome]) == CountCompared(os) + if processed then 1 else 0
      ensures NoStdin(os + [outcome]) <==> NoStdin(os) && (outcome.Compared? ==> outcome.path != "-")
      ensures openFiles == old(openFiles)
      ensures stdin.pos >= old(stdin.pos)
      ensures outcome.Skipped? || outcome.path != "-" ==> unchanged(stdin)
    {
      ghost var g := State();
      processed, parse, outcome := CheckLine(fname, lineNo, fline);
      AfterSnoc(Opts(), fname, g0, ps, os, parse, outcome);
      assert State() == Step(Opts(), fname, g, parse, outcome, lineNo);
      AgreesAllSnoc(os, ps, outcome, parse, junk);
      FileRunsSnoc(os, outcome, transform, files);
      NoStdinSnoc(os, outcome);
      CountSnoc(os, outcome);
    }

    /** The common end of a skipped line: the warning under --warn, and
        failure under --strict. */
    method Skip(fname: string, lineNo: nat, r: Reject)
      requires Valid()
      modifies this`returnCode, this`stderr
      ensures Valid()
      ensures returnCode == LineCode(old(returnCode), Skipped(r), strictMode)
      ensures stderr == old(stderr) + Warning(fname, lineNo, Skipped(r), warnMode)
    {
      if warnMode {
        stderr := stderr + Diag(fname, RejectText(r, lineNo));
      }
      if strictMode {
        returnCode := EXIT_FAILURE;
      }
    }

    /** Check mode on the manifest fname, lines 171-304: each line fgets
        hands out (at most 8095 characters) is checked in turn, and a
        manifest none of whose lines was compared fails the run. The lines
        are those of the manifest file; for "-", those of standard input
        from where it stands, in order, up to the first line that has "-"
        digested, and all of them when no line does. The manifest handle is
        never closed. */
    method CheckFile(fname: string) returns (ghost lines: seq<string>, ghost outcomes: seq<Outcome>)
      requires Valid()
      modifies this`binaryMode, this`returnCode, this`stdout, this`stderr, this`openFiles, stdin
      ensures Valid()
      ensures fname != "-" && fname !in files ==>
        && lines == [] && outcomes == []
        && returnCode == EXIT_FAILURE && binaryMode == old(binaryMode)
        && stdout == old(stdout) && stderr == old(stderr) + Diag(fname, NoSuchFile)
        && openFiles == old(openFiles) && unchanged(stdin)
      ensures fname == "-" || fname in files ==>
        && |outcomes| == |lines|
        && (forall i :: 0 <= i < |lines| ==> Agrees(outcomes[i], Parsed(lines[i]), junk))
        && (forall i :: 0 <= i < |lines| && outcomes[i].Compared? && outcomes[i].path != "-" ==>
              outcomes[i].run == RunOf(transform, FileSource(files, outcomes[i].path)))
        && returnCode == FinalCode(old(returnCode), outcomes, strictMode)
        && binaryMode == ModeAfter(old(binaryMode), Map(Parsed, lines))
        && stdout == old(stdout) + Reports(outcomes, quietMode, statusMode)
        && stderr == old(stderr) + Warnings(fname, outcomes, warnMode)
        && openFiles == old(openFiles) + (if fname == "-" then 0 else 1)
      ensures fname != "-" && fname in files ==>
        lines == Lines(files[fname].bytes, files[fname].fault, 0, LineSize - 1)
      ensures fname == "-" ==> ReadInOrder(lines, outcomes, Lines(stdin.bytes, stdin.fault, old(stdin.pos), LineSize - 1))
      ensures fname == "-" && NoStdin(outcomes) ==>
        lines == Lines(stdin.bytes, stdin.fault, old(stdin.pos), LineSize - 1)
    {
      var infile: CFile;
      if fname == "-" {
        infile := stdin;
      } else if fname in files {
        infile := new CFile.Open(files[fname]);
        openFiles := openFiles + 1;
      } else {
        stderr := stderr + Diag(fname, NoSuchFile);
        returnCode := EXIT_FAILURE;
        return [], [];
      }
      var lineProcessed;
      ghost var parses, g0 := [], State();
      lineProcessed, lines, parses, outcomes := ReadManifest(fname, infile);
      AfterMeans(Opts(), fname, g0, parses, outcomes);
      forall i | 0 <= i < |lines| ensures Agrees(outcomes[i], Parsed(lines[i]), junk) {
        MapAt(Parsed, lines, i);
      }
      FileRunsMeans(outcomes, transform, files);
      if lineProcessed == 0 {
        returnCode := EXIT_FAILURE;
      }
    }

    /** The fgets loop of check mode, lines 189-301, on the open manifest
        infile: each line in turn goes to CheckNext, until fgets returns
        NULL. */
    method ReadManifest(fname: string, infile: CFile)
      returns (lineProcessed: nat, ghost lines: seq<string>, ghost parses: seq<Parse>, ghost outcomes: seq<Outcome>)
      requires Valid() && infile.Valid()
      modifies this`binaryMode, this`returnCode, this`stdout, this`stderr, this`openFiles, stdin, infile
      ensures Valid() && infile.Valid()
      ensures |lines| == |parses| == |outcomes| && parses == Map(Parsed, lines)
      ensures State() == After(Opts(), fname, old(State()), parses, outcomes)
      ensures AgreesAll(outcomes, parses, junk) && FileRuns(outcomes, transform, files)
      ensures lineProcessed == CountCompared(outcomes)
      ensures openFiles == old(openFiles)
      ensures ReadInOrder(lines, outcomes, Lines(infile.bytes, infile.fault, old(infile.pos), LineSize - 1))
      ensures infile != stdin || NoStdin(outcomes) ==>
        lines == Lines(infile.bytes, infile.fault, old(infile.pos), LineSize - 1)
    {
      ghost var held := Lines(infile.bytes, infile.fault, infile.pos, LineSize - 1);
      ghost var g0 := State();
      var lineNo := 0;
      lineProcessed := 0;
      lines, parses, outcomes := [], [], [];
      while true
        invariant Reading(fname, infile, g0, held, lines, parses, outcomes)
        invariant lineNo == |lines| && lineProcessed == CountCompared(outcomes)
        invariant openFiles == old(openFiles)
        decreases infile.End() - infile.pos
      {
        var more, processed;
        ghost var line, parse, outcome;
        more, processed, line, parse, outcome := ReadNext(fname, infile, lineNo + 1, g0, held, lines, parses, outcomes);
        if !more {
          break;
        }
        lineNo := lineNo + 1;
        if processed {
          lineProcessed := lineProcessed + 1;
        }
        lines, parses, outcomes := lines + [line], parses + [parse], outcomes + [outcome];
      }
    }

    /** Where the fgets loop of ReadManifest stands after the lines read
        from infile, which held the lines held when the loop started from
        the globals g0. */
    ghost predicate Reading(fname: string, infile: CFile, g0: Globals, held: seq<string>,
                            lines: seq<string>, parses: seq<Parse>, outcomes: seq<Outcome>)
      reads this, stdin, infile
    {
      && Valid() && infile.Valid()
      && |lines| == |outcomes| && parses == Map(Parsed, lines)
      && AgreesAll(outcomes, parses, junk)
      && FileRuns(outcomes, transform, files)
      && State() == After(Opts(), fname, g0, parses, outcomes)
      && ReadSoFar(lines, outcomes, held, Lines(infile.bytes, infile.fault, infile.pos, LineSize - 1), infile != stdin)
    }

    /** One pass of the fgets loop, lines 190-300: fgets, and when it hands
        out line lineNo, CheckNext on it. */
    method ReadNext(fname: string, infile: CFile, lineNo: nat, ghost g0: Globals, ghost held: seq<string>,
                    ghost lines: seq<string>, ghost parses: seq<Parse>, ghost outcomes: seq<Outcome>)
      returns (more: bool, processed: bool, ghost line: string, ghost parse: Parse, ghost outcome: Outcome)
      requires Reading(fname, infile, g0, held, lines, parses, outcomes) && lineNo == |lines| + 1
      modifies this`binaryMode, this`returnCode, this`stdout, this`stderr, this`openFiles, stdin, infile
      ensures openFiles == old(openFiles)
      ensures !more ==>
        && Valid() && infile.Valid() && State() == old(State())
        && ReadSoFar(lines, outcomes, held, [], infile != stdin)
      ensures more ==>
        && Reading(fname, infile, g0, held, lines + [line], parses + [parse], outcomes + [outcome])
        && processed == outcome.Compared?
        && CountCompared(outcomes + [outcome]) == CountCompared(outcomes) + (if processed then 1 else 0)
        && infile.pos > old(infile.pos)
    {
      ghost var before := Lines(infile.bytes, infile.fault, infile.pos, LineSize - 1);
      var fline := NextLine(infile);
      if fline.None? {
        assert lines + before == lines;
        return false, false, [], Parse(None, Err(MalformedLine)), Skipped(MalformedLine);
      }
      more := true;
      line := fline.value;
      ghost var after := infile.pos;
      processed, parse, outcome := CheckNext(fname, lineNo, fline.value, g0, parses, outcomes);
      MapSnoc(Parsed, lines, line);
      assert infile != stdin || NoStdin(outcomes + [outcome]) ==> infile.pos == after;
      ReadSoFarSnoc(lines, outcomes, held, line, outcome, before,
                    Lines(infile.bytes, infile.fault, after, LineSize - 1),
                    Lines(infile.bytes, infile.fault, infile.pos, LineSize - 1), infile != stdin);
    }

    /** Compute mode on fname, lines 306-326: the digest line, in the
        BSD-tagged form with binary mode forced under --tag. The failure
        branch after calculate_file_digest is never taken: a file that does
        not open or read prints its message, and then a line with whatever
        digest held, and return_code stays as it was. */
    method ComputeFile(fname: string)
      requires Valid()
      modifies this`binaryMode, this`stdout, this`stderr, this`openFiles, stdin
      ensures Valid()
      ensures binaryMode == (old(binaryMode) || bsdMode)
      ensures var run := RunOf(transform, old(Source(fname)));
        && stdout == old(stdout) + OutputLine(bsdMode, binaryMode, fname, Used(run, junk))
        && stderr == old(stderr) + RunDiag(fname, run)
      ensures openFiles == old(openFiles)
      ensures stdin.pos >= old(stdin.pos)
      ensures fname != "-" ==> unchanged(stdin)
    {
      ghost var run := RunOf(transform, Source(fname));
      var digest := new byte[DIGESTBYTES + 1](i => if 0 <= i < DIGESTBYTES then junk[i] else 0);
      assert digest[..DIGESTBYTES] == junk;
      if bsdMode {
        binaryMode := true;
      }
      var r := CalculateFileDigest(fname, digest);
      if r == 0 {
        // the test !calculate_file_digest(...) at line 313 is never true
        assert false;
      }
      assert digest[..DIGESTBYTES] == Used(run, junk);
      PrintDigestLine(fname, digest);
    }

    /** The output of compute mode, lines 318-325: under --tag the
        "WHIRLPOOL (fname) = " head, then the 128 hex digits of the digest,
        two per byte, then a newline, or else a space, '*' for binary or ' '
        for text, the name and a newline. */
    method PrintDigestLine(fname: string, digest: array<byte>)
      requires digest.Length == DIGESTBYTES + 1
      modifies this`stdout
      ensures stdout == old(stdout) + OutputLine(bsdMode, binaryMode, fname, digest[..DIGESTBYTES])
    {
      ghost var d: Digest := digest[..DIGESTBYTES];
      var head := if bsdMode then "WHIRLPOOL (" + fname + ") = " else "";
      stdout := stdout + head;
      ghost var pre := stdout;
      for i := 0 to DIGESTBYTES
        invariant stdout == pre + HexOf(d[..i])
      {
        assert d[..i + 1][..i] == d[..i];
        stdout := stdout + HexByte(digest[i]);
      }
      assert d[..DIGESTBYTES] == d;
      var tail := if bsdMode then "\n" else " " + (if binaryMode then "*" else " ") + fname + "\n";
      stdout := stdout + tail;
      Assoc(old(stdout), head, HexOf(d));
      Assoc(old(stdout), head + HexOf(d), tail);
      Assoc(head, HexOf(d), tail);
      assert OutputLine(bsdMode, binaryMode, fname, d) == head + HexOf(d) + tail;
    }

    /** What process_input_file leaves as the outcomes of fname: none in
        compute mode or when the manifest does not open; for a manifest file,
        one outcome per line it holds, each the one its parse calls for, and
        each comparison against a file other than "-" made with that file's
        digest run; for "-", the outcomes StdinOutcomes gives for the lines
        standard input held from position from. */
    ghost predicate ManifestOutcomes(fname: string, res: Option<seq<Outcome>>, from: nat) {
      && (res.Some? <==> checkMode && (fname == "-" || fname in files))
      && (res.Some? && fname == "-" ==>
            from <= stdin.End() && StdinOutcomes(res.value, Lines(stdin.bytes, stdin.fault, from, LineSize - 1), junk))
      && (res.Some? && fname != "-" ==>
            var lines := Lines(files[fname].bytes, files[fname].fault, 0, LineSize - 1);
            && |res.value| == |lines|
            && (forall i :: 0 <= i < |lines| ==> Agrees(res.value[i], Parsed(lines[i]), junk))
            && (forall i :: 0 <= i < |lines| && res.value[i].Compared? && res.value[i].path != "-" ==>
                  res.value[i].run == RunOf(transform, FileSource(files, res.value[i].path))))
    }

    /** process_input_file(fname), lines 169-328: check mode on the
        manifest fname, or compute mode on the file fname. */
    method ProcessInputFile(fname: string) returns (ghost lines: seq<string>, ghost outcomes: Option<seq<Outcome>>)
      requires Valid()
      modifies this`binaryMode, this`returnCode, this`stdout, this`stderr, this`openFiles, stdin
      ensures Valid()
      ensures ManifestOutcomes(fname, outcomes, old(stdin.pos))
      ensures !checkMode ==>
        && lines == [] && returnCode == old(returnCode)
        && binaryMode == (old(binaryMode) || bsdMode)
        && var run := RunOf(transform, old(Source(fname)));
           && stdout == old(stdout) + OutputLine(bsdMode, binaryMode, fname, Used(run, junk))
           && stderr == old(stderr) + RunDiag(fname, run)
      ensures checkMode && outcomes.None? ==>
        && lines == []
        && returnCode == EXIT_FAILURE && binaryMode == old(binaryMode)
        && stdout == old(stdout) && stderr == old(stderr) + Diag(fname, NoSuchFile)
      ensures checkMode && outcomes.Some? ==>
        var outs := outcomes.value;
        && |outs| == |lines|
        && (forall i :: 0 <= i < |lines| ==> Agrees(outs[i], Parsed(lines[i]), junk))
        && (forall i :: 0 <= i < |lines| && outs[i].Compared? && outs[i].path != "-" ==>
              outs[i].run == RunOf(transform, FileSource(files, outs[i].path)))
        && returnCode == FinalCode(old(returnCode), outs, strictMode)
        && binaryMode == ModeAfter(old(binaryMode), Map(Parsed, lines))
        && stdout == old(stdout) + Reports(outs, quietMode, statusMode)
        && stderr == old(stderr) + Warnings(fname, outs, warnMode)
      ensures checkMode && fname != "-" && fname in files ==>
        lines == Lines(files[fname].bytes, files[fname].fault, 0, LineSize - 1)
      ensures checkMode && fname == "-" ==>
        ReadInOrder(lines, outcomes.value, Lines(stdin.bytes, stdin.fault, old(stdin.pos), LineSize - 1))
      ensures checkMode && fname == "-" ==>
        var held := Lines(stdin.bytes, stdin.fault, old(stdin.pos), LineSize - 1);
        (forall l :: l in held ==> !NamesStdin(Parsed(l))) ==> lines == held
    {
      if checkMode {
        ghost var outs;
        ghost var held := Lines(stdin.bytes, stdin.fault, stdin.pos, LineSize - 1);
        lines, outs := CheckFile(fname);
        outcomes := if fname == "-" || fname in files then Some(outs) else None;
        if fname == "-" {
          StdinOutcomesOf(lines, outs, held, junk);
          if forall l :: l in held ==> !NamesStdin(Parsed(l)) {
            StdinFreeRead(outs, held, junk);
          }
        }
      } else {
        ComputeFile(fname);
        lines, outcomes := [], None;
      }
    }

    /** One operand of main's loop, lines 402-405: process_input_file, and
        what its outcomes mean for return_code. */
    method NextOperand(fname: string) returns (ghost res: Option<seq<Outcome>>)
      requires Valid()
      modifies this`binaryMode, this`returnCode, this`stdout, this`stderr, this`openFiles, stdin
      ensures Valid()
      ensures ManifestOutcomes(fname, res, old(stdin.pos))
      ensures !checkMode ==> returnCode == old(returnCode)
      ensures checkMode ==>
        (returnCode == EXIT_SUCCESS <==> old(returnCode) == EXIT_SUCCESS && res.Some? && Clean(res.value, strictMode))
    {
      ghost var code0 := returnCode;
      ghost var lines;
      lines, res := ProcessInputFile(fname);
      if checkMode && res.Some? {
        FinalCodeMeaning(code0, res.value, strictMode);
      }
    }

    /** The end of main, lines 398-408: every FILE operand in turn, or "-"
        when there is none, and return_code as the exit status. Result i
        holds the outcomes of operand i. The run fails only in check mode,
        and then exactly when some manifest did not open or did not pass. */
    method Run(names: seq<string>) returns (code: int, ghost results: seq<Option<seq<Outcome>>>, ghost starts: seq<nat>)
      requires Valid()
      modifies this`binaryMode, this`returnCode, this`stdout, this`stderr, this`openFiles, stdin
      ensures Valid() && code == returnCode
      ensures var operands := if names == [] then ["-"] else names;
        && |results| == |starts| == |operands| && starts[0] == old(stdin.pos)
        && forall i :: 0 <= i < |operands| ==> ManifestOutcomes(operands[i], results[i], starts[i])
      ensures !checkMode ==> code == old(returnCode)
      ensures checkMode ==>
        (code == EXIT_SUCCESS <==>
          old(returnCode) == EXIT_SUCCESS
          && forall i :: 0 <= i < |results| ==> results[i].Some? && Clean(results[i].value, strictMode))
    {
      var operands := if names == [] then ["-"] else names;
      results, starts := [], [];
      for k := 0 to |operands|
        invariant Valid() && |results| == |starts| == k
        invariant k == 0 ==> stdin.pos == old(stdin.pos)
        invariant k > 0 ==> starts[0] == old(stdin.pos)
        invariant OperandOutcomes(operands, results, starts)
        invariant !checkMode ==> returnCode == old(returnCode)
        invariant checkMode ==>
          (returnCode == EXIT_SUCCESS <==> old(returnCode) == EXIT_SUCCESS && AllClean(results, strictMode))
      {
        ghost var from := stdin.pos;
        ghost var res := NextOperand(operands[k]);
        OperandOutcomesSnoc(operands, results, starts, res, from);
        AllCleanSnoc(results, res, strictMode);
        results, starts := results + [res], starts + [from];
      }
      code := returnCode;
    }

    /** Result i is the outcomes of operand i from start i, for every
        operand so far. */
    ghost predicate OperandOutcomes(operands: seq<string>, results: seq<Option<seq<Outcome>>>, starts: seq<nat>) {
      && |results| == |starts| <= |operands|
      && forall i :: 0 <= i < |results| ==> ManifestOutcomes(operands[i], results[i], starts[i])
    }

    lemma OperandOutcomesSnoc(operands: seq<string>, results: seq<Option<seq<Outcome>>>, starts: seq<nat>,
                              res: Option<seq<Outcome>>, from: nat)
      requires OperandOutcomes(operands, results, starts) && |results| < |operands|
      requires ManifestOutcomes(operands[|results|], res, from)
      ensures OperandOutcomes(operands, results + [res], starts + [from])
    {
      forall i | 0 <= i < |results| + 1
        ensures ManifestOutcomes(operands[i], (results + [res])[i], (starts + [from])[i])
      {
        if i < |results| {
          assert (results + [res])[i] == results[i] && (starts + [from])[i] == starts[i];
        }
      }
    }
  }

  // ------------------------------------------------------------ properties

  /** Once return_code is EXIT_FAILURE no line sets it back. */
  lemma {:induction false} RunCodeKeepsFailure(outs: seq<Outcome>, strict: bool)
    ensures RunCode(EXIT_FAILURE, outs, strict) == EXIT_FAILURE
  {
    if outs != [] {
      RunCodeKeepsFailure(outs[..|outs| - 1], strict);
    }
  }

  /** The counter of compared lines is non-zero exactly when some line was
      compared. */
  lemma {:induction false} CountComparedPositive(outs: seq<Outcome>)
    ensures CountCompared(outs) > 0 <==> exists i :: 0 <= i < |outs| && outs[i].Compared?
  {
    if outs != [] {
      var init := outs[..|outs| - 1];
      CountComparedPositive(init);
      if exists i :: 0 <= i < |init| && init[i].Compared? {
        var i :| 0 <= i < |init| && init[i].Compared?;
        assert outs[i] == init[i];
      }
      if exists i :: 0 <= i < |outs| && outs[i].Compared? {
        var i :| 0 <= i < |outs| && outs[i].Compared?;
        if i < |init| {
          assert init[i] == outs[i];
        }
      }
    }
  }

  /** Without failure before, return_code stays EXIT_SUCCESS through the
      lines exactly when every comparison matched and, under --strict, no
      line was skipped. */
  lemma {:induction false} RunCodeSuccess(outs: seq<Outcome>, strict: bool)
    ensures RunCode(EXIT_SUCCESS, outs, strict) == EXIT_SUCCESS <==>
      && (forall i :: 0 <= i < |outs| && outs[i].Compared? ==> outs[i].matched)
      && (strict ==> forall i :: 0 <= i < |outs| ==> outs[i].Compared?)
  {
    if outs != [] {
      var init, last := outs[..|outs| - 1], outs[|outs| - 1];
      RunCodeSuccess(init, strict);
      var c := RunCode(EXIT_SUCCESS, init, strict);
      if c == EXIT_FAILURE {
        assert LineCode(c, last, strict) == EXIT_FAILURE;
      }
      assert forall i :: 0 <= i < |init| ==> init[i] == outs[i];
    }
  }

  /** The exit status a manifest leaves: success exactly when there was no
      failure before and the manifest is clean. */
  lemma FinalCodeMeaning(code: int, outs: seq<Outcome>, strict: bool)
    requires code == EXIT_SUCCESS || code == EXIT_FAILURE
    ensures FinalCode(code, outs, strict) == EXIT_SUCCESS <==> code == EXIT_SUCCESS && Clean(outs, strict)
    ensures FinalCode(code, outs, strict) == EXIT_SUCCESS || FinalCode(code, outs, strict) == EXIT_FAILURE
  {
    CountComparedPositive(outs);
    RunCodeSuccess(outs, strict);
    RunCodeKeepsFailure(outs, strict);
    RunCodeRange(code, outs, strict);
  }

  lemma {:induction false} RunCodeRange(code: int, outs: seq<Outcome>, strict: bool)
    requires code == EXIT_SUCCESS || code == EXIT_FAILURE
    ensures RunCode(code, outs, strict) == EXIT_SUCCESS || RunCode(code, outs, strict) == EXIT_FAILURE
  {
    if outs != [] {
      RunCodeRange(code, outs[..|outs| - 1], strict);
    }
  }

  /** With --status nothing goes to standard output. */
  lemma {:induction false} StatusIsSilent(outs: seq<Outcome>, quiet: bool)
    ensures Reports(outs, quiet, true) == []
  {
    if outs != [] {
      StatusIsSilent(outs[..|outs| - 1], quiet);
    }
  }

  /** With --quiet only the lines that failed are reported, each as
      `path: FAILED`. */
  lemma {:induction false} QuietReportsFailuresOnly(outs: seq<Outcome>)
    ensures Reports(outs, true, false) == Failures(outs)
  {
    if outs != [] {
      QuietReportsFailuresOnly(outs[..|outs| - 1]);
    }
  }

  function Failures(outs: seq<Outcome>): string {
    if outs == [] then []
    else
      var o := outs[|outs| - 1];
      Failures(outs[..|outs| - 1]) + (if o.Compared? && !o.matched then o.path + ": FAILED\n" else "")
  }

  /** A skipped line never touches standard output and fails the run only
      under --strict; its warning appears only under --warn. */
  lemma SkipPolicy(fname: string, lineNo: nat, r: Reject, code: int, quiet: bool, status: bool)
    ensures Report(Skipped(r), quiet, status) == []
    ensures LineCode(code, Skipped(r), false) == code && LineCode(code, Skipped(r), true) == EXIT_FAILURE
    ensures Warning(fname, lineNo, Skipped(r), false) == []
    ensures Warning(fname, lineNo, Skipped(r), true) == Diag(fname, RejectText(r, lineNo))
  {
  }

  /** A manifest holding the line compute mode printed for a file that
      reads without fault checks that file: one line, compared, matched, and
      the run passes. */
  lemma VerifiesOwnOutput(transform: seq<byte> -> Digest, files: map<string, FileContent>, junk: Digest,
                          bsd: bool, binary: bool, fname: string,
                          lines: seq<string>, outs: seq<Outcome>, strict: bool)
    requires fname in files && files[fname].fault.None? && fname != "-"
    requires IsByteText(fname) && NulFree(fname) && '\n' !in fname && |fname| < PathSize
    requires if bsd then ')' !in fname else '\t' !in fname
    requires var d := transform(files[fname].bytes);
      IsByteText(OutputLine(bsd, binary, fname, d)) &&
      lines == Lines(Bytes(OutputLine(bsd, binary, fname, d)), None, 0, LineSize - 1)
    requires |outs| == |lines|
    requires forall i :: 0 <= i < |lines| ==> Agrees(outs[i], Parsed(lines[i]), junk)
    requires forall i :: 0 <= i < |lines| && outs[i].Compared? && outs[i].path != "-" ==>
      outs[i].run == RunOf(transform, FileSource(files, outs[i].path))
    ensures |outs| == 1 && outs[0].Compared? && outs[0].path == fname && outs[0].matched
    ensures FinalCode(EXIT_SUCCESS, outs, strict) == EXIT_SUCCESS
  {
    var d := transform(files[fname].bytes);
    var line := OutputLine(bsd, binary, fname, d);
    ManifestRoundTrip(bsd, binary, fname, d);
    assert lines == [line];
    WholeFileDigest(transform, files, fname);
    MatchedOutcome(outs[0], Parsed(line), Record(if bsd then BsdTagged else Gnu, HexOf(d), fname), d, junk);
    SingleMatchPasses(outs, strict);
  }

  /** A line recording the digest d, compared with d itself, matches. */
  lemma MatchedOutcome(o: Outcome, p: Parse, rec: Record, d: Digest, junk: Digest)
    requires p.result == Ok(rec) && rec.digest == HexOf(d)
    requires Agrees(o, p, junk) && (o.Compared? ==> o.run == Computed(d))
    ensures o.Compared? && o.path == rec.path && o.matched
  {
    StrCaseEqIff(HexOf(d), HexOf(d));
  }

  /** A manifest of one line that matched passes. */
  lemma SingleMatchPasses(outs: seq<Outcome>, strict: bool)
    requires |outs| == 1 && outs[0].Compared? && outs[0].matched
    ensures FinalCode(EXIT_SUCCESS, outs, strict) == EXIT_SUCCESS
  {
    FinalCodeMeaning(EXIT_SUCCESS, outs, strict);
  }

  // ------------------------------------------------- helpers for the loops

  lemma AfterSnoc(opts: Options, fname: string, g0: Globals, ps: seq<Parse>, os: seq<Outcome>, p: Parse, o: Outcome)
    requires |ps| == |os|
    ensures After(opts, fname, g0, ps + [p], os + [o])
      == Step(opts, fname, After(opts, fname, g0, ps, os), p, o, |os| + 1)
  {
    assert (os + [o])[..|os|] == os && (ps + [p])[..|ps|] == ps;
  }

  lemma AgreesAllSnoc(os: seq<Outcome>, ps: seq<Parse>, o: Outcome, p: Parse, junk: Digest)
    requires AgreesAll(os, ps, junk) && Agrees(o, p, junk)
    ensures AgreesAll(os + [o], ps + [p], junk)
  {
    forall i | 0 <= i < |os| + 1 ensures Agrees((os + [o])[i], (ps + [p])[i], junk) {
      if i < |os| {
        assert (os + [o])[i] == os[i] && (ps + [p])[i] == ps[i];
      }
    }
  }

  lemma FileRunsSnoc(os: seq<Outcome>, o: Outcome, transform: seq<byte> -> Digest, files: map<string, FileContent>)
    requires FileRuns(os, transform, files)
    requires o.Compared? && o.path != "-" ==> o.run == RunOf(transform, FileSource(files, o.path))
    ensures FileRuns(os + [o], transform, files)
  {
    assert (os + [o])[..|os|] == os;
  }

  lemma CountSnoc(os: seq<Outcome>, o: Outcome)
    ensures CountCompared(os + [o]) == CountCompared(os) + if o.Compared? then 1 else 0
  {
    assert (os + [o])[..|os|] == os;
  }

  lemma NoStdinSnoc(os: seq<Outcome>, o: Outcome)
    ensures NoStdin(os + [o]) <==> NoStdin(os) && (o.Compared? ==> o.path != "-")
  {
    assert forall i :: 0 <= i < |os| ==> (os + [o])[i] == os[i];
    assert (os + [o])[|os|] == o;
  }

  /** One more line l, with outcome o, read from a stream that held
      [l] + after after the lines ls and holds now when o is accounted for. */
  lemma ReadSoFarSnoc(ls: seq<string>, os: seq<Outcome>, held: seq<string>, l: string, o: Outcome,
                      before: seq<string>, after: seq<string>, now: seq<string>, followed: bool)
    requires |ls| == |os| && ReadSoFar(ls, os, held, before, followed) && before == [l] + after
    requires followed || NoStdin(os + [o]) ==> now == after
    ensures ReadSoFar(ls + [l], os + [o], held, now, followed)
  {
    ReadInOrderSnoc(ls, os, held, l, o, after);
    if followed || NoStdin(os + [o]) {
      NoStdinSnoc(os, o);
      Assoc(ls, [l], after);
    }
  }

  lemma ReadInOrderSnoc(ls: seq<string>, os: seq<Outcome>, held: seq<string>,
                        l: string, o: Outcome, rest: seq<string>)
    requires |ls| == |os| && ReadInOrder(ls, os, held)
    requires NoStdin(os) ==> ls + ([l] + rest) == held
    ensures ReadInOrder(ls + [l], os + [o], held)
  {
    forall i | 0 <= i < |ls| + 1 && NoStdin((os + [o])[..i])
      ensures i < |held| && (ls + [l])[i] == held[i]
    {
      assert (os + [o])[..i] == os[..i];
      if i == |ls| {
        assert os[..i] == os;
        assert held[i] == (ls + ([l] + rest))[i];
      }
    }
  }

  /** The outcomes of lines read in order from what standard input held,
      each agreeing with its line's parse. */
  lemma StdinOutcomesOf(lines: seq<string>, outs: seq<Outcome>, held: seq<string>, junk: Digest)
    requires |outs| == |lines| && ReadInOrder(lines, outs, held)
    requires forall i :: 0 <= i < |lines| ==> Agrees(outs[i], Parsed(lines[i]), junk)
    requires NoStdin(outs) ==> lines == held
    ensures StdinOutcomes(outs, held, junk)
  {
  }

  /** When no line standard input holds names "-", the manifest "-" never
      has standard input digested, so it is read whole. */
  lemma StdinFreeRead(outs: seq<Outcome>, held: seq<string>, junk: Digest)
    requires StdinOutcomes(outs, held, junk)
    requires forall l :: l in held ==> !NamesStdin(Parsed(l))
    ensures NoStdin(outs) && |outs| == |held|
    ensures forall i :: 0 <= i < |outs| ==> Agrees(outs[i], Parsed(held[i]), junk)
  {
    var k := 0;
    while k < |outs|
      invariant k <= |outs|
      invariant forall j :: 0 <= j < k && outs[j].Compared? ==> outs[j].path != "-"
    {
      assert NoStdin(outs[..k]);
      assert held[k] in held;
      k := k + 1;
    }
  }

  /** A manifest on standard input with no line left in it compares
      nothing, so it fails the run. */
  lemma EmptyStdinFails(code: int, outs: seq<Outcome>, strict: bool, junk: Digest)
    requires StdinOutcomes(outs, [], junk)
    ensures outs == [] && FinalCode(code, outs, strict) == EXIT_FAILURE
  {
    if outs != [] {
      assert NoStdin(outs[..0]);
    }
  }

  /** Every manifest opened and was clean. */
  predicate AllClean(results: seq<Option<seq<Outcome>>>, strict: bool) {
    forall i :: 0 <= i < |results| ==> results[i].Some? && Clean(results[i].value, strict)
  }

  lemma AllCleanSnoc(results: seq<Option<seq<Outcome>>>, res: Option<seq<Outcome>>, strict: bool)
    ensures AllClean(results + [res], strict) <==> AllClean(results, strict) && res.Some? && Clean(res.value, strict)
  {
    assert forall i :: 0 <= i < |results| ==> (results + [res])[i] == results[i];
    assert (results + [res])[|results|] == res;
  }

  lemma MapSnoc<A, B>(f: A -> B, s: seq<A>, x: A)
    ensures Map(f, s + [x]) == Map(f, s) + [f(x)]
  {
    assert (s + [x])[..|s|] == s;
  }

  lemma Assoc<T>(a: seq<T>, b: seq<T>, c: seq<T>)
    ensures a + b + c == a + (b + c)
  {
  }
}
