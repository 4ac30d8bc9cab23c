# whirlpoolsum in Dafny

whirlpoolsum prints or checks Whirlpool (512-bit) checksums, in the manner
of the coreutils `*sum` tools. This project models the part of
`src/whirlpoolsum.c` that holds its logic:

- `strcpy_safe`, together with the C string operations the checksum-line
  parser is built from: `strlen`, `strncpy`, `strtok`, `memmove` and
  `strcasecmp`;
- `calculate_file_digest`, the fread loop that streams a file in 8 MiB
  chunks into the Whirlpool primitive;
- `process_input_file`:
  - in check mode, the `fgets` loop over a manifest. Each line is parsed in
    the BSD-tagged form `WHIRLPOOL (path) = digest` or the GNU form
    `digest *path` / `digest  path`. An accepted line has its file
    digested, rendered in lowercase hex and compared case-insensitively
    with the recorded digest. Every outcome is folded into the globals
    `return_code` and `binary_mode`, the `line_processed` counter and what
    is printed;
  - in compute mode, the output line;
- the end of `main`: every operand in turn, with `return_code` as the exit
  status.

The code is imperative, and so is the model:
- `WhirlpoolSum.Program` is a class. Its fields are the globals and the
  output streams.
- `Stdio.CFile` is a FILE with a position and a sticky error indicator.
- `Whirlpool.Nessie` is the digest state.
- The parser fills fixed `array<char>` buffers, as the C does.

Each method is proved against a specification function, and the
properties are proved about those functions:
- `Records.Parsed` specifies the parser.
- `WhirlpoolSum.RunOf` and `Stdio.ReadLoop` specify the digest run.
- `Hex.HexOf` specifies the hex rendering.
- `WhirlpoolSum.After` specifies the globals after a manifest.

The quirks of the C are modelled as written:
- `calculate_file_digest` returns -1 on failure, but its callers test for
  0. A file that fails to open or read is therefore still compared, or
  printed, with whatever the fresh digest buffer held (`junk`).
- Only the first character of the word after a BSD path is compared with
  `=`.
- A digest word longer than 128 characters is cut to 128 and accepted.
- `binary_mode` persists from line to line.
- The closing `)` is never looked for.
- A fault that falls on a chunk boundary is taken for end of file.

Modules:
- Wrappers: `Option`, `Result` and the `byte` type.
- CStrings: C string operations.
- Whirlpool: the primitive, abstracted.
- Stdio: files, `fread`, `fgets` and the read loops.
- Hex: `%02x` rendering and case-insensitive matching.
- Records: the checksum-line parser and the output line.
- WhirlpoolSum: the program.

## Model

| member | source | states |
|---|---|---|
| CStrings.CLen | src/whirlpoolsum.c:192 | strlen: the length is at most the buffer's, nothing before it is NUL, and the character at it is NUL when it is inside the buffer |
| CStrings.CStr | src/whirlpoolsum.c:192 | the C string a buffer holds, as strlen sees it: the characters before the first NUL, or the whole buffer when it has none |
| CStrings.Strncpy | src/whirlpoolsum.c:49 | the first n characters of dest become src padded with NUL; the rest of dest is unchanged |
| CStrings.StrcpySafe | src/whirlpoolsum.c:45-52 | dest always ends up NUL-terminated; a NULL src leaves the empty string; otherwise dest holds exactly the first min(len(src), count-1) characters of src; nothing past count is touched |
| CStrings.ShiftLeft | src/whirlpoolsum.c:217 | memmove by one place: the n characters after a[0] move one place left and the rest is unchanged |
| CStrings.Truncate | src/whirlpoolsum.c:45-52 | the C string strcpy_safe leaves: empty for a NULL src, otherwise src cut to at most count - 1 characters |
| CStrings.SkipDelims | src/whirlpoolsum.c:202 | strtok's leading scan: every character it skips is a delimiter, and the one it stops at is not |
| CStrings.SpanEnd | src/whirlpoolsum.c:202 | strtok's token scan: every character it passes is not a delimiter, and the one it stops at is |
| CStrings.Strtok | src/whirlpoolsum.c:202 | one strtok call: leading delimiters skipped, NULL with the cursor at the end when nothing else is left, otherwise the token up to the next delimiter, which is stepped over; the cursor never moves back or past the line |
| CStrings.StrtokMeaning | src/whirlpoolsum.c:202 | strtok returns NULL exactly when only delimiters remain; a token is a non-empty run of non-delimiters after the skipped delimiters, ending at a delimiter or at the end of the line; the cursor moves past that delimiter |
| CStrings.StrtokAt | src/whirlpoolsum.c:207 | conversely, delimiters followed by a delimiter-free word and then a delimiter or the end make strtok return exactly that word |
| CStrings.StrtokNulFree | src/whirlpoolsum.c:202 | the tokens of a NUL-free line are NUL-free |
| CStrings.NextToken | src/whirlpoolsum.c:253 | the two scanning loops of strtok compute Strtok |
| CStrings.CStrTerminated | src/whirlpoolsum.c:50 | a buffer holding t followed by a NUL holds the C string t |
| CStrings.StrCaseEqIff | src/whirlpoolsum.c:288 | strcasecmp reports equality exactly when the two strings are equal once both are lower-cased |
| CStrings.StrCaseEq | src/whirlpoolsum.c:288 | strcasecmp(a, b) == 0: the two strings have the same length and agree character by character once both are lower-cased |
| Whirlpool.Nessie.Init | src/whirlpool.h:78 | whirlpool_init starts an empty message |
| Whirlpool.Nessie.Add | src/whirlpool.h:79 | whirlpool_add with a whole number of bytes appends exactly those bytes to the message |
| Whirlpool.Nessie.Finalize | src/whirlpool.h:80 | whirlpool_finalize writes the digest of the whole message to the first 64 bytes and nothing else |
| Stdio.Limit | src/whirlpoolsum.c:150 | reading stops at the fault or at end of file, never past the bytes |
| Stdio.TextOfBytes | src/whirlpoolsum.c:190 | text written as bytes and read back is the same text |
| Stdio.LineSpan | src/whirlpoolsum.c:190 | fgets takes at most n bytes and never reads past where reading stops |
| Stdio.FgetsResult | src/whirlpoolsum.c:190 | what fgets returns: NULL when it read nothing or met a read error, otherwise the characters read, newline included |
| Stdio.FgetsFault | src/whirlpoolsum.c:190 | fgets fails in this call when it wanted more characters, has not reached a newline, and reading stops at the fault rather than at end of file |
| Stdio.Lines | src/whirlpoolsum.c:190 | the lines successive fgets calls hand out, up to the first NULL |
| Stdio.LinesStep | src/whirlpoolsum.c:190 | the lines of a stream are the line one fgets returns followed by the lines after it |
| Stdio.LineSpanWhole | src/whirlpoolsum.c:190 | a stretch ending with its only newline that fits the buffer is taken whole |
| Stdio.ReadBackOneLine | src/whirlpoolsum.c:190 | a file holding one newline-terminated line that fits the buffer is read by fgets as exactly that line |
| Stdio.ReadLoop | src/whirlpoolsum.c:150-158 | what the fread loop feeds whirlpool_add: chunks of BUFSIZE until fread returns nothing, giving up after a chunk when the error indicator is set |
| Stdio.ReadLoopPieces | src/whirlpoolsum.c:150-158 | the chunks the read loop adds are non-empty and at most BUFSIZE bytes; with no error pending they are, concatenated, exactly the bytes read, whether or not the loop then fails |
| Stdio.ReadLoopFails | src/whirlpoolsum.c:150-158 | the loop gives up exactly when an error was pending and there was something to read, or when reading stops at a fault that is not on a chunk boundary |
| Stdio.ChunkSizeInvariance | src/whirlpoolsum.c:24 | for a fault-free file, the loop feeds all its bytes and succeeds whatever the chunk size |
| Stdio.FaultOnChunkBoundaryUnnoticed | src/whirlpoolsum.c:150-158 | a fault at a multiple of BUFSIZE goes unnoticed: the loop succeeds on a strict prefix of the file |
| Stdio.CFile.Open | src/whirlpoolsum.c:133 | fopen gives a stream at offset 0 with no error |
| Stdio.CFile.Fread | src/whirlpoolsum.c:150 | fread copies min(n, what is left) bytes to the front of buf and moves on by as many; asking past a fault sets the sticky error indicator |
| Stdio.CFile.Fgets | src/whirlpoolsum.c:190 | fgets returns FgetsResult and moves on by LineSpan; a fault met in this call gives NULL and sets the sticky error indicator |
| Hex.HexOf | src/whirlpoolsum.c:282-284 | the rendering is two characters per byte |
| Hex.HexOfAt | src/whirlpoolsum.c:282-284 | byte i is rendered at positions 2i and 2i+1, in order |
| Hex.HexOfDigits | src/whirlpoolsum.c:283 | every rendered character is a lowercase hex digit |
| Hex.HexByte | src/whirlpoolsum.c:283 | sprintf "%02x" of one byte: the digit of the high nibble, then of the low one |
| Hex.Nibble | src/whirlpoolsum.c:288 | a hex digit of either case has a value below 16 |
| Hex.NibbleOfDigit | src/whirlpoolsum.c:283 | the digit %x prints for a value below 16 reads back as that value |
| Hex.NibbleLower | src/whirlpoolsum.c:288 | a digit of either case is the lowercase digit of its value up to tolower |
| Hex.ByteOfNibbles | src/whirlpoolsum.c:283 | a byte is its high and low nibbles put back together |
| Hex.NibblesOfByte | src/whirlpoolsum.c:283 | a byte put together from two nibbles has those nibbles |
| Hex.UnhexHexOf | src/whirlpoolsum.c:282-284 | decoding the rendering gives the digest back |
| Hex.LowerOfUnhex | src/whirlpoolsum.c:288 | text that decodes to d is the rendering of d up to case |
| Hex.LowerOfHexOf | src/whirlpoolsum.c:283 | lower-casing the rendering leaves it as it is |
| Hex.UnhexLower | src/whirlpoolsum.c:288 | decoding does not depend on case |
| Hex.NibbleToLower | src/whirlpoolsum.c:288 | a character's digit value does not depend on case |
| Hex.LowerOfUpper | src/whirlpoolsum.c:288 | tolower after toupper is tolower |
| Hex.MatchMeansSameBytes | src/whirlpoolsum.c:288 | the strcasecmp of the rendered digest with the recorded text succeeds exactly when the recorded text decodes, in either case, to the same bytes |
| Hex.UppercaseMatches | src/whirlpoolsum.c:288 | a digest recorded in uppercase still matches |
| Hex.RenderHex | src/whirlpoolsum.c:280-285 | the digest_ptr loop leaves the 128-character rendering followed by a NUL, so the buffer holds it as a C string |
| Hex.HexTerminated | src/whirlpoolsum.c:285 | a rendering followed by a NUL is read as a C string whole |
| Records.ParseLine | src/whirlpoolsum.c:191-267 | a line whose C string is empty or lacks a final newline is malformed; any other is taken apart as Parsed says |
| Records.Parsed | src/whirlpoolsum.c:191-267 | a line whose C string is empty or lacks a final newline is malformed; otherwise its fields decide |
| Records.Fields | src/whirlpoolsum.c:198-251 | the first word, cut to 128 characters, selects the BSD branch when it is WHIRLPOOL, is rejected for its length unless it has 128 characters, and is otherwise the GNU digest |
| Records.BsdFields | src/whirlpoolsum.c:205-240 | binary_mode is set to 1; the text up to `)` must start with `(`, the next word must start with `=`, the last word cut to 128 characters must have 128; the path is the text without its `(` |
| Records.GnuFields | src/whirlpoolsum.c:253-266 | the field up to a tab or newline must start with `*` (binary) or a space (text), which sets binary_mode; the path is the rest |
| Records.OutputLine | src/whirlpoolsum.c:319-326 | the compute-mode line: `WHIRLPOOL (name) = ` and the hex digest under --tag, otherwise the hex digest, a space, `*` or a space, and the name; then a newline |
| Records.ParseFields | src/whirlpoolsum.c:198-203 | the first strtok word, cut to 128 characters in prefix, selects the BSD branch when it is the tag, is rejected for its length unless it has exactly 128 characters, and otherwise selects the GNU branch |
| Records.ParseBsd | src/whirlpoolsum.c:205-240 | the BSD branch, with its check_path, eq_sign and found_digest buffers, computes BsdFields: binary_mode is set to 1 first, then each check rejects in order |
| Records.ParseGnu | src/whirlpoolsum.c:243-266 | the GNU branch computes GnuFields: the path field must start with `*` or a space, which sets binary_mode to 1 or 0 |
| Records.DropMarker | src/whirlpoolsum.c:216-218 | the memmove and NUL store drop the first character of the C string, and a lone marker leaves the empty string |
| Records.AcceptedRecord | src/whirlpoolsum.c:198-267 | an accepted line has a 128-character digest and a path shorter than path_size, both NUL-free, and sets binary_mode, to binary for a BSD line |
| Records.BsdAccepted | src/whirlpoolsum.c:205-240 | an accepted BSD line has a 128-character digest and a NUL-free path shorter than path_size, and sets binary_mode to 1 |
| Records.GnuAccepted | src/whirlpoolsum.c:243-266 | an accepted GNU line records the first word as its digest and a NUL-free path shorter than path_size |
| Records.TaggedLineSetsBinary | src/whirlpoolsum.c:203-208 | a line whose first word is WHIRLPOOL sets binary_mode to 1 whether or not it is then accepted |
| Records.RejectedLineMode | src/whirlpoolsum.c:208 | a rejected line changes binary_mode only if it is BSD-tagged, and then to 1; a rejected GNU line leaves it |
| Records.OverlongDigestAccepted | src/whirlpoolsum.c:202 | a first word longer than 128 characters is cut to its first 128 characters, which are recorded as the digest, and the line is accepted |
| Records.ShortDigestRejected | src/whirlpoolsum.c:244-250 | a first word shorter than 128 characters that is not the tag is rejected for its length and leaves binary_mode alone |
| Records.EqualsPrefixAccepted | src/whirlpoolsum.c:220-222 | any word that starts with `=` is taken for the equals sign |
| Records.NoCloseParenRejected | src/whirlpoolsum.c:207-228 | a tagged line with no `)` is rejected for its tag format, after setting binary_mode to 1 |
| Records.GnuRoundTrip | src/whirlpoolsum.c:325 | the GNU line compute mode prints parses back to its digest, its name and its binary or text marker, when the name has no tab, newline or NUL and fits check_path |
| Records.BsdRoundTrip | src/whirlpoolsum.c:319 | the BSD line compute mode prints parses back to its digest and name, in binary mode, when the name has no `)`, newline or NUL and fits check_path |
| Records.ManifestRoundTrip | src/whirlpoolsum.c:319-326 | a manifest holding just a line compute mode printed is read by fgets as that one line, which parses back to the digest, the name and the mode |
| Records.PlainLineReadBack | src/whirlpoolsum.c:190 | a short NUL-free single-byte line is read back by fgets as itself |
| Records.GnuLine | src/whirlpoolsum.c:243-266 | a GNU line whose first word, cut to 128 characters, is h parses to h, the name and the marker's mode |
| Records.GnuFieldsOf | src/whirlpoolsum.c:244-266 | with the first word and the path token known, the GNU branch accepts |
| Records.GnuWordToken | src/whirlpoolsum.c:202 | the first strtok call on a GNU line returns the digest word |
| Records.GnuPathToken | src/whirlpoolsum.c:253 | the path strtok call returns the marker and the name |
| Records.BsdParse | src/whirlpoolsum.c:203-240 | a BSD line with any equals word that starts with `=` parses to its digest and name, in binary mode |
| Records.BsdFieldsOf | src/whirlpoolsum.c:203-240 | once its strtok calls are known, the BSD branch accepts |
| Records.BsdTagToken | src/whirlpoolsum.c:202 | the first strtok call on a BSD line returns WHIRLPOOL |
| Records.BsdPathToken | src/whirlpoolsum.c:207 | the `)` strtok call returns `(` followed by the name |
| Records.BsdEqToken | src/whirlpoolsum.c:221 | the next strtok call returns the equals word |
| Records.BsdDigestToken | src/whirlpoolsum.c:232 | the last strtok call returns the digest |
| WhirlpoolSum.FileSource | src/whirlpoolsum.c:133 | a path that opens gives a readable stream at its start |
| WhirlpoolSum.RunOf | src/whirlpoolsum.c:127-166 | how calculate_file_digest ends on a source: not opened, a read error when the fread loop gives up, or the transform of everything the loop fed |
| WhirlpoolSum.RunDiag | src/whirlpoolsum.c:135-157 | what calculate_file_digest prints on stderr: nothing when it computes a digest, otherwise its message for a file that does not open or a read that fails |
| WhirlpoolSum.Diag | src/whirlpoolsum.c:136 | the diagnostic format `whirlpoolsum: name: text` and a newline |
| WhirlpoolSum.RejectText | src/whirlpoolsum.c:193-256 | the warning text for each reason a line is skipped, with the line number in decimal |
| WhirlpoolSum.Used | src/whirlpoolsum.c:271-313 | the digest compared or printed: the computed one, or what the fresh digest buffer held when calculate_file_digest failed |
| WhirlpoolSum.LineCode | src/whirlpoolsum.c:194 | return_code after one line: a skipped line fails it only under --strict, a compared line only on a mismatch |
| WhirlpoolSum.RunCode | src/whirlpoolsum.c:194-294 | return_code after the lines of a manifest: LineCode folded over the outcomes in line order |
| WhirlpoolSum.CountCompared | src/whirlpoolsum.c:300 | line_processed: the number of lines that reached the comparison |
| WhirlpoolSum.FinalCode | src/whirlpoolsum.c:304 | return_code after a manifest: failure when no line was compared, otherwise the fold of LineCode over the lines |
| WhirlpoolSum.Report | src/whirlpoolsum.c:288-295 | what a line prints on stdout: nothing for a skipped line; `path: OK` unless --quiet or --status; `path: FAILED` unless --status |
| WhirlpoolSum.Warning | src/whirlpoolsum.c:193 | what a line prints on stderr: the warning for a skipped line under --warn, or calculate_file_digest's message |
| WhirlpoolSum.Reports | src/whirlpoolsum.c:288-295 | what the lines of a manifest print on stdout: each line's Report, in line order |
| WhirlpoolSum.Warnings | src/whirlpoolsum.c:190-301 | what the lines of a manifest print on stderr: each line's Warning with its line number, in line order |
| WhirlpoolSum.ModeAfter | src/whirlpoolsum.c:208-263 | binary_mode after the lines: the mode the last line that set one set (a BSD tag sets binary, a GNU marker sets binary or text), or the mode before the manifest when none did |
| WhirlpoolSum.StdinOutcomes | src/whirlpoolsum.c:190-301 | the outcomes of the manifest "-": up to and including the first line that has "-" digested, each is the one the parse of the next line standard input held calls for, and when no line names "-" there is one per line held |
| WhirlpoolSum.StdinFreeRead | src/whirlpoolsum.c:190 | when no line standard input holds names "-", the manifest "-" never has standard input digested and is read whole: one outcome per line held, each agreeing with that line's parse |
| WhirlpoolSum.EmptyStdinFails | src/whirlpoolsum.c:304 | the manifest "-" on a standard input with no line left compares nothing and leaves EXIT_FAILURE |
| WhirlpoolSum.Step | src/whirlpoolsum.c:191-300 | the globals after one line: return_code by LineCode, binary_mode as the parse set it, the report and warning appended |
| WhirlpoolSum.After | src/whirlpoolsum.c:190-301 | the globals after the lines of a manifest: Step, line by line |
| WhirlpoolSum.WholeFileDigest | src/whirlpoolsum.c:150-161 | a file that opens and has no fault is digested whole |
| WhirlpoolSum.FeedAll | src/whirlpoolsum.c:147-158 | the fread loop adds exactly the chunks ReadLoop yields, each as 8*num_read bits, and succeeds exactly when ReadLoop does; the stream ends past the bytes added |
| WhirlpoolSum.NextLine | src/whirlpoolsum.c:190 | each fgets hands out the next of the stream's lines, or NULL when none is left |
| WhirlpoolSum.FileRunsMeans | src/whirlpoolsum.c:271 | every line compared against a file other than "-" carries that file's digest run from its start |
| WhirlpoolSum.AfterMeans | src/whirlpoolsum.c:190-301 | after a manifest, return_code is folded over the outcomes, binary_mode is the last mode a line set, and the reports and warnings are appended in line order |
| WhirlpoolSum.Program.constructor | src/whirlpoolsum.c:15-22 | the globals as main leaves them: return_code 0, the flags as given, nothing printed |
| WhirlpoolSum.Program.Source | src/whirlpoolsum.c:132-133 | "-" reads standard input where it stands; any other path reads the file from its start |
| WhirlpoolSum.Program.CalculateFileDigest | src/whirlpoolsum.c:127-166 | returns 1 with the digest of what the loop fed, or -1 after its message when the file does not open or a read fails; digest is untouched on failure; a file it opened is closed on every path |
| WhirlpoolSum.Program.CheckLine | src/whirlpoolsum.c:191-300 | a line is skipped or compared as its parse says; binary_mode, return_code, stdout and stderr move as one step of After |
| WhirlpoolSum.Program.Compare | src/whirlpoolsum.c:269-299 | the match is strcasecmp of the rendered digest (or junk) with the recorded text; OK is printed unless quiet or status; FAILED is printed unless status, and then return_code fails |
| WhirlpoolSum.Program.HexDigest | src/whirlpoolsum.c:270-285 | digest_buf holds the hex of the digest calculate_file_digest produced, or of what calc_digest held when it failed |
| WhirlpoolSum.Program.CheckNext | src/whirlpoolsum.c:190-301 | one loop iteration extends the parses, outcomes and globals by one step of After |
| WhirlpoolSum.Program.Skip | src/whirlpoolsum.c:193-194 | a skipped line warns only under --warn and fails return_code only under --strict |
| WhirlpoolSum.Program.CheckFile | src/whirlpoolsum.c:171-304 | a manifest that does not open fails with its message; otherwise every line fgets hands out agrees with its parse, return_code is FinalCode of the outcomes, binary_mode is the last mode set, and stdout and stderr are the reports and warnings in order; the lines are those of the manifest file, or for "-" the next lines standard input held, in order, up to the first that has "-" digested, and all of them when none does |
| WhirlpoolSum.Program.ReadManifest | src/whirlpoolsum.c:187-301 | the lines checked are the lines the stream held from where it stood, in order: all of them for a manifest file or when no line has standard input digested, and up to the first that does otherwise; line_processed counts those compared |
| WhirlpoolSum.Program.ReadNext | src/whirlpoolsum.c:190-300 | one pass of the fgets loop: NULL when the stream holds no line, and the loop then stops with every line read; otherwise the next line checked, one step of After, and the stream moved forward |
| WhirlpoolSum.Program.ComputeFile | src/whirlpoolsum.c:306-326 | --tag forces binary_mode; the output line carries the digest (junk if the file failed); return_code never changes |
| WhirlpoolSum.Program.PrintDigestLine | src/whirlpoolsum.c:319-326 | the printed text is the output line: BSD head, the 128 hex digits and a newline, or the digits, a space, the mode marker, the name and a newline |
| WhirlpoolSum.Program.ProcessInputFile | src/whirlpoolsum.c:169-328 | compute mode: binary_mode forced under --tag, the output line on stdout, the diagnostic on stderr, return_code unchanged; check mode: a manifest that does not open fails with its message; otherwise the outcomes are those of the manifest's lines (ManifestOutcomes), return_code is FinalCode of them, binary_mode the last mode set, stdout and stderr the reports and warnings in order; for "-", the lines are read in order from where standard input stood, and are all of its lines when none of them names "-" |
| WhirlpoolSum.Program.ManifestOutcomes | src/whirlpoolsum.c:169-304 | the outcomes of an operand: none in compute mode or when the manifest does not open; for a manifest file one per line it holds, each the one its parse calls for, file comparisons carrying that file's run; for "-", StdinOutcomes of the lines standard input held from the given position |
| WhirlpoolSum.Program.NextOperand | src/whirlpoolsum.c:402-405 | one operand: its outcomes are those of its manifest (for "-", of the lines standard input held when the operand began), and return_code stays success exactly when it was success and the manifest opened and was clean |
| WhirlpoolSum.Program.Run | src/whirlpoolsum.c:398-408 | result i is the outcomes of operand i ("-" when there is none), as ManifestOutcomes states them from where standard input stood when operand i began, the first operand from where it stood at the start: present exactly when in check mode the manifest opens; the exit status is success exactly when it was success before and, in check mode, every manifest opened and was clean |
| WhirlpoolSum.RunCodeKeepsFailure | src/whirlpoolsum.c:183 | once return_code is EXIT_FAILURE no line resets it |
| WhirlpoolSum.CountComparedPositive | src/whirlpoolsum.c:300-304 | line_processed is non-zero exactly when some line was compared |
| WhirlpoolSum.RunCodeSuccess | src/whirlpoolsum.c:194 | from success, return_code stays success exactly when every comparison matched and, under --strict, no line was skipped |
| WhirlpoolSum.FinalCodeMeaning | src/whirlpoolsum.c:304 | a manifest leaves success exactly when there was no failure before and some line was compared, all matched, and under --strict none was skipped |
| WhirlpoolSum.RunCodeRange | src/whirlpoolsum.c:22 | return_code is only ever EXIT_SUCCESS or EXIT_FAILURE |
| WhirlpoolSum.StatusIsSilent | src/whirlpoolsum.c:289-293 | with --status nothing goes to standard output |
| WhirlpoolSum.QuietReportsFailuresOnly | src/whirlpoolsum.c:289-293 | with --quiet only the FAILED lines are printed |
| WhirlpoolSum.SkipPolicy | src/whirlpoolsum.c:193-195 | a skipped line prints nothing on stdout, fails only under --strict and warns only under --warn |
| WhirlpoolSum.VerifiesOwnOutput | src/whirlpoolsum.c:79 | a manifest holding the line compute mode printed for a fault-free file checks it: one line, compared, matched, and the run passes |
| WhirlpoolSum.MatchedOutcome | src/whirlpoolsum.c:288 | a line recording digest d, compared with d, matches |
| WhirlpoolSum.SingleMatchPasses | src/whirlpoolsum.c:304 | a one-line manifest that matched passes |

## Left out

- The Whirlpool transform: its internals are not part of this model. It is a function parameter `transform`, and `Whirlpool.Nessie` keeps the bytes added instead of the hash state. Only `DIGESTBYTES = 64` is taken from src/whirlpool.h. The digest of any given input, such as the empty file, is therefore not stated.
- Whirlpool.Nessie.Add: only whole numbers of bytes are added, because `8 * num_read` bits is all the program passes.
- Option parsing in `main` (getopt_long and the conflict checks), `print_help`, `print_brief_help`, `print_version` and `print_test`: these are fixed text and `exit`. `WhirlpoolSum.Program.constructor` takes the flags as parameters.
- fopen modes `rb` and `rt`: they read the same bytes on POSIX, so a file is its bytes whatever the mode.
- errno and strerror: a path that does not open gives the text for ENOENT, and no other open failure is modelled.
- The out-of-memory path of `calculate_file_digest` (lines 143-148): malloc is taken to succeed, here and for the unchecked allocations of `process_input_file`. `free` has no counterpart.
- The store at line 285 writes one byte past the 129-byte `digest_buf`. It is not modelled: `Hex.RenderHex` writes only inside the buffer. The NUL sprintf already wrote at index 128 makes the C string the same either way.
- Records.Parsed: a line whose first byte is NUL makes line 192 read `fline[-1]`, which is undefined behaviour. The model treats such a line, whose C string is empty, as malformed.
- WhirlpoolSum.Program.HexDigest and WhirlpoolSum.Program.ComputeFile: the uninitialised `calc_digest` and `digest` of a failed run are modelled as one fixed value `junk` per run, rather than fresh contents for each allocation.
- WhirlpoolSum.Program.CheckFile, WhirlpoolSum.Program.ProcessInputFile and WhirlpoolSum.Program.Run: a checked line that names "-" is compared against the digest run of standard input from wherever earlier reads left it. WhirlpoolSum.Program.CheckLine states that run line by line, but the manifest-level contracts state the run only for lines naming a file other than "-", in every manifest. This is because standard input's position moves from line to line.
- WhirlpoolSum.Program.ReadManifest, WhirlpoolSum.Program.CheckFile, WhirlpoolSum.Program.ProcessInputFile, WhirlpoolSum.Program.NextOperand and WhirlpoolSum.Program.Run: for the manifest "-", the lines read are stated up to and including the first line that has "-" digested. That line reads the rest of standard input as a file to digest, and what fgets hands out after it is not stated.
- WhirlpoolSum.Program.Run: standard input's position when an operand begins is stated for the first operand only. For a later operand "-" the outcomes are tied to the lines standard input held from where the earlier operands left it, and that position is not stated.
- WhirlpoolSum.Program.Run: stdout, stderr and binary_mode across operands are stated only operand by operand, by WhirlpoolSum.Program.ProcessInputFile, not composed over the whole run.
- WhirlpoolSum.Program.CheckFile: the manifest's FILE is never closed by the C. The model counts it in `openFiles` and leaves it open.
- Stdio.FileContent: a file can fail at only one offset, and a failed read reads nothing further. Devices that fail and then recover are not modelled.
- `Stdio.CFile.Fgets` is computed in one step from `LineSpan` rather than by a loop, because fgets is a library call whose body is not part of this model.
- `line_no` and `line_processed` are C `int`s, and the model does not bound them, because a manifest of more than 2^31 lines is not considered.
- Standard output and standard error are strings that grow. Buffering and interleaving of the two streams are not modelled.
