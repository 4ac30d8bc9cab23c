/** The C string operations the checksum-line parser of whirlpoolsum is built
    from: the NUL-terminated view of a char buffer (strlen), the program's own
    strcpy_safe over strncpy, memmove by one place, strtok as a cursor over the
    line, and strcasecmp. */
module CStrings {
  import opened Wrappers

  const NUL: char := '\0'

  predicate NulFree(s: string) {
    forall i :: 0 <= i < |s| ==> s[i] != NUL
  }

  /** strlen: the number of characters before the first NUL. */
  function CLen(s: string): (n: nat)
    ensures n <= |s|
    ensures NulFree(s[..n])
    ensures n < |s| ==> s[n] == NUL
  {
    if s == [] || s[0] == NUL then 0
    else
      var m := CLen(s[1..]);
      assert s[..m + 1] == [s[0]] + s[1..][..m];
      m + 1
  }

  /** The C string a char buffer holds. */
  function CStr(s: string): string {
    s[..CLen(s)]
  }

  /** A buffer with no NUL in it is read whole. */
  lemma CStrNulFree(s: string)
    requires NulFree(s)
    ensures CStr(s) == s
  {
  }

  /** A buffer that holds t followed by a NUL holds the C string t. */
  lemma {:induction false} CStrTerminated(s: string, t: string)
    requires NulFree(t) && |t| < |s|
    requires s[..|t|] == t && s[|t|] == NUL
    ensures CStr(s) == t
  {
    if t != [] {
      assert s[1..][..|t| - 1] == t[1..];
      CStrTerminated(s[1..], t[1..]);
    }
  }

  /** The C string that strcpy_safe(dest, src, count) leaves in dest: empty
      for a NULL src, otherwise src cut to at most count - 1 characters. */
  function Truncate(src: Option<string>, count: nat): string
    requires count >= 1
  {
    match src
    case None => []
    case Some(s) => s[..Min(|s|, count - 1)]
  }

  /** strncpy(dest, src, n) for a NUL-free src: the first n characters of
      dest become src, padded with NUL up to n. */
  method Strncpy(dest: array<char>, src: string, n: nat)
    requires n <= dest.Length && NulFree(src)
    modifies dest
    ensures forall k :: 0 <= k < n ==> dest[k] == if k < |src| then src[k] else NUL
    ensures forall k :: n <= k < dest.Length ==> dest[k] == old(dest[k])
  {
    for i := 0 to n
      invariant forall k :: 0 <= k < i ==> dest[k] == if k < |src| then src[k] else NUL
      invariant forall k :: i <= k < dest.Length ==> dest[k] == old(dest[k])
    {
      dest[i] := if i < |src| then src[i] else NUL;
    }
  }

  /** strcpy_safe: the copy is always NUL-terminated; a NULL src leaves the
      empty string; otherwise dest holds exactly the first
      min(|src|, count - 1) characters of src. Nothing at or past count
      (past 1 for a NULL src) is touched. */
  method StrcpySafe(dest: array<char>, src: Option<string>, count: nat)
    requires 1 <= count <= dest.Length
    requires src.Some? ==> NulFree(src.value)
    modifies dest
    ensures src.None? ==> dest[0] == NUL && CStr(dest[..]) == []
    ensures src.Some? ==> dest[count - 1] == NUL
    ensures src.Some? ==> CStr(dest[..]) == src.value[..Min(|src.value|, count - 1)]
    ensures CStr(dest[..]) == Truncate(src, count)
    ensures forall k :: (if src.None? then 1 else count) <= k < dest.Length ==> dest[k] == old(dest[k])
  {
    if src.None? {
      dest[0] := NUL;
    } else {
      Strncpy(dest, src.value, count - 1);
      dest[count - 1] := NUL;
      var t := Truncate(src, count);
      assert dest[..][..|t|] == t;
      CStrTerminated(dest[..], t);
    }
  }

  /** memmove(a, a + 1, n): the n characters after a[0] move one place to the
      left; the rest of the buffer is untouched. */
  method ShiftLeft(a: array<char>, n: nat)
    requires n < a.Length
    modifies a
    ensures forall k :: 0 <= k < n ==> a[k] == old(a[k + 1])
    ensures forall k :: n <= k < a.Length ==> a[k] == old(a[k])
  {
    for i := 0 to n
      invariant forall k :: 0 <= k < i ==> a[k] == old(a[k + 1])
      invariant forall k :: i <= k < a.Length ==> a[k] == old(a[k])
    {
      a[i] := a[i + 1];
    }
  }

  // ---------------------------------------------------------------- strtok

  /** strspn from i: the first index at or after i whose character is not a
      delimiter. */
  function SkipDelims(s: string, i: nat, delims: set<char>): (j: nat)
    requires i <= |s|
    ensures i <= j <= |s|
    ensures forall k :: i <= k < j ==> s[k] in delims
    ensures j < |s| ==> s[j] !in delims
    decreases |s| - i
  {
    if i == |s| || s[i] !in delims then i else SkipDelims(s, i + 1, delims)
  }

  /** strcspn from i: the first index at or after i whose character is a
      delimiter, or |s| when there is none. */
  function SpanEnd(s: string, i: nat, delims: set<char>): (j: nat)
    requires i <= |s|
    ensures i <= j <= |s|
    ensures forall k :: i <= k < j ==> s[k] !in delims
    ensures j < |s| ==> s[j] in delims
    decreases |s| - i
  {
    if i == |s| || s[i] in delims then i else SpanEnd(s, i + 1, delims)
  }

  /** What one call of strtok yields: the token (None for NULL), where the
      returned token starts (an index into the line) and the saved position
      for the next call. */
  datatype Tok = Tok(token: Option<string>, at: nat, next: nat)

  /** strtok over the line s, the saved position being the cursor `from`:
      leading delimiters are skipped; when nothing else is left the result is
      NULL and the cursor stays at the end; otherwise the token runs up to
      the next delimiter, which is overwritten with NUL and stepped over. */
  function Strtok(s: string, from: nat, delims: set<char>): (r: Tok)
    requires from <= |s|
    ensures from <= r.next <= |s|
  {
    var b := SkipDelims(s, from, delims);
    if b == |s| then Tok(None, |s|, |s|)
    else
      var e := SpanEnd(s, b, delims);
      Tok(Some(s[b..e]), b, if e == |s| then e else e + 1)
  }

  /** What strtok promises: NULL exactly when only delimiters are left; a
      token is a non-empty run of non-delimiters that starts right after the
      skipped delimiters and ends at a delimiter or at the end of the line;
      the cursor then moves past that delimiter. */
  lemma StrtokMeaning(s: string, from: nat, delims: set<char>)
    requires from <= |s|
    ensures var r := Strtok(s, from, delims);
      && from <= r.next <= |s|
      && (r.token.None? <==> forall k :: from <= k < |s| ==> s[k] in delims)
      && (r.token.None? ==> r.next == |s|)
      && (r.token.Some? ==>
            var t, b := r.token.value, r.at;
            && t != []
            && (forall k :: 0 <= k < |t| ==> t[k] !in delims)
            && from <= b && b + |t| <= |s| && s[b..b + |t|] == t
            && (forall k :: from <= k < b ==> s[k] in delims)
            && (b + |t| < |s| ==> s[b + |t|] in delims)
            && r.next == Min(b + |t| + 1, |s|))
  {
    var b := SkipDelims(s, from, delims);
    if b < |s| {
      var e := SpanEnd(s, b, delims);
      assert forall k :: 0 <= k < e - b ==> s[b..e][k] == s[b + k];
    }
  }

  /** The converse reading: a line that goes on, from the cursor, with
      delimiters d, then a non-empty token t free of delimiters, then either
      its end or a delimiter, makes strtok return t and step past that
      delimiter. */
  lemma StrtokAt(s: string, from: nat, delims: set<char>, d: string, t: string)
    requires from + |d| + |t| <= |s|
    requires s[from..from + |d|] == d && s[from + |d|..from + |d| + |t|] == t
    requires forall k :: 0 <= k < |d| ==> d[k] in delims
    requires t != [] && forall k :: 0 <= k < |t| ==> t[k] !in delims
    requires from + |d| + |t| < |s| ==> s[from + |d| + |t|] in delims
    ensures Strtok(s, from, delims) == Tok(Some(t), from + |d|, Min(from + |d| + |t| + 1, |s|))
  {
    var m := from + |d|;
    forall k | from <= k < m ensures s[k] in delims {
      assert s[k] == d[k - from];
    }
    forall k | m <= k < m + |t| ensures s[k] !in delims {
      assert s[k] == t[k - m];
    }
    assert s[m] !in delims;
    assert SkipDelims(s, from, delims) == m;
    assert SpanEnd(s, m, delims) == m + |t|;
  }

  /** The tokens of a NUL-free line are NUL-free. */
  lemma StrtokNulFree(s: string, from: nat, delims: set<char>)
    requires from <= |s| && NulFree(s)
    ensures Strtok(s, from, delims).token.Some? ==> NulFree(Strtok(s, from, delims).token.value)
  {
    StrtokMeaning(s, from, delims);
    var r := Strtok(s, from, delims);
    if r.token.Some? {
      var t := r.token.value;
      forall k | 0 <= k < |t| ensures t[k] != NUL {
        assert t[k] == s[r.at + k];
      }
    }
  }

  /** strtok as the C library runs it: two scans over the line. */
  method NextToken(s: string, from: nat, delims: set<char>) returns (r: Tok)
    requires from <= |s|
    ensures r == Strtok(s, from, delims)
  {
    var b := from;
    while b < |s| && s[b] in delims
      invariant from <= b <= |s|
      invariant SkipDelims(s, from, delims) == SkipDelims(s, b, delims)
    {
      b := b + 1;
    }
    if b == |s| {
      return Tok(None, |s|, |s|);
    }
    var e := b;
    while e < |s| && s[e] !in delims
      invariant b <= e <= |s|
      invariant SpanEnd(s, b, delims) == SpanEnd(s, e, delims)
    {
      e := e + 1;
    }
    r := Tok(Some(s[b..e]), b, if e == |s| then e else e + 1);
  }

  // ------------------------------------------------------------ strcasecmp

  /** tolower and toupper in the C locale: only A-Z and a-z change. */
  function ToLower(c: char): char {
    if 'A' <= c <= 'Z' then (c as int + 32) as char else c
  }

  function ToUpper(c: char): char {
    if 'a' <= c <= 'z' then (c as int - 32) as char else c
  }

  function LowerStr(s: string): string {
    seq(|s|, i requires 0 <= i < |s| => ToLower(s[i]))
  }

  function UpperStr(s: string): string {
    seq(|s|, i requires 0 <= i < |s| => ToUpper(s[i]))
  }

  /** strcasecmp(a, b) == 0 for NUL-free strings: both are walked together,
      each pair of characters compared after tolower, until one of them ends
      (its terminating NUL then equals only the other's). */
  function StrCaseEq(a: string, b: string): bool {
    if a == [] || b == [] then a == b
    else ToLower(a[0]) == ToLower(b[0]) && StrCaseEq(a[1..], b[1..])
  }

  /** strcasecmp finds two strings equal exactly when they are equal once
      both are lower-cased. */
  lemma {:induction false} StrCaseEqIff(a: string, b: string)
    ensures StrCaseEq(a, b) <==> LowerStr(a) == LowerStr(b)
  {
    if a != [] && b != [] {
      StrCaseEqIff(a[1..], b[1..]);
      var la, lb := LowerStr(a), LowerStr(b);
      assert la == [ToLower(a[0])] + LowerStr(a[1..]);
      assert lb == [ToLower(b[0])] + LowerStr(b[1..]);
      if la == lb {
        assert la[0] == lb[0] && la[1..] == lb[1..];
      }
    }
  }
}
