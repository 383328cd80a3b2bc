/**
 * NUL-terminated strings as the Win32 C runtime sees them: ASCII case
 * folding for `_stricmp`/`_tcsicmp`, the `%s` view of a character buffer,
 * and `strapp`, which grows a heap string by appending to it.
 */
module CStrings {
  import opened Wrappers

  const Nul: char := '\0'

  /** A C string's contents: no terminator inside. */
  predicate NoNul(s: string) {
    Nul !in s
  }

  /** The string `%s` or `_tcslen` sees in a buffer: everything before the first NUL. */
  function CString(buf: seq<char>): (s: string)
    ensures NoNul(s) && s <= buf
    ensures |s| < |buf| ==> buf[|s|] == Nul
  {
    if buf == [] || buf[0] == Nul then [] else [buf[0]] + CString(buf[1..])
  }

  /** A buffer holding `s` followed by a terminator reads back as `s`. */
  lemma {:induction false} CStringOfTerminated(buf: seq<char>, n: nat)
    requires n < |buf| && buf[n] == Nul && NoNul(buf[..n])
    ensures CString(buf) == buf[..n]
  {
    if n > 0 {
      assert buf[0] in buf[..n];
      assert buf[1..][..n - 1] == buf[1..n];
      assert forall c :: c in buf[1..n] ==> c in buf[..n];
      CStringOfTerminated(buf[1..], n - 1);
      assert buf[..n] == [buf[0]] + buf[1..][..n - 1];
    }
  }

  /** ASCII `tolower` in the "C" locale: only 'A'..'Z' change. */
  function ToLower(c: char): (r: char)
    ensures !('A' <= r <= 'Z')
    ensures 'A' <= c <= 'Z' ==> r as int == c as int + 32
    ensures !('A' <= c <= 'Z') ==> r == c
  {
    if 'A' <= c <= 'Z' then (c as int + 32) as char else c
  }

  function Lower(s: string): (r: string)
    ensures |r| == |s|
  {
    if s == [] then [] else [ToLower(s[0])] + Lower(s[1..])
  }

  /**
   * `_stricmp(a, b) == 0`: the strings agree once both are folded to lower
   * case. Both are C strings, so neither holds a NUL; a Dafny string with a
   * NUL inside is outside the domain of this comparison.
   */
  predicate EqualsIgnoreCase(a: string, b: string): (eq: bool)
    ensures a == b ==> eq
    ensures eq ==> |a| == |b|
  {
    Lower(a) == Lower(b)
  }

  /** Case-insensitive equality is a character-by-character comparison of folded characters. */
  lemma {:induction false} EqualsIgnoreCaseCharwise(a: string, b: string)
    ensures EqualsIgnoreCase(a, b) <==>
      |a| == |b| && forall i :: 0 <= i < |a| ==> ToLower(a[i]) == ToLower(b[i])
  {
    LowerAt(a);
    LowerAt(b);
    if |a| == |b| && forall i :: 0 <= i < |a| ==> ToLower(a[i]) == ToLower(b[i]) {
      assert forall i :: 0 <= i < |a| ==> Lower(a)[i] == Lower(b)[i];
    }
  }

  lemma {:induction false} LowerAt(s: string)
    ensures forall i :: 0 <= i < |s| ==> Lower(s)[i] == ToLower(s[i])
  {
    if s != [] {
      LowerAt(s[1..]);
    }
  }

  /** Case-insensitive equality is an equivalence. */
  lemma EqualsIgnoreCaseIsEquivalence(a: string, b: string, c: string)
    ensures EqualsIgnoreCase(a, a)
    ensures EqualsIgnoreCase(a, b) ==> EqualsIgnoreCase(b, a)
    ensures EqualsIgnoreCase(a, b) && EqualsIgnoreCase(b, c) ==> EqualsIgnoreCase(a, c)
  {
  }

  // ---------------------------------------------------------------------------
  // strapp, as written: the new buffer of `length + 1` characters is filled by
  // `_tcsncpy(buf, dest, length)`, which pads with NULs only up to `length`, so
  // cell `length` is never written. A cell is `None` until something writes it.

  /** The buffer after `new TCHAR[length + 1]` and `_tcsncpy(buf, dest, length)`. */
  function CopiedBuffer(dest: string, length: nat): (buf: seq<Option<char>>)
    requires |dest| <= length
    ensures |buf| == length + 1
    ensures forall i :: 0 <= i < |dest| ==> buf[i] == Some(dest[i])
    ensures forall i :: |dest| <= i < length ==> buf[i] == Some(Nul)
    ensures buf[length] == None
    ensures NoNul(dest) ==> (Some(Nul) in buf <==> |dest| < length)
  {
    var buf := seq(length + 1, i requires 0 <= i <= length =>
      if i < |dest| then Some(dest[i]) else if i < length then Some(Nul) else None);
    assert |dest| < length ==> buf[|dest|] == Some(Nul);
    assert NoNul(dest) ==> forall i :: 0 <= i < |dest| ==> dest[i] in dest && buf[i] != Some(Nul);
    buf
  }

  /**
   * Cells `i` up to `j` are written and none is NUL, and `j` is at or past the end of
   * the buffer or is a cell that was never written: a scan from `i` stops at `j`
   * without finding a terminator.
   */
  predicate Unterminated(buf: seq<Option<char>>, i: nat, j: nat) {
    i <= j && (j >= |buf| || buf[j].None?) && (i < j ==> j <= |buf|) &&
    forall m :: i <= m < j ==> buf[m].Some? && buf[m] != Some(Nul)
  }

  /**
   * `_tcslen` from cell `i` of a partly written buffer: the index of the first
   * NUL, or None when the scan reaches a cell that was never written (or runs
   * off the buffer) before finding one.
   */
  function ScanLength(buf: seq<Option<char>>, i: nat): (r: Option<nat>)
    ensures r.Some? ==> i <= r.value < |buf| && buf[r.value] == Some(Nul)
    ensures r.Some? ==> forall j :: i <= j < r.value ==> buf[j].Some? && buf[j] != Some(Nul)
    ensures r.None? ==> exists j :: Unterminated(buf, i, j)
    decreases |buf| - i
  {
    if i >= |buf| || buf[i].None? then
      assert Unterminated(buf, i, i);
      None
    else if buf[i] == Some(Nul) then Some(i)
    else
      var r := ScanLength(buf, i + 1);
      if r.Some? then r
      else
        UnterminatedBefore(buf, i, i + 1);
        r
  }

  /** A scan that runs off from `next`, the cell after `i`, also runs off from `i` when cell `i` is a written non-NUL. */
  lemma UnterminatedBefore(buf: seq<Option<char>>, i: nat, next: nat)
    requires i < |buf| && buf[i].Some? && buf[i] != Some(Nul) && next == i + 1
    requires exists j :: Unterminated(buf, next, j)
    ensures exists j :: Unterminated(buf, i, j)
  {
    var j: nat :| Unterminated(buf, next, j);
    assert Unterminated(buf, i, j);
  }

  /**
   * The string strapp leaves in `*dest`, as written, or None when its
   * `_tcsncat` has to read a cell of the new buffer that was never written.
   */
  function StrAppAsWritten(dest: string, source: string): (r: Option<string>)
    requires NoNul(dest) && NoNul(source)
    ensures r.Some? ==> |source| <= |r.value| && r.value[|r.value| - |source|..] == source
    ensures r.Some? ==> NoNul(r.value[..|r.value| - |source|])
  {
    var length := |dest| + |source|;
    var buf := CopiedBuffer(dest, length);
    match ScanLength(buf, 0)
    case None => None
    case Some(n) =>
      // `_tcsncat(buf, source, length)` appends at most `length` characters: all of `source`.
      Some(seq(n, j requires 0 <= j < n => if buf[j].Some? then buf[j].value else Nul) + source)
  }

  /** The scan passes over the copied characters of `dest`. */
  lemma {:induction false} ScanSkipsCopied(dest: string, length: nat, i: nat)
    requires NoNul(dest) && |dest| <= length && i <= |dest|
    ensures ScanLength(CopiedBuffer(dest, length), i) == ScanLength(CopiedBuffer(dest, length), |dest|)
    decreases |dest| - i
  {
    if i < |dest| {
      var buf := CopiedBuffer(dest, length);
      assert dest[i] in dest;
      assert buf[i] == Some(dest[i]) && dest[i] != Nul;
      ScanSkipsCopied(dest, length, i + 1);
    }
  }

  /** With an empty `source`, strapp as written reads the never-written last cell. */
  lemma EmptySourceReadsUnwrittenCell(dest: string)
    requires NoNul(dest)
    ensures StrAppAsWritten(dest, "") == None
  {
    ScanSkipsCopied(dest, |dest|, 0);
  }

  /** The smallest input showing it: strapp(&"ab", ""). */
  lemma EmptySourceExample()
    ensures StrAppAsWritten("ab", "") == None
  {
    EmptySourceReadsUnwrittenCell("ab");
  }

  /** With a non-empty `source`, strapp as written does append. */
  lemma NonEmptySourceAppends(dest: string, source: string)
    requires NoNul(dest) && NoNul(source) && source != []
    ensures StrAppAsWritten(dest, source) == Some(dest + source)
  {
    var length := |dest| + |source|;
    var buf := CopiedBuffer(dest, length);
    ScanSkipsCopied(dest, length, 0);
    assert ScanLength(buf, |dest|) == Some(|dest|);
    assert seq(|dest|, j requires 0 <= j < |dest| => if buf[j].Some? then buf[j].value else Nul) == dest;
  }

  /**
   * strapp with the terminator written: `*dest` is replaced by a new buffer
   * holding the old contents followed by `source`, NUL-terminated. The
   * `_tcsncpy` and `_tcsncat` loops are written out.
   */
  method StrApp(dest: string, source: string) returns (joined: string)
    requires NoNul(dest) && NoNul(source)
    ensures joined == dest + source
    ensures |joined| == |dest| + |source|
  {
    var length := |dest| + |source|;
    var buf := new char[length + 1];
    buf[length] := Nul;
    // _tcsncpy(buf, dest, length)
    var i := 0;
    while i < length
      invariant 0 <= i <= length
      invariant forall j :: 0 <= j < i ==> buf[j] == if j < |dest| then dest[j] else Nul
      invariant buf[length] == Nul
    {
      buf[i] := if i < |dest| then dest[i] else Nul;
      i := i + 1;
    }
    // _tcsncat(buf, source, length): find the terminator ...
    var n := 0;
    while buf[n] != Nul
      invariant 0 <= n <= |dest|
      invariant forall j :: 0 <= j < n ==> buf[j] == dest[j]
      decreases |dest| - n
    {
      assert dest[n] in dest;
      n := n + 1;
    }
    // ... then copy at most `length` characters of `source` and terminate.
    var k := 0;
    while k < |source| && k < length
      invariant 0 <= k <= |source|
      invariant forall j :: 0 <= j < n ==> buf[j] == dest[j]
      invariant forall j :: 0 <= j < k ==> buf[n + j] == source[j]
    {
      buf[n + k] := source[k];
      k := k + 1;
    }
    buf[n + k] := Nul;
    joined := buf[..n + k];
    assert joined == dest + source;
  }
}
