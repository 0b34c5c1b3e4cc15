/**
  decode_line from parser.c: the console's in-place tokenizer.

  The line is a C buffer. The tokenizer first cuts it at the first "//", then
  at the first '#' unless that '#' opens "#define". It then splits what is
  left into blank-separated words. Each word ends at a space, tab, CR, LF or
  the terminator. Scanning stops at the word cap, at the terminator, or at a
  word position that holds CR or LF. Each word is terminated in place by
  writing NUL over the character that ends it.

  `Tokens` and `Words` give the words as plain strings. `DecodeLine` runs the C
  algorithm on the buffer, held as a sequence value it returns mutated, and is
  proved to produce those words as NUL-terminated slices of that buffer.
 */
module Tokenizer {
  import opened CStrings

  /** A character that ends a word: one of " \t\n\r" (the strchr set) or the terminator. */
  predicate EndsWord(c: char) {
    c == NUL || c == ' ' || c == '\t' || c == '\n' || c == '\r'
  }

  /** A well-formed word: non-empty, with no blank, CR, LF or NUL in it. */
  predicate IsWord(w: string) {
    |w| > 0 && forall k :: 0 <= k < |w| ==> !EndsWord(w[k])
  }

  // ---------------------------------------------------------------------------
  // Comment stripping
  // ---------------------------------------------------------------------------

  predicate SlashPairAt(t: string, k: int) {
    0 <= k && k + 1 < |t| && t[k] == '/' && t[k + 1] == '/'
  }

  /** strstr(line, "//"): the index of the first "//", or |t| when there is none. */
  function FindSlashSlash(t: string): (r: nat)
    ensures r <= |t|
    ensures r < |t| ==> SlashPairAt(t, r)
    ensures forall k :: 0 <= k < r ==> !SlashPairAt(t, k)
  {
    if |t| < 2 then |t|
    else if t[0] == '/' && t[1] == '/' then 0
    else
      var r' := FindSlashSlash(t[1..]);
      assert forall k :: 1 <= k < 1 + r' ==> SlashPairAt(t[1..], k - 1) == SlashPairAt(t, k);
      1 + r'
  }

  /** strstr(line, "#"): the index of the first '#', or |t| when there is none. */
  function FindHash(t: string): (r: nat)
    ensures r <= |t|
    ensures r < |t| ==> t[r] == '#'
    ensures forall k :: 0 <= k < r ==> t[k] != '#'
  {
    if |t| == 0 then 0
    else if t[0] == '#' then 0
    else 1 + FindHash(t[1..])
  }

  /** The '#' at j opens "#define": strncmp(&t[j + 1], "define", 6) == 0. */
  predicate OpensDefine(t: string, j: nat) {
    j + 7 <= |t| && t[j + 1..j + 7] == "define"
  }

  /** Cutting t at a '/' changes no "#define" test at an index before the cut. */
  lemma DefineBeforeCut(t: string, n: nat, j: nat)
    requires j < n <= |t| && (n == |t| || t[n] == '/')
    ensures OpensDefine(t[..n], j) == OpensDefine(t, j)
  {
    if n < j + 7 <= |t| {
      assert t[j + 1..j + 7][n - j - 1] == '/';
    }
  }

  /**
    The text the tokenizer splits. It is t cut at the first "//", and then
    cut at the first '#' of what remains unless that '#' opens "#define".

    The contract pins the cut: no "//" of t starts inside s; the first '#'
    kept in s opens "#define"; and where s stops short of t, t has there
    either its first "//", or its first '#', which opens no "#define". So a
    line with no marker, or whose only '#' opens "#define", is kept whole.
   */
  function StripComments(t: string): (s: string)
    ensures s <= t
    ensures forall k :: 0 <= k < |s| ==> !SlashPairAt(t, k) && !SlashPairAt(s, k)
    ensures forall k :: 0 <= k < |s| && s[k] == '#' ==>
              OpensDefine(s, k) || exists h :: 0 <= h < k && s[h] == '#'
    ensures |s| < |t| ==>
              SlashPairAt(t, |s|)
              || (t[|s|] == '#' && !OpensDefine(t, |s|) && forall k :: 0 <= k < |s| ==> t[k] != '#')
  {
    var t1 := t[..FindSlashSlash(t)];
    var j := FindHash(t1);
    if j < |t1| && !OpensDefine(t1, j) then
      assert forall k :: 0 <= k < j ==> !SlashPairAt(t1[..j], k) by {
        forall k | 0 <= k < j ensures !SlashPairAt(t1[..j], k) {
          assert !SlashPairAt(t, k);
        }
      }
      DefineBeforeCut(t, FindSlashSlash(t), j);
      t1[..j]
    else
      assert forall k :: 0 <= k < |t1| ==> !SlashPairAt(t1, k) by {
        forall k | 0 <= k < |t1| ensures !SlashPairAt(t1, k) {
          assert !SlashPairAt(t, k);
        }
      }
      t1
  }

  // ---------------------------------------------------------------------------
  // Splitting into words
  // ---------------------------------------------------------------------------

  /** The first index at or after pos that is not a blank (the loop that steps over blanks before a word). */
  function SkipBlanksFrom(t: string, pos: nat): (q: nat)
    requires pos <= |t|
    ensures pos <= q <= |t|
    ensures forall k :: pos <= k < q ==> IsBlank(t[k])
    ensures q == |t| || !IsBlank(t[q])
    decreases |t| - pos
  {
    if pos == |t| || !IsBlank(t[pos]) then pos else SkipBlanksFrom(t, pos + 1)
  }

  /** The first index at or after q whose character ends a word. */
  function WordEndFrom(t: string, q: nat): (e: nat)
    requires q <= |t|
    ensures q <= e <= |t|
    ensures forall k :: q <= k < e ==> !EndsWord(t[k])
    ensures e == |t| || EndsWord(t[e])
    decreases |t| - q
  {
    if q == |t| || EndsWord(t[q]) then q else WordEndFrom(t, q + 1)
  }

  /**
    The words decode_line finds in text t from index pos on, at most max of
    them. A word position that holds the terminator, CR or LF ends the scan.
    A word that ends at the terminator (or at the end of t) is the last one.
   */
  function TokensFrom(t: string, pos: nat, max: int): (ws: seq<string>)
    requires pos <= |t|
    ensures |ws| <= if max < 0 then 0 else max
    decreases |t| - pos
  {
    if max <= 0 then []
    else
      var q := SkipBlanksFrom(t, pos);
      if q == |t| || EndsWord(t[q]) then []
      else
        var e := WordEndFrom(t, q);
        if e == |t| || t[e] == NUL then [t[q..e]]
        else [t[q..e]] + TokensFrom(t, e + 1, max - 1)
  }

  /** The words of text t, at most max of them. */
  function Tokens(t: string, max: int): seq<string> {
    TokensFrom(t, 0, max)
  }

  /** The words of a line buffer, decoded with a cap of max words. */
  function Words(line: seq<char>, max: int): seq<string> {
    Tokens(StripComments(CString(line)), max)
  }

  /** Every word the scan returns is non-empty and holds no blank, CR, LF or NUL. */
  lemma {:induction false} TokensFromAreWords(t: string, pos: nat, max: int)
    requires pos <= |t|
    ensures forall i :: 0 <= i < |TokensFrom(t, pos, max)| ==> IsWord(TokensFrom(t, pos, max)[i])
    decreases |t| - pos
  {
    if max > 0 {
      var q := SkipBlanksFrom(t, pos);
      if q < |t| && !EndsWord(t[q]) {
        var e := WordEndFrom(t, q);
        if e < |t| && t[e] != NUL {
          TokensFromAreWords(t, e + 1, max - 1);
        }
      }
    }
  }

  /** Where a word lies in the text: t[start..end], where t[end] (if any) is the character that ended it. */
  datatype Span = Span(start: nat, end: nat)

  /** The same scan as TokensFrom, recording where each word lies instead of the word itself. */
  function SpansFrom(t: string, pos: nat, max: int): seq<Span>
    requires pos <= |t|
    decreases |t| - pos
  {
    if max <= 0 then []
    else
      var q := SkipBlanksFrom(t, pos);
      if q == |t| || EndsWord(t[q]) then []
      else
        var e := WordEndFrom(t, q);
        if e == |t| || t[e] == NUL then [Span(q, e)]
        else [Span(q, e)] + SpansFrom(t, e + 1, max - 1)
  }

  /** The spans of the scan cover exactly its words, and lie in t at or after pos, each non-empty. */
  lemma {:induction false} SpansFromCover(t: string, pos: nat, max: int)
    requires pos <= |t|
    ensures |SpansFrom(t, pos, max)| == |TokensFrom(t, pos, max)|
    ensures forall i :: 0 <= i < |SpansFrom(t, pos, max)| ==>
              var sp := SpansFrom(t, pos, max)[i];
              pos <= sp.start < sp.end <= |t| && TokensFrom(t, pos, max)[i] == t[sp.start..sp.end]
    decreases |t| - pos
  {
    if max > 0 {
      var q := SkipBlanksFrom(t, pos);
      if q < |t| && !EndsWord(t[q]) {
        var e := WordEndFrom(t, q);
        if e < |t| && t[e] != NUL {
          SpansFromCover(t, e + 1, max - 1);
          var ss, ss' := SpansFrom(t, pos, max), SpansFrom(t, e + 1, max - 1);
          var ws, ws' := TokensFrom(t, pos, max), TokensFrom(t, e + 1, max - 1);
          assert ss == [Span(q, e)] + ss';
          assert ws == [t[q..e]] + ws';
          assert forall i :: 0 < i < |ss| ==> ss[i] == ss'[i - 1] && ws[i] == ws'[i - 1];
        }
      }
    }
  }

  /** The spans of the scan come left to right, with at least one character between neighbours. */
  lemma {:induction false} SpansFromOrdered(t: string, pos: nat, max: int)
    requires pos <= |t|
    ensures forall i, j :: 0 <= i < j < |SpansFrom(t, pos, max)| ==>
              SpansFrom(t, pos, max)[i].end < SpansFrom(t, pos, max)[j].start
    decreases |t| - pos
  {
    if max > 0 {
      var q := SkipBlanksFrom(t, pos);
      if q < |t| && !EndsWord(t[q]) {
        var e := WordEndFrom(t, q);
        if e < |t| && t[e] != NUL {
          SpansFromOrdered(t, e + 1, max - 1);
          SpansFromCover(t, e + 1, max - 1);
          var ss, ss' := SpansFrom(t, pos, max), SpansFrom(t, e + 1, max - 1);
          assert ss == [Span(q, e)] + ss';
          forall i, j | 0 <= i < j < |ss|
            ensures ss[i].end < ss[j].start
          {
            assert ss[j] == ss'[j - 1];
            if i > 0 {
              assert ss[i] == ss'[i - 1];
            }
          }
        }
      }
    }
  }

  /** The scan from pos ends without a word when it meets the end of the text, CR or LF. */
  lemma SpansFromStop(t: string, pos: nat, max: int)
    requires pos <= |t|
    requires var q := SkipBlanksFrom(t, pos); q == |t| || t[q] == NUL || t[q] == '\r' || t[q] == '\n'
    ensures SpansFrom(t, pos, max) == []
  {
  }

  /**
    The scan from pos finds the word that starts at the first non-blank q; in
    NUL-free text it goes on after the character e that ends that word, if any.
   */
  lemma SpansFromWord(t: string, pos: nat, max: int, q: nat, e: nat)
    requires NUL !in t
    requires pos <= |t| && 0 < max
    requires q == SkipBlanksFrom(t, pos) && q < |t| && !EndsWord(t[q])
    requires e == WordEndFrom(t, q)
    ensures e == |t| ==> SpansFrom(t, pos, max) == [Span(q, e)]
    ensures e < |t| ==> SpansFrom(t, pos, max) == [Span(q, e)] + SpansFrom(t, e + 1, max - 1)
  {
    if e < |t| {
      assert t[e] in t;
    }
  }

  /** p is where w starts in b, and the character right after w is NUL. */
  predicate TerminatedAt(b: seq<char>, p: nat, w: string) {
    p + |w| < |b| && b[p..p + |w|] == w && b[p + |w|] == NUL
  }

  /** Reading a C string where a NUL-free word is terminated yields exactly that word. */
  lemma TerminatedCString(b: seq<char>, p: nat, w: string)
    requires TerminatedAt(b, p, w) && NUL !in w
    ensures CString(b[p..]) == w
  {
    CStringOfTerminated(b, p, p + |w|);
  }

  /** Bookkeeping of the scan: emitting w moves it from the items still to come to the items found. */
  lemma AppendItem<T>(found: seq<T>, w: T, toCome: seq<T>, rest: seq<T>, all: seq<T>)
    requires found + toCome == all
    requires toCome == [w] + rest
    ensures (found + [w]) + rest == all
    ensures rest == [] ==> found + [w] == all
  {
    assert (found + [w]) + rest == found + ([w] + rest);
    assert rest == [] ==> (found + [w]) + rest == found + [w];
  }

  /**
    The NULs written after the words never land inside a word, so each word
    survives as a NUL-terminated slice of the buffer.
   */
  lemma WordsIntact(b: seq<char>, orig: seq<char>, s: string,
                    params: seq<nat>, words: seq<string>, ends: seq<nat>)
    requires |b| == |orig| && |s| <= |orig| && orig[..|s|] == s
    requires |params| == |words| == |ends|
    requires forall w :: 0 <= w < |params| ==>
               params[w] < ends[w] <= |s| && ends[w] < |b| && ends[w] == params[w] + |words[w]|
               && words[w] == s[params[w]..ends[w]] && b[ends[w]] == NUL
    requires forall w, v :: 0 <= w < v < |params| ==> ends[w] < params[v]
    requires forall k :: 0 <= k < |b| && b[k] != orig[k] ==> k in ends
    ensures forall w :: 0 <= w < |params| ==> TerminatedAt(b, params[w], words[w])
  {
    forall w | 0 <= w < |params|
      ensures TerminatedAt(b, params[w], words[w])
    {
      forall k | params[w] <= k < ends[w]
        ensures b[k] == s[k]
      {
        if b[k] != orig[k] {
          assert false;
        }
      }
    }
  }

  // ---------------------------------------------------------------------------
  // The in-place algorithm
  // ---------------------------------------------------------------------------

  /**
    The buffer once both comment cuts are done: NUL over the first "//" and
    over the cut '#'. When there is no "//", or the '#' is kept, the write lands
    on the terminator, which is already NUL.
   */
  function CutBuffer(line: seq<char>): (b: seq<char>)
    requires NUL in line
    ensures |b| == |line|
    ensures b[..|StripComments(CString(line))|] == StripComments(CString(line))
    ensures b[|StripComments(CString(line))|] == NUL
    ensures forall k :: 0 <= k < |line| && b[k] != line[k] ==>
              b[k] == NUL && (k == FindSlashSlash(CString(line)) || k == |StripComments(CString(line))|)
  {
    var t := CString(line);
    line[FindSlashSlash(t) := NUL][|StripComments(t)| := NUL]
  }

  /** The buffer holds the C string s: s itself, then a NUL. */
  predicate Holds(b: seq<char>, s: string) {
    NUL !in s && |s| < |b| && b[..|s|] == s && b[|s|] == NUL
  }

  /** From index pos on, the buffer agrees with the C string s it held before any word was cut. */
  predicate HoldsFrom(b: seq<char>, s: string, pos: nat) {
    NUL !in s && pos <= |s| < |b| && b[|s|] == NUL
    && forall k :: pos <= k < |s| ==> b[k] == s[k]
  }

  /** strstr(b, "//") on the C string s the buffer holds. */
  method SearchSlashSlash(b: seq<char>, ghost s: string) returns (i: nat)
    requires Holds(b, s)
    ensures i == FindSlashSlash(s)
  {
    i := 0;
    while b[i] != NUL && !(b[i] == '/' && b[i + 1] == '/')
      invariant 0 <= i <= |s|
      invariant forall k :: 0 <= k < i ==> !SlashPairAt(s, k)
      decreases |s| - i
    {
      assert b[i] == s[i];
      i := i + 1;
    }
    if i < |s| {
      assert SlashPairAt(s, i);
    }
  }

  /** strstr(b, "#") on the C string s the buffer holds. */
  method SearchHash(b: seq<char>, ghost s: string) returns (j: nat)
    requires Holds(b, s)
    ensures j == FindHash(s)
  {
    j := 0;
    while b[j] != NUL && b[j] != '#'
      invariant 0 <= j <= |s|
      invariant forall k :: 0 <= k < j ==> s[k] != '#'
      decreases |s| - j
    {
      j := j + 1;
    }
  }

  /** strncmp(&b[j + 1], "define", 6) == 0, where b[j] is inside the C string s. */
  method MatchDefine(b: seq<char>, ghost s: string, j: nat) returns (r: bool)
    requires Holds(b, s) && j < |s|
    ensures r == OpensDefine(s, j)
  {
    var m := 0;
    while m < 6 && b[j + 1 + m] == "define"[m]
      invariant 0 <= m <= 6
      invariant j + 1 + m <= |s|
      invariant forall k :: 0 <= k < m ==> s[j + 1 + k] == "define"[k]
    {
      m := m + 1;
    }
    r := m == 6;
    if r {
      assert s[j + 1..j + 7] == "define";
    }
  }

  /** The two strstr cuts of decode_line, done on the buffer. */
  method CutComments(line: seq<char>) returns (b: seq<char>)
    requires NUL in line
    ensures b == CutBuffer(line)
  {
    ghost var t := CString(line);
    b := line;
    assert Holds(b, t);
    var i := SearchSlashSlash(b, t);
    if b[i] != NUL {
      b := b[i := NUL];
    }
    assert b == line[i := NUL];
    ghost var t1 := t[..i];
    assert Holds(b, t1);
    var j := SearchHash(b, t1);
    if b[j] == '#' {
      var define := MatchDefine(b, t1, j);
      if !define {
        b := b[j := NUL];
      }
    }
  }

  /** The loop that steps over blanks before a word, run on the buffer. */
  method SkipBlanks(b: seq<char>, ghost s: string, pos: nat) returns (q: nat)
    requires HoldsFrom(b, s, pos)
    ensures q == SkipBlanksFrom(s, pos)
    ensures q < |b| && (q < |s| ==> b[q] == s[q]) && (b[q] == NUL <==> q == |s|)
  {
    q := pos;
    while b[q] != NUL && IsBlank(b[q])
      invariant pos <= q <= |s|
      invariant forall k :: pos <= k < q ==> IsBlank(s[k])
      decreases |s| - q
    {
      q := q + 1;
    }
  }

  /** The loop that walks from a word's first character to the character that ends it, run on the buffer. */
  method SeekWordEnd(b: seq<char>, ghost s: string, pos: nat) returns (e: nat)
    requires HoldsFrom(b, s, pos) && pos < |s| && !EndsWord(s[pos])
    ensures e == WordEndFrom(s, pos)
    ensures e < |b| && (b[e] == NUL <==> e == |s|)
  {
    e := pos + 1;
    while b[e] != NUL && !(b[e] == ' ' || b[e] == '\t' || b[e] == '\n' || b[e] == '\r')
      invariant pos < e <= |s|
      invariant forall k :: pos <= k < e ==> !EndsWord(s[k])
      decreases |s| - e
    {
      e := e + 1;
    }
  }

  /** The buffer b with a NUL written at the end of each span, in order (ends past the buffer are ignored). */
  function PutNuls(b: seq<char>, ss: seq<Span>): (r: seq<char>)
    ensures |r| == |b|
    ensures forall k :: 0 <= k < |b| && r[k] != b[k] ==>
              r[k] == NUL && exists i :: 0 <= i < |ss| && ss[i].end == k
    ensures forall i :: 0 <= i < |ss| && ss[i].end < |b| ==> r[ss[i].end] == NUL
  {
    if |ss| == 0 then b
    else
      var r := PutNuls(b, ss[..|ss| - 1]);
      var e := ss[|ss| - 1].end;
      assert forall i :: 0 <= i < |ss| - 1 ==> ss[i] == ss[..|ss| - 1][i];
      if e < |r| then r[e := NUL] else r
  }

  /** Once the spans found so far all end before pos, the cut buffer still holds s from pos on. */
  lemma Resume(buf: seq<char>, s: string, found: seq<Span>, toCome: seq<Span>, max: int, pos: nat)
    requires Holds(buf, s) && pos <= |s|
    requires found + toCome == SpansFrom(s, 0, max)
    requires |found| > 0 ==> found[|found| - 1].end < pos
    ensures HoldsFrom(PutNuls(buf, found), s, pos)
  {
    SpansFromCover(s, 0, max);
    SpansFromOrdered(s, 0, max);
    var all := SpansFrom(s, 0, max);
    assert forall i :: 0 <= i < |found| ==> found[i] == all[i];
    var r := PutNuls(buf, found);
    forall k | pos <= k < |s|
      ensures r[k] == s[k]
    {
      if r[k] != buf[k] {
        assert false;
      }
      assert buf[..|s|][k] == s[k];
    }
  }

  /** The index of the NUL written after each word. */
  function Ends(ss: seq<Span>): (es: seq<nat>)
    ensures |es| == |ss| && forall i :: 0 <= i < |ss| ==> es[i] == ss[i].end
  {
    seq(|ss|, i requires 0 <= i < |ss| => ss[i].end)
  }

  /**
    What the word loop promises: out is buf with a NUL written after each of
    the words of s, words[w] starts at params[w] and ends at ends[w], the
    words come left to right, and nothing else changes.
   */
  predicate SplitOutcome(buf: seq<char>, s: string, out: seq<char>,
                         params: seq<nat>, words: seq<string>, ends: seq<nat>)
  {
    && |out| == |buf|
    && |params| == |words| == |ends|
    && (forall w :: 0 <= w < |params| ==>
          ends[w] == params[w] + |words[w]| && ends[w] <= |s|
          && TerminatedAt(out, params[w], words[w])
          && s[params[w]..ends[w]] == words[w])
    && (forall w, v :: 0 <= w < v < |params| ==> ends[w] < params[v])
    && (forall k :: 0 <= k < |buf| && out[k] != buf[k] ==> out[k] == NUL && k in ends)
  }

  /** What the word loop leaves behind once it has found every span of the scan. */
  lemma SplitResult(buf: seq<char>, out: seq<char>, s: string, maxParams: int, params: seq<nat>, found: seq<Span>)
    requires Finished(buf, s, maxParams, out, params, found)
    ensures SplitOutcome(buf, s, out, params, Tokens(s, maxParams), Ends(found))
  {
    var words, ends := Tokens(s, maxParams), Ends(found);
    SpansFromCover(s, 0, maxParams);
    SpansFromOrdered(s, 0, maxParams);
    forall k | 0 <= k < |buf| && out[k] != buf[k]
      ensures k in ends
    {
      var i :| 0 <= i < |found| && found[i].end == k;
      assert ends[i] == k;
    }
    WordsIntact(out, buf, s, params, words, ends);
  }

  /**
    The state of the word loop: the buffer started as buf holding s; the
    words found so far are the first spans of the whole scan `all`, each
    recorded in params and cut by a NUL; the scan resumes at pos with at
    most left words still allowed, and toCome is what it will find.
   */
  predicate Scanning(buf: seq<char>, s: string, max: int, all: seq<Span>, out: seq<char>, pos: nat,
                     params: seq<nat>, found: seq<Span>, toCome: seq<Span>, left: int)
  {
    && Holds(buf, s) && pos <= |s| && all == SpansFrom(s, 0, max)
    && |params| == |found| && (forall w :: 0 <= w < |found| ==> params[w] == found[w].start)
    && out == PutNuls(buf, found)
    && toCome == SpansFrom(s, pos, left) && found + toCome == all
    && (|found| > 0 ==> found[|found| - 1].end < pos)
    && HoldsFrom(out, s, pos)
  }

  /** The word loop starts at index 0 of the untouched buffer, with nothing found yet. */
  lemma ScanStart(buf: seq<char>, s: string, max: int)
    requires Holds(buf, s)
    ensures Scanning(buf, s, max, SpansFrom(s, 0, max), buf, 0, [], [], SpansFrom(s, 0, max), max)
  {
    assert [] + SpansFrom(s, 0, max) == SpansFrom(s, 0, max);
    Resume(buf, s, [], SpansFrom(s, 0, max), max, 0);
  }

  /** The word loop is over: out is buf with a NUL after each span of the whole scan of s. */
  predicate Finished(buf: seq<char>, s: string, max: int, out: seq<char>, params: seq<nat>, found: seq<Span>) {
    && Holds(buf, s) && found == SpansFrom(s, 0, max)
    && |params| == |found| && (forall w :: 0 <= w < |found| ==> params[w] == found[w].start)
    && out == PutNuls(buf, found)
  }

  /** When no more words are allowed, the words found so far are all the scan finds. */
  lemma CapReached(buf: seq<char>, s: string, max: int, all: seq<Span>, out: seq<char>, pos: nat,
                   params: seq<nat>, found: seq<Span>, toCome: seq<Span>, left: int)
    requires Scanning(buf, s, max, all, out, pos, params, found, toCome, left) && left <= 0
    ensures Finished(buf, s, max, out, params, found)
  {
    assert found + [] == found;
  }

  /** A word position at the end of s, or holding CR or LF, ends the loop with nothing more found. */
  lemma StopStep(buf: seq<char>, s: string, max: int, all: seq<Span>, out: seq<char>, pos: nat,
                 params: seq<nat>, found: seq<Span>, toCome: seq<Span>, left: int, q: nat)
    requires Scanning(buf, s, max, all, out, pos, params, found, toCome, left)
    requires q == SkipBlanksFrom(s, pos) && (q == |s| || s[q] == '\r' || s[q] == '\n')
    ensures Finished(buf, s, max, out, params, found)
  {
    SpansFromStop(s, pos, left);
    assert found + [] == found;
  }

  /**
    Taking the word s[q..e] and writing NUL at e: the loop is over when e is
    the terminator, and otherwise resumes after e with one word fewer allowed.
   */
  lemma WordStep(buf: seq<char>, s: string, max: int, all: seq<Span>, out: seq<char>, pos: nat,
                 params: seq<nat>, found: seq<Span>, toCome: seq<Span>, left: int, q: nat, e: nat)
    requires Scanning(buf, s, max, all, out, pos, params, found, toCome, left) && left > 0
    requires q == SkipBlanksFrom(s, pos) && q < |s| && !EndsWord(s[q])
    requires e == WordEndFrom(s, q)
    ensures e == |s| ==> Finished(buf, s, max, out[e := NUL], params + [q], found + [Span(q, e)])
    ensures e < |s| ==> Scanning(buf, s, max, all, out[e := NUL], e + 1, params + [q],
                                 found + [Span(q, e)], SpansFrom(s, e + 1, left - 1), left - 1)
  {
    SpansFromWord(s, pos, left, q, e);
    var found' := found + [Span(q, e)];
    assert found'[..|found'| - 1] == found;
    if e == |s| {
      AppendItem(found, Span(q, e), toCome, [], all);
    } else {
      AppendItem(found, Span(q, e), toCome, SpansFrom(s, e + 1, left - 1), all);
      Resume(buf, s, found', SpansFrom(s, e + 1, left - 1), max, e + 1);
    }
  }

  /**
    One round of the word loop: skip blanks, then either stop (terminator, CR
    or LF) or take the next word and write a NUL over the character ending it.
    done is set when the scan is over, the word just taken being the last.
   */
  method NextWord(buf: seq<char>, ghost s: string, ghost max: int, ghost all: seq<Span>, out: seq<char>, pos: nat,
                  params: seq<nat>, ghost found: seq<Span>, ghost toCome: seq<Span>, ghost left: int)
      returns (out': seq<char>, pos': nat, params': seq<nat>, done: bool,
               ghost found': seq<Span>, ghost toCome': seq<Span>)
    requires Scanning(buf, s, max, all, out, pos, params, found, toCome, left) && left > 0
    ensures done ==> Finished(buf, s, max, out', params', found')
    ensures !done ==> Scanning(buf, s, max, all, out', pos', params', found', toCome', left - 1)
                      && |params'| == |params| + 1
  {
    var q := SkipBlanks(out, s, pos);

    // a terminator, CR or LF where a word would start ends the scan
    if out[q] == NUL || out[q] == '\r' || out[q] == '\n' {
      StopStep(buf, s, max, all, out, pos, params, found, toCome, left, q);
      return out, q, params, true, found, [];
    }

    // otherwise a word starts at q
    var end := SeekWordEnd(out, s, q);
    WordStep(buf, s, max, all, out, pos, params, found, toCome, left, q, end);
    if out[end] == NUL {
      return out[end := NUL], end, params + [q], true, found + [Span(q, end)], [];
    }
    return out[end := NUL], end + 1, params + [q], false, found + [Span(q, end)], SpansFrom(s, end + 1, left - 1);
  }

  /**
    The word loop of decode_line over a buffer that holds the C string s.
    It returns the buffer with a NUL after each word and the start of each
    word; words and ends are the words themselves and the index of each NUL.
   */
  method SplitWords(buf: seq<char>, ghost s: string, maxParams: int)
      returns (out: seq<char>, params: seq<nat>, ghost words: seq<string>, ghost ends: seq<nat>)
    requires Holds(buf, s)
    ensures words == Tokens(s, maxParams)
    ensures SplitOutcome(buf, s, out, params, words, ends)
    ensures |out| == |buf| && |params| == |Tokens(s, maxParams)|
    ensures forall w :: 0 <= w < |params| ==> TerminatedAt(out, params[w], Tokens(s, maxParams)[w])
  {
    out := buf;
    var pos := 0;
    var done := false;   // pos == NULL in the C code
    params := [];
    ghost var all := SpansFrom(s, 0, maxParams);
    ghost var found: seq<Span> := [];
    ghost var toCome := all;
    ghost var left := maxParams;
    ScanStart(buf, s, maxParams);
    while !done && |params| < maxParams
      invariant !done ==> left == maxParams - |params|
      invariant done ==> Finished(buf, s, maxParams, out, params, found)
      invariant !done ==> Scanning(buf, s, maxParams, all, out, pos, params, found, toCome, left)
      decreases if done then 0 else left + 1
    {
      out, pos, params, done, found, toCome := NextWord(buf, s, maxParams, all, out, pos, params, found, toCome, left);
      left := left - 1;
    }
    if !done {
      CapReached(buf, s, maxParams, all, out, pos, params, found, toCome, left);
    }
    words := Tokens(s, maxParams);
    ends := Ends(found);
    SplitResult(buf, out, s, maxParams, params, found);
  }

  /** Every word decode_line finds is a NUL-terminated C string in the buffer, copied from the line. */
  lemma DecodedWords(line: seq<char>, maxParams: int, cut: seq<char>, buffer: seq<char>,
                     params: seq<nat>, words: seq<string>, ends: seq<nat>)
    requires NUL in line && cut == CutBuffer(line)
    requires SplitOutcome(cut, StripComments(CString(line)), buffer, params, words, ends)
    ensures forall i :: 0 <= i < |params| ==>
              TerminatedAt(buffer, params[i], words[i])
              && line[params[i]..params[i] + |words[i]|] == words[i]
              && CString(buffer[params[i]..]) == words[i]
              && params[i] + |words[i]| <= |StripComments(CString(line))|
  {
    var s := StripComments(CString(line));
    forall w | 0 <= w < |params|
      ensures CString(buffer[params[w]..]) == words[w]
      ensures line[params[w]..ends[w]] == words[w]
    {
      assert NUL !in words[w] by {
        assert forall c :: c in s[params[w]..ends[w]] ==> c in s;
      }
      TerminatedCString(buffer, params[w], words[w]);
      assert cut[..|s|] == s;
    }
  }

  /** decode_line changes only the cut "//", the cut '#' and the character after each word, each to NUL. */
  lemma DecodedChanges(line: seq<char>, maxParams: int, cut: seq<char>, buffer: seq<char>,
                       params: seq<nat>, words: seq<string>, ends: seq<nat>)
    requires NUL in line && cut == CutBuffer(line)
    requires SplitOutcome(cut, StripComments(CString(line)), buffer, params, words, ends)
    ensures forall k :: StrLen(line) <= k < |line| ==> buffer[k] == line[k]
    ensures forall k :: 0 <= k < |line| && buffer[k] != line[k] ==>
              buffer[k] == NUL
              && (k == FindSlashSlash(CString(line))
                  || k == |StripComments(CString(line))|
                  || exists i :: 0 <= i < |params| && k == params[i] + |words[i]|)
  {
    forall k | 0 <= k < |line| && buffer[k] != line[k] && buffer[k] != cut[k]
      ensures exists i :: 0 <= i < |params| && k == params[i] + |words[i]|
    {
      var i :| 0 <= i < |ends| && ends[i] == k;
    }
  }

  /**
    decode_line(line, params, maxParams): the mutated buffer and the start
    index of every word.
   */
  method DecodeLine(line: seq<char>, maxParams: int) returns (buffer: seq<char>, params: seq<nat>)
    requires NUL in line
    ensures |buffer| == |line|
    ensures |params| == |Words(line, maxParams)|
    ensures |params| <= if maxParams < 0 then 0 else maxParams
    // every word is a NUL-terminated slice of the mutated buffer, copied from the input;
    // words lie inside the comment-stripped text
    ensures forall i :: 0 <= i < |params| ==>
              TerminatedAt(buffer, params[i], Words(line, maxParams)[i])
              && line[params[i]..params[i] + |Words(line, maxParams)[i]|] == Words(line, maxParams)[i]
              && CString(buffer[params[i]..]) == Words(line, maxParams)[i]
              && params[i] + |Words(line, maxParams)[i]| <= |StripComments(CString(line))|
    // left to right, without overlap
    ensures forall i, j :: 0 <= i < j < |params| ==>
              params[i] + |Words(line, maxParams)[i]| < params[j]
    // nothing at or past the original terminator changes
    ensures forall k :: StrLen(line) <= k < |line| ==> buffer[k] == line[k]
    // the only changes: NUL over the first "//", over the cut '#', and after each word
    ensures forall k :: 0 <= k < |line| && buffer[k] != line[k] ==>
              buffer[k] == NUL
              && (k == FindSlashSlash(CString(line))
                  || k == |StripComments(CString(line))|
                  || exists i :: 0 <= i < |params| && k == params[i] + |Words(line, maxParams)[i]|)
  {
    ghost var s := StripComments(CString(line));
    var cut := CutComments(line);
    ghost var words: seq<string>, ends: seq<nat>;
    buffer, params, words, ends := SplitWords(cut, s, maxParams);
    DecodedWords(line, maxParams, cut, buffer, params, words, ends);
    DecodedChanges(line, maxParams, cut, buffer, params, words, ends);
  }
}
