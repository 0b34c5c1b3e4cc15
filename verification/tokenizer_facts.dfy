/**
  What the tokenizer's word scan amounts to, stated against an independent
  reference: on text without terminator, CR or LF, the words are the
  non-empty fields between blanks, at most max of them, and the same holds
  of a line that ends in LF or CR LF as fgets returns it. Also the effect of
  the two comment markers on a line, and a few worked lines.
 */
module TokenizerFacts {
  import opened CStrings
  import opened Tokenizer

  /** The fields of t between blanks, empty ones included (the split of "a  b" is "a", "", "b"). */
  function Fields(t: string): (fs: seq<string>)
    ensures |fs| > 0
  {
    if |t| == 0 then [""]
    else
      var rest := Fields(t[1..]);
      if IsBlank(t[0]) then [""] + rest
      else [[t[0]] + rest[0]] + rest[1..]
  }

  /** The non-empty strings of ws, in order. */
  function NonEmpty(ws: seq<string>): (r: seq<string>)
    ensures |r| <= |ws|
    ensures forall i :: 0 <= i < |r| ==> r[i] != ""
  {
    if |ws| == 0 then []
    else if ws[0] == "" then NonEmpty(ws[1..])
    else [ws[0]] + NonEmpty(ws[1..])
  }

  /** The first max elements of ws (all of them when there are fewer). */
  function Take(ws: seq<string>, max: int): (r: seq<string>)
    ensures r <= ws
    ensures |r| == if max <= 0 then 0 else if max < |ws| then max else |ws|
  {
    if max <= 0 then [] else if max < |ws| then ws[..max] else ws
  }

  /** Text the scan treats as one line: no terminator, CR or LF inside it. */
  predicate PlainText(t: string) {
    forall k :: 0 <= k < |t| ==> t[k] != NUL && t[k] != '\r' && t[k] != '\n'
  }

  /** A blank at e closes a field: the fields from e are an empty one, then those after e. */
  lemma FieldsAtBlank(t: string, e: nat)
    requires e < |t| && IsBlank(t[e])
    ensures Fields(t[e..]) == [""] + Fields(t[e + 1..])
  {
    assert t[e..][1..] == t[e + 1..];
  }

  /** Filtering keeps a non-empty head. */
  lemma NonEmptyCons(w: string, ws: seq<string>)
    requires w != ""
    ensures NonEmpty([w] + ws) == [w] + NonEmpty(ws)
  {
    assert ([w] + ws)[1..] == ws;
  }

  /** Skipping the blanks from pos to q loses no non-empty field. */
  lemma {:induction false} NonEmptySkipsBlanks(t: string, pos: nat)
    requires pos <= |t|
    ensures NonEmpty(Fields(t[pos..])) == NonEmpty(Fields(t[SkipBlanksFrom(t, pos)..]))
    decreases |t| - pos
  {
    if pos < |t| && IsBlank(t[pos]) {
      FieldsAtBlank(t, pos);
      assert ([""] + Fields(t[pos + 1..]))[1..] == Fields(t[pos + 1..]);
      NonEmptySkipsBlanks(t, pos + 1);
    }
  }

  /**
    From a character k inside the word that ends at e, the first field is
    the rest of the word and the others are those after the ending blank.
   */
  lemma {:induction false} FieldsOfWord(t: string, k: nat, e: nat)
    requires k <= e <= |t| && forall j :: k <= j < e ==> !EndsWord(t[j])
    requires e == |t| || IsBlank(t[e])
    ensures Fields(t[k..]) == [t[k..e]] + Fields(t[e..])[1..]
    decreases e - k
  {
    if k == e {
      if e < |t| {
        FieldsAtBlank(t, e);
      }
    } else {
      assert t[k..][1..] == t[k + 1..];
      FieldsOfWord(t, k + 1, e);
      assert [t[k]] + t[k + 1..e] == t[k..e];
    }
  }

  /** The first max fields of a sequence that starts with a kept word. */
  lemma TakeCons(w: string, ws: seq<string>, max: int)
    requires max > 0
    ensures Take([w] + ws, max) == [w] + Take(ws, max - 1)
  {
    if max - 1 < |ws| {
      assert ([w] + ws)[..max] == [w] + ws[..max - 1];
    }
  }

  /** The scan's first word q..e on plain text is the first non-empty field from q on. */
  lemma FirstField(t: string, q: nat)
    requires PlainText(t) && q < |t| && !IsBlank(t[q])
    ensures var e := WordEndFrom(t, q);
      && (e == |t| ==> NonEmpty(Fields(t[q..])) == [t[q..e]])
      && (e < |t| ==> NonEmpty(Fields(t[q..])) == [t[q..e]] + NonEmpty(Fields(t[e + 1..])))
  {
    var e := WordEndFrom(t, q);
    FieldsOfWord(t, q, e);
    if e == |t| {
      assert Fields(t[e..]) == [""];
      NonEmptyCons(t[q..e], []);
    } else {
      FieldsAtBlank(t, e);
      assert Fields(t[e..])[1..] == Fields(t[e + 1..]);
      NonEmptyCons(t[q..e], Fields(t[e + 1..]));
    }
  }

  /** The scan's step at a word, given what it finds after that word. */
  lemma TokensFromFieldsWord(t: string, pos: nat, max: int)
    requires PlainText(t) && pos <= |t| && max > 0
    requires var q := SkipBlanksFrom(t, pos); q < |t|
    requires var e := WordEndFrom(t, SkipBlanksFrom(t, pos));
      e < |t| ==> TokensFrom(t, e + 1, max - 1) == Take(NonEmpty(Fields(t[e + 1..])), max - 1)
    ensures TokensFrom(t, pos, max) == Take(NonEmpty(Fields(t[pos..])), max)
  {
    var q := SkipBlanksFrom(t, pos);
    var e := WordEndFrom(t, q);
    NonEmptySkipsBlanks(t, pos);
    FirstField(t, q);
    if e == |t| {
      TakeCons(t[q..e], [], max);
    } else {
      TakeCons(t[q..e], NonEmpty(Fields(t[e + 1..])), max);
    }
  }

  /**
    On plain text the scan from pos returns the first max non-empty fields
    between blanks of what follows pos.
   */
  lemma {:induction false} TokensFromFields(t: string, pos: nat, max: int)
    requires PlainText(t) && pos <= |t|
    ensures TokensFrom(t, pos, max) == Take(NonEmpty(Fields(t[pos..])), max)
    decreases |t| - pos
  {
    var q := SkipBlanksFrom(t, pos);
    if max > 0 && q < |t| {
      var e := WordEndFrom(t, q);
      if e < |t| {
        TokensFromFields(t, e + 1, max - 1);
      }
      TokensFromFieldsWord(t, pos, max);
    } else if max > 0 {
      NonEmptySkipsBlanks(t, pos);
      assert t[q..] == "";
    }
  }

  /** On plain text the words are the first max non-empty blank-separated fields. */
  lemma TokensAreFields(t: string, max: int)
    requires PlainText(t)
    ensures Tokens(t, max) == Take(NonEmpty(Fields(t)), max)
  {
    TokensFromFields(t, 0, max);
    assert t[0..] == t;
  }

  /** The line end fgets keeps: LF, or CR LF. */
  predicate LineEnd(x: string) {
    x == "\n" || x == "\r\n"
  }

  /** A line end is not blank, so the blank skip stops at it. */
  lemma {:induction false} SkipBlanksToLineEnd(p: string, x: string, pos: nat)
    requires LineEnd(x) && pos <= |p|
    ensures SkipBlanksFrom(p + x, pos) == SkipBlanksFrom(p, pos)
    decreases |p| - pos
  {
    var t := p + x;
    if pos < |p| {
      assert t[pos] == p[pos];
      if IsBlank(p[pos]) {
        SkipBlanksToLineEnd(p, x, pos + 1);
      }
    } else {
      assert t[pos] == x[0];
    }
  }

  /** A line end ends a word, so a word runs up to it and no further. */
  lemma {:induction false} WordEndToLineEnd(p: string, x: string, q: nat)
    requires LineEnd(x) && q <= |p|
    ensures WordEndFrom(p + x, q) == WordEndFrom(p, q)
    decreases |p| - q
  {
    var t := p + x;
    if q < |p| {
      assert t[q] == p[q];
      if !EndsWord(p[q]) {
        WordEndToLineEnd(p, x, q + 1);
      }
    } else {
      assert t[q] == x[0];
    }
  }

  /** Right after the last character of the line the scan finds no word. */
  lemma LineEndStops(p: string, x: string, max: int)
    requires LineEnd(x)
    ensures TokensFrom(p + x, |p| + 1, max) == []
  {
    var t := p + x;
    assert |p| + 1 == |t| || t[|p| + 1] == '\n';
  }

  /** One step of the scan at a word: the word, then what the scan finds after it. */
  lemma TokensFromWord(t: string, pos: nat, max: int, q: nat, e: nat)
    requires pos <= |t| && max > 0
    requires q == SkipBlanksFrom(t, pos) && q < |t| && !EndsWord(t[q]) && e == WordEndFrom(t, q)
    ensures e == |t| || t[e] == NUL ==> TokensFrom(t, pos, max) == [t[q..e]]
    ensures e < |t| && t[e] != NUL ==> TokensFrom(t, pos, max) == [t[q..e]] + TokensFrom(t, e + 1, max - 1)
  {
  }

  /** A word of p that ends before the line end: the scan of p + x takes the same step. */
  lemma WordBeforeLineEnd(p: string, x: string, pos: nat, max: int, q: nat, e: nat)
    requires LineEnd(x) && pos <= |p| && max > 0
    requires q == SkipBlanksFrom(p, pos) && q < |p| && !EndsWord(p[q]) && e == WordEndFrom(p, q) && e < |p|
    requires p[e] != NUL ==> TokensFrom(p + x, e + 1, max - 1) == TokensFrom(p, e + 1, max - 1)
    ensures TokensFrom(p + x, pos, max) == TokensFrom(p, pos, max)
  {
    var t := p + x;
    SkipBlanksToLineEnd(p, x, pos);
    WordEndToLineEnd(p, x, q);
    assert t[q] == p[q] && t[e] == p[e];
    assert t[q..e] == p[q..e];
    TokensFromWord(t, pos, max, q, e);
    TokensFromWord(p, pos, max, q, e);
  }

  /** The last word of p, ended by the line end: the scan of p + x stops after it too. */
  lemma WordAtLineEnd(p: string, x: string, pos: nat, max: int, q: nat)
    requires LineEnd(x) && pos <= |p| && max > 0
    requires q == SkipBlanksFrom(p, pos) && q < |p| && !EndsWord(p[q]) && WordEndFrom(p, q) == |p|
    ensures TokensFrom(p + x, pos, max) == TokensFrom(p, pos, max)
  {
    var t := p + x;
    SkipBlanksToLineEnd(p, x, pos);
    WordEndToLineEnd(p, x, q);
    assert t[q] == p[q] && t[|p|] == x[0];
    assert t[q..|p|] == p[q..|p|];
    TokensFromWord(t, pos, max, q, |p|);
    TokensFromWord(p, pos, max, q, |p|);
    LineEndStops(p, x, max - 1);
  }

  /** No word of p from pos on: the scan of p + x finds none either. */
  lemma NoWordBeforeLineEnd(p: string, x: string, pos: nat, max: int, q: nat)
    requires LineEnd(x) && pos <= |p| && max > 0
    requires q == SkipBlanksFrom(p, pos) && (q == |p| || EndsWord(p[q]))
    ensures TokensFrom(p + x, pos, max) == TokensFrom(p, pos, max) == []
  {
    SkipBlanksToLineEnd(p, x, pos);
    assert (p + x)[q] == if q < |p| then p[q] else x[0];
  }

  /**
    The words of a line with its line end are those of the line without it:
    the line end either stops the scan at a word position or ends the last word.
   */
  lemma {:induction false} TokensFromLineEnd(p: string, x: string, pos: nat, max: int)
    requires LineEnd(x) && pos <= |p|
    ensures TokensFrom(p + x, pos, max) == TokensFrom(p, pos, max)
    decreases |p| - pos, 1
  {
    if max > 0 {
      var q := SkipBlanksFrom(p, pos);
      if q == |p| || EndsWord(p[q]) {
        NoWordBeforeLineEnd(p, x, pos, max, q);
      } else if WordEndFrom(p, q) == |p| {
        WordAtLineEnd(p, x, pos, max, q);
      } else {
        InnerWordBeforeLineEnd(p, x, pos, max, q, WordEndFrom(p, q));
      }
    }
  }

  /** A word of p that ends before the line end, and the scan after it. */
  lemma {:induction false} InnerWordBeforeLineEnd(p: string, x: string, pos: nat, max: int, q: nat, e: nat)
    requires LineEnd(x) && pos <= |p| && max > 0
    requires q == SkipBlanksFrom(p, pos) && q < |p| && !EndsWord(p[q]) && e == WordEndFrom(p, q) && e < |p|
    ensures TokensFrom(p + x, pos, max) == TokensFrom(p, pos, max)
    decreases |p| - pos, 0
  {
    if p[e] != NUL {
      TokensFromLineEnd(p, x, e + 1, max - 1);
    }
    WordBeforeLineEnd(p, x, pos, max, q, e);
  }

  /**
    A line as fgets returns it, ending in LF or CR LF: its words are the
    first max non-empty blank-separated fields of the text before the line end.
   */
  lemma TokensAreFieldsOfLine(p: string, max: int)
    requires PlainText(p)
    ensures Tokens(p + "\n", max) == Take(NonEmpty(Fields(p)), max)
    ensures Tokens(p + "\r\n", max) == Take(NonEmpty(Fields(p)), max)
  {
    TokensFromLineEnd(p, "\n", 0, max);
    TokensFromLineEnd(p, "\r\n", 0, max);
    TokensAreFields(p, max);
  }

  /** Text made only of blanks has no words. */
  lemma {:induction false} BlankTextHasNoWords(t: string, pos: nat, max: int)
    requires pos <= |t| && forall k :: pos <= k < |t| ==> IsBlank(t[k])
    ensures TokensFrom(t, pos, max) == []
  {
    assert SkipBlanksFrom(t, pos) == |t|;
  }

  // ---------------------------------------------------------------------------
  // Comments
  // ---------------------------------------------------------------------------

  /** Text with no comment marker in it: no "//" and no '#'. */
  predicate Uncommented(t: string) {
    (forall k :: 0 <= k < |t| ==> t[k] != '#') && forall k :: 0 <= k + 1 < |t| ==> !SlashPairAt(t, k)
  }

  /** Everything from a "//" on is dropped, whatever follows it. */
  lemma SlashCommentDropped(t: string, c: string)
    requires Uncommented(t) && (|t| == 0 || t[|t| - 1] != '/')
    ensures StripComments(t + "//" + c) == t
  {
    var u := t + "//" + c;
    forall k | 0 <= k < |t| ensures !SlashPairAt(u, k) {
      if k + 1 < |t| {
        assert !SlashPairAt(t, k);
      }
    }
    assert SlashPairAt(u, |t|);
    assert u[..|t|] == t;
  }

  /** A '#' that does not open "#define" drops itself and everything after it. */
  lemma HashCommentDropped(t: string, c: string)
    requires Uncommented(t)
    requires !(|c| >= 6 && c[..6] == "define")
    ensures StripComments(t + "#" + c) == t
  {
    var u := t + "#" + c;
    forall k | 0 <= k <= |t| ensures !SlashPairAt(u, k) {
      if k + 1 < |t| {
        assert !SlashPairAt(t, k);
      }
    }
    var f := FindSlashSlash(u);
    assert f > |t|;
    var t1 := u[..f];
    assert t1[|t|] == '#';
    assert forall k :: 0 <= k < |t| ==> t1[k] == t[k];
    assert FindHash(t1) == |t|;
    assert t1[..|t|] == t;
  }

  /** A "#define" is kept as ordinary text. */
  lemma DefineKept(t: string, c: string)
    requires Uncommented(t) && Uncommented(c)
    requires |c| == 0 || c[0] != '/'
    ensures StripComments(t + "#define" + c) == t + "#define" + c
  {
    var u := t + "#define" + c;
    forall k | 0 <= k < |u| ensures !SlashPairAt(u, k) {
      if k + 1 < |t| {
        assert !SlashPairAt(t, k);
      } else if |t| + 7 <= k && k + 1 < |u| {
        assert u[k] == c[k - |t| - 7] && u[k + 1] == c[k + 1 - |t| - 7];
        assert !SlashPairAt(c, k - |t| - 7);
      }
    }
    assert FindSlashSlash(u) == |u|;
    assert u[..|u|] == u;
    assert u[|t|] == '#';
    assert forall k :: 0 <= k < |t| ==> u[k] == t[k];
    assert FindHash(u) == |t|;
    assert u[|t| + 1..|t| + 7] == "define";
  }

  /** A line with no comment marker is split whole. */
  lemma UncommentedKept(t: string)
    requires Uncommented(t)
    ensures StripComments(t) == t
  {
    var s := StripComments(t);
    assert !SlashPairAt(t, |s|);
  }

  /** After a kept "#define", a "//" still cuts the line. */
  lemma SlashAfterDefine(t: string, c: string, d: string)
    requires Uncommented(t) && Uncommented(c) && (|c| == 0 || c[|c| - 1] != '/')
    ensures StripComments(t + "#define" + c + "//" + d) == t + "#define" + c
  {
    var v := t + "#define" + c;
    var u := v + "//" + d;
    forall k | 0 <= k < |v| ensures !SlashPairAt(u, k) {
      if k + 1 < |t| {
        assert !SlashPairAt(t, k);
      } else if |t| + 7 <= k && k + 1 < |v| {
        assert u[k] == c[k - |t| - 7] && u[k + 1] == c[k + 1 - |t| - 7];
        assert !SlashPairAt(c, k - |t| - 7);
      }
    }
    assert SlashPairAt(u, |v|);
    assert FindSlashSlash(u) == |v|;
    assert u[..|v|] == v;
    assert v[|t|] == '#';
    assert forall k :: 0 <= k < |t| ==> v[k] == t[k];
    assert FindHash(v) == |t|;
    assert v[|t| + 1..|t| + 7] == "define";
  }

  /** Once the first '#' opens "#define", a later '#' is ordinary text. */
  lemma HashAfterDefine(t: string, c: string, d: string)
    requires Uncommented(t) && Uncommented(c)
    requires forall k :: 0 <= k < |d| ==> !SlashPairAt(d, k)
    ensures StripComments(t + "#define" + c + "#" + d) == t + "#define" + c + "#" + d
  {
    var u := t + "#define" + c + "#" + d;
    var m := |t| + 7 + |c|;
    forall k | 0 <= k < |u| ensures !SlashPairAt(u, k) {
      if k + 1 < |t| {
        assert !SlashPairAt(t, k);
      } else if |t| + 7 <= k && k + 1 < m {
        assert u[k] == c[k - |t| - 7] && u[k + 1] == c[k + 1 - |t| - 7];
        assert !SlashPairAt(c, k - |t| - 7);
      } else if m < k {
        assert u[k] == d[k - m - 1] && (k + 1 < |u| ==> u[k + 1] == d[k - m]);
        assert !SlashPairAt(d, k - m - 1);
      }
    }
    assert FindSlashSlash(u) == |u|;
    assert u[..|u|] == u;
    assert u[|t|] == '#';
    assert forall k :: 0 <= k < |t| ==> u[k] == t[k];
    assert FindHash(u) == |t|;
    assert u[|t| + 1..|t| + 7] == "define";
  }

  // ---------------------------------------------------------------------------
  // Worked lines
  // ---------------------------------------------------------------------------

  /** A word starting at q that runs up to a character ending it at e ends at e. */
  lemma WordEndAt(t: string, q: nat, e: nat)
    requires q <= e <= |t| && forall k :: q <= k < e ==> !EndsWord(t[k])
    requires e == |t| || EndsWord(t[e])
    ensures WordEndFrom(t, q) == e
  {
  }

  /** The scan of the text "w1 w2" plus trailing blanks: two words w1 and w2. */
  lemma TwoWords(t: string, w1: string, w2: string, tail: string)
    requires t == w1 + " " + w2 + tail
    requires IsWord(w1) && IsWord(w2) && forall k :: 0 <= k < |tail| ==> IsBlank(tail[k])
    ensures Tokens(t, 20) == [w1, w2]
  {
    var e1 := |w1|;
    var q2 := e1 + 1;
    var e2 := q2 + |w2|;
    assert forall k :: 0 <= k < e1 ==> t[k] == w1[k];
    assert forall k :: q2 <= k < e2 ==> t[k] == w2[k - q2];
    assert forall k :: e2 <= k < |t| ==> t[k] == tail[k - e2];
    assert t[e1] == ' ';
    assert e2 < |t| ==> t[e2] == tail[0];
    WordEndAt(t, 0, e1);
    WordEndAt(t, q2, e2);
    assert t[0..e1] == w1 && t[q2..e2] == w2;
    assert !IsBlank(t[0]) && !IsBlank(t[q2]);
    if e2 < |t| {
      BlankTextHasNoWords(t, e2 + 1, 18);
      assert TokensFrom(t, q2, 19) == [w2] + [];
    } else {
      assert TokensFrom(t, q2, 19) == [w2];
    }
    assert TokensFrom(t, 0, 20) == [w1] + TokensFrom(t, q2, 19);
  }

  /** A "#define" line is kept whole: its words are "#define" and the name. */
  lemma DefineLineExample(line: seq<char>)
    requires line == "#define FOO\0"
    ensures Words(line, 20) == ["#define", "FOO"]
  {
    var t := line[0..11];
    CStringOfTerminated(line, 0, 11);
    assert line[0..] == line;
    assert CString(line) == t;
    assert t == "" + "#define" + " FOO";
    DefineKept("", " FOO");
    assert StripComments(t) == t;
    assert t == "#define" + " " + "FOO" + "";
    TwoWords(t, "#define", "FOO", "");
  }

  /** A line whose first '#' opens no "#define" is a comment: it has no words. */
  lemma HashCommentExample(line: seq<char>)
    requires line == "# comment\0"
    ensures Words(line, 20) == []
  {
    CStringOfTerminated(line, 0, 9);
    assert line[0..] == line && line[0..9] == "" + "#" + " comment";
    assert " comment"[0] != "define"[0];
    HashCommentDropped("", " comment");
  }

  /** Words after "//" are dropped. */
  lemma SlashCommentExample(line: seq<char>)
    requires line == "a b // c d\0"
    ensures Words(line, 20) == ["a", "b"]
  {
    CStringOfTerminated(line, 0, 10);
    assert line[0..] == line && line[0..10] == "a b " + "//" + " c d";
    SlashCommentDropped("a b ", " c d");
    TwoWords("a b ", "a", "b", " ");
  }
}
