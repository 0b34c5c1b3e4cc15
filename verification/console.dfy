/**
  The command console: a line is split into words, the first word names a
  command in a table, and the command's handler runs on all the words. A
  script is a sequence of lines run one after another.

  A handler is an abstract function. Whatever it does to the rest of the
  program (printing, sending packets) is threaded through an arbitrary state
  `S`; it receives argc and argv and yields its status.
 */
module Console {
  import opened Wrappers
  import opened CStrings
  import opened Tokenizer

  /** EINVAL on Linux. */
  const EINVAL: int := 22

  /** parse_line decodes at most this many words. */
  const MAX_ARGS: int := 20

  /** The reserved word that lists the commands instead of running one. */
  const HELP: string := "help"

  /** One row of the command table: a C string name and its handler. */
  datatype Entry<!S> = Entry(name: string, run: (S, nat, seq<string>) -> (S, int))

  /** What running one line did: the state after it, its status, and which entry ran, if any. */
  datatype Outcome<S> = Outcome(state: S, status: int, called: Option<nat>)

  /** The first entry, in table order, whose name is exactly `name`. */
  function LookupFrom<S>(table: seq<Entry<S>>, name: string, from: nat): (r: Option<nat>)
    requires from <= |table|
    ensures r.Some? ==> from <= r.value < |table| && table[r.value].name == name
                        && forall j :: from <= j < r.value ==> table[j].name != name
    ensures r.None? <==> forall j :: from <= j < |table| ==> table[j].name != name
    decreases |table| - from
  {
    if from == |table| then None
    else if table[from].name == name then Some(from)
    else LookupFrom(table, name, from + 1)
  }

  function Lookup<S>(table: seq<Entry<S>>, name: string): (r: Option<nat>)
    ensures r.Some? ==> r.value < |table| && table[r.value].name == name
                        && forall j :: 0 <= j < r.value ==> table[j].name != name
    ensures r.None? <==> forall j :: 0 <= j < |table| ==> table[j].name != name
  {
    LookupFrom(table, name, 0)
  }

  /**
    The decision parse_line takes on the decoded words: no words or "help"
    runs nothing and succeeds; otherwise the first entry with that exact name
    runs on all the words and its status is passed back unchanged; an unknown
    name fails with -EINVAL and runs nothing.
   */
  function Dispatch<S>(st: S, args: seq<string>, table: seq<Entry<S>>): (o: Outcome<S>)
    ensures o.called.None? <==>
              |args| == 0 || args[0] == HELP || forall j :: 0 <= j < |table| ==> table[j].name != args[0]
    ensures o.called.None? ==> o.state == st
    ensures o.called.None? && (|args| == 0 || args[0] == HELP) ==> o.status == 0
    ensures o.called.None? && |args| > 0 && args[0] != HELP ==> o.status == -EINVAL
    ensures o.called.Some? ==>
              var i := o.called.value;
              |args| > 0 && i < |table| && table[i].name == args[0]
              && (forall j :: 0 <= j < i ==> table[j].name != args[0])
              && table[i].run(st, |args|, args) == (o.state, o.status)
    // an entry named "help" is shadowed by the reserved word
    ensures o.called.Some? ==> table[o.called.value].name != HELP
  {
    if |args| == 0 || args[0] == HELP then Outcome(st, 0, None)
    else
      match Lookup(table, args[0])
      case None => Outcome(st, -EINVAL, None)
      case Some(i) =>
        var (st', e) := table[i].run(st, |args|, args);
        Outcome(st', e, Some(i))
  }

  /**
    The first half of parse_line: decode the line in place with a cap of
    MAX_ARGS words and read each word back from the buffer as a C string.
   */
  method DecodeArgs(line: seq<char>) returns (args: seq<string>)
    requires NUL in line
    ensures args == Words(line, MAX_ARGS)
  {
    var buffer, params := DecodeLine(line, MAX_ARGS);
    args := seq(|params|, i requires 0 <= i < |params| => CString(buffer[params[i]..]));
  }

  /** parse_line: decode the line, then dispatch on its words. */
  method ParseLine<S>(st: S, line: seq<char>, table: seq<Entry<S>>) returns (o: Outcome<S>)
    requires NUL in line
    ensures o == Dispatch(st, Words(line, MAX_ARGS), table)
  {
    var args := DecodeArgs(line);
    o := Dispatch(st, args, table);
  }

  // ---------------------------------------------------------------------------
  // Scripts
  // ---------------------------------------------------------------------------

  /** The state after a run of outcomes that started in st. */
  function After<S>(st: S, os: seq<Outcome<S>>): S {
    if |os| == 0 then st else os[|os| - 1].state
  }

  /**
    Outcomes of running every line of a script, given as each line's words,
    in order: each line runs in the state the previous one left.
   */
  function Trace<S>(st: S, script: seq<seq<string>>, table: seq<Entry<S>>): (os: seq<Outcome<S>>)
    ensures |os| == |script|
  {
    if |script| == 0 then []
    else
      var prev := Trace(st, script[..|script| - 1], table);
      prev + [Dispatch(After(st, prev), script[|script| - 1], table)]
  }

  /** Running one more line appends its outcome, taken in the state the earlier lines left. */
  lemma TraceSnoc<S>(st: S, script: seq<seq<string>>, table: seq<Entry<S>>, i: nat)
    requires i < |script|
    ensures Trace(st, script[..i + 1], table)
            == Trace(st, script[..i], table)
               + [Dispatch(After(st, Trace(st, script[..i], table)), script[i], table)]
  {
    var pre := script[..i + 1];
    assert pre[..|pre| - 1] == script[..i];
    assert pre[|pre| - 1] == script[i];
  }

  /** Each line runs in the state the previous lines left. */
  lemma TraceStep<S>(st: S, script: seq<seq<string>>, table: seq<Entry<S>>, i: nat)
    requires i < |script|
    ensures Trace(st, script, table)[i]
            == Dispatch(After(st, Trace(st, script[..i], table)), script[i], table)
  {
    TracePrefix(st, script, table, i + 1);
    TraceSnoc(st, script, table, i);
    assert Trace(st, script, table)[i] == Trace(st, script[..i + 1], table)[i];
  }

  /** Running a prefix of a script gives a prefix of its outcomes. */
  lemma {:induction false} TracePrefix<S>(st: S, script: seq<seq<string>>, table: seq<Entry<S>>, m: nat)
    requires m <= |script|
    ensures Trace(st, script[..m], table) == Trace(st, script, table)[..m]
    decreases |script|
  {
    if m < |script| {
      var init := script[..|script| - 1];
      assert init[..m] == script[..m];
      TracePrefix(st, init, table, m);
    } else {
      assert script[..m] == script;
    }
  }

  /** The first line whose status is negative, if any. */
  function FirstFailure<S>(os: seq<Outcome<S>>): (r: Option<nat>)
    ensures r.Some? ==> r.value < |os| && os[r.value].status < 0
                        && forall j :: 0 <= j < r.value ==> os[j].status >= 0
    ensures r.None? <==> forall j :: 0 <= j < |os| ==> os[j].status >= 0
  {
    if |os| == 0 then None
    else if os[0].status < 0 then Some(0)
    else match FirstFailure(os[1..])
      case None => None
      case Some(k) => Some(k + 1)
  }

  /** Some line's status is non-zero. */
  predicate AnyNonZero<S>(os: seq<Outcome<S>>) {
    exists j :: 0 <= j < |os| && os[j].status != 0
  }

  /**
    The loop of parse_file over a script given as each line's words. With
    contOnError == 0 the first negative status is returned and no later line
    runs. Otherwise every line runs and the result is 1 exactly when some
    line's status was non-zero, else 0.
   */
  method RunScript<S>(st: S, script: seq<seq<string>>, contOnError: int, table: seq<Entry<S>>)
    returns (st': S, retval: int)
    ensures var os := Trace(st, script, table);
            contOnError == 0 && FirstFailure(os).Some? ==>
              var k := FirstFailure(os).value;
              retval == os[k].status && st' == os[k].state
    ensures var os := Trace(st, script, table);
            contOnError != 0 || FirstFailure(os).None? ==>
              st' == After(st, os) && retval == (if AnyNonZero(os) then 1 else 0)
  {
    retval := 0;
    st' := st;
    var i := 0;
    ghost var os: seq<Outcome<S>> := [];
    while i < |script|
      invariant i <= |script|
      invariant os == Trace(st, script[..i], table)
      invariant st' == After(st, os)
      invariant contOnError == 0 ==> FirstFailure(os).None?
      invariant retval == if AnyNonZero(os) then 1 else 0
    {
      var o := Dispatch(st', script[i], table);
      TraceSnoc(st, script, table, i);
      ghost var before := os;
      os := os + [o];
      st' := o.state;
      if o.status < 0 && contOnError == 0 {
        ScriptAborts(st, script, table, i, before, o);
        retval := o.status;
        return;
      }
      retval := if retval != 0 || o.status != 0 then 1 else 0;
      AnyNonZeroSnoc(before, o);
      if contOnError == 0 {
        NoFailureSnoc(before, o);
      }
      i := i + 1;
    }
    assert script[..i] == script;
  }

  /** The words of every line of a script. */
  function Decoded(lines: seq<seq<char>>): (script: seq<seq<string>>)
    ensures |script| == |lines|
  {
    seq(|lines|, i requires 0 <= i < |lines| => Words(lines[i], MAX_ARGS))
  }

  /** Decode every line buffer of a script in place. */
  method DecodeScript(lines: seq<seq<char>>) returns (script: seq<seq<string>>)
    requires forall i :: 0 <= i < |lines| ==> NUL in lines[i]
    ensures script == Decoded(lines)
  {
    script := [];
    var i := 0;
    while i < |lines|
      invariant i <= |lines| && script == Decoded(lines[..i])
    {
      var args := DecodeArgs(lines[i]);
      script := script + [args];
      i := i + 1;
    }
    assert lines[..i] == lines;
  }

  /**
    parse_file over a script given as its line buffers. Decoding a line
    depends on nothing a handler can change, so every line is decoded first
    and the words are then run in order.
   */
  method ParseFile<S>(st: S, lines: seq<seq<char>>, contOnError: int, table: seq<Entry<S>>)
    returns (st': S, retval: int)
    requires forall i :: 0 <= i < |lines| ==> NUL in lines[i]
    ensures var os := Trace(st, Decoded(lines), table);
            contOnError == 0 && FirstFailure(os).Some? ==>
              var k := FirstFailure(os).value;
              retval == os[k].status && st' == os[k].state
    ensures var os := Trace(st, Decoded(lines), table);
            contOnError != 0 || FirstFailure(os).None? ==>
              st' == After(st, os) && retval == (if AnyNonZero(os) then 1 else 0)
  {
    var script := DecodeScript(lines);
    st', retval := RunScript(st, script, contOnError, table);
  }

  lemma AnyNonZeroSnoc<S>(os: seq<Outcome<S>>, o: Outcome<S>)
    ensures AnyNonZero(os + [o]) <==> AnyNonZero(os) || o.status != 0
  {
    if o.status != 0 {
      assert (os + [o])[|os|] == o;
    }
    if AnyNonZero(os) {
      var j :| 0 <= j < |os| && os[j].status != 0;
      assert (os + [o])[j] == os[j];
    }
  }

  lemma NoFailureSnoc<S>(os: seq<Outcome<S>>, o: Outcome<S>)
    requires FirstFailure(os).None? && o.status >= 0
    ensures FirstFailure(os + [o]).None?
  {
    var os' := os + [o];
    assert forall j :: 0 <= j < |os'| ==> os'[j].status >= 0 by {
      forall j | 0 <= j < |os'| ensures os'[j].status >= 0 {
        if j < |os| { assert os'[j] == os[j]; }
      }
    }
  }

  /** A negative status after a prefix without one is the first failure. */
  lemma FirstFailureAt<S>(os: seq<Outcome<S>>, i: nat, before: seq<Outcome<S>>, o: Outcome<S>)
    requires i < |os| && os[..i + 1] == before + [o]
    requires FirstFailure(before).None? && o.status < 0
    ensures FirstFailure(os) == Some(i)
  {
    assert os[i] == o;
    var r := FirstFailure(os);
    if r != Some(i) {
      assert false;
    }
  }

  /** When the line just run is the first to fail, it is the first failure of the whole script. */
  lemma ScriptAborts<S>(st: S, script: seq<seq<string>>, table: seq<Entry<S>>, i: nat,
                        before: seq<Outcome<S>>, o: Outcome<S>)
    requires i < |script|
    requires Trace(st, script[..i + 1], table) == before + [o]
    requires FirstFailure(before).None? && o.status < 0
    ensures FirstFailure(Trace(st, script, table)) == Some(i)
    ensures Trace(st, script, table)[i] == o
  {
    var os := Trace(st, script, table);
    TracePrefix(st, script, table, i + 1);
    FirstFailureAt(os, i, before, o);
    assert os[i] == (before + [o])[i];
  }
}
