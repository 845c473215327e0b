/** The message `TryFrom<&[u8]>` produces is always in normal form, whatever the
    document: trimmed lines, no blank line first or last, no two blank lines in a
    row. Hence writing a parsed description and parsing it again changes nothing. */
module DescriptionNormal {
  import opened Wrappers
  import opened Bytes
  import opened Description
  import opened DescriptionScan
  import opened DescriptionRoundTrip

  /** Message lines that are also valid UTF-8. */
  predicate TextLines(ls: seq<seq<byte>>) {
    forall j :: 0 <= j < |ls| ==> MessageLine(ls[j]) && ValidUtf8(ls[j])
  }

  /** The message so far: nothing before message mode; in message mode, lines in the
      parser's shape whose last one is blank exactly when a blank run is pending. */
  predicate Accumulated(st: ScanState, ls: seq<seq<byte>>) {
    if !st.consumingMessage then st.message == [] && st.consecutiveEmpty == 0 && ls == []
    else
      && st.message == JoinLines(ls)
      && TextLines(ls)
      && NoBlankRun(ls)
      && (ls != [] ==> ls[0] != [])
      && (st.consecutiveEmpty == 0 <==> ls != [] && ls[|ls| - 1] != [])
  }

  lemma TextLinesSnoc(ls: seq<seq<byte>>, x: seq<byte>)
    requires TextLines(ls) && MessageLine(x) && ValidUtf8(x)
    ensures TextLines(ls + [x])
  {
    forall j | 0 <= j < |ls + [x]| ensures MessageLine((ls + [x])[j]) && ValidUtf8((ls + [x])[j]) {
      if j < |ls| { assert (ls + [x])[j] == ls[j]; }
    }
  }

  lemma NoBlankRunSnoc(ls: seq<seq<byte>>, x: seq<byte>)
    requires NoBlankRun(ls) && (x == [] ==> ls != [] && ls[|ls| - 1] != [])
    ensures NoBlankRun(ls + [x])
  {
    var ls' := ls + [x];
    forall j | 0 < j < |ls'| && ls'[j] == [] ensures ls'[j - 1] != [] {
      if j < |ls| {
        assert ls'[j] == ls[j] && ls'[j - 1] == ls[j - 1];
      }
    }
  }

  /** A non-comment line before the sentinel, right-trimmed, is a message line. */
  lemma TrimmedLine(rest: seq<byte>)
    requires rest != [] && rest[0] != HASH
    requires ValidUtf8(rest[..LineLen(rest)]) && TrimEnd(rest[..LineLen(rest)]) != SENTINEL
    ensures MessageLine(TrimEnd(rest[..LineLen(rest)])) && ValidUtf8(TrimEnd(rest[..LineLen(rest)]))
  {
    var n := LineLen(rest);
    var line := rest[..n];
    var t := TrimEnd(line);
    TrimEndUtf8(line);
    if |t| == n {
      assert t[n - 1] != LF;
      assert t[..n - 1] == line[..n - 1];
    } else {
      assert t == line[..n - 1][..|t|];
    }
    if t != [] {
      assert t[0] == rest[0];
    }
  }

  /** One non-comment line keeps the message in shape. */
  lemma StepAccumulates(st: ScanState, k: nat, t: seq<byte>, ls: seq<seq<byte>>) returns (ls': seq<seq<byte>>)
    requires Accumulated(st, ls) && MessageLine(t) && ValidUtf8(t)
    ensures Accumulated(Step(st, k, t), ls')
  {
    var st' := Step(st, k, t);
    if !st'.consumingMessage {
      ls' := [];
    } else if !st.consumingMessage && st'.message == [] {
      ls' := [];
    } else if t == [] && st.consecutiveEmpty == 0 {
      ls' := ls + [t];
      JoinLinesSnoc(ls, t);
      TextLinesSnoc(ls, t);
      NoBlankRunSnoc(ls, t);
    } else if t == [] {
      ls' := ls;
    } else {
      ls' := ls + [t];
      JoinLinesSnoc(ls, t);
      TextLinesSnoc(ls, t);
      NoBlankRunSnoc(ls, t);
    }
  }

  /** The scan keeps the message in shape to its end. */
  lemma {:induction false} ScanAccumulates(rest: seq<byte>, k: nat, st: ScanState, ls: seq<seq<byte>>)
    returns (ls': seq<seq<byte>>)
    requires Accumulated(st, ls)
    ensures Scan(rest, k, st).Success? ==> Accumulated(Scan(rest, k, st).value.state, ls')
    decreases |rest|
  {
    ls' := ls;
    if rest != [] {
      var n := LineLen(rest);
      var line := rest[..n];
      if line[0] == HASH {
        ls' := ScanAccumulates(rest[n..], k + 1, st, ls);
      } else if ValidUtf8(line) && TrimEnd(line) != SENTINEL {
        TrimmedLine(rest);
        var ls1 := StepAccumulates(st, k, TrimEnd(line), ls);
        ls' := ScanAccumulates(rest[n..], k + 1, Step(st, k, TrimEnd(line)), ls1);
      }
    }
  }

  /** The last two steps of `try_from` turn a message in shape into normal form. */
  lemma FinishAccumulated(st: ScanState, ls: seq<seq<byte>>) returns (ls': seq<seq<byte>>)
    requires Accumulated(st, ls)
    ensures FinishMessage(st.message) == JoinLines(ls') && NormalLines(ls')
  {
    if ls == [] {
      ls' := [];
      assert st.message == [];
    } else if ls[|ls| - 1] != [] {
      ls' := ls;
      JoinLinesEnd(ls);
      NormalNotBlank(ls);
    } else {
      ls' := DropTrailingBlank(st, ls);
    }
  }

  /** A message whose last accumulated line is blank ends in two LFs; `try_from` drops one. */
  lemma DropTrailingBlank(st: ScanState, ls: seq<seq<byte>>) returns (ls': seq<seq<byte>>)
    requires Accumulated(st, ls) && ls != [] && ls[|ls| - 1] == []
    ensures FinishMessage(st.message) == JoinLines(ls') && NormalLines(ls')
  {
    ls' := ls[..|ls| - 1];
    assert ls == ls' + [[]];
    assert ls' != [] && ls'[|ls'| - 1] != [] by {
      assert ls[0] != [];
      if |ls| >= 2 { assert ls[|ls| - 1] == []; }
    }
    JoinLinesSnoc(ls', []);
    var m := st.message;
    JoinLinesEnd(ls');
    assert m == JoinLines(ls') + [LF];
    assert m[|m| - 2..] == [LF, LF];
    assert m[..|m| - 1] == JoinLines(ls');
    assert NoBlankRun(ls') by {
      forall j | 0 < j < |ls'| && ls'[j] == [] ensures ls'[j - 1] != [] {
        assert ls[j] == [] && ls[j - 1] == ls'[j - 1];
      }
    }
    assert TextLines(ls') by {
      forall j | 0 <= j < |ls'| ensures MessageLine(ls'[j]) && ValidUtf8(ls'[j]) {
        assert ls'[j] == ls[j];
      }
    }
    NormalNotBlank(ls');
  }

  /** Every message `try_from` returns is in normal form. */
  lemma ParsedMessageNormal(buf: seq<byte>, env: Collaborators, now: Time) returns (ls: seq<seq<byte>>)
    requires Parse(buf, env, now).Success?
    ensures Parse(buf, env, now).value.message == JoinLines(ls) && NormalLines(ls)
  {
    var st := ParsedFromScan(buf, env, now);
    var ls0 := ScanAccumulates(buf, 0, INITIAL, []);
    ls := FinishAccumulated(st, ls0);
  }

  lemma ParsedFromScan(buf: seq<byte>, env: Collaborators, now: Time) returns (st: ScanState)
    requires Parse(buf, env, now).Success?
    ensures Scan(buf, 0, INITIAL).Success? && st == Scan(buf, 0, INITIAL).value.state
    ensures Parse(buf, env, now).value.message == FinishMessage(st.message)
  {
    st := Scan(buf, 0, INITIAL).value.state;
  }

  /** Writing what `try_from` parsed and parsing it again gives the same description. */
  lemma ParseWriteParse(buf: seq<byte>, env: Collaborators, now: Time)
    requires Parse(buf, env, now).Success? && Readable(Parse(buf, env, now).value, env)
    ensures Parse(Write(Parse(buf, env, now).value, env), env, now) == Parse(buf, env, now)
  {
    var pd := Parse(buf, env, now).value;
    var ls := ParsedMessageNormal(buf, env, now);
    WriteThenParse(pd, ls, env, now);
    assert pd.(instruction := None, diffInstruction := None) == pd;
  }
}
