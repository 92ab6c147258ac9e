/** Line framing in `EthStratumClient::onRecvSocketDataCompleted` of
    `libpoolprotocols/stratum/EthStratumClient.cpp`. */
module StratumFraming {
  import opened Arith

  predicate IsSpace(c: char) {
    c == ' ' || '\t' <= c <= '\r'
  }

  /** `boost::trim` */
  function Trim(s: string): (t: string)
    ensures |t| <= |s|
    ensures t != [] ==> !IsSpace(t[0]) && !IsSpace(t[|t| - 1])
    decreases |s|
  {
    if s == [] then []
    else if IsSpace(s[0]) then Trim(s[1..])
    else if IsSpace(s[|s| - 1]) then Trim(s[..|s| - 1])
    else s
  }

  predicate Blank(s: string) {
    forall i | 0 <= i < |s| :: IsSpace(s[i])
  }

  /** Trimming takes spaces off both ends and nothing else. */
  lemma {:induction false} TrimStrips(s: string) returns (a: string, b: string)
    ensures Blank(a) && Blank(b) && s == a + Trim(s) + b
    decreases |s|
  {
    a, b := [], [];
    if s != [] {
      var n := |s| - 1;
      if IsSpace(s[0]) {
        a, b := TrimStrips(s[1..]);
        Regroup([s[0]], s, a, Trim(s), b, []);
        a := [s[0]] + a;
      } else if IsSpace(s[n]) {
        a, b := TrimStrips(s[..n]);
        Regroup([], s, a, Trim(s), b, [s[n]]);
        b := b + [s[n]];
      }
    }
  }

  lemma Regroup(x: string, s: string, a: string, t: string, b: string, y: string)
    requires |x| + |y| <= |s| && s[..|x|] == x && s[|s| - |y|..] == y && s[|x|..|s| - |y|] == a + t + b
    ensures s == (x + a) + t + (b + y)
  {
    assert s == s[..|x|] + s[|x|..|s| - |y|] + s[|s| - |y|..];
  }

  /** What has been handed to the parser, and the characters of a line that has not ended yet. */
  datatype Scan = Scan(lines: seq<string>, rest: string)

  function Emit(lines: seq<string>, line: string): seq<string> {
    if Trim(line) == [] then lines else lines + [Trim(line)]
  }

  /** The reference: a scanner that takes one character at a time. */
  function ScanAll(s: Scan, text: string): (r: Scan)
    decreases |text|
  {
    if text == [] then s
    else if text[0] == '\n' then ScanAll(Scan(Emit(s.lines, s.rest), []), text[1..])
    else ScanAll(Scan(s.lines, s.rest + [text[0]]), text[1..])
  }

  lemma {:induction false} ScanJoin(s: Scan, a: string, b: string)
    ensures ScanAll(s, a + b) == ScanAll(ScanAll(s, a), b)
    decreases |a|
  {
    if a == [] {
      assert a + b == b;
    } else {
      assert (a + b)[1..] == a[1..] + b;
      if a[0] == '\n' {
        ScanJoin(Scan(Emit(s.lines, s.rest), []), a[1..], b);
      } else {
        ScanJoin(Scan(s.lines, s.rest + [a[0]]), a[1..], b);
      }
    }
  }

  /** Without a newline, characters only pile up. */
  lemma {:induction false} ScanPlain(s: Scan, text: string)
    requires '\n' !in text
    ensures ScanAll(s, text) == Scan(s.lines, s.rest + text)
    decreases |text|
  {
    if text == [] {
      assert s.rest + text == s.rest;
    } else {
      ScanPlain(Scan(s.lines, s.rest + [text[0]]), text[1..]);
      assert s.rest + [text[0]] + text[1..] == s.rest + text;
    }
  }

  /** The scanner's pending text never contains a newline. */
  lemma {:induction false} ScanRestPlain(s: Scan, text: string)
    requires '\n' !in s.rest
    ensures '\n' !in ScanAll(s, text).rest
    decreases |text|
  {
    if text != [] {
      if text[0] == '\n' {
        ScanRestPlain(Scan(Emit(s.lines, s.rest), []), text[1..]);
      } else {
        ScanRestPlain(Scan(s.lines, s.rest + [text[0]]), text[1..]);
      }
    }
  }

  /** Text up to a newline, the newline, and the rest. */
  lemma ScanLine(lines: seq<string>, line: string, more: string)
    requires '\n' !in line
    ensures ScanAll(Scan(lines, []), line + ['\n'] + more) == ScanAll(Scan(Emit(lines, line), []), more)
  {
    assert line + ['\n'] + more == line + (['\n'] + more);
    ScanJoin(Scan(lines, []), line, ['\n'] + more);
    ScanPlain(Scan(lines, []), line);
    assert [] + line == line;
    assert (['\n'] + more)[1..] == more;
  }

  // ---- what the scanner finds, without the scanner

  /** Lines, each ended by a newline. */
  function Unlines(lines: seq<string>): string {
    if lines == [] then [] else Unlines(lines[..|lines| - 1]) + lines[|lines| - 1] + ['\n']
  }

  /** A text is lines and a rest. */
  predicate Split(text: string, lines: seq<string>, rest: string) {
    text == Unlines(lines) + rest && '\n' !in rest && forall i | 0 <= i < |lines| :: '\n' !in lines[i]
  }

  /** The lines trimmed, the empty ones left out. */
  function Kept(lines: seq<string>): seq<string> {
    if lines == [] then [] else Kept(lines[..|lines| - 1]) + KeptOf(lines[|lines| - 1])
  }

  function KeptOf(line: string): seq<string> {
    if Trim(line) == [] then [] else [Trim(line)]
  }

  /** `idx` are the positions of the lines that are kept: all that are not blank, in order. */
  predicate Picks(lines: seq<string>, kept: seq<string>, idx: seq<nat>) {
    && |idx| == |kept| && (forall j | 0 <= j < |idx| :: PickedAt(lines, kept[j], idx[j]))
    && (forall i, j | 0 <= i < j < |idx| :: idx[i] < idx[j])
    && (forall i | 0 <= i < |lines| :: Blank(lines[i]) || i in idx)
  }

  predicate PickedAt(lines: seq<string>, line: string, i: nat) {
    i < |lines| && line == Trim(lines[i]) && !Blank(lines[i])
  }

  lemma {:induction false} BlankTrims(s: string)
    ensures Blank(s) <==> Trim(s) == []
    decreases |s|
  {
    if s != [] {
      if IsSpace(s[0]) {
        BlankTrims(s[1..]);
        assert Blank(s) <==> Blank(s[1..]);
      } else if IsSpace(s[|s| - 1]) {
        BlankTrims(s[..|s| - 1]);
        assert s[..|s| - 1][0] == s[0];
      }
    }
  }

  lemma {:induction false} KeptPicks(lines: seq<string>) returns (idx: seq<nat>)
    ensures Picks(lines, Kept(lines), idx)
    decreases |lines|
  {
    idx := [];
    if lines != [] {
      var n := |lines| - 1;
      var pre, line := lines[..n], lines[n];
      idx := KeptPicks(pre);
      BlankTrims(line);
      assert lines == pre + [line];
      if Blank(line) {
        SkipBlank(pre, Kept(pre), idx, line);
        assert Kept(pre) + [] == Kept(pre);
      } else {
        PickMore(pre, Kept(pre), idx, line);
        idx := idx + [n];
      }
    }
  }

  lemma PickMore(pre: seq<string>, kept: seq<string>, idx: seq<nat>, line: string)
    requires Picks(pre, kept, idx) && !Blank(line)
    ensures Picks(pre + [line], kept + [Trim(line)], idx + [|pre|])
  {
    var lines, more, all := pre + [line], kept + [Trim(line)], idx + [|pre|];
    forall j | 0 <= j < |all| ensures PickedAt(lines, more[j], all[j]) {
      assert j < |idx| ==> PickedAt(pre, kept[j], idx[j]);
    }
    forall i | 0 <= i < |lines| ensures Blank(lines[i]) || i in all {
      if i < |pre| {
        assert lines[i] == pre[i];
      } else {
        assert all[|idx|] == i;
      }
    }
    assert forall j | 0 <= j < |idx| :: PickedAt(pre, kept[j], idx[j]);
  }

  lemma SkipBlank(pre: seq<string>, kept: seq<string>, idx: seq<nat>, line: string)
    requires Picks(pre, kept, idx) && Blank(line)
    ensures Picks(pre + [line], kept, idx)
  {
    var lines := pre + [line];
    forall j | 0 <= j < |idx| ensures PickedAt(lines, kept[j], idx[j]) {
      assert PickedAt(pre, kept[j], idx[j]);
    }
    forall i | 0 <= i < |lines| ensures Blank(lines[i]) || i in idx {
      assert i < |pre| ==> lines[i] == pre[i];
    }
  }

  lemma {:induction false} UnlinesScan(lines: seq<string>)
    requires forall i | 0 <= i < |lines| :: '\n' !in lines[i]
    ensures ScanAll(Scan([], []), Unlines(lines)) == Scan(Kept(lines), [])
    decreases |lines|
  {
    if lines != [] {
      var n := |lines| - 1;
      UnlinesScan(lines[..n]);
      var tail := lines[n] + ['\n'] + [];
      assert Unlines(lines) == Unlines(lines[..n]) + tail;
      ScanJoin(Scan([], []), Unlines(lines[..n]), tail);
      ScanLine(Kept(lines[..n]), lines[n], []);
    }
  }

  /** However a text is told apart in lines and rest, the scanner finds these lines and that rest. */
  lemma SplitScans(text: string, lines: seq<string>, rest: string)
    requires Split(text, lines, rest)
    ensures ScanAll(Scan([], []), text) == Scan(Kept(lines), rest)
  {
    UnlinesScan(lines);
    ScanJoin(Scan([], []), Unlines(lines), rest);
    ScanPlain(Scan(Kept(lines), []), rest);
    assert [] + rest == rest;
  }

  /** And it can always be told apart. */
  lemma {:induction false} SplitExists(text: string) returns (lines: seq<string>, rest: string)
    ensures Split(text, lines, rest)
    decreases |text|
  {
    lines, rest := [], [];
    if text != [] {
      var n := |text| - 1;
      lines, rest := SplitExists(text[..n]);
      assert text == text[..n] + [text[n]];
      if text[n] == '\n' {
        assert (lines + [rest])[..|lines|] == lines;
        assert Unlines(lines + [rest]) == Unlines(lines) + rest + ['\n'];
        lines, rest := lines + [rest], [];
      } else {
        rest := rest + [text[n]];
      }
    }
  }

  class LineReader {
    var message: string        // m_message
    var handed: seq<string>    // the lines handed to the JSON parser so far

    constructor ()
      ensures message == [] && handed == []
    {
      message, handed := [], [];
    }

    /** `m_message.find("\n")` */
    method Find() returns (offset: nat)
      ensures offset <= |message| && '\n' !in message[..offset]
      ensures offset < |message| ==> message[offset] == '\n'
    {
      offset := 0;
      while offset < |message| && message[offset] != '\n'
        invariant offset <= |message| && '\n' !in message[..offset]
      {
        offset := offset + 1;
      }
    }

    /** One read. What has been handed on and what is left are what the character-at-a-time scanner makes
        of the leftover followed by the new data. */
    method OnRead(data: string)
      requires '\n' !in message
      modifies this
      ensures '\n' !in message
      ensures Scan(handed, message) == ScanAll(Scan(old(handed), old(message)), data)
    {
      ghost var goal := ScanAll(Scan(handed, message), data);
      ScanPlain(Scan(handed, []), message);
      assert [] + message == message;
      ScanJoin(Scan(handed, []), message, data);
      message := message + data;
      var offset := Find();
      while offset < |message|
        invariant 0 <= offset <= |message| && '\n' !in message[..offset]
        invariant offset < |message| ==> message[offset] == '\n'
        invariant ScanAll(Scan(handed, []), message) == goal
        decreases |message|
      {
        ghost var more := message[offset + 1..];
        assert message == message[..offset] + ['\n'] + more;
        ScanLine(handed, message[..offset], more);
        if offset > 0 {
          var line := Trim(message[..offset]);
          if line != [] {
            handed := handed + [line];
          }
        }
        message := message[offset + 1..];
        offset := Find();
      }
      assert message[..offset] == message;
      ScanPlain(Scan(handed, []), message);
      assert [] + message == message;
    }
  }

  /** However the stream is cut into reads, the parser gets the same lines: the stream is some lines and the leftover,
      and what was handed on are those lines trimmed, without the blank ones. */
  method ReadAll(cuts: seq<string>) returns (r: LineReader, ghost lines: seq<string>)
    ensures Scan(r.handed, r.message) == ScanAll(Scan([], []), Concat(cuts))
    ensures Split(Concat(cuts), lines, r.message) && r.handed == Kept(lines)
  {
    r := new LineReader();
    var i := 0;
    while i < |cuts|
      invariant 0 <= i <= |cuts| && '\n' !in r.message
      invariant Scan(r.handed, r.message) == ScanAll(Scan([], []), Concat(cuts[..i]))
      invariant fresh(r)
    {
      assert cuts[..i + 1][..i] == cuts[..i];
      ScanJoin(Scan([], []), Concat(cuts[..i]), cuts[i]);
      r.OnRead(cuts[i]);
      i := i + 1;
    }
    assert cuts[..i] == cuts;
    ghost var rest;
    lines, rest := SplitExists(Concat(cuts));
    SplitScans(Concat(cuts), lines, rest);
  }

  /** In particular for two ways of cutting the same stream. */
  method CutsAgree(a: seq<string>, b: seq<string>) returns (x: LineReader, y: LineReader)
    requires Concat(a) == Concat(b)
    ensures x.handed == y.handed && x.message == y.message
  {
    ghost var lines;
    x, lines := ReadAll(a);
    y, lines := ReadAll(b);
  }
}
