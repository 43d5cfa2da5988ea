/** The line splitting shared by TSerialActor::OnReceive and
    SerialActivity::OnLoop: a scan over the received characters that ends a
    line at every '\n' and drops the '\r's just before it; the characters
    after the last '\n' stay buffered for the next read. */
module LineFraming {

  /** The inner loop `while (strSize > 0 && buf[strSize - 1] == '\r') --strSize;`
      applied to one line: the trailing carriage returns are removed. */
  function TrimCR(s: seq<char>): (r: seq<char>)
    ensures |r| <= |s| && r == s[..|r|]
    decreases |s|
  {
    if s != [] && s[|s| - 1] == '\r' then TrimCR(s[..|s| - 1]) else s
  }

  /** A trimmed line does not end with '\r'. */
  lemma {:induction false} TrimCRLast(s: seq<char>)
    ensures TrimCR(s) == [] || TrimCR(s)[|TrimCR(s)| - 1] != '\r'
    decreases |s|
  {
    if s != [] && s[|s| - 1] == '\r' {
      TrimCRLast(s[..|s| - 1]);
    }
  }

  /** The state of the scanning loop after it has looked at all of s: the
      lines it has completed, in order, and `strStart`, where the line still
      open begins. */
  datatype Scanned = Scanned(lines: seq<seq<char>>, start: nat)

  function Scan(s: seq<char>): (r: Scanned)
    ensures r.start <= |s|
    decreases |s|
  {
    if s == [] then Scanned([], 0)
    else
      var p := Scan(s[..|s| - 1]);
      if s[|s| - 1] == '\n' then Scanned(p.lines + [TrimCR(s[p.start..|s| - 1])], |s|)
      else Scanned(p.lines, p.start)
  }

  /** The open line starts right after a '\n' (or at the beginning) and
      holds no '\n'. */
  lemma {:induction false} ScanFacts(s: seq<char>)
    ensures Scan(s).start == 0 || s[Scan(s).start - 1] == '\n'
    ensures '\n' !in s[Scan(s).start..]
    decreases |s|
  {
    if s != [] {
      var init := s[..|s| - 1];
      var c := s[|s| - 1];
      assert s == init + [c];
      ScanFacts(init);
      ScanSnoc(init, c);
      if c != '\n' {
        var k := Scan(init).start;
        assert s[k..] == init[k..] + [c];
        assert k == 0 || s[k - 1] == init[k - 1];
      }
    }
  }

  /** The lines sent, one per '\n'. */
  function Lines(s: seq<char>): seq<seq<char>>
  {
    Scan(s).lines
  }

  /** What stays in the buffer: everything after the last '\n'. */
  function Rest(s: seq<char>): (r: seq<char>)
    ensures '\n' !in r && |r| <= |s| && r == s[|s| - |r|..]
  {
    ScanFacts(s);
    s[Scan(s).start..]
  }

  /** One more character extends the scan by at most one line. */
  lemma ScanSnoc(s: seq<char>, c: char)
    ensures c == '\n' ==>
      Scan(s + [c]) == Scanned(Scan(s).lines + [TrimCR(s[Scan(s).start..])], |s| + 1)
    ensures c != '\n' ==> Scan(s + [c]) == Scan(s)
  {
    assert (s + [c])[..|s|] == s;
    assert (s + [c])[Scan(s).start..|s|] == s[Scan(s).start..];
  }

  /** One iteration of the scanning loop over `buf`, stated on positions:
      the character at `pos` either ends the open line, which starts after a
      '\n', or extends it. */
  lemma ScanStep(buf: seq<char>, pos: nat)
    requires pos < |buf|
    ensures Scan(buf[..pos]).start == 0 || buf[Scan(buf[..pos]).start - 1] == '\n'
    ensures buf[pos] == '\n' ==>
      Scan(buf[..pos + 1]) == Scanned(Scan(buf[..pos]).lines + [TrimCR(buf[Scan(buf[..pos]).start..pos])], pos + 1)
    ensures buf[pos] != '\n' ==> Scan(buf[..pos + 1]) == Scan(buf[..pos])
  {
    var init := buf[..pos];
    assert buf[..pos + 1] == init + [buf[pos]];
    ScanSnoc(init, buf[pos]);
    ScanFacts(init);
    assert init[Scan(init).start..] == buf[Scan(init).start..pos];
  }

  /** Text without a '\n' completes no line and stays buffered whole. */
  lemma {:induction false} ScanWithoutNewline(s: seq<char>)
    requires '\n' !in s
    ensures Scan(s) == Scanned([], 0)
    decreases |s|
  {
    if s != [] {
      var init := s[..|s| - 1];
      assert s == init + [s[|s| - 1]];
      assert '\n' !in init;
      ScanWithoutNewline(init);
      ScanSnoc(init, s[|s| - 1]);
    }
  }

  /** One line per '\n', and none more. */
  lemma {:induction false} LinesCount(s: seq<char>)
    ensures |Lines(s)| == multiset(s)['\n']
    decreases |s|
  {
    if s != [] {
      var init := s[..|s| - 1];
      LinesCount(init);
      assert s == init + [s[|s| - 1]];
      ScanSnoc(init, s[|s| - 1]);
      assert multiset(s) == multiset(init) + multiset{s[|s| - 1]};
    }
  }

  /** A line has no '\n' in it and does not end with '\r'. */
  predicate CleanLine(line: seq<char>)
  {
    '\n' !in line && (line == [] || line[|line| - 1] != '\r')
  }

  /** Every line sent is clean. */
  lemma {:induction false} LinesAreClean(s: seq<char>)
    ensures forall i :: 0 <= i < |Lines(s)| ==> CleanLine(Lines(s)[i])
    decreases |s|
  {
    if s != [] {
      var init := s[..|s| - 1];
      assert s == init + [s[|s| - 1]];
      LinesAreClean(init);
      ScanSnoc(init, s[|s| - 1]);
      var p := Scan(init);
      if s[|s| - 1] == '\n' {
        ScanFacts(init);
        var line := TrimCR(init[p.start..]);
        assert line == init[p.start..][..|line|];
        assert '\n' !in line;
        TrimCRLast(init[p.start..]);
        assert CleanLine(line);
        assert Lines(s) == p.lines + [line];
        forall i | 0 <= i < |Lines(s)| ensures CleanLine(Lines(s)[i]) {
          if i < |p.lines| {
            assert Lines(s)[i] == Lines(init)[i];
          }
        }
      } else {
        assert Lines(s) == Lines(init);
      }
    }
  }

  /** The characters a list of lines stands for, each line with its '\n'. */
  function Join(lines: seq<seq<char>>): seq<char>
  {
    if lines == [] then [] else Join(lines[..|lines| - 1]) + lines[|lines| - 1] + ['\n']
  }

  /** Without carriage returns, nothing is lost or reordered: the lines, each
      with its '\n', followed by what stays buffered, are the input. */
  lemma {:induction false} JoinLinesRest(s: seq<char>)
    requires '\r' !in s
    ensures Join(Lines(s)) + Rest(s) == s
    decreases |s|
  {
    if s != [] {
      var init := s[..|s| - 1];
      assert s == init + [s[|s| - 1]];
      JoinLinesRest(init);
      JoinLinesRestSnoc(init, s[|s| - 1]);
    }
  }

  /** The step of JoinLinesRest: one more character. */
  lemma JoinLinesRestSnoc(init: seq<char>, c: char)
    requires '\r' !in init + [c]
    requires Join(Lines(init)) + Rest(init) == init
    ensures Join(Lines(init + [c])) + Rest(init + [c]) == init + [c]
  {
    ScanSnoc(init, c);
    var p := Scan(init);
    var open := init[p.start..];
    if c == '\n' {
      NoCRTrim(open);
      JoinSnoc(p.lines, open);
      assert Rest(init + [c]) == [];
    } else {
      assert Rest(init + [c]) == open + [c];
    }
  }

  lemma JoinSnoc(lines: seq<seq<char>>, line: seq<char>)
    ensures Join(lines + [line]) == Join(lines) + line + ['\n']
  {
    assert (lines + [line])[..|lines|] == lines;
  }

  lemma NoCRTrim(s: seq<char>)
    requires '\r' !in s
    ensures TrimCR(s) == s
  {
  }

  /** Reading the input in two parts gives the same lines as reading it at
      once, provided the first part's unfinished line is carried over: this
      is why OnReceive keeps the bytes after the last '\n' in its buffer. */
  lemma ScanSplit(a: seq<char>, b: seq<char>)
    ensures Lines(a + b) == Lines(a) + Lines(Rest(a) + b)
    ensures Rest(a + b) == Rest(Rest(a) + b)
  {
    ScanConcat(a, b);
    DropPrefix(a, Scan(a).start, b, Scan(Rest(a) + b).start);
  }

  lemma DropPrefix(a: seq<char>, k: nat, t: seq<char>, j: nat)
    requires k <= |a| && j <= |a| - k + |t|
    ensures (a + t)[k + j..] == (a[k..] + t)[j..]
  {
    assert a + t == a[..k] + (a[k..] + t);
  }

  lemma {:induction false} ScanConcat(a: seq<char>, b: seq<char>)
    ensures Scan(a + b).lines == Scan(a).lines + Scan(Rest(a) + b).lines
    ensures Scan(a + b).start == Scan(a).start + Scan(Rest(a) + b).start
    decreases |b|
  {
    var r := Rest(a);
    if b == [] {
      assert a + b == a && r + b == r;
      ScanWithoutNewline(r);
    } else {
      var b0 := b[..|b| - 1];
      var c := b[|b| - 1];
      ScanConcat(a, b0);
      var k := Scan(a).start;
      DropPrefix(a, k, b0, Scan(r + b0).start);
      ScanSnocAlike(a + b0, r + b0, k, Scan(a).lines, c);
      assert a + b == (a + b0) + [c];
      assert r + b == (r + b0) + [c];
    }
  }

  /** Two texts whose scans differ by a fixed prefix of k characters and of
      lines, and whose open lines agree, still do after one more character. */
  lemma ScanSnocAlike(ab: seq<char>, rb: seq<char>, k: nat, prefix: seq<seq<char>>, c: char)
    requires |ab| == k + |rb|
    requires Scan(ab).lines == prefix + Scan(rb).lines
    requires Scan(ab).start == k + Scan(rb).start
    requires ab[Scan(ab).start..] == rb[Scan(rb).start..]
    ensures Scan(ab + [c]).lines == prefix + Scan(rb + [c]).lines
    ensures Scan(ab + [c]).start == k + Scan(rb + [c]).start
  {
    ScanSnoc(ab, c);
    ScanSnoc(rb, c);
  }

  /** The inner loop that backs `strSize` over the carriage returns before a
      '\n'; it stops at the line start because the character before it is the
      previous '\n'. */
  method TrimEnd(buf: seq<char>, start: nat, pos: nat) returns (size: nat)
    requires start <= pos <= |buf| && (start == 0 || buf[start - 1] == '\n')
    ensures start <= size <= pos && buf[start..size] == TrimCR(buf[start..pos])
  {
    size := pos;
    while size > 0 && buf[size - 1] == '\r'
      invariant start <= size <= pos
      invariant TrimCR(buf[start..size]) == TrimCR(buf[start..pos])
    {
      TrimCRDrop(buf, start, size);
      size := size - 1;
    }
    TrimCRKeep(buf, start, size);
  }

  lemma TrimCRDrop(buf: seq<char>, start: nat, size: nat)
    requires start < size <= |buf| && buf[size - 1] == '\r'
    ensures TrimCR(buf[start..size]) == TrimCR(buf[start..size - 1])
  {
    assert buf[start..size][..size - 1 - start] == buf[start..size - 1];
  }

  lemma TrimCRKeep(buf: seq<char>, start: nat, size: nat)
    requires start <= size <= |buf| && (size == start || buf[size - 1] != '\r')
    ensures TrimCR(buf[start..size]) == buf[start..size]
  {
  }

  /** Where a completed line lies in the scanned text: from its start to the
      end of its text once the carriage returns are trimmed. */
  datatype Span = Span(start: nat, end: nat)

  /** The spans of the lines of s, one per '\n', in order. */
  function Spans(s: seq<char>): seq<Span>
    decreases |s|
  {
    if s == [] then []
    else
      var init := s[..|s| - 1];
      var st := Scan(init).start;
      if s[|s| - 1] == '\n' then Spans(init) + [Span(st, st + |TrimCR(init[st..])|)]
      else Spans(init)
  }

  /** The scanning loop's step, stated on spans. */
  lemma SpansStep(buf: seq<char>, pos: nat)
    requires pos < |buf|
    ensures buf[pos] == '\n' ==>
      Spans(buf[..pos + 1]) == Spans(buf[..pos]) + [Span(Scan(buf[..pos]).start,
        Scan(buf[..pos]).start + |TrimCR(buf[Scan(buf[..pos]).start..pos])|)]
    ensures buf[pos] != '\n' ==> Spans(buf[..pos + 1]) == Spans(buf[..pos])
  {
    var init := buf[..pos];
    assert buf[..pos + 1][..pos] == init;
    assert init[Scan(init).start..] == buf[Scan(init).start..pos];
  }

  /** Text without a '\n' has no line spans. */
  lemma {:induction false} SpansWithoutNewline(s: seq<char>)
    requires '\n' !in s
    ensures Spans(s) == []
    decreases |s|
  {
    if s != [] {
      assert '\n' !in s[..|s| - 1];
      SpansWithoutNewline(s[..|s| - 1]);
    }
  }

  /** Each span lies in the text and holds exactly its line. */
  lemma {:induction false} SpansAreLines(s: seq<char>)
    ensures |Spans(s)| == |Lines(s)|
    ensures forall i :: 0 <= i < |Spans(s)| ==>
      Spans(s)[i].start <= Spans(s)[i].end <= |s| && s[Spans(s)[i].start..Spans(s)[i].end] == Lines(s)[i]
    decreases |s|
  {
    if s != [] {
      var init := s[..|s| - 1];
      var c := s[|s| - 1];
      assert s == init + [c];
      SpansAreLines(init);
      ScanSnoc(init, c);
      var sp := Spans(init);
      forall i | 0 <= i < |sp|
        ensures sp[i].start <= sp[i].end <= |s| && s[sp[i].start..sp[i].end] == Lines(init)[i]
      {
        assert s[sp[i].start..sp[i].end] == init[sp[i].start..sp[i].end];
      }
      if c == '\n' {
        var st := Scan(init).start;
        var line := TrimCR(init[st..]);
        assert line == init[st..][..|line|] == s[st..st + |line|];
        assert Spans(s) == sp + [Span(st, st + |line|)];
        assert Lines(s) == Lines(init) + [line];
      } else {
        assert Spans(s) == sp && Lines(s) == Lines(init);
      }
    }
  }
}
