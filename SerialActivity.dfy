/** SerialActivity: a serial port driven from the main loop rather than by
    events. Incoming characters collect in a fixed 256-character array and
    are cut into lines on '\n'; outgoing text waits in a second fixed array
    until the port has room for it. The port is modelled by the characters
    it holds for reading, the room it has for writing and the log of what was
    written to it. */
module SerialActivity {
  import opened LineFraming
  import Strings

  /** MaxIncomingSize and MaxOutgoingSize. */
  const MaxIncomingSize: nat := 256
  const MaxOutgoingSize: nat := 256

  /** The StringBuf handed to OnReceived, as an offset into IncomingBuffer
      and the length given to the `StringBuf(begin, length)` constructor. */
  datatype View = View(offset: nat, length: nat)

  /** The characters of buf a view stands for. */
  function Viewed(buf: seq<char>, v: View): (r: seq<char>)
    requires v.offset + v.length <= |buf|
    ensures |r| == v.length
  {
    buf[v.offset..v.offset + v.length]
  }

  /** The view OnLoop builds for a line: `StringBuf(&IncomingBuffer[strStart],
      strSize)`, where strSize is the index at which the trimmed line ends,
      passed where the constructor expects a length. */
  function AsWrittenView(sp: Span): View
  {
    View(sp.start, sp.end)
  }

  /** The view of the line itself: its length is its end minus its start. */
  function IntendedView(sp: Span): (v: View)
    requires sp.start <= sp.end
    ensures v.offset + v.length == sp.end
  {
    View(sp.start, sp.end - sp.start)
  }

  /** The views OnLoop hands over for a sequence of line spans, in order. */
  function AsWrittenViews(sp: seq<Span>): (r: seq<View>)
    ensures |r| == |sp|
  {
    if sp == [] then [] else AsWrittenViews(sp[..|sp| - 1]) + [AsWrittenView(sp[|sp| - 1])]
  }

  /** The i-th view handed over belongs to the i-th line span. */
  lemma {:induction false} AsWrittenViewsAt(sp: seq<Span>, i: nat)
    requires i < |sp|
    ensures AsWrittenViews(sp)[i] == AsWrittenView(sp[i])
    decreases |sp|
  {
    if i < |sp| - 1 {
      AsWrittenViewsAt(sp[..|sp| - 1], i);
    }
  }

  lemma AsWrittenViewsSnoc(sp: seq<Span>, x: Span)
    ensures AsWrittenViews(sp + [x]) == AsWrittenViews(sp) + [AsWrittenView(x)]
  {
    assert (sp + [x])[..|sp|] == sp;
  }

  /** The intended views give back exactly the lines the scan completes. */
  lemma IntendedViewsAreLines(s: seq<char>)
    ensures |Spans(s)| == |Lines(s)|
    ensures forall i :: 0 <= i < |Spans(s)| ==>
      Spans(s)[i].start <= Spans(s)[i].end
      && IntendedView(Spans(s)[i]).offset + IntendedView(Spans(s)[i]).length <= |s|
      && Viewed(s, IntendedView(Spans(s)[i])) == Lines(s)[i]
  {
    SpansAreLines(s);
  }

  /** The view as written is the intended one exactly for a line that starts
      at the beginning of the buffer. */
  lemma AsWrittenViewIffFirst(sp: Span)
    requires sp.start <= sp.end
    ensures AsWrittenView(sp) == IntendedView(sp) <==> sp.start == 0
  {
  }

  /** Reading "a\nb\n" into an empty buffer: the second line "b" spans
      [2, 3), but OnReceived is given three characters from offset 2, which
      run past the four characters read. */
  lemma AsWrittenViewOverruns()
    ensures Spans("a\nb\n") == [Span(0, 1), Span(2, 3)]
    ensures AsWrittenView(Spans("a\nb\n")[1]) == View(2, 3)
    ensures Viewed("a\nb\n", IntendedView(Spans("a\nb\n")[1])) == "b"
  {
    var s := "a\nb\n";
    assert s[..3] == "a\nb" && s[..3][..2] == "a\n" && s[..3][..2][..1] == "a";
    assert "a"[..0] == [];
    assert Scan("a"[..0]) == Scanned([], 0);
    assert Scan("a") == Scanned([], 0);
    assert "a\n"[..1] == "a";
    assert TrimCR("a") == "a";
    assert Scan("a\n") == Scanned(["a"], 2);
    assert Scan("a\nb") == Scanned(["a"], 2);
    assert "a\nb"[2..] == "b" && TrimCR("b") == "b";
    assert Spans("a") == [];
    assert Spans("a\n") == [Span(0, 1)];
    assert Spans("a\nb") == [Span(0, 1)];
  }

  /** memmove(a, &a[from], n): the first n slots take the n slots from
      `from` on, copied front to back, which is safe for an overlap below. */
  method ShiftDown(a: array<char>, from: nat, n: nat)
    requires from + n <= a.Length
    modifies a
    ensures a[..n] == old(a[from..from + n])
  {
    var i := 0;
    while i < n
      invariant 0 <= i <= n
      invariant forall k :: 0 <= k < a.Length ==> a[k] == if k < i then old(a[from + k]) else old(a[k])
    {
      a[i] := a[from + i];
      i := i + 1;
    }
  }

  /** Copying src into a from slot `at` on (Port.readBytes into the array,
      or memmove of a view into it). */
  method CopyInto(a: array<char>, at: nat, src: seq<char>)
    requires at + |src| <= a.Length
    modifies a
    ensures a[..at + |src|] == old(a[..at]) + src
  {
    var i := 0;
    while i < |src|
      invariant 0 <= i <= |src|
      invariant forall k :: 0 <= k < a.Length ==> a[k] == if at <= k < at + i then src[k - at] else old(a[k])
    {
      a[at + i] := src[i];
      i := i + 1;
    }
  }

  /** What `send` does with str, given the port's room and the number of
      characters already waiting: the characters written to the port at
      once, and those appended to OutgoingBuffer. An empty buffer first lets
      the port take what it can; the rest is re-viewed with substr(size),
      whose default length is npos (255), and then cut to the free space. */
  function SendSplit(str: seq<char>, room: nat, used: nat): (seq<char>, seq<char>)
    requires used <= MaxOutgoingSize
  {
    if used == 0 then
      var w := Strings.Min(|str|, room);
      if w == |str| then (str, [])
      else
        var s := Strings.Substr(str, w, Strings.Npos);
        (str[..w], s[..Strings.Min(|s|, MaxOutgoingSize)])
    else ([], str[..Strings.Min(|str|, MaxOutgoingSize - used)])
  }

  /** The same split with the whole rest kept before cutting to the free
      space, as IsAvailableForSend promises. */
  function SendSplitFixed(str: seq<char>, room: nat, used: nat): (seq<char>, seq<char>)
    requires used <= MaxOutgoingSize
  {
    if used == 0 then
      var w := Strings.Min(|str|, room);
      (str[..w], str[w..][..Strings.Min(|str| - w, MaxOutgoingSize)])
    else ([], str[..Strings.Min(|str|, MaxOutgoingSize - used)])
  }

  /** Nothing is reordered: what is written and what is buffered together
      form a prefix of str, and the buffer never overflows. */
  lemma SendSplitIsPrefix(str: seq<char>, room: nat, used: nat)
    requires used <= MaxOutgoingSize
    ensures SendSplit(str, room, used).0 + SendSplit(str, room, used).1 <= str
    ensures used + |SendSplit(str, room, used).1| <= MaxOutgoingSize
    ensures |SendSplit(str, room, used).0| <= room
  {
    var (w, b) := SendSplit(str, room, used);
    if used == 0 && |w| < |str| {
      assert w + b == str[..|w| + |b|];
    }
  }

  /** When IsAvailableForSend(|str|) holds, the corrected split keeps every
      character, and so does the split as written unless the text left after
      the port's share is longer than 255. */
  lemma SendSplitKeepsAvailable(str: seq<char>, room: nat, used: nat)
    requires used <= MaxOutgoingSize && MaxOutgoingSize - used >= |str|
    ensures SendSplitFixed(str, room, used).0 + SendSplitFixed(str, room, used).1 == str
    ensures SendSplit(str, room, used).0 + SendSplit(str, room, used).1 == str
      <==> used > 0 || |str| - Strings.Min(|str|, room) <= Strings.Npos
  {
    var w := Strings.Min(|str|, room);
    if used == 0 {
      assert str[..w] + str[w..] == str;
      if w < |str| {
        var s := Strings.Substr(str, w, Strings.Npos);
        assert |SendSplit(str, room, used).0 + SendSplit(str, room, used).1| == w + |s|;
      }
    }
  }

  /** IsAvailableForSend(256) holds for an empty buffer, yet sending 256
      characters while the port has no room keeps only 255 of them. */
  lemma SendDropsDespiteAvailable(str: seq<char>)
    requires |str| == MaxOutgoingSize
    ensures MaxOutgoingSize - 0 >= |str|
    ensures |SendSplit(str, 0, 0).1| == 255 && SendSplit(str, 0, 0).0 == []
    ensures SendSplitFixed(str, 0, 0).1 == str
  {
  }

  /** The scanning loop over IncomingBuffer, whose first `from` characters
      were kept from an earlier call and hold no '\n': every '\n' hands the
      line before it to OnReceived. The views handed over, in order, and where
      the unfinished line starts. */
  method ScanLines(buf: seq<char>, from: nat) returns (views: seq<View>, strStart: nat)
    requires from <= |buf| && '\n' !in buf[..from]
    ensures strStart == Scan(buf).start
    ensures views == AsWrittenViews(Spans(buf))
  {
    ScanWithoutNewline(buf[..from]);
    SpansWithoutNewline(buf[..from]);
    strStart := 0;
    views := [];
    var bufferPos := from;
    while bufferPos < |buf|
      invariant from <= bufferPos <= |buf|
      invariant Scan(buf[..bufferPos]).start == strStart
      invariant views == AsWrittenViews(Spans(buf[..bufferPos]))
    {
      views, strStart := ScanOne(buf, bufferPos, strStart, views);
      bufferPos := bufferPos + 1;
    }
    assert buf[..bufferPos] == buf;
  }

  /** The body of ScanLines' loop: looks at buf[pos] and closes a line on '\n'. */
  method ScanOne(buf: seq<char>, pos: nat, strStart: nat, views: seq<View>) returns (views': seq<View>, strStart': nat)
    requires pos < |buf| && Scan(buf[..pos]).start == strStart
    requires views == AsWrittenViews(Spans(buf[..pos]))
    ensures Scan(buf[..pos + 1]).start == strStart'
    ensures views' == AsWrittenViews(Spans(buf[..pos + 1]))
  {
    if buf[pos] == '\n' {
      ScanFacts(buf[..pos]);
      var strSize := TrimEnd(buf, strStart, pos);
      LineStep(buf, pos, strStart, views, strSize);
      views', strStart' := views + [View(strStart, strSize)], pos + 1;
    } else {
      PlainStep(buf, pos, strStart, views);
      views', strStart' := views, strStart;
    }
  }

  /** A '\n' at pos closes the open line, trimmed to size. */
  lemma LineStep(buf: seq<char>, pos: nat, strStart: nat, views: seq<View>, size: nat)
    requires pos < |buf| && buf[pos] == '\n' && Scan(buf[..pos]).start == strStart
    requires views == AsWrittenViews(Spans(buf[..pos]))
    requires strStart <= size <= pos && buf[strStart..size] == TrimCR(buf[strStart..pos])
    ensures Scan(buf[..pos + 1]).start == pos + 1
    ensures views + [View(strStart, size)] == AsWrittenViews(Spans(buf[..pos + 1]))
  {
    ScanStep(buf, pos);
    SpansStep(buf, pos);
    assert |buf[strStart..size]| == size - strStart;
    AsWrittenViewsSnoc(Spans(buf[..pos]), Span(strStart, size));
  }

  /** Any other character extends the open line. */
  lemma PlainStep(buf: seq<char>, pos: nat, strStart: nat, views: seq<View>)
    requires pos < |buf| && buf[pos] != '\n' && Scan(buf[..pos]).start == strStart
    requires views == AsWrittenViews(Spans(buf[..pos]))
    ensures Scan(buf[..pos + 1]).start == strStart
    ensures views == AsWrittenViews(Spans(buf[..pos + 1]))
  {
    ScanStep(buf, pos);
    SpansStep(buf, pos);
  }

  class Activity {
    /** IncomingBuffer and OutgoingBuffer. */
    const incoming: array<char>
    const outgoing: array<char>
    var incomingSize: nat
    var outgoingSize: nat
    /** Port.AvailableForRead() characters waiting on the port. */
    var rx: seq<char>
    /** Port.AvailableForWrite(). */
    var room: nat
    /** Everything written to the port. */
    ghost var tx: seq<char>
    /** The views handed to OnReceived, in order. */
    ghost var received: seq<View>

    ghost predicate Valid()
      reads this, incoming
    {
      && incoming.Length == MaxIncomingSize && outgoing.Length == MaxOutgoingSize
      && incoming != outgoing
      && incomingSize <= MaxIncomingSize && outgoingSize <= MaxOutgoingSize
      && '\n' !in incoming[..incomingSize]
    }

    /** Both sizes start at 0; the arrays' initial contents are not set. */
    constructor ()
      ensures Valid() && fresh(incoming) && fresh(outgoing)
      ensures incomingSize == 0 && outgoingSize == 0 && rx == [] && room == 0
      ensures tx == [] && received == []
    {
      incoming := new char[MaxIncomingSize];
      outgoing := new char[MaxOutgoingSize];
      incomingSize, outgoingSize := 0, 0;
      rx, room := [], 0;
      tx, received := [], [];
    }

    /** IsAvailableForSend(size): the free space in OutgoingBuffer is at
        least size. */
    function IsAvailableForSend(size: int): (r: bool)
      reads this
      requires outgoingSize <= MaxOutgoingSize
      ensures r <==> outgoingSize + size <= MaxOutgoingSize
    {
      MaxOutgoingSize - outgoingSize >= size
    }

    /** OnLoop: read what fits, report every completed line, keep the rest at
        the front of IncomingBuffer; then write what the port takes from
        OutgoingBuffer and move the remainder to its front. */
    method OnLoop()
      requires Valid()
      modifies this, incoming, outgoing
      ensures Valid()
      ensures var n := Strings.Min(MaxIncomingSize - old(incomingSize), |old(rx)|);
        var s := old(incoming[..incomingSize]) + old(rx)[..n];
        && rx == old(rx)[n..]
        && (n == 0 ==> incoming[..incomingSize] == old(incoming[..incomingSize]) && received == old(received))
        && (n > 0 ==> incoming[..incomingSize] == Rest(s) && received == old(received) + AsWrittenViews(Spans(s)))
      ensures var k := Strings.Min(old(outgoingSize), old(room));
        && tx == old(tx) + old(outgoing[..outgoingSize])[..k]
        && outgoing[..outgoingSize] == old(outgoing[..outgoingSize])[k..]
        && room == old(room) - k
    {
      ReadLines();
      Flush();
    }

    /** The incoming half of OnLoop. */
    method ReadLines()
      requires Valid()
      modifies this`incomingSize, this`rx, this`received, incoming
      ensures Valid()
      ensures var n := Strings.Min(MaxIncomingSize - old(incomingSize), |old(rx)|);
        var s := old(incoming[..incomingSize]) + old(rx)[..n];
        && rx == old(rx)[n..]
        && (n == 0 ==> incoming[..incomingSize] == old(incoming[..incomingSize]) && received == old(received))
        && (n > 0 ==> incoming[..incomingSize] == Rest(s) && received == old(received) + AsWrittenViews(Spans(s)))
    {
      var free := MaxIncomingSize - incomingSize;
      if free > 0 {
        var size := if free > |rx| then |rx| else free;
        if size > 0 {
          var bufferPos := incomingSize;
          Receive(size);
          ReportLines(bufferPos);
        }
      }
    }

    /** Reading: size bytes of the port's input go to the end of
        IncomingBuffer. */
    method Receive(size: nat)
      requires Valid() && 0 < size <= MaxIncomingSize - incomingSize && size <= |rx|
      modifies this`incomingSize, this`rx, incoming
      ensures incoming.Length == MaxIncomingSize && incomingSize <= MaxIncomingSize
      ensures incomingSize == old(incomingSize) + size && rx == old(rx)[size..]
      ensures incoming[..incomingSize] == old(incoming[..incomingSize]) + old(rx)[..size]
      ensures '\n' !in incoming[..old(incomingSize)]
    {
      CopyInto(incoming, incomingSize, rx[..size]);
      rx := rx[size..];
      incomingSize := incomingSize + size;
    }

    /** Line splitting: every completed line of IncomingBuffer is reported
        and the open line moves to the front. */
    method ReportLines(from: nat)
      requires incoming.Length == MaxIncomingSize && from <= incomingSize <= MaxIncomingSize
      requires '\n' !in incoming[..from]
      modifies this`incomingSize, this`received, incoming
      ensures incomingSize <= MaxIncomingSize
      ensures incoming[..incomingSize] == Rest(old(incoming[..incomingSize]))
      ensures received == old(received) + AsWrittenViews(Spans(old(incoming[..incomingSize])))
    {
      var s := incoming[..incomingSize];
      assert s[..from] == incoming[..from];
      var views, strStart := ScanLines(s, from);
      received := received + views;
      assert s[strStart..] == Rest(s);
      incomingSize := incomingSize - strStart;
      if incomingSize > 0 {
        assert incoming[strStart..strStart + incomingSize] == s[strStart..];
        ShiftDown(incoming, strStart, incomingSize);
      }
    }

    /** The outgoing half of OnLoop: what the port takes goes out, the rest
        moves to the front. Nothing is lost or reordered. */
    method Flush()
      requires outgoing.Length == MaxOutgoingSize && outgoingSize <= MaxOutgoingSize
      modifies this`outgoingSize, this`room, this`tx, outgoing
      ensures outgoingSize <= MaxOutgoingSize
      ensures var k := Strings.Min(old(outgoingSize), old(room));
        && tx == old(tx) + old(outgoing[..outgoingSize])[..k]
        && outgoing[..outgoingSize] == old(outgoing[..outgoingSize])[k..]
        && room == old(room) - k
      ensures tx + outgoing[..outgoingSize] == old(tx) + old(outgoing[..outgoingSize])
    {
      ghost var pending := outgoing[..outgoingSize];
      if outgoingSize > 0 {
        var size := if outgoingSize > room then room else outgoingSize;
        if size > 0 {
          tx := tx + outgoing[..size];
          room := room - size;
          outgoingSize := outgoingSize - size;
          if outgoingSize > 0 {
            ShiftDown(outgoing, size, outgoingSize);
          }
          assert outgoing[..outgoingSize] == pending[size..];
          assert pending == pending[..size] + pending[size..];
        }
      }
    }

    /** send(str): see SendSplit. */
    method Send(str: seq<char>)
      requires outgoing.Length == MaxOutgoingSize && outgoingSize <= MaxOutgoingSize
      modifies this`outgoingSize, this`room, this`tx, outgoing
      ensures outgoingSize <= MaxOutgoingSize
      ensures var (w, b) := SendSplit(str, old(room), old(outgoingSize));
        && tx == old(tx) + w && room == old(room) - |w|
        && outgoing[..outgoingSize] == old(outgoing[..outgoingSize]) + b
    {
      var s := str;
      if outgoingSize == 0 {
        var size := if |s| > room then room else |s|;
        tx := tx + s[..size];
        room := room - size;
        if size == |s| {
          return;
        }
        s := Strings.Substr(str, size, Strings.Npos);
      }
      var sz := |s|;
      if sz > MaxOutgoingSize - outgoingSize {
        sz := MaxOutgoingSize - outgoingSize;
      }
      CopyInto(outgoing, outgoingSize, s[..sz]);
      outgoingSize := outgoingSize + sz;
    }
  }
}
