/** Reference semantics of the firmware's line editor `inputline`, written as an
    explicit state machine over a finite sequence of input bytes: one step per
    byte read, with one decrement per erase and no loop-increment compensation. */
module LineEditor {
  import opened Bytes

  /** How a run of the editor ends. `Line(len)` is the line-break exit, `Exhausted`
      the buffer-full exit, and `Starved` means the input ran out first, i.e. the
      firmware would still be blocked waiting for the next byte. */
  datatype Outcome = Line(len: nat) | Exhausted | Starved

  /** Everything one run produces: how it ended, the edited line held in the
      buffer, the bytes echoed back to the stream, and how many bytes it read. */
  datatype Session = Session(outcome: Outcome, line: seq<byte>, echo: seq<byte>, consumed: nat)

  /** What a non-terminating byte does to the line held so far. */
  function Edit(line: seq<byte>, c: byte): (r: seq<byte>)
    ensures IsErase(c) ==> r <= line && |r| == (if |line| > 0 then |line| - 1 else 0)
    ensures !IsErase(c) ==> line <= r && |r| <= |line| + 1
    ensures |r| == |line| + 1 <==> IsPrint(c)
    ensures IsPrint(c) ==> r[|line|] == c
    ensures AllPrintable(line) ==> AllPrintable(r)
  {
    if IsErase(c) then (if |line| > 0 then line[..|line| - 1] else line)
    else if IsPrint(c) then line + [c]
    else line
  }

  /** What a non-terminating byte echoes back to the stream. */
  function Echo(c: byte): (r: seq<byte>)
    ensures |r| <= 3
    ensures forall j :: 0 <= j < |r| ==> IsPrint(r[j]) || r[j] == BS
    ensures r == [] <==> IsIgnored(c) || IsLineEnd(c)
    ensures IsPrint(c) ==> r == [c]
  {
    if IsErase(c) then [BS, SP, BS]
    else if IsPrint(c) then [c]
    else []
  }

  /** `s` as seen by a caller that had already echoed `echo` and read `k` bytes. */
  function Shift(s: Session, echo: seq<byte>, k: nat): Session {
    s.(echo := echo + s.echo, consumed := k + s.consumed)
  }

  /** Runs the editor from a held `line` with room for `limit` characters. */
  function Scan(limit: nat, line: seq<byte>, input: seq<byte>): (r: Session)
    requires |line| <= limit
    ensures |r.line| <= limit
    ensures r.consumed <= |input|
    ensures r.outcome.Exhausted? <==> |r.line| == limit
    ensures r.outcome.Line? ==> r.outcome.len == |r.line| && 0 < r.consumed && IsLineEnd(input[r.consumed - 1])
    ensures r.outcome.Starved? ==> r.consumed == |input|
    ensures AllPrintable(line) ==> AllPrintable(r.line)
    ensures forall j :: 0 <= j < |r.echo| ==> IsPrint(r.echo[j]) || r.echo[j] == BS
    decreases |input|
  {
    if |line| == limit then Session(Exhausted, line, [], 0)
    else if |input| == 0 then Session(Starved, line, [], 0)
    else if IsLineEnd(input[0]) then Session(Line(|line|), line, [], 1)
    else
      var c := input[0];
      var rest := Scan(limit, Edit(line, c), input[1..]);
      Shift(rest, Echo(c), 1)
  }

  /** One call of the editor on a buffer of capacity `size` (room for `size - 1`
      characters plus the terminating NUL), starting from an empty line. */
  function Run(size: int, input: seq<byte>): (r: Session)
    requires 1 <= size
    ensures |r.line| <= size - 1
    ensures AllPrintable(r.line)
    ensures r.outcome.Line? ==> r.outcome.len == |r.line| <= size - 2
    ensures r.outcome.Exhausted? <==> |r.line| == size - 1
    ensures r.outcome.Line? ==> 0 < r.consumed <= |input| && IsLineEnd(input[r.consumed - 1])
    ensures r.outcome.Starved? ==> r.consumed == |input|
    ensures forall j :: 0 <= j < |r.echo| ==> IsPrint(r.echo[j]) || r.echo[j] == BS
  {
    Scan(size - 1, [], input)
  }

  /** The integer the firmware returns: the line length, or 0 when the buffer
      filled up. The two meanings of 0 cannot be told apart by the caller. */
  function ReturnCode(o: Outcome): (code: int)
    requires !o.Starved?
    ensures code == 0 <==> o.Exhausted? || o == Line(0)
    ensures o.Line? ==> code == o.len
  {
    match o
    case Line(n) => n
    case Exhausted => 0
  }

  /** Reading one non-terminating byte of `input` at position `k` moves a run that
      has already echoed `echo` one byte along, leaving its eventual result unchanged. */
  lemma ShiftStep(limit: nat, line: seq<byte>, input: seq<byte>, k: nat, echo: seq<byte>)
    requires |line| < limit && k < |input| && !IsLineEnd(input[k])
    ensures Shift(Scan(limit, line, input[k..]), echo, k)
         == Shift(Scan(limit, Edit(line, input[k]), input[k + 1..]), echo + Echo(input[k]), k + 1)
  {
    assert input[k..][1..] == input[k + 1..];
    var rest := Scan(limit, Edit(line, input[k]), input[k + 1..]);
    assert echo + (Echo(input[k]) + rest.echo) == (echo + Echo(input[k])) + rest.echo;
  }

  /** A run whose next byte is a line break, whose input is used up, or whose line
      fills the buffer, ends right there. */
  lemma ShiftStop(limit: nat, line: seq<byte>, input: seq<byte>, k: nat, echo: seq<byte>)
    requires |line| <= limit && k <= |input|
    ensures |line| == limit ==>
              Shift(Scan(limit, line, input[k..]), echo, k) == Session(Exhausted, line, echo, k)
    ensures |line| < limit && k == |input| ==>
              Shift(Scan(limit, line, input[k..]), echo, k) == Session(Starved, line, echo, k)
    ensures |line| < limit && k < |input| && IsLineEnd(input[k]) ==>
              Shift(Scan(limit, line, input[k..]), echo, k) == Session(Line(|line|), line, echo, k + 1)
  {
    assert echo + [] == echo;
  }

  // ---------------------------------------------------------------------------
  // An independent reference: the line and the echo as folds over the bytes read

  /** The line obtained by applying the edits of `cs`, in order, to `line`. */
  function Edits(line: seq<byte>, cs: seq<byte>): seq<byte>
    decreases |cs|
  {
    if |cs| == 0 then line else Edits(Edit(line, cs[0]), cs[1..])
  }

  /** The echo of `cs`: each printable byte itself, BS SP BS per erase, nothing otherwise. */
  function Echoes(cs: seq<byte>): seq<byte>
    decreases |cs|
  {
    if |cs| == 0 then [] else Echo(cs[0]) + Echoes(cs[1..])
  }

  /** Number of bytes of a session that went through `Edit` (the line break, if any, excluded). */
  function Edited(r: Session): int {
    if r.outcome.Line? then r.consumed - 1 else r.consumed
  }

  /** The state machine edits exactly the bytes before the first line break, stops at
      the first prefix whose line fills the buffer, and echoes exactly those bytes. */
  lemma {:induction false} ScanIsFold(limit: nat, line: seq<byte>, input: seq<byte>)
    requires |line| <= limit
    ensures var r := Scan(limit, line, input);
            var k := Edited(r);
            && 0 <= k <= |input|
            && r.line == Edits(line, input[..k])
            && r.echo == Echoes(input[..k])
            && (forall j :: 0 <= j < k ==> !IsLineEnd(input[j]))
            && (forall j :: 0 <= j < k ==> |Edits(line, input[..j])| < limit)
            && (r.outcome.Line? ==> k < |input| && IsLineEnd(input[k]))
            && (r.outcome.Starved? ==> k == |input|)
    decreases |input|
  {
    var r := Scan(limit, line, input);
    if |line| == limit || |input| == 0 || IsLineEnd(input[0]) {
      assert input[..0] == [];
    } else {
      var c := input[0];
      var tail := input[1..];
      ScanIsFold(limit, Edit(line, c), tail);
      var r' := Scan(limit, Edit(line, c), tail);
      var k' := Edited(r');
      assert r == Shift(r', Echo(c), 1);
      var k := k' + 1;
      assert Edited(r) == k;
      assert input[..k][0] == c;
      assert input[..k][1..] == tail[..k'];
      forall j | 0 <= j < k
        ensures !IsLineEnd(input[j])
      {
        if j > 0 {
          assert input[j] == tail[j - 1];
        }
      }
      forall j | 0 <= j < k
        ensures |Edits(line, input[..j])| < limit
      {
        if j > 0 {
          assert input[..j][0] == c;
          assert input[..j][1..] == tail[..j - 1];
        } else {
          assert input[..j] == [];
        }
      }
    }
  }

  /** `ScanIsFold` for a whole call of the editor. */
  lemma RunIsFold(size: int, input: seq<byte>)
    requires 1 <= size
    ensures var r := Run(size, input);
            var k := Edited(r);
            && 0 <= k <= |input|
            && r.line == Edits([], input[..k])
            && r.echo == Echoes(input[..k])
            && (forall j :: 0 <= j < k ==> !IsLineEnd(input[j]))
            && (forall j :: 0 <= j < k ==> |Edits([], input[..j])| < size - 1)
            && (r.outcome.Line? ==> k < |input| && IsLineEnd(input[k]))
            && (r.outcome.Starved? ==> k == |input|)
  {
    ScanIsFold(size - 1, [], input);
  }

  // ---------------------------------------------------------------------------
  // What single bytes do

  /** An erase request drops the last character, or nothing on an empty line, and
      always echoes BS SP BS; it reads one byte. */
  lemma EraseStep(limit: nat, line: seq<byte>, c: byte, rest: seq<byte>)
    requires |line| < limit && IsErase(c)
    ensures |Edit(line, c)| == if |line| > 0 then |line| - 1 else 0
    ensures Edit(line, c) == line[..|Edit(line, c)|]
    ensures Scan(limit, line, [c] + rest) == Shift(Scan(limit, Edit(line, c), rest), [BS, SP, BS], 1)
  {
    assert ([c] + rest)[1..] == rest;
  }

  /** A printable byte is appended and echoed once. */
  lemma PrintStep(limit: nat, line: seq<byte>, c: byte, rest: seq<byte>)
    requires |line| < limit && IsPrint(c)
    ensures Scan(limit, line, [c] + rest) == Shift(Scan(limit, line + [c], rest), [c], 1)
  {
    assert ([c] + rest)[1..] == rest;
  }

  /** A line break ends the run with the line held so far and echoes nothing. */
  lemma LineEndStep(limit: nat, line: seq<byte>, c: byte, rest: seq<byte>)
    requires |line| < limit && IsLineEnd(c)
    ensures Scan(limit, line, [c] + rest) == Session(Line(|line|), line, [], 1)
  {
  }

  /** A run of ignored bytes is read but changes neither the line nor the echo, and
      does not count toward the capacity. */
  lemma {:induction false} IgnoredBytesInvisible(limit: nat, line: seq<byte>, junk: seq<byte>, rest: seq<byte>)
    requires |line| < limit
    requires forall j :: 0 <= j < |junk| ==> IsIgnored(junk[j])
    ensures Scan(limit, line, junk + rest) == Shift(Scan(limit, line, rest), [], |junk|)
    decreases |junk|
  {
    if |junk| == 0 {
      assert junk + rest == rest;
    } else {
      var c := junk[0];
      assert (junk + rest)[0] == c;
      assert (junk + rest)[1..] == junk[1..] + rest;
      IgnoredBytesInvisible(limit, line, junk[1..], rest);
    }
  }

  /** Typing a printable byte and erasing it again leaves the line as it was; the
      screen has seen the byte and then BS SP BS. */
  lemma TypeThenErase(limit: nat, line: seq<byte>, x: byte, e: byte, rest: seq<byte>)
    requires |line| + 1 < limit && IsPrint(x) && IsErase(e)
    ensures Scan(limit, line, [x, e] + rest) == Shift(Scan(limit, line, rest), [x, BS, SP, BS], 2)
  {
    var s2 := Scan(limit, line, rest);
    assert Edit(line + [x], e) == line;
    EraseStep(limit, line + [x], e, rest);
    var s1 := Scan(limit, line + [x], [e] + rest);
    assert s1 == Shift(s2, [BS, SP, BS], 1);
    PrintStep(limit, line, x, [e] + rest);
    assert [x, e] + rest == [x] + ([e] + rest);
    assert Scan(limit, line, [x, e] + rest) == Shift(s1, [x], 1);
    assert [x] + ([BS, SP, BS] + s2.echo) == [x, BS, SP, BS] + s2.echo;
  }

  /** Without erase requests, the echo is exactly what was appended to the line. */
  lemma {:induction false} EchoIsStoredWithoutErase(limit: nat, line: seq<byte>, input: seq<byte>)
    requires |line| <= limit
    requires forall j :: 0 <= j < |input| ==> !IsErase(input[j])
    ensures Scan(limit, line, input).line == line + Scan(limit, line, input).echo
    decreases |input|
  {
    if |line| == limit || |input| == 0 || IsLineEnd(input[0]) {
    } else {
      var c := input[0];
      EchoIsStoredWithoutErase(limit, Edit(line, c), input[1..]);
      if IsPrint(c) {
        var rest := Scan(limit, line + [c], input[1..]);
        assert (line + [c]) + rest.echo == line + ([c] + rest.echo);
      }
    }
  }

  // ---------------------------------------------------------------------------
  // Boundary behaviour

  /** With a one-byte buffer the editor reads nothing and reports a full buffer. */
  lemma SizeOneReadsNothing(input: seq<byte>)
    ensures Run(1, input) == Session(Exhausted, [], [], 0)
  {
  }

  /** An erase request on an empty line leaves it empty (the cursor never goes
      below the start) and still echoes BS SP BS. */
  lemma EraseAtStart(size: int, c: byte, rest: seq<byte>)
    requires 2 <= size && IsErase(c)
    ensures Run(size, [c] + rest) == Shift(Run(size, rest), [BS, SP, BS], 1)
  {
    EraseStep(size - 1, [], c, rest);
  }

  /** "ab", backspace, "c", carriage return into a 10-byte buffer gives the line "ac". */
  lemma ScenarioBackspace()
    ensures Run(10, [0x61, 0x62, BS, 0x63, CR]) == Session(Line(2), [0x61, 0x63], [0x61, 0x62, BS, SP, BS, 0x63], 5)
  {
    var input: seq<byte> := [0x61, 0x62, BS, 0x63, CR];
    ScenarioBackspaceTail();
    assert input[2..] == [BS, 0x63, CR];
    PrintStep(9, [0x61], 0x62, input[2..]);
    assert [0x62 as byte] + input[2..] == input[1..];
    assert [0x61 as byte] + [0x62] == [0x61, 0x62];
    PrintStep(9, [], 0x61, input[1..]);
    assert [0x61 as byte] + input[1..] == input;
    assert [] + [0x61 as byte] == [0x61];
  }

  /** The second half of `ScenarioBackspace`: from the held line "ab". */
  lemma ScenarioBackspaceTail()
    ensures Scan(9, [0x61, 0x62], [BS, 0x63, CR]) == Session(Line(2), [0x61, 0x63], [BS, SP, BS, 0x63], 3)
  {
    var input: seq<byte> := [BS, 0x63, CR];
    assert input[2..] == [CR];
    assert Scan(9, [0x61, 0x63], input[2..]) == Session(Line(2), [0x61, 0x63], [], 1);
    PrintStep(9, [0x61], 0x63, input[2..]);
    assert [0x63 as byte] + input[2..] == input[1..];
    assert [0x61 as byte] + [0x63] == [0x61, 0x63];
    EraseStep(9, [0x61, 0x62], BS, input[1..]);
    assert [BS] + input[1..] == input;
    assert Edit([0x61, 0x62], BS) == [0x61];
  }

  /** A lone carriage return gives the empty line, whose return code is 0. */
  lemma ScenarioEmptyLine()
    ensures Run(10, [CR]) == Session(Line(0), [], [], 1)
    ensures ReturnCode(Run(10, [CR]).outcome) == 0
  {
  }

  /** Nine printable bytes fill a 10-byte buffer: the run stops there, before any
      line break, and also returns 0 — the same code as the empty line. */
  lemma {:induction false} ScenarioFull(input: seq<byte>)
    requires |input| >= 9 && AllPrintable(input[..9])
    ensures Run(10, input) == Session(Exhausted, input[..9], input[..9], 9)
    ensures ReturnCode(Run(10, input).outcome) == ReturnCode(Run(10, [CR]).outcome)
  {
    FillsUp(9, [], input[..9], input[9..]);
    assert input[..9] + input[9..] == input;
  }

  /** Printable bytes that fill the remaining room are stored and echoed verbatim,
      and the run ends there whatever follows. */
  lemma {:induction false} FillsUp(limit: nat, line: seq<byte>, typed: seq<byte>, rest: seq<byte>)
    requires |line| + |typed| == limit && AllPrintable(typed)
    ensures Scan(limit, line, typed + rest) == Session(Exhausted, line + typed, typed, |typed|)
    decreases |typed|
  {
    if |typed| == 0 {
      assert line + typed == line;
    } else {
      var c := typed[0];
      assert (typed + rest)[0] == c;
      assert (typed + rest)[1..] == typed[1..] + rest;
      FillsUp(limit, line + [c], typed[1..], rest);
      assert (line + [c]) + typed[1..] == line + typed;
      assert [c] + typed[1..] == typed;
    }
  }
}
