/** The firmware's `inputline` as written in C: a counted loop over an array whose
    index is decremented twice on an erase request and once on an ignored byte, so
    that the loop's own post-increment yields the net movement of the cursor. */
module InputLine {
  import opened Bytes
  import opened LineEditor

  /** Runs `inputline` on a buffer of capacity `size` whose contents on entry are
      `buffer0`, reading from `input`. Returns the C return value `code`, the buffer
      contents on exit, the bytes echoed to the stream and the number of bytes read.
      `waiting` is true when `input` ran out before the function could return, i.e.
      when the firmware would still be blocked in its next read; the other outputs
      then describe the state reached so far. */
  method InputLine(buffer0: seq<byte>, size: int, input: seq<byte>)
    returns (code: int, buffer: seq<byte>, echo: seq<byte>, consumed: nat, waiting: bool)
    requires 1 <= size <= |buffer0|
    ensures |buffer| == |buffer0| && buffer[size..] == buffer0[size..]
    ensures var r := Run(size, input);
            && (waiting <==> r.outcome.Starved?)
            && (!waiting ==> code == ReturnCode(r.outcome))
            && buffer[..|r.line|] == r.line
            && echo == r.echo
            && consumed == r.consumed
    ensures var r := Run(size, input);
            && (r.outcome.Line? ==> 0 <= code <= size - 2 && buffer[code] == NUL)
            && (r.outcome.Exhausted? ==> code == 0 && buffer[size - 1] == NUL)
  {
    // The C code writes only inside the first `size` slots of the caller's
    // buffer; `buf` is that region, so every array access below is checked
    // to lie in [0, size - 1]. The rest of the caller's buffer is passed through.
    var buf := new byte[size](i requires 0 <= i < size => buffer0[i]);
    ghost var limit := size - 1;
    echo := [];
    consumed := 0;
    waiting := false;
    var n: int := 0;
    while n < size - 1
      invariant 0 <= n <= size - 1
      invariant 0 <= consumed <= |input|
      invariant Run(size, input) == Shift(Scan(limit, buf[..n], input[consumed..]), echo, consumed)
      decreases |input| - consumed
    {
      ghost var line := buf[..n];
      ShiftStop(limit, line, input, consumed, echo);
      if consumed == |input| {
        // The next read would block.
        code, buffer, waiting := 0, buf[..] + buffer0[size..], true;
        assert buffer[..n] == line;
        return;
      }
      var c := input[consumed];
      if !IsLineEnd(c) {
        ShiftStep(limit, line, input, consumed, echo);
      }
      consumed := consumed + 1;
      if c == LF || c == CR {
        buf[n] := NUL;
        assert buf[..n] == line;
        code, buffer := n, buf[..] + buffer0[size..];
        assert buffer[..n] == line && buffer[n] == NUL;
        return;
      }
      var out;
      n, out := EditByte(buf, n, c, limit);
      echo := echo + out;
      n := n + 1;
    }
    ghost var line := buf[..n];
    ShiftStop(limit, line, input, consumed, echo);
    buf[size - 1] := NUL;
    code, buffer := 0, buf[..] + buffer0[size..];
    assert buffer[..n] == line && buffer[size - 1] == NUL;
  }

  /** The erase, store and ignore arms of the `switch` in `inputline`, on a cursor
      `n` below the capacity `limit`. Returns the cursor as the arm leaves it, before
      the loop's post-increment, and the bytes the arm echoes. An erase request
      decrements the cursor twice (once when it is already 0) and an ignored
      byte once, so that after the post-increment the cursor has moved exactly as
      the edit of the held line requires. */
  method EditByte(buf: array<byte>, n: int, c: byte, ghost limit: int) returns (n': int, out: seq<byte>)
    requires 0 <= n < limit && limit + 1 == buf.Length && !IsLineEnd(c)
    modifies buf
    ensures -1 <= n' < limit
    ensures buf[..n' + 1] == Edit(old(buf[..n]), c)
    ensures out == Echo(c)
    ensures IsErase(c) ==> buf[..] == old(buf[..])[n' + 1 := NUL]
    ensures IsPrint(c) ==> buf[..] == old(buf[..])[n := c]
    ensures IsIgnored(c) ==> buf[..] == old(buf[..])
  {
    ghost var line := buf[..n];
    n' := n;
    out := [];
    if c == DEL || c == BS {
      if n' > 0 {
        n' := n' - 1;
      }
      buf[n'] := NUL;
      out := out + [BS];
      out := out + [SP];
      out := out + [BS];
      n' := n' - 1;
      assert buf[..n' + 1] == line[..n' + 1];
    } else if IsPrint(c) {
      out := out + [c];
      buf[n'] := c;
      assert buf[..n' + 1] == line + [c];
    } else {
      n' := n' - 1;
    }
  }
}
