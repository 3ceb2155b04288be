/** The USB-to-UART direction of the bridge (`tx_thread`): bytes read from the USB
    serial stream are echoed back to it and written to the UART, until a read
    yields the value 0, which ends the pass (the firmware then sleeps and starts
    another). A NUL byte is therefore never forwarded. */
module Forwarder {
  import opened Bytes

  /** The two endpoints a pass writes to. */
  datatype Port = Usb | Uart

  /** One write the forwarder performs: a byte echoed to the USB stream or sent to the UART. */
  datatype Write = Write(port: Port, b: byte)

  /** The result of one pass of the inner loop over the bytes available: the writes
      in the order they happen, the number of bytes read, and whether the pass
      ended on a zero byte (otherwise the input ran out and the next read blocks). */
  datatype Pass = Pass(trace: seq<Write>, consumed: nat, ended: bool)

  /** Number of bytes a pass forwarded: those it read, less the terminating zero. */
  function Forwarded(p: Pass): int {
    if p.ended then p.consumed - 1 else p.consumed
  }

  /** One pass of the inner `while ((c = streamGet(chp)))` loop. */
  function ForwardPass(input: seq<byte>): (r: Pass)
    ensures 0 <= Forwarded(r) && r.consumed <= |input|
    ensures r.ended ==> input[r.consumed - 1] == NUL
    ensures !r.ended ==> r.consumed == |input|
    ensures forall j :: 0 <= j < Forwarded(r) ==> input[j] != NUL
    ensures |r.trace| == 2 * Forwarded(r)
    decreases |input|
  {
    if |input| == 0 then Pass([], 0, false)
    else if input[0] == NUL then Pass([], 1, true)
    else
      var rest := ForwardPass(input[1..]);
      Pass([Write(Usb, input[0]), Write(Uart, input[0])] + rest.trace, rest.consumed + 1, rest.ended)
  }

  /** The pass `p` as seen by a caller that had already written `t` and read `k` bytes. */
  function Prepend(t: seq<Write>, k: nat, p: Pass): Pass {
    Pass(t + p.trace, k + p.consumed, p.ended)
  }

  /** The inner loop of `tx_thread` as an imperative loop; agrees with `ForwardPass`. */
  method RunPass(input: seq<byte>) returns (trace: seq<Write>, consumed: nat, ended: bool)
    ensures Pass(trace, consumed, ended) == ForwardPass(input)
  {
    trace, consumed, ended := [], 0, false;
    while consumed < |input|
      invariant consumed <= |input|
      invariant ForwardPass(input) == Prepend(trace, consumed, ForwardPass(input[consumed..]))
      decreases |input| - consumed
    {
      var c := input[consumed];
      ghost var tail := input[consumed..];
      assert tail[0] == c && tail[1..] == input[consumed + 1..];
      consumed := consumed + 1;
      if c == NUL {
        assert ForwardPass(tail) == Pass([], 1, true);
        ended := true;
        assert trace + [] == trace;
        return;
      }
      ghost var rest := ForwardPass(input[consumed..]);
      ghost var pair := [Write(Usb, c), Write(Uart, c)];
      assert ForwardPass(tail) == Pass(pair + rest.trace, rest.consumed + 1, rest.ended);
      assert trace + (pair + rest.trace) == (trace + pair) + rest.trace;
      ghost var before := trace;
      trace := trace + [Write(Usb, c)];
      trace := trace + [Write(Uart, c)];
      assert trace == before + pair;
    }
    assert input[consumed..] == [];
    assert trace + [] == trace;
  }

  /** The bytes written to `port`, in order. */
  function Sent(t: seq<Write>, port: Port): seq<byte>
    decreases |t|
  {
    if |t| == 0 then []
    else if t[0].port == port then [t[0].b] + Sent(t[1..], port)
    else Sent(t[1..], port)
  }

  /** Each forwarded byte is first echoed to USB and then written to the UART,
      in input order, and nothing else is written. */
  lemma {:induction false} PassInterleaving(input: seq<byte>)
    ensures var r := ForwardPass(input);
            forall j :: 0 <= j < Forwarded(r) ==> r.trace[2 * j] == Write(Usb, input[j]) && r.trace[2 * j + 1] == Write(Uart, input[j])
    decreases |input|
  {
    if |input| > 0 && input[0] != NUL {
      PassInterleaving(input[1..]);
      var r := ForwardPass(input);
      var rest := ForwardPass(input[1..]);
      forall j | 0 <= j < Forwarded(r)
        ensures r.trace[2 * j] == Write(Usb, input[j]) && r.trace[2 * j + 1] == Write(Uart, input[j])
      {
        if j > 0 {
          assert r.trace[2 * j] == rest.trace[2 * (j - 1)];
          assert r.trace[2 * j + 1] == rest.trace[2 * (j - 1) + 1];
        }
      }
    }
  }

  /** What a pass writes to either port is exactly the bytes it forwards. */
  lemma {:induction false} PassSends(input: seq<byte>, port: Port)
    ensures var r := ForwardPass(input);
            Sent(r.trace, port) == input[..Forwarded(r)]
    decreases |input|
  {
    var r := ForwardPass(input);
    if |input| == 0 || input[0] == NUL {
      assert input[..0] == [];
    } else {
      var c := input[0];
      var tail := input[1..];
      PassSends(tail, port);
      var rest := ForwardPass(tail);
      var pair := [Write(Usb, c), Write(Uart, c)];
      assert r.trace == pair + rest.trace;
      SentAppend(pair, rest.trace, port);
      assert pair[1..] == [Write(Uart, c)];
      assert pair[1..][1..] == [];
      assert Sent(pair, port) == [c];
      assert input[..Forwarded(r)] == [c] + tail[..Forwarded(rest)];
    }
  }

  /** A pass forwards to the UART, and echoes to USB, exactly the maximal prefix of
      non-zero bytes; the zero that ends it is not forwarded. */
  lemma {:induction false} PassForwardsPrefix(input: seq<byte>)
    ensures var r := ForwardPass(input);
            && Sent(r.trace, Uart) == input[..Forwarded(r)]
            && Sent(r.trace, Usb) == input[..Forwarded(r)]
            && NUL !in Sent(r.trace, Uart)
            && NUL !in Sent(r.trace, Usb)
  {
    PassSends(input, Uart);
    PassSends(input, Usb);
    var k := Forwarded(ForwardPass(input));
    assert forall j :: 0 <= j < k ==> input[..k][j] != NUL;
  }

  // ---------------------------------------------------------------------------
  // Repeated passes

  /** The writes of `tx_thread` over a finite input: passes one after another, each
      started after the zero that ended the previous one (the sleep in between has
      no effect on the bytes). */
  function Bridge(input: seq<byte>): (t: seq<Write>)
    ensures |t| % 2 == 0 && |t| <= 2 * |input|
    decreases |input|
  {
    if |input| == 0 then []
    else
      var p := ForwardPass(input);
      if p.ended then p.trace + Bridge(input[p.consumed..]) else p.trace
  }

  /** `s` without its zero bytes. */
  function NonZero(s: seq<byte>): seq<byte>
    decreases |s|
  {
    if |s| == 0 then []
    else if s[0] == NUL then NonZero(s[1..])
    else [s[0]] + NonZero(s[1..])
  }

  lemma {:induction false} SentAppend(a: seq<Write>, b: seq<Write>, port: Port)
    ensures Sent(a + b, port) == Sent(a, port) + Sent(b, port)
    decreases |a|
  {
    if |a| == 0 {
      assert a + b == b;
    } else {
      assert (a + b)[0] == a[0];
      assert (a + b)[1..] == a[1..] + b;
      SentAppend(a[1..], b, port);
      if a[0].port == port {
        assert [a[0].b] + (Sent(a[1..], port) + Sent(b, port)) == ([a[0].b] + Sent(a[1..], port)) + Sent(b, port);
      }
    }
  }

  lemma {:induction false} NonZeroAppend(a: seq<byte>, b: seq<byte>)
    ensures NonZero(a + b) == NonZero(a) + NonZero(b)
    decreases |a|
  {
    if |a| == 0 {
      assert a + b == b;
    } else {
      assert (a + b)[0] == a[0];
      assert (a + b)[1..] == a[1..] + b;
      NonZeroAppend(a[1..], b);
      if a[0] != NUL {
        assert [a[0]] + (NonZero(a[1..]) + NonZero(b)) == ([a[0]] + NonZero(a[1..])) + NonZero(b);
      }
    }
  }

  lemma {:induction false} NonZeroKeepsNonZero(a: seq<byte>)
    requires forall j :: 0 <= j < |a| ==> a[j] != NUL
    ensures NonZero(a) == a
    decreases |a|
  {
    if |a| > 0 {
      NonZeroKeepsNonZero(a[1..]);
      assert [a[0]] + a[1..] == a;
    }
  }

  /** Dropping the zeros of `s` after a pass: the forwarded prefix, then the zeros
      dropped from what the pass left unread. */
  lemma {:induction false} NonZeroAfterPass(s: seq<byte>)
    ensures var r := ForwardPass(s);
            NonZero(s) == s[..Forwarded(r)] + NonZero(s[r.consumed..])
  {
    var r := ForwardPass(s);
    var k := Forwarded(r);
    assert s == s[..k] + s[k..];
    NonZeroAppend(s[..k], s[k..]);
    NonZeroKeepsNonZero(s[..k]);
    if r.ended {
      assert s[k..][0] == NUL && s[k..][1..] == s[r.consumed..];
    }
  }

  /** Over any finite input, the bridge delivers to the UART, and echoes to USB,
      exactly the input's non-zero bytes, in order. */
  lemma {:induction false} BridgeForwardsNonZero(input: seq<byte>)
    ensures Sent(Bridge(input), Uart) == NonZero(input)
    ensures Sent(Bridge(input), Usb) == NonZero(input)
    decreases |input|
  {
    if |input| > 0 {
      var p := ForwardPass(input);
      PassForwardsPrefix(input);
      NonZeroAfterPass(input);
      if p.ended {
        var later := input[p.consumed..];
        BridgeForwardsNonZero(later);
        SentAppend(p.trace, Bridge(later), Uart);
        SentAppend(p.trace, Bridge(later), Usb);
      } else {
        assert input[p.consumed..] == [];
      }
    }
  }
}
