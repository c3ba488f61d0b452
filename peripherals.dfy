/** The two peripherals the worker talks to, reduced to what the worker can
    observe of them: the UART driver's receive call and the RMT driver's
    transmit call. Timing is not modelled; instead each object carries the
    answers the hardware will give, supplied up front. */
module Peripherals {
  import opened Bytes
  import opened Pulse

  function Min(a: nat, b: nat): nat {
    if a < b then a else b
  }

  datatype Option<T> = None | Some(value: T)

  /** What a loop of read calls that stops once `want` bytes are in makes of
      the answers `ready` when `avail` bytes are left in the stream: the
      answers still unused, or None if they run out first (the loop on the
      device would then block for ever). A loop completes only if the stream
      holds the bytes it wants, and then it has used up some answers, at
      least one if it wanted any byte. */
  function Fill(ready: seq<nat>, avail: nat, want: nat): (r: Option<seq<nat>>)
    ensures r.Some? ==> want <= avail
    ensures r.Some? ==> |r.value| <= |ready|
    ensures r.Some? && want > 0 ==> |r.value| < |ready|
    decreases |ready|
  {
    if want == 0 then Some(ready)
    else if ready == [] then None
    else
      var n := Min(ready[0], Min(want, avail));
      Fill(ready[1..], avail - n, want - n)
  }

  /** The answers a completed loop leaves are the last ones. */
  lemma {:induction false} FillSuffix(ready: seq<nat>, avail: nat, want: nat)
    requires Fill(ready, avail, want).Some?
    ensures Fill(ready, avail, want).value == ready[|ready| - |Fill(ready, avail, want).value|..]
    decreases |ready|
  {
    if want > 0 {
      var n := Min(ready[0], Min(want, avail));
      FillSuffix(ready[1..], avail - n, want - n);
      assert ready[1..][|ready| - 1 - |Fill(ready, avail, want).value|..] == ready[|ready| - |Fill(ready, avail, want).value|..];
    }
  }

  /** A read call that times out empty uses up its answer and nothing else:
      the loop carries on wanting the same bytes from the same stream. */
  lemma FillTimeout(ready: seq<nat>, avail: nat, want: nat)
    requires 0 < want && ready != [] && ready[0] == 0
    ensures Fill(ready, avail, want) == Fill(ready[1..], avail, want)
  {
  }

  /** When the first answer already covers the request, one read call is
      enough. */
  lemma FillAtOnce(ready: seq<nat>, avail: nat, want: nat)
    requires 0 < want <= avail && ready != [] && want <= ready[0]
    ensures Fill(ready, avail, want) == Some(ready[1..])
  {
  }

  /** The receive side of the serial port. `rx` holds the bytes the sender
      will deliver, in order; `ready` holds, for each successive read call,
      how many bytes that call delivers at most (0 for a call that times out
      empty). */
  class Uart {
    var rx: seq<byte>
    var ready: seq<nat>

    constructor (rx: seq<byte>, ready: seq<nat>)
      ensures this.rx == rx && this.ready == ready
    {
      this.rx := rx;
      this.ready := ready;
    }

    /** A read of at most `max` bytes into `dst[at..]`: it returns as many
        bytes as this call's answer allows and the stream still holds, never
        more than asked for, and consumes them from the stream. */
    method Read(dst: array<byte>, at: nat, max: nat) returns (n: nat)
      requires ready != []
      requires at + max <= dst.Length
      modifies this, dst
      ensures n == Min(old(ready[0]), Min(max, |old(rx)|))
      ensures rx == old(rx)[n..] && ready == old(ready)[1..]
      ensures dst[..at] == old(dst[..at])
      ensures dst[at..at + n] == old(rx)[..n]
      ensures dst[at + n..] == old(dst[at + n..])
    {
      n := Min(ready[0], Min(max, |rx|));
      forall k | 0 <= k < n {
        dst[at + k] := rx[k];
      }
      rx, ready := rx[n..], ready[1..];
    }
  }

  /** The transmit side of RMT channel 1. `written` records every burst of
      items handed to the driver, in order; `faults` holds, for each
      successive call, whether the driver reports an error. */
  class Rmt {
    var written: seq<seq<Item>>
    var faults: seq<bool>

    constructor (faults: seq<bool>)
      ensures written == [] && this.faults == faults
    {
      written := [];
      this.faults := faults;
    }

    /** Hand the first `count` items of `src` to the driver without waiting
        for the transfer; `ok` is the driver's status. */
    method WriteItems(src: array<Item>, count: nat) returns (ok: bool)
      requires count <= src.Length
      modifies this
      ensures written == old(written) + [src[..count]]
      ensures ok == (old(faults) == [] || !old(faults)[0])
      ensures faults == if old(faults) == [] then [] else old(faults)[1..]
    {
      written := written + [src[..count]];
      ok := faults == [] || !faults[0];
      if faults != [] {
        faults := faults[1..];
      }
    }
  }
}
