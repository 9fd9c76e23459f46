/** Linear sweeps: decoding one instruction after the other. */
module Sweeping {
  import opened Words
  import opened InstrTable
  import opened Decoder

  /** The instructions of a linear sweep; complete when it reaches the end. */
  datatype Run = Run(instrs: seq<Decoded>, complete: bool)

  function Sweep(t: Table, s: seq<u8>): Run
    decreases |s|
  {
    if s == [] then Run([], true) else
    var d := Decode(t, s);
    if d.None? then Run([], false) else
    var rest := Sweep(t, s[d.value.size..]);
    Run([d.value] + rest.instrs, rest.complete)
  }

  /** The offset of the k-th instruction. */
  function OffsetOf(run: seq<Decoded>, k: nat): nat
    requires k <= |run|
  {
    if k == 0 then 0 else run[0].size + OffsetOf(run[1..], k - 1)
  }

  function Length(run: seq<Decoded>): nat {
    OffsetOf(run, |run|)
  }

  lemma SweepStep(t: Table, s: seq<u8>)
    requires s != []
    ensures var d := Decode(t, s);
            if d.None? then Sweep(t, s) == Run([], false)
            else
              && 0 < d.value.size <= |s|
              && var rest := Sweep(t, s[d.value.size..]);
                 Sweep(t, s) == Run([d.value] + rest.instrs, rest.complete)
  {
  }

  lemma SweepEmpty(t: Table)
    ensures Sweep(t, []) == Run([], true)
  {
  }
}
