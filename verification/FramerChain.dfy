/** Framer composition: `FramerChain` of `mav_gss_lib/platform/framing/protocol.py`,
    and the size a chain says it takes against the size it takes. */
module FramerChains {
  import opened Options
  import opened Bitwise
  import Ax25Line
  import Ax25Hdlc
  import Ax25Crc
  import AsmGolays
  import Csps

  type Bytes = seq<byte>

  /** `None` stands for the exception of a framer that refuses its input. */
  datatype Framer = Framer(frame: Bytes -> Option<Bytes>, overhead: int, cap: Option<int>)

  // ---- What the chain does -------------------------------------------------------

  function FrameAll(framers: seq<Framer>, payload: Bytes): Option<Bytes>
    decreases |framers|
  {
    if framers == [] then Some(payload)
    else
      var out := framers[0].frame(payload);
      if out.None? then None else FrameAll(framers[1..], out.value)
  }

  method Frame(framers: seq<Framer>, payload: Bytes) returns (out: Option<Bytes>)
    ensures out == FrameAll(framers, payload)
  {
    out := Some(payload);
    var i := 0;
    while i < |framers|
      invariant 0 <= i <= |framers| && out.Some?
      invariant FrameAll(framers, payload) == FrameAll(framers[i..], out.value)
    {
      assert framers[i..][1..] == framers[i + 1..];
      out := framers[i].frame(out.value);
      if out.None? {
        return;
      }
      i := i + 1;
    }
  }

  /** The overheads of the first `n`. */
  function Overhead(framers: seq<Framer>): int {
    if framers == [] then 0 else Overhead(framers[..|framers| - 1]) + framers[|framers| - 1].overhead
  }

  /** Every framer takes what the size promises it. */
  predicate Admits(framers: seq<Framer>, size: int) {
    forall i :: 0 <= i < |framers| && framers[i].cap.Some? ==> size + Overhead(framers[..i]) <= framers[i].cap.value
  }

  /** The smallest cap, each less the overhead below it. */
  method MaxPayload(framers: seq<Framer>) returns (cap: Option<int>)
    ensures forall size: int :: Admits(framers, size) <==> cap.None? || size <= cap.value
  {
    cap := None;
    var overheadBelow := 0;
    for i := 0 to |framers|
      invariant overheadBelow == Overhead(framers[..i])
      invariant forall size: int :: Admits(framers[..i], size) <==> cap.None? || size <= cap.value
    {
      var f := framers[i];
      AdmitsOneMore(framers[..i], f);
      assert framers[..i + 1] == framers[..i] + [f];
      if f.cap.Some? {
        var adjusted := f.cap.value - overheadBelow;
        if cap.None? || adjusted < cap.value {
          cap := Some(adjusted);
        }
      }
      overheadBelow := overheadBelow + f.overhead;
    }
    assert framers[..|framers|] == framers;
  }

  lemma AdmitsOneMore(framers: seq<Framer>, f: Framer)
    ensures Overhead(framers + [f]) == Overhead(framers) + f.overhead
    ensures forall size: int ::
              Admits(framers + [f], size) <==>
              Admits(framers, size) && (f.cap.Some? ==> size + Overhead(framers) <= f.cap.value)
  {
    var all := framers + [f];
    assert all[..|framers|] == framers;
    assert all[|framers|] == f;
    forall i | 0 <= i < |framers| ensures all[..i] == framers[..i] && all[i] == framers[i] {
    }
  }

  // ---- When the size is exact --------------------------------------------------------

  /** A framer refuses exactly what is over its cap. */
  ghost predicate HonoursCap(f: Framer) {
    forall p :: f.frame(p).Some? <==> f.cap.None? || |p| <= f.cap.value
  }

  /** A framer adds exactly its overhead. */
  ghost predicate AddsOverhead(f: Framer) {
    forall p :: f.frame(p).Some? ==> |f.frame(p).value| == |p| + f.overhead
  }

  lemma {:induction false} OverheadFromFront(framers: seq<Framer>, i: nat)
    requires i < |framers|
    ensures Overhead(framers[..i + 1]) == framers[0].overhead + Overhead(framers[1..][..i])
  {
    if i == 0 {
      assert framers[..1][..0] == [] && framers[..1][0] == framers[0];
    } else {
      OverheadFromFront(framers, i - 1);
      assert framers[..i + 1][..i] == framers[..i];
      assert framers[1..][..i][..i - 1] == framers[1..][..i - 1];
    }
  }

  lemma AdmitsFromFront(framers: seq<Framer>, size: int)
    requires framers != []
    ensures Admits(framers, size) <==>
            && (framers[0].cap.Some? ==> size <= framers[0].cap.value)
            && Admits(framers[1..], size + framers[0].overhead)
  {
    var rest := framers[1..];
    forall i | 0 <= i < |rest|
      ensures rest[i] == framers[i + 1] && Overhead(framers[..i + 1]) == framers[0].overhead + Overhead(rest[..i])
    {
      OverheadFromFront(framers, i);
    }
    assert Overhead(framers[..0]) == 0;
    if Admits(rest, size + framers[0].overhead) && (framers[0].cap.Some? ==> size <= framers[0].cap.value) {
      forall j | 0 <= j < |framers| && framers[j].cap.Some?
        ensures size + Overhead(framers[..j]) <= framers[j].cap.value
      {
        assert j > 0 ==> rest[j - 1] == framers[j];
      }
    }
  }

  /** When each framer honours its cap and all but the last add exactly their
      overhead, the chain takes exactly the payloads that fit. */
  lemma {:induction false} ChainTakesWhatFits(framers: seq<Framer>, payload: Bytes)
    requires forall f :: f in framers ==> HonoursCap(f)
    requires forall i :: 0 <= i < |framers| - 1 ==> AddsOverhead(framers[i])
    ensures FrameAll(framers, payload).Some? <==> Admits(framers, |payload|)
    decreases |framers|
  {
    if framers != [] {
      var f, rest := framers[0], framers[1..];
      assert HonoursCap(f);
      AdmitsFromFront(framers, |payload|);
      var out := f.frame(payload);
      if out.Some? {
        forall i | 0 <= i < |rest| - 1 ensures AddsOverhead(rest[i]) {
          assert rest[i] == framers[i + 1];
        }
        ChainTakesWhatFits(rest, out.value);
        assert rest != [] ==> AddsOverhead(framers[0]);
      }
    }
  }

  /** So the size `MaxPayload` gives is the largest the chain takes. */
  lemma MaxPayloadIsExact(framers: seq<Framer>, cap: Option<int>, payload: Bytes)
    requires forall f :: f in framers ==> HonoursCap(f)
    requires forall i :: 0 <= i < |framers| - 1 ==> AddsOverhead(framers[i])
    requires forall size: int :: Admits(framers, size) <==> cap.None? || size <= cap.value
    ensures FrameAll(framers, payload).Some? <==> cap.None? || |payload| <= cap.value
  {
    ChainTakesWhatFits(framers, payload);
  }

  // ---- The framers there are -----------------------------------------------------------

  function CspFramer(c: Csps.CspConfig, crc32c: Csps.Crc32): Framer {
    Framer(p => Some(Csps.Wrap(c, crc32c, p)), Csps.Overhead(c), None)
  }

  /** `header` is the 16-byte UI header, or nothing when the layer is disabled. */
  function Ax25Framer(header: Bytes): Framer {
    Framer(p => Some(Ax25Line.Frame(header + p)), |header|, None)
  }

  /** `rs` gives the parity bytes of a packet; the encoder is available. */
  function GolayFramer(rs: Bytes -> Bytes): Framer {
    Framer((p: Bytes) => if |p| <= AsmGolays.MAX_PAYLOAD && |rs(p)| == AsmGolays.RS_PARITY
                         then Some(AsmGolays.Frame(rs(p), p)) else None,
           0, Some(AsmGolays.MAX_PAYLOAD as int))
  }

  lemma Pair(a: Framer, b: Framer, size: int)
    ensures Admits([a, b], size) <==>
            (a.cap.Some? ==> size <= a.cap.value) && (b.cap.Some? ==> size + a.overhead <= b.cap.value)
  {
    AdmitsFromFront([a, b], size);
    assert [a, b][1..] == [b];
    AdmitsFromFront([b], size + a.overhead);
    assert [b][1..] == [];
  }

  lemma FramePair(a: Framer, b: Framer, payload: Bytes)
    ensures FrameAll([a, b], payload) ==
            if a.frame(payload).None? then None else b.frame(a.frame(payload).value)
  {
    assert [a, b][1..] == [b];
    if a.frame(payload).Some? {
      FrameOne(b, a.frame(payload).value);
    }
  }

  lemma FrameOne(f: Framer, payload: Bytes)
    ensures FrameAll([f], payload) == f.frame(payload)
  {
    assert [f][1..] == [];
  }

  /** CSP inside ASM+Golay: what `MaxPayload` promises is what is taken, to the byte. */
  lemma CspGolayIsExact(c: Csps.CspConfig, crc32c: Csps.Crc32, rs: Bytes -> Bytes, payload: Bytes)
    requires forall p :: |rs(p)| == AsmGolays.RS_PARITY
    ensures FrameAll([CspFramer(c, crc32c), GolayFramer(rs)], payload).Some?
            <==> Admits([CspFramer(c, crc32c), GolayFramer(rs)], |payload|)
    ensures Admits([CspFramer(c, crc32c), GolayFramer(rs)], |payload|)
            <==> |payload| + Csps.Overhead(c) <= AsmGolays.MAX_PAYLOAD
  {
    hide Admits, FrameAll;
    Pair(CspFramer(c, crc32c), GolayFramer(rs), |payload|);
    FramePair(CspFramer(c, crc32c), GolayFramer(rs), payload);
  }

  lemma Ax25Length(packet: Bytes)
    ensures |Ax25Line.Frame(packet)| == 40 + |Ax25Hdlc.Body(packet)| / 8
    ensures |Ax25Line.Frame(packet)| >= |packet| + 42
  {
    Ax25Hdlc.StuffedLength(BytesToBits(packet + Ax25Crc.FcsBytes(packet)), 0);
  }

  /** AX.25 inside ASM+Golay: its overhead does not count the flags, the checksum and
      the stuffing. The chain takes a payload exactly when the AX.25 frame fits, and
      so never one of the last 42 sizes that `MaxPayload` promises. */
  lemma Ax25GolayPromisesTooMuch(header: Bytes, rs: Bytes -> Bytes, payload: Bytes)
    requires forall p :: |rs(p)| == AsmGolays.RS_PARITY
    ensures var chain := [Ax25Framer(header), GolayFramer(rs)];
            && (FrameAll(chain, payload).Some? <==>
                40 + |Ax25Hdlc.Body(header + payload)| / 8 <= AsmGolays.MAX_PAYLOAD)
            && (Admits(chain, |payload|) <==> |payload| + |header| <= AsmGolays.MAX_PAYLOAD)
            && (FrameAll(chain, payload).Some? ==> Admits(chain, |payload| + 42))
  {
    hide Admits, FrameAll, Ax25Line.Frame, AsmGolays.Frame;
    Pair(Ax25Framer(header), GolayFramer(rs), |payload|);
    Pair(Ax25Framer(header), GolayFramer(rs), |payload| + 42);
    FramePair(Ax25Framer(header), GolayFramer(rs), payload);
    Ax25Length(header + payload);
  }
}
