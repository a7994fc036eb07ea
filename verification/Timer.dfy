/**
 The conversions between counter ticks and timespecs in `devicemodel/include/timer.h`, on 64-bit
 words.  `freq` is the counter's frequency in hertz.
 */
module Timer {
  import opened GuestLayout

  const NS_PER_SEC := 1_000_000_000
  const TWO32 := 0x1_0000_0000

  datatype Timespec = Timespec(sec: nat, nsec: nat)

  predicate Normal(ts: Timespec) {
    ts.nsec < NS_PER_SEC
  }

  /** The order of points in time. */
  predicate Leq(a: Timespec, b: Timespec) {
    a.sec < b.sec || (a.sec == b.sec && a.nsec <= b.nsec)
  }

  function TsToTicks(freq: nat, ts: Timespec): nat {
    ((ts.sec * freq) % TWO64 + (ts.nsec * freq) % TWO64 / NS_PER_SEC) % TWO64
  }

  function TicksToTs(freq: nat, ticks: nat): Timespec
    requires freq >= 1
  {
    var ns := ((ticks * NS_PER_SEC) % TWO64 + (freq - 1)) % TWO64 / freq;
    Timespec(ns / NS_PER_SEC, ns % NS_PER_SEC)
  }

  /** No product of the conversion from a timespec overflows a signed word. */
  predicate TsFits(freq: nat, ts: Timespec) {
    Normal(ts) && 1 <= freq < TWO32 && ts.sec * freq < TWO63
  }

  /** Nothing in the conversion from ticks overflows an unsigned word. */
  predicate TicksFit(freq: nat, ticks: nat) {
    1 <= freq < TWO32 && ticks * NS_PER_SEC + (freq - 1) < TWO64
  }

  // ---- the conversions without their words ----

  function Nanos(ts: Timespec): nat {
    ts.sec * NS_PER_SEC + ts.nsec
  }

  /** The least number of nanoseconds that `ticks` ticks take. */
  function Ceil(freq: nat, ticks: nat): nat
    requires freq >= 1
  {
    (ticks * NS_PER_SEC + (freq - 1)) / freq
  }

  lemma Small(freq: nat, nsec: nat)
    requires freq < TWO32 && nsec < NS_PER_SEC
    ensures nsec * freq <= NS_PER_SEC * TWO32 < TWO63
  {
    Product(nsec, NS_PER_SEC, freq);
    Product(freq, TWO32, NS_PER_SEC);
  }

  lemma Product(x: nat, y: nat, z: nat)
    requires x <= y
    ensures x * z <= y * z
  {
  }

  lemma TicksPlain(freq: nat, ts: Timespec)
    requires TsFits(freq, ts)
    ensures TsToTicks(freq, ts) == ts.sec * freq + ts.nsec * freq / NS_PER_SEC
  {
    Small(freq, ts.nsec);
    NoWrap(ts.sec * freq, ts.nsec * freq);
  }

  lemma NoWrap(x: nat, y: nat)
    requires x < TWO63 && y < TWO63
    ensures (x % TWO64 + y % TWO64 / NS_PER_SEC) % TWO64 == x + y / NS_PER_SEC
  {
  }

  lemma TsPlain(freq: nat, ticks: nat)
    requires TicksFit(freq, ticks)
    ensures Normal(TicksToTs(freq, ticks)) && Nanos(TicksToTs(freq, ticks)) == Ceil(freq, ticks)
  {
  }

  lemma LeqNanos(a: Timespec, b: Timespec)
    requires Normal(a) && Normal(b)
    ensures Leq(a, b) <==> Nanos(a) <= Nanos(b)
  {
  }

  /** `t` ticks pass within a time exactly when their nanoseconds, scaled, do. */
  lemma TicksScaled(freq: nat, ts: Timespec, t: nat)
    requires TsFits(freq, ts)
    ensures t <= TsToTicks(freq, ts) <==> t * NS_PER_SEC <= Nanos(ts) * freq
  {
    TicksPlain(freq, ts);
    var part := ts.nsec * freq;
    assert Nanos(ts) * freq == (ts.sec * freq) * NS_PER_SEC + part;
    assert part / NS_PER_SEC * NS_PER_SEC <= part < (part / NS_PER_SEC + 1) * NS_PER_SEC;
  }

  lemma DivBounds(x: nat, d: nat)
    requires d >= 1
    ensures x / d * d <= x < x / d * d + d
  {
  }

  lemma CeilScaled(freq: nat, ticks: nat, n: nat)
    requires freq >= 1
    ensures Ceil(freq, ticks) <= n <==> ticks * NS_PER_SEC <= n * freq
  {
    var c := Ceil(freq, ticks);
    DivBounds(ticks * NS_PER_SEC + (freq - 1), freq);
    if c <= n {
      Product(c, n, freq);
    } else {
      Product(n + 1, c, freq);
    }
  }

  /** The two conversions are adjoint: `ticks` fit in `ts` exactly when the time they take does. */
  lemma Galois(freq: nat, ticks: nat, ts: Timespec)
    requires TsFits(freq, ts) && TicksFit(freq, ticks)
    ensures ticks <= TsToTicks(freq, ts) <==> Leq(TicksToTs(freq, ticks), ts)
  {
    TicksScaled(freq, ts, ticks);
    CeilScaled(freq, ticks, Nanos(ts));
    TsPlain(freq, ticks);
    LeqNanos(TicksToTs(freq, ticks), ts);
  }

  /** The timespec of ticks that fit converts back without overflow. */
  lemma BackFits(freq: nat, ticks: nat)
    requires TicksFit(freq, ticks)
    ensures TsFits(freq, TicksToTs(freq, ticks))
  {
  }

  /** Whenever a tick is at least a nanosecond, converting ticks to a timespec and back loses nothing. */
  lemma RoundTrip(freq: nat, ticks: nat)
    requires TicksFit(freq, ticks) && freq <= NS_PER_SEC
    ensures TsToTicks(freq, TicksToTs(freq, ticks)) == ticks
  {
    var ts := TicksToTs(freq, ticks);
    BackFits(freq, ticks);
    TsPlain(freq, ticks);
    TicksScaled(freq, ts, ticks);
    TicksScaled(freq, ts, ticks + 1);
    CeilScaled(freq, ticks, Nanos(ts));
    DivBounds(ticks * NS_PER_SEC + (freq - 1), freq);
  }

  /** Every number of ticks that fits survives the round trip. */
  ghost predicate Lossless(freq: nat)
    requires freq >= 1
  {
    forall ticks: nat :: TicksFit(freq, ticks) ==> TsToTicks(freq, TicksToTs(freq, ticks)) == ticks
  }

  lemma SecondFits(freq: nat, ticks: nat)
    requires 1 <= freq < TWO32 && ticks <= freq
    ensures TicksFit(freq, ticks)
  {
  }

  lemma CeilGrows(freq: nat, ticks: nat)
    requires freq >= 1
    ensures Ceil(freq, ticks) <= Ceil(freq, ticks + 1)
  {
    CeilScaled(freq, ticks, Ceil(freq, ticks + 1));
    CeilScaled(freq, ticks + 1, Ceil(freq, ticks + 1));
  }

  /** If nothing is lost, distinct ticks take distinct nanoseconds. */
  lemma {:induction false} AtLeastOneEach(freq: nat, ticks: nat)
    requires 1 <= freq < TWO32 && Lossless(freq) && ticks <= freq
    ensures ticks <= Ceil(freq, ticks)
  {
    if ticks > 0 {
      AtLeastOneEach(freq, ticks - 1);
      CeilGrows(freq, ticks - 1);
      SecondFits(freq, ticks);
      SecondFits(freq, ticks - 1);
      TsPlain(freq, ticks);
      TsPlain(freq, ticks - 1);
      assert TsToTicks(freq, TicksToTs(freq, ticks)) == ticks;
      assert TsToTicks(freq, TicksToTs(freq, ticks - 1)) == ticks - 1;
      if Ceil(freq, ticks) == Ceil(freq, ticks - 1) {
        SameTime(TicksToTs(freq, ticks), TicksToTs(freq, ticks - 1));
      }
    }
  }

  lemma SameTime(a: Timespec, b: Timespec)
    requires Normal(a) && Normal(b) && Nanos(a) == Nanos(b)
    ensures a == b
  {
  }

  /** Ticks survive the round trip if and only if the frequency is at most 1 GHz. */
  lemma RoundTripExact(freq: nat)
    requires 1 <= freq < TWO32
    ensures Lossless(freq) <==> freq <= NS_PER_SEC
  {
    if freq <= NS_PER_SEC {
      forall ticks: nat | TicksFit(freq, ticks)
        ensures TsToTicks(freq, TicksToTs(freq, ticks)) == ticks
      {
        RoundTrip(freq, ticks);
      }
    }
    if Lossless(freq) {
      AtLeastOneEach(freq, freq);
      CeilScaled(freq, freq, NS_PER_SEC);
    }
  }
}
