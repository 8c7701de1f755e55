/** How loud a recording is. `record_audio` takes 5 seconds of 16-bit mono audio
    at 44100 Hz in chunks of 1024 samples and reports the root mean square of the
    samples; the controller calls the room too loud when that exceeds 5000.

    As written, the squares are taken in the samples' own 16-bit type and wrap
    around, so the mean square never exceeds 32767 and the threshold is never
    crossed. The model keeps that computation (`MeanSquareAsWritten`) next to the
    intended one (`SumSquares`, `Loud`), which the session model uses. */
module Loudness {

  /** The threshold on the root mean square. */
  const NoiseLimit: int := 5000

  const Int16Min: int := -32768
  const Int16Max: int := 32767

  predicate IsSample(x: int) {
    Int16Min <= x <= Int16Max
  }

  predicate AllSamples(samples: seq<int>) {
    forall k :: 0 <= k < |samples| ==> IsSample(samples[k])
  }

  // ---------------------------------------------------------------------------
  // Recording length

  /** `int(rate / chunk * duration)`: the number of whole chunks read. The
      floating-point quotient is exact for the default arguments, whose chunk
      of 1024 is a power of two; for other arguments the rounding of
      `rate / chunk` can make Python's result one less than this floor. */
  function RecordingChunks(rate: nat, chunk: nat, duration: nat): (n: nat)
    requires chunk > 0
    ensures n * chunk <= rate * duration < (n + 1) * chunk
  {
    rate * duration / chunk
  }

  /** With the defaults the recording holds 215 chunks, 220160 samples. */
  lemma DefaultRecording()
    ensures RecordingChunks(44100, 1024, 5) == 215
    ensures RecordingChunks(44100, 1024, 5) * 1024 == 220160
  {
  }

  // ---------------------------------------------------------------------------
  // As written: squares in 16 bits

  /** A value reduced into the 16-bit two's-complement range, as numpy's int16
      arithmetic does. */
  function Wrap16(x: int): (w: int)
    ensures IsSample(w)
    ensures (w - x) % 65536 == 0
  {
    (x + 32768) % 65536 - 32768
  }

  /** `audio_data**2` element by element, on an int16 array. */
  function SquaresAsWritten(samples: seq<int>): (r: seq<int>)
    ensures |r| == |samples|
    ensures forall k :: 0 <= k < |r| ==> r[k] == Wrap16(samples[k] * samples[k])
  {
    if samples == [] then []
    else [Wrap16(samples[0] * samples[0])] + SquaresAsWritten(samples[1..])
  }

  function Sum(xs: seq<int>): int {
    if xs == [] then 0 else xs[0] + Sum(xs[1..])
  }

  /** A sum of values at most `m` each is at most `m` times their count. */
  lemma {:induction false} SumAtMost(xs: seq<int>, m: int)
    requires forall k :: 0 <= k < |xs| ==> xs[k] <= m
    ensures Sum(xs) <= m * |xs|
  {
    if xs != [] {
      SumAtMost(xs[1..], m);
    }
  }

  /** `np.mean(audio_data**2)` as written, as an exact real (`np.mean` of integers
      accumulates in double precision, which holds these sums exactly). Every
      wrapped square is at most 32767, and so is their mean. */
  function MeanSquareAsWritten(samples: seq<int>): (m: real)
    requires samples != []
    ensures m <= Int16Max as real
  {
    var sq := SquaresAsWritten(samples);
    SumAtMost(sq, Int16Max);
    DivideBound(Sum(sq) as real, Int16Max as real, |samples| as real);
    Sum(sq) as real / |samples| as real
  }

  lemma DivideBound(x: real, m: real, n: real)
    requires n > 0.0 && x <= m * n
    ensures x / n <= m
  {
    assert x / n * n == x;
  }

  /** `rms > 5000` for the as-written measurement. A negative mean makes the
      square root `nan`, which is not greater than anything. As written, no
      recording is ever loud enough: the mean square stays below 5000 squared. */
  predicate LoudAsWritten(samples: seq<int>)
    ensures !LoudAsWritten(samples)
  {
    samples != [] && MeanSquareAsWritten(samples) > (NoiseLimit * NoiseLimit) as real
  }

  /** A recording of the default length whose every sample exceeds 5000 in size
      is loud, yet reads as quiet as written. */
  lemma DefaultRecordingHidesNoise(samples: seq<int>)
    requires |samples| == RecordingChunks(44100, 1024, 5) * 1024
    requires forall k :: 0 <= k < |samples| ==> samples[k] > NoiseLimit || samples[k] < -NoiseLimit
    ensures Loud(samples) && !LoudAsWritten(samples)
  {
    DefaultRecording();
    AllLoudSamples(samples);
  }

  // ---------------------------------------------------------------------------
  // Intended: true squares

  /** The sum of the true squares of the samples. */
  function SumSquares(samples: seq<int>): (s: nat)
    ensures s == 0 <==> forall k :: 0 <= k < |samples| ==> samples[k] == 0
  {
    if samples == [] then 0 else samples[0] * samples[0] + SumSquares(samples[1..])
  }

  /** The room is too loud: the root mean square of the samples exceeds 5000,
      that is, their mean square exceeds 5000 squared. Kept in integers: the sum
      of squares exceeds 5000 squared times the number of samples. */
  predicate Loud(samples: seq<int>)
    ensures Loud(samples) ==> exists k :: 0 <= k < |samples| && (samples[k] > NoiseLimit || samples[k] < -NoiseLimit)
  {
    QuietSamples(samples);
    samples != [] && SumSquares(samples) > NoiseLimit * NoiseLimit * |samples|
  }

  /** Samples no louder than 5000 each sum to at most 5000 squared per sample. */
  lemma {:induction false} QuietSamples(samples: seq<int>)
    ensures (forall k :: 0 <= k < |samples| ==> -NoiseLimit <= samples[k] <= NoiseLimit) ==>
      SumSquares(samples) <= NoiseLimit * NoiseLimit * |samples|
  {
    if samples != [] && forall k :: 0 <= k < |samples| ==> -NoiseLimit <= samples[k] <= NoiseLimit {
      SquareAtMost(samples[0]);
      QuietSamples(samples[1..]);
    }
  }

  lemma SquareAtMost(x: int)
    requires -NoiseLimit <= x <= NoiseLimit
    ensures x * x <= NoiseLimit * NoiseLimit
  {
    if x >= 0 {
      MulAtMost(x, x, 5000);
      MulAtMost(5000, x, 5000);
    } else {
      assert x * x == (-x) * (-x);
      MulAtMost(-x, -x, 5000);
      MulAtMost(5000, -x, 5000);
    }
  }

  lemma MulAtMost(a: int, b: int, c: int)
    requires 0 <= a && b <= c
    ensures a * b <= a * c
  {
    assert a * c - a * b == a * (c - b);
  }

  /** `np.mean(audio_data**2)` with true squares. */
  function MeanSquare(samples: seq<int>): (m: real)
    requires samples != []
    ensures m >= 0.0
    ensures m == 0.0 <==> forall k :: 0 <= k < |samples| ==> samples[k] == 0
  {
    SumSquares(samples) as real / |samples| as real
  }

  /** `rms > 5000` and `Loud` agree: for the non-negative `rms` whose square is
      the mean square of the samples, one holds exactly when the other does. */
  lemma RmsThreshold(samples: seq<int>, rms: real)
    requires samples != []
    requires rms >= 0.0 && rms * rms == MeanSquare(samples)
    ensures rms > NoiseLimit as real <==> Loud(samples)
  {
    RootThreshold(rms);
    MeanThreshold(SumSquares(samples) as real, |samples| as real);
  }

  /** `rms > 5000`, the threshold on the reported root mean square. For a
      non-negative value it is the same as its square, the mean square,
      exceeding 5000 squared. */
  predicate AboveNoiseLimit(rms: real)
    ensures rms >= 0.0 ==> (AboveNoiseLimit(rms) <==> Square(rms) > (NoiseLimit * NoiseLimit) as real)
  {
    assert NoiseLimit as real == 5000.0 && (NoiseLimit * NoiseLimit) as real == 25000000.0;
    if rms >= 0.0 then RootThreshold(rms); rms > NoiseLimit as real else rms > NoiseLimit as real
  }

  function Square(x: real): real {
    x * x
  }

  /** For a non-negative root, exceeding 5000 is its square exceeding 5000². */
  lemma RootThreshold(rms: real)
    requires rms >= 0.0
    ensures rms > 5000.0 <==> rms * rms > 25000000.0
  {
    if rms > 5000.0 {
      assert rms * rms > 5000.0 * rms;
    } else {
      assert rms * rms <= 5000.0 * rms;
    }
  }

  /** A mean over `n` values exceeds 5000² exactly when their sum exceeds
      5000² times `n`. */
  lemma MeanThreshold(sum: real, n: real)
    requires n > 0.0
    ensures sum / n > 25000000.0 <==> sum > 25000000.0 * n
  {
    assert sum / n * n == sum;
    if sum / n > 25000000.0 {
      assert sum / n * n > 25000000.0 * n;
    } else {
      assert sum / n * n <= 25000000.0 * n;
    }
  }

  /** Every sample louder than 5000 either way makes the recording loud. */
  lemma {:induction false} AllLoudSamples(samples: seq<int>)
    requires samples != []
    requires forall k :: 0 <= k < |samples| ==> samples[k] > NoiseLimit || samples[k] < -NoiseLimit
    ensures Loud(samples)
  {
    var x := samples[0];
    assert x * x > NoiseLimit * NoiseLimit by {
      if x > NoiseLimit {
        assert x * x > x * NoiseLimit;
      } else {
        assert x * x > (-x) * NoiseLimit;
      }
    }
    if |samples| > 1 {
      AllLoudSamples(samples[1..]);
    }
  }

  /** A recording of the single sample 6000: as written the square 36000000
      wraps to 20736, so the room reads as quiet; with true squares it is loud. */
  lemma WrapCounterexample()
    ensures IsSample(6000)
    ensures Wrap16(6000 * 6000) == 20736
    ensures !LoudAsWritten([6000])
    ensures Loud([6000])
  {
    AllLoudSamples([6000]);
  }
}
