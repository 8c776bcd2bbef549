/**
 * Splitting a waveform into consecutive chunks of at most `n` samples, as the
 * first loop of `enhance_audio` does (`for start in range(0, length, n)`,
 * chunk `[start, min(start + n, length))`), and putting chunks back together.
 */
module Segmentation {

  function Min(a: int, b: int): int
  {
    if a < b then a else b
  }

  /** The chunks whose start positions are `start`, `start + n`, ... below
      `|s|`, each ending `n` samples later or at the end of `s`. */
  function SegmentsFrom<T>(s: seq<T>, n: nat, start: nat): (r: seq<seq<T>>)
    requires n > 0
    ensures forall k :: 0 <= k < |r| ==> 0 < |r[k]| <= n
    ensures start >= |s| <==> r == []
    decreases |s| - start
  {
    if start >= |s| then []
    else [s[start..Min(start + n, |s|)]] + SegmentsFrom(s, n, start + n)
  }

  /** The chunks of the whole waveform: none exactly when it is empty. */
  function Segments<T>(s: seq<T>, n: nat): (r: seq<seq<T>>)
    requires n > 0
    ensures r == [] <==> |s| == 0
    ensures forall k :: 0 <= k < |r| ==> 0 < |r[k]| <= n
  {
    SegmentsFrom(s, n, 0)
  }

  /** Concatenation of a list of chunks, in order (`torch.cat(..., dim=0)`):
      empty for no chunks, and at least as long as each chunk. */
  function Flatten<T>(ss: seq<seq<T>>): (r: seq<T>)
    ensures ss == [] ==> r == []
    ensures forall k :: 0 <= k < |ss| ==> |ss[k]| <= |r|
  {
    if ss == [] then [] else ss[0] + Flatten(ss[1..])
  }

  /** Number of chunks of a waveform of `length` samples: ceil(length / n). */
  function SegmentCount(length: nat, n: nat): nat
    requires n > 0
  {
    (length + n - 1) / n
  }

  lemma MulMono(x: int, y: int, n: nat)
    requires x <= y
    ensures x * n <= y * n
  {
  }

  /** Euclidean division is determined by quotient and remainder. */
  lemma DivUnique(a: nat, n: nat, q: int, m: int)
    requires n > 0 && a == q * n + m && 0 <= m < n
    ensures a / n == q
  {
    var q', m' := a / n, a % n;
    assert a == q' * n + m';
    if q' > q {
      assert (q + 1) * n == q * n + n;
      MulMono(q + 1, q', n);
    } else if q' < q {
      MulMono(q' + 1, q, n);
    }
  }

  lemma DivStep(a: nat, n: nat)
    requires n > 0
    ensures (a + n) / n == a / n + 1
  {
    var q, m := a / n, a % n;
    assert a + n == (q + 1) * n + m;
    DivUnique(a + n, n, q + 1, m);
  }

  /** Chunk i of the chunks from `start` begins at `start + i * n` and ends at
      `min(start + i * n + n, |s|)`; there are ceil((|s| - start) / n) of them. */
  lemma {:induction false} SegmentsFromAt<T>(s: seq<T>, n: nat, start: nat)
    requires n > 0
    ensures var r := SegmentsFrom(s, n, start);
            |r| == (if start >= |s| then 0 else SegmentCount(|s| - start, n))
    ensures var r := SegmentsFrom(s, n, start);
            forall i :: 0 <= i < |r| ==>
              start + i * n < |s| && r[i] == s[start + i * n..Min(start + i * n + n, |s|)]
    decreases |s| - start
  {
    if start < |s| {
      var r := SegmentsFrom(s, n, start);
      SegmentsFromAt(s, n, start + n);
      var rest := SegmentsFrom(s, n, start + n);
      assert r == [s[start..Min(start + n, |s|)]] + rest;
      if start + n < |s| {
        DivStep(|s| - start - n + n - 1, n);
      } else {
        DivUnique(|s| - start + n - 1, n, 1, |s| - start - 1);
      }
      forall i | 0 <= i < |r|
        ensures start + i * n < |s| && r[i] == s[start + i * n..Min(start + i * n + n, |s|)]
      {
        if i > 0 {
          assert r[i] == rest[i - 1];
          assert start + n + (i - 1) * n == start + i * n;
        }
      }
    }
  }

  /** Chunk positions and count: chunk i starts at i * n and ends at min(i * n + n, |s|),
      there are ceil(|s| / n) chunks, and an empty waveform has none. */
  lemma SegmentsAt<T>(s: seq<T>, n: nat)
    requires n > 0
    ensures |Segments(s, n)| == SegmentCount(|s|, n)
    ensures |s| == 0 ==> Segments(s, n) == []
    ensures forall i :: 0 <= i < |Segments(s, n)| ==>
              i * n < |s| && Segments(s, n)[i] == s[i * n..Min(i * n + n, |s|)]
  {
    SegmentsFromAt(s, n, 0);
  }

  /** SegmentsAt for one chunk. */
  lemma SegmentAtIndex<T>(s: seq<T>, n: nat, i: nat)
    requires n > 0 && i < SegmentCount(|s|, n)
    ensures |Segments(s, n)| == SegmentCount(|s|, n)
    ensures i * n < |s| && Segments(s, n)[i] == s[i * n..Min(i * n + n, |s|)]
  {
    SegmentsAt(s, n);
  }

  /** Every chunk is non-empty and at most n long, and all but the last are
      exactly n long. */
  lemma SegmentLengths<T>(s: seq<T>, n: nat)
    requires n > 0
    ensures forall i :: 0 <= i < |Segments(s, n)| ==> 0 < |Segments(s, n)[i]| <= n
    ensures forall i :: 0 <= i < |Segments(s, n)| - 1 ==> |Segments(s, n)[i]| == n
  {
    SegmentsFromAt(s, n, 0);
    var r := Segments(s, n);
    forall i | 0 <= i < |r| - 1
      ensures |r[i]| == n
    {
      assert (i + 1) * n == i * n + n;
      assert (i + 1) * n < |s|;
    }
  }

  /** Concatenating the chunks from `start` gives back `s[start..]`. */
  lemma {:induction false} FlattenSegmentsFrom<T>(s: seq<T>, n: nat, start: nat)
    requires n > 0 && start <= |s|
    ensures Flatten(SegmentsFrom(s, n, start)) == s[start..]
    decreases |s| - start
  {
    if start < |s| {
      var end := Min(start + n, |s|);
      var r := SegmentsFrom(s, n, start);
      assert r[1..] == SegmentsFrom(s, n, start + n);
      if start + n <= |s| {
        FlattenSegmentsFrom(s, n, start + n);
      } else {
        assert SegmentsFrom(s, n, start + n) == [];
      }
      calc {
        Flatten(r);
        s[start..end] + Flatten(SegmentsFrom(s, n, start + n));
        s[start..end] + s[end..];
        s[start..];
      }
    }
  }

  /** Segmentation coverage: the chunks reproduce the waveform exactly, with
      no gap and no overlap. */
  lemma FlattenSegments<T>(s: seq<T>, n: nat)
    requires n > 0
    ensures Flatten(Segments(s, n)) == s
  {
    FlattenSegmentsFrom(s, n, 0);
  }

  /** Two lists of chunks with equal lengths position by position have
      concatenations of equal length. */
  lemma {:induction false} FlattenSameLengths<T, U>(ss: seq<seq<T>>, tt: seq<seq<U>>)
    requires |ss| == |tt|
    requires forall k :: 0 <= k < |ss| ==> |ss[k]| == |tt[k]|
    ensures |Flatten(ss)| == |Flatten(tt)|
  {
    if ss != [] {
      FlattenSameLengths(ss[1..], tt[1..]);
    }
  }

  /** In a concatenation of chunks with the same lengths as `like`, chunk i
      occupies the positions chunk i of `like` occupies in its own
      concatenation. */
  lemma {:induction false} FlattenPlacement<T, U>(ss: seq<seq<T>>, like: seq<seq<U>>, i: nat)
    requires |ss| == |like| && i < |ss|
    requires forall k :: 0 <= k < |ss| ==> |ss[k]| == |like[k]|
    ensures var before := |Flatten(like[..i])|;
            before + |ss[i]| <= |Flatten(ss)| &&
            Flatten(ss)[before..before + |ss[i]|] == ss[i]
  {
    if i == 0 {
      assert like[..0] == [];
    } else {
      FlattenPlacement(ss[1..], like[1..], i - 1);
      assert like[..i][1..] == like[1..][..i - 1];
      assert like[..i][0] == like[0];
    }
  }
}
