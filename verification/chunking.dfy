/** Chunk sizes, chunk counts and the progress percentages reported while a
    transfer runs (pgm.c: READ_CHUNK_SIZE, WRITE_CHUNK_SIZE, the chunk length
    computation and the two progress formulas). */
module Chunking {

  /** Read and write transfers both move at most eight bytes per round trip. */
  const ChunkSize: nat := 8

  function Min(a: int, b: int): int
  {
    if a <= b then a else b
  }

  /** Integer division as C performs it: the quotient is truncated toward
      zero (all divisors here are positive). */
  function CDiv(a: int, b: int): (q: int)
    requires b > 0
    ensures a >= 0 ==> 0 <= a - b * q < b
    ensures a < 0 ==> -b < a - b * q <= 0
  {
    if a >= 0 then a / b else -((-a) / b)
  }

  /** The size of the next chunk when `done` of `total` bytes have moved. */
  function ChunkLen(total: nat, done: nat): (n: nat)
    requires done < total
    ensures 0 < n <= ChunkSize && done + n <= total
    ensures n < ChunkSize ==> done + n == total
  {
    Min(ChunkSize, total - done)
  }

  /** The number of chunks needed for `n` bytes: n / 8 rounded up. */
  function ChunkCount(n: nat): (c: nat)
  {
    (n + ChunkSize - 1) / ChunkSize
  }

  /** ChunkCount is the ceiling of n / 8: the fewest chunks of at most eight
      bytes that hold n bytes. */
  lemma ChunkCountIsCeiling(n: nat)
    ensures ChunkSize * ChunkCount(n) >= n
    ensures n > 0 ==> ChunkSize * (ChunkCount(n) - 1) < n
    ensures n == 0 <==> ChunkCount(n) == 0
  {
  }

  /** Taking one chunk off the front leaves one chunk fewer to do. */
  lemma ChunkCountStep(total: nat, done: nat)
    requires done < total
    ensures ChunkCount(total - done) == 1 + ChunkCount(total - (done + ChunkLen(total, done)))
  {
  }

  /** The sizes of the chunks, in order, for moving bytes `done..total`. */
  function ChunkSizes(total: nat, done: nat): (s: seq<nat>)
    requires done <= total
    decreases total - done
  {
    if done == total then [] else
    var n := ChunkLen(total, done);
    [n] + ChunkSizes(total, done + n)
  }

  function Sum(s: seq<nat>): nat
  {
    if |s| == 0 then 0 else s[0] + Sum(s[1..])
  }

  /** The chunk sizes are ChunkCount many, each of at most eight bytes, only
      the last one possibly shorter, and they add up to the bytes to move. */
  lemma {:induction false} ChunkSizesCover(total: nat, done: nat)
    requires done <= total
    decreases total - done
    ensures |ChunkSizes(total, done)| == ChunkCount(total - done)
    ensures Sum(ChunkSizes(total, done)) == total - done
    ensures forall k :: 0 <= k < |ChunkSizes(total, done)| ==>
              ChunkSizes(total, done)[k] == Min(ChunkSize, total - done - ChunkSize * k)
  {
    if done < total {
      var n := ChunkLen(total, done);
      ChunkSizesCover(total, done + n);
      ChunkCountStep(total, done);
      var s := ChunkSizes(total, done);
      var t := ChunkSizes(total, done + n);
      assert s == [n] + t;
      assert s[1..] == t;
      forall k | 0 <= k < |s|
        ensures s[k] == Min(ChunkSize, total - done - ChunkSize * k)
      {
        if k > 0 {
          assert s[k] == t[k - 1];
        }
      }
    }
  }

  /** The running byte count after each chunk when moving bytes
      `done..total`: the values the progress callback is computed from. */
  function ChunkEnds(total: nat, done: nat): (e: seq<nat>)
    requires done <= total
    ensures |e| == ChunkCount(total - done)
  {
    seq(ChunkCount(total - done), k => Min(done + ChunkSize * (k + 1), total))
  }

  /** The first chunk ends at done + ChunkLen; the rest are the ends of the
      remaining transfer. */
  lemma ChunkEndsStep(total: nat, done: nat)
    requires done < total
    ensures ChunkEnds(total, done) ==
              [done + ChunkLen(total, done)] + ChunkEnds(total, done + ChunkLen(total, done))
  {
    var n := ChunkLen(total, done);
    var e := ChunkEnds(total, done);
    var t := ChunkEnds(total, done + n);
    ChunkCountStep(total, done);
    assert |e| == 1 + |t|;
    forall k | 0 <= k < |t|
      ensures e[k + 1] == t[k]
    {
      assert n == ChunkSize;
    }
    assert e == [e[0]] + e[1..];
  }

  /** The running counts rise strictly, stay within the transfer, and reach
      `total` at the last chunk and only there. */
  lemma ChunkEndsFacts(total: nat, done: nat)
    requires done <= total
    ensures forall i, j :: 0 <= i < j < |ChunkEnds(total, done)| ==>
              ChunkEnds(total, done)[i] < ChunkEnds(total, done)[j]
    ensures forall i :: 0 <= i < |ChunkEnds(total, done)| ==>
              (done < ChunkEnds(total, done)[i] <= total &&
               (ChunkEnds(total, done)[i] == total <==> i == |ChunkEnds(total, done)| - 1))
  {
    var e := ChunkEnds(total, done);
    ChunkCountIsCeiling(total - done);
    forall i | 0 <= i < |e|
      ensures done < e[i] <= total && (e[i] == total <==> i == |e| - 1)
    {
      if i < |e| - 1 {
        MulMono(ChunkSize, i + 1, |e| - 1);
      }
    }
    forall i, j | 0 <= i < j < |e|
      ensures e[i] < e[j]
    {
      MulMono(ChunkSize, i + 1, j);
      MulMono(ChunkSize, j, |e| - 1);
    }
  }

  /** Multiplying by a natural number preserves order, and a strictly
      larger factor gains at least one more multiple. */
  lemma {:induction false} MulMono(d: nat, x: int, y: int)
    requires x <= y
    ensures d * x <= d * y
    ensures x < y ==> d * x + d <= d * y
    decreases d
  {
    if d > 0 {
      MulMono(d - 1, x, y);
      assert d * x == (d - 1) * x + x;
      assert d * y == (d - 1) * y + y;
    }
  }

  /** The quotient is the one q with d*q <= a < d*q + d. */
  lemma DivUnique(a: int, d: nat, q: int)
    requires d > 0 && d * q <= a < d * q + d
    ensures a / d == q
  {
    var q0 := a / d;
    assert a == d * q0 + a % d;
    if q0 > q {
      MulMono(d, q, q0);
    }
    if q0 < q {
      MulMono(d, q0, q);
    }
  }

  lemma DivMono(a: int, b: int, d: nat)
    requires a <= b && d > 0
    ensures a / d <= b / d
  {
    var qa, qb := a / d, b / d;
    assert a == d * qa + a % d;
    assert b == d * qb + b % d;
    if qa > qb {
      MulMono(d, qb, qa);
    }
  }

  /** floor(x/n) + floor(y/n) <= floor((x+y)/n). */
  lemma DivSuperAdditive(x: nat, y: nat, n: nat)
    requires n > 0
    ensures x / n + y / n <= (x + y) / n
  {
    var qx, qy, q := x / n, y / n, (x + y) / n;
    assert x == n * qx + x % n;
    assert y == n * qy + y % n;
    assert x + y == n * q + (x + y) % n;
    assert n * (qx + qy) == n * qx + n * qy;
    if q < qx + qy {
      MulMono(n, q, qx + qy);
    }
  }

  /** (d*k)/d == k. */
  lemma DivOfMultiple(d: nat, k: int)
    requires d > 0
    ensures (d * k) / d == k
  {
    DivUnique(d * k, d, k);
  }

  /** Read progress once `done` of `total` bytes have been read. */
  function ReadPct(done: nat, total: nat): int
    requires total > 0
  {
    CDiv(done * 100, total)
  }

  /** Read progress lies within 0..100, grows with the bytes read, and is 100
      exactly when the whole device has been read. */
  lemma ReadPctFacts(done: nat, done': nat, total: nat)
    requires 0 < total && done <= done' <= total
    ensures 0 <= ReadPct(done, total) <= ReadPct(done', total) <= 100
    ensures ReadPct(done, total) == 100 <==> done == total
  {
    DivMono(done * 100, done' * 100, total);
    DivMono(done' * 100, total * 100, total);
    assert total * 100 == 100 * total;
    DivOfMultiple(total, 100);
    if done < total {
      var q := (done * 100) / total;
      assert done * 100 == total * q + (done * 100) % total;
      if q >= 100 {
        MulMono(total, 100, q);
      }
    }
  }

  /** Write progress: each of `passes` passes owns an equal share of the bar,
      and within a pass the share fills with the bytes written. */
  function WritePct(pass: nat, passes: nat, done: nat, total: nat): int
    requires passes > 0 && total > 0
  {
    CDiv(CDiv(pass * 10000, passes) + CDiv(CDiv(done * 10000, total), passes), 100)
  }

  /** Hundredths of a percent owed to the passes already completed. */
  function PassBase(pass: nat, passes: nat): nat
    requires passes > 0
  {
    (pass * 10000) / passes
  }

  /** Hundredths of a percent owed to the current pass so far. */
  function PassShare(passes: nat, done: nat, total: nat): nat
    requires passes > 0 && total > 0
  {
    ((done * 10000) / total) / passes
  }

  lemma WritePctTerms(pass: nat, passes: nat, done: nat, total: nat)
    requires passes > 0 && total > 0
    ensures WritePct(pass, passes, done, total) == (PassBase(pass, passes) + PassShare(passes, done, total)) / 100
  {
  }

  /** The current pass's share grows with the bytes written, up to exactly
      10000 / passes once the pass is complete. */
  lemma PassShareFacts(passes: nat, done: nat, done': nat, total: nat)
    requires passes > 0 && 0 < total && done <= done' <= total
    ensures PassShare(passes, done, total) <= PassShare(passes, done', total) <= 10000 / passes
    ensures PassShare(passes, total, total) == 10000 / passes
  {
    assert total * 10000 == 10000 * total;
    DivOfMultiple(total, 10000);
    DivMono(done * 10000, done' * 10000, total);
    DivMono(done' * 10000, total * 10000, total);
    DivMono((done * 10000) / total, (done' * 10000) / total, passes);
    DivMono((done' * 10000) / total, 10000, passes);
  }

  /** A completed pass is worth at least its whole share, and the passes
      before the last one leave room for it. */
  lemma PassBaseFacts(pass: nat, passes: nat)
    requires pass < passes
    ensures PassBase(pass, passes) + 10000 / passes <= PassBase(pass + 1, passes)
    ensures PassBase(pass + 1, passes) <= 10000
  {
    DivSuperAdditive(pass * 10000, 10000, passes);
    assert pass * 10000 + 10000 == (pass + 1) * 10000;
    DivMono((pass + 1) * 10000, passes * 10000, passes);
    assert passes * 10000 == 10000 * passes;
    DivOfMultiple(passes, 10000);
  }

  /** With two passes, the first pass half done shows 25 and the second
      pass complete shows 100. */
  lemma WritePctTwoPasses(total: nat)
    requires total > 0 && total % 2 == 0
    ensures WritePct(0, 2, total / 2, total) == 25
    ensures WritePct(1, 2, total, total) == 100
  {
    WritePctTerms(0, 2, total / 2, total);
    WritePctTerms(1, 2, total, total);
    assert (total / 2) * 10000 == total * 5000;
    DivOfMultiple(total, 5000);
    PassShareFacts(2, total, total, total);
  }

  /** Progress never goes backwards within a pass, nor from the end of one
      pass into the next, and it never exceeds 100. */
  lemma WritePctMonotone(pass: nat, passes: nat, done: nat, done': nat, total: nat)
    requires 0 < total && pass < passes && done <= done' <= total
    ensures 0 <= WritePct(pass, passes, done, total) <= WritePct(pass, passes, done', total) <= 100
    ensures pass + 1 < passes ==>
              WritePct(pass, passes, total, total) <= WritePct(pass + 1, passes, done, total)
  {
    WritePctTerms(pass, passes, done, total);
    WritePctTerms(pass, passes, done', total);
    WritePctTerms(pass, passes, total, total);
    PassShareFacts(passes, done, done', total);
    PassBaseFacts(pass, passes);
    var a := PassBase(pass, passes);
    DivMono(a + PassShare(passes, done, total), a + PassShare(passes, done', total), 100);
    DivMono(a + PassShare(passes, done', total), 10000, 100);
    if pass + 1 < passes {
      WritePctTerms(pass + 1, passes, done, total);
      PassShareFacts(passes, 0, done, total);
      DivMono(a + PassShare(passes, total, total),
              PassBase(pass + 1, passes) + PassShare(passes, done, total), 100);
    }
  }

  /** The value shown after the last chunk of the last pass is 100 only when
      the pass count divides 10000; otherwise it is 99 (so with 32 passes the
      bar stops one percent short). */
  lemma WritePctFinal(passes: nat, total: nat)
    requires passes > 0 && total > 0
    ensures WritePct(passes - 1, passes, total, total) ==
              (if 10000 % passes == 0 then 100 else 99)
  {
    WritePctTerms(passes - 1, passes, total, total);
    PassShareFacts(passes, total, total, total);
    var q, r := 10000 / passes, 10000 % passes;
    assert 10000 == passes * q + r;
    var x := (passes - 1) * 10000;
    assert x == passes * 10000 - 10000;
    assert passes * (10000 - q) == passes * 10000 - passes * q;
    if r == 0 {
      DivUnique(x, passes, 10000 - q);
    } else {
      assert passes * (10000 - q - 1) == passes * (10000 - q) - passes;
      DivUnique(x, passes, 10000 - q - 1);
    }
  }

  /** Every value shown during any pass is at most the final one. */
  lemma {:induction false} WritePctAtMostFinal(pass: nat, passes: nat, done: nat, total: nat)
    requires 0 < total && pass < passes && done <= total
    ensures WritePct(pass, passes, done, total) <= WritePct(passes - 1, passes, total, total)
    decreases passes - pass
  {
    WritePctMonotone(pass, passes, done, total, total);
    if pass + 1 < passes {
      var here := WritePct(pass, passes, total, total);
      var next := WritePct(pass + 1, passes, 0, total);
      WritePctMonotone(pass, passes, 0, total, total);
      assert here <= next;
      WritePctAtMostFinal(pass + 1, passes, 0, total);
    }
  }
}
