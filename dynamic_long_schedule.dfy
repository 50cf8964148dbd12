// DynamicLongSchedule: hands out successive chunks of at most N2 iterations
// of a long loop range until the range is used up. The atomic counter N1 is
// modelled by one sequential update per call of next.
module DynamicLongSchedules {
  import opened Wrappers
  import opened JavaLang

  /** A loop range: `length` indices lb, lb + stride, lb + 2 * stride, ... */
  datatype LongRange = LongRange(lb: int, stride: int, length: int)

  /** Index k of a range. */
  function Index(r: LongRange, k: int): int
  {
    r.lb + k * r.stride
  }

  /** LongRange.chunk(theStart, theLength): the indices theStart ..
      theStart + theLength - 1 of r, cut off at r's end. */
  function Chunk(r: LongRange, theStart: int, theLength: int): (c: LongRange)
    requires 0 <= theStart && 0 <= theLength && 0 <= r.length
    ensures c.stride == r.stride && 0 <= c.length <= theLength
    ensures c.length == 0 <==> theStart >= r.length || theLength == 0
    ensures theStart + c.length <= r.length || c.length == 0
    ensures c.length < theLength ==> theStart + c.length >= r.length
  {
    var n := if theStart >= r.length then 0
      else if theLength < r.length - theStart then theLength else r.length - theStart;
    LongRange(r.lb + theStart * r.stride, r.stride, n)
  }

  /** Every index of a chunk is the corresponding index of the loop range. */
  lemma ChunkIndex(r: LongRange, theStart: int, theLength: int, k: int)
    requires 0 <= theStart && 0 <= theLength && 0 <= r.length
    requires 0 <= k < Chunk(r, theStart, theLength).length
    ensures Index(Chunk(r, theStart, theLength), k) == Index(r, theStart + k)
    ensures 0 <= theStart + k < r.length
  {
    assert (theStart + k) * r.stride == theStart * r.stride + k * r.stride;
  }

  /** getChunkSize: exactly one argument, parsed as a long; the range check
      is the constructor's. */
  function GetChunkSize(args: seq<string>): (r: Result<int>)
    ensures r.Ok? <==> |args| == 1 && ParseLong(args[0]).Some?
    ensures r.Ok? ==> r.value == ParseLong(args[0]).value && IsLong(r.value)
  {
    if |args| != 1 then Err("DynamicLongSchedule(): Usage: -Dpj.schedule=dynamic or -Dpj.schedule=\"dynamic(<n>)\"")
    else match ParseLong(args[0])
      case None => Err("DynamicLongSchedule(): Chunk size = " + args[0] + " illegal")
      case Some(n) => Ok(n)
  }

  /** A chunk size given as the decimal text of a long is read back as that size. */
  lemma ChunkSizeRoundTrip(n: int)
    requires IsLong(n)
    ensures GetChunkSize([Decimal(n)]) == Ok(n)
  {
    DecimalRoundTrip(n);
  }

  /** isFixedSchedule: a dynamic schedule never is. */
  predicate IsFixedSchedule()
  {
    false
  }

  // ------------------------------------------------------- handed-out chunks

  /** Iterations in a list of chunks. */
  function Count(cs: seq<LongRange>): int
  {
    if |cs| == 0 then 0 else Count(cs[..|cs| - 1]) + cs[|cs| - 1].length
  }

  /** cs is what next hands out, in order, from a counter that starts at 0:
      each chunk starts where the ones before it end and is not empty. */
  ghost predicate HandedOut(r: LongRange, n2: int, cs: seq<LongRange>)
  {
    0 <= r.length && 1 <= n2 &&
    forall j :: 0 <= j < |cs| ==>
      0 <= Count(cs[..j]) && cs[j] == Chunk(r, Count(cs[..j]), n2) && 0 < cs[j].length
  }

  lemma CountAppend(cs: seq<LongRange>, c: LongRange)
    ensures Count(cs + [c]) == Count(cs) + c.length
  {
    assert (cs + [c])[..|cs|] == cs;
  }

  /** Handing out the chunk at the counter keeps the list well formed. */
  lemma HandedOutGrows(r: LongRange, n2: int, cs: seq<LongRange>)
    requires HandedOut(r, n2, cs) && 0 <= Count(cs)
    requires Chunk(r, Count(cs), n2).length > 0
    ensures HandedOut(r, n2, cs + [Chunk(r, Count(cs), n2)])
  {
    var c := Chunk(r, Count(cs), n2);
    var cs2 := cs + [c];
    forall j | 0 <= j < |cs2|
      ensures 0 <= Count(cs2[..j]) && cs2[j] == Chunk(r, Count(cs2[..j]), n2) && 0 < cs2[j].length
    {
      if j < |cs| {
        assert cs2[..j] == cs[..j];
      } else {
        assert cs2[..j] == cs;
      }
    }
  }

  /** The chunks' counts grow one chunk at a time. */
  lemma {:induction false} CountPrefix(cs: seq<LongRange>, j: int)
    requires 0 <= j < |cs|
    ensures Count(cs[..j + 1]) == Count(cs[..j]) + cs[j].length
  {
    assert cs[..j + 1][..j] == cs[..j];
  }

  /** The chunks handed out up to any point were handed out in the same way. */
  lemma HandedOutPrefix(r: LongRange, n2: int, cs: seq<LongRange>, m: int)
    requires HandedOut(r, n2, cs) && 0 <= m <= |cs|
    ensures HandedOut(r, n2, cs[..m])
  {
    forall j | 0 <= j < m
      ensures 0 <= Count(cs[..m][..j]) && cs[..m][j] == Chunk(r, Count(cs[..m][..j]), n2) && 0 < cs[..m][j].length
    {
      assert cs[..m][..j] == cs[..j];
    }
  }

  /** Everything handed out lies in the loop range. */
  lemma {:induction false} HandedOutWithin(r: LongRange, n2: int, cs: seq<LongRange>)
    requires HandedOut(r, n2, cs)
    ensures 0 <= Count(cs) <= r.length
    decreases |cs|
  {
    if |cs| > 0 {
      var k := |cs| - 1;
      HandedOutPrefix(r, n2, cs, k);
      HandedOutWithin(r, n2, cs[..k]);
      assert cs[..k] == cs[..|cs| - 1];
    }
  }

  lemma Distribute(a: int, b: int, m: int)
    ensures (a + b) * m == a * m + b * m
  {
  }

  /** Chunks keep the loop's stride, and each one starts right after the one
      before it. */
  lemma Contiguous(r: LongRange, n2: int, cs: seq<LongRange>, j: int)
    requires HandedOut(r, n2, cs) && 0 <= j && j + 1 < |cs|
    ensures cs[j].stride == r.stride && cs[j + 1].stride == r.stride
    ensures cs[j + 1].lb == Index(cs[j], cs[j].length)
  {
    CountPrefix(cs, j);
    var s := Count(cs[..j]);
    var len := cs[j].length;
    assert cs[j] == Chunk(r, s, n2);
    assert cs[j + 1] == Chunk(r, s + len, n2);
    Distribute(s, len, r.stride);
  }

  /** Only the last chunk may be shorter than N2. */
  lemma OnlyLastShort(r: LongRange, n2: int, cs: seq<LongRange>, j: int)
    requires HandedOut(r, n2, cs) && 0 <= j && j + 1 < |cs|
    ensures cs[j].length == n2
  {
    CountPrefix(cs, j);
  }

  /** Chunk j holds the iterations Count(cs[..j]) .. Count(cs[..j + 1]) - 1. */
  predicate Holds(cs: seq<LongRange>, j: int, k: int)
    requires 0 <= j < |cs|
  {
    Count(cs[..j]) <= k < Count(cs[..j]) + cs[j].length
  }

  /** The chunks' starting counts increase with the chunk number. */
  lemma {:induction false} CountMonotone(r: LongRange, n2: int, cs: seq<LongRange>, i: int, j: int)
    requires HandedOut(r, n2, cs) && 0 <= i < j <= |cs|
    ensures Count(cs[..i]) + cs[i].length <= Count(cs[..j])
    decreases j - i
  {
    CountPrefix(cs, i);
    if i + 1 < j {
      CountMonotone(r, n2, cs, i + 1, j);
    }
  }

  /** No iteration is handed out twice. */
  lemma Disjoint(r: LongRange, n2: int, cs: seq<LongRange>, i: int, j: int, k: int)
    requires HandedOut(r, n2, cs) && 0 <= i < j < |cs|
    ensures !(Holds(cs, i, k) && Holds(cs, j, k))
  {
    CountMonotone(r, n2, cs, i, j);
  }

  /** Every iteration below the counter is in some chunk. */
  lemma {:induction false} Covered(r: LongRange, n2: int, cs: seq<LongRange>, k: int) returns (j: int)
    requires HandedOut(r, n2, cs) && 0 <= k < Count(cs)
    ensures 0 <= j < |cs| && Holds(cs, j, k)
    decreases |cs|
  {
    var last := |cs| - 1;
    CountPrefix(cs, last);
    assert cs[..last + 1] == cs;
    if k >= Count(cs[..last]) {
      j := last;
    } else {
      HandedOutPrefix(r, n2, cs, last);
      j := Covered(r, n2, cs[..last], k);
      assert cs[..last][..j] == cs[..j];
    }
  }

  class DynamicLongSchedule {
    var myLoopRange: Option<LongRange>
    /** Iterations already handed out. */
    var N1: int
    /** Chunk size. */
    const N2: int
    /** The chunks handed out since start. */
    ghost var chunks: seq<LongRange>

    ghost predicate Valid()
      reads this
    {
      1 <= N2 &&
      (myLoopRange.Some? ==> HandedOut(myLoopRange.value, N2, chunks) && N1 == Count(chunks))
    }

    constructor (theChunkSize: int)
      requires 1 <= theChunkSize
      ensures Valid() && N2 == theChunkSize && myLoopRange == None && N1 == 0
    {
      N2 := theChunkSize;
      myLoopRange := None;
      N1 := 0;
      chunks := [];
    }

    /** new DynamicLongSchedule(theChunkSize): a size below 1 is an
        IllegalArgumentException. */
    static method Create(theChunkSize: int) returns (r: Result<DynamicLongSchedule>)
      ensures r.Ok? <==> 1 <= theChunkSize
      ensures r.Ok? ==> fresh(r.value) && r.value.Valid() && r.value.N2 == theChunkSize && r.value.myLoopRange == None
    {
      if theChunkSize < 1 {
        r := Err("DynamicLongSchedule(): Chunk size = " + Decimal(theChunkSize) + " illegal");
      } else {
        var s := new DynamicLongSchedule(theChunkSize);
        r := Ok(s);
      }
    }

    /** new DynamicLongSchedule(): chunks of one iteration. */
    static method CreateDefault() returns (s: DynamicLongSchedule)
      ensures fresh(s) && s.Valid() && s.N2 == 1 && s.myLoopRange == None
    {
      s := new DynamicLongSchedule(1);
    }

    /** new DynamicLongSchedule(args): the size read by getChunkSize. */
    static method FromArgs(args: seq<string>) returns (r: Result<DynamicLongSchedule>)
      ensures r.Ok? <==> GetChunkSize(args).Ok? && 1 <= GetChunkSize(args).value
      ensures r.Ok? ==> fresh(r.value) && r.value.Valid() && r.value.N2 == GetChunkSize(args).value
    {
      var size := GetChunkSize(args);
      if size.Err? {
        r := Err(size.error);
      } else {
        r := Create(size.value);
      }
    }

    /** start: a new loop range, nothing handed out yet. */
    method Start(K: int, theLoopRange: LongRange)
      requires Valid() && 0 <= theLoopRange.length
      modifies this
      ensures Valid() && myLoopRange == Some(theLoopRange) && N1 == 0 && chunks == []
    {
      myLoopRange := Some(theLoopRange);
      N1 := 0;
      chunks := [];
    }

    /** next: the chunk of at most N2 iterations after those handed out, or
        None (null) once the range is used up. */
    method Next(theThreadIndex: int) returns (r: Option<LongRange>)
      requires Valid() && myLoopRange.Some?
      modifies this
      ensures Valid() && myLoopRange == old(myLoopRange)
      ensures var c := Chunk(myLoopRange.value, old(N1), N2);
        if c.length == 0 then r == None && N1 == old(N1) && chunks == old(chunks)
        else r == Some(c) && N1 == old(N1) + c.length && chunks == old(chunks) + [c]
      ensures r == None ==> N1 == myLoopRange.value.length
    {
      HandedOutWithin(myLoopRange.value, N2, chunks);
      var oldN1 := N1;
      var result := Chunk(myLoopRange.value, oldN1, N2);
      var n := result.length;
      if n == 0 {
        return None;
      }
      HandedOutGrows(myLoopRange.value, N2, chunks);
      CountAppend(chunks, result);
      N1 := oldN1 + n;
      chunks := chunks + [result];
      r := Some(result);
    }
  }
}
