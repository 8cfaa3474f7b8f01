/** A flat buffer seen as rows of equal width. */
module FlatRows {

  /** Where row t starts in a flat buffer of rows of width w: t * w, defined by addition. */
  function RowStart(w: nat, t: nat): nat {
    if t == 0 then 0 else RowStart(w, t - 1) + w
  }

  lemma {:induction false} RowStartIsProduct(w: nat, t: nat)
    ensures RowStart(w, t) == t * w == w * t
  {
    if t == 0 {
    } else {
      RowStartIsProduct(w, t - 1);
      assert t * w == (t - 1) * w + w;
    }
  }

  lemma {:induction false} RowStartMonotone(w: nat, t: nat, u: nat)
    requires t <= u
    ensures RowStart(w, t) <= RowStart(w, u)
  {
    if t == u {
    } else {
      RowStartMonotone(w, t, u - 1);
    }
  }

  /** Row t of a buffer of rows of width w; nothing if the buffer is too short. */
  function Row<T>(buf: seq<T>, w: nat, t: nat): seq<T> {
    if RowStart(w, t + 1) <= |buf| then buf[RowStart(w, t)..RowStart(w, t + 1)] else []
  }

  /** The buffer with row t replaced. */
  function Put<T>(buf: seq<T>, w: nat, t: nat, row: seq<T>): (r: seq<T>)
    requires |row| == w
    ensures |r| == |buf|
  {
    if RowStart(w, t + 1) <= |buf| then buf[..RowStart(w, t)] + row + buf[RowStart(w, t + 1)..] else buf
  }

  lemma RowFits(range: nat, w: nat, t: nat)
    requires t < range
    ensures RowStart(w, t + 1) == RowStart(w, t) + w <= RowStart(w, range)
  {
    RowStartMonotone(w, t + 1, range);
  }

  lemma Splice<T>(buf: seq<T>, lo: nat, hi: nat, row: seq<T>, x: nat, y: nat)
    requires lo <= hi <= |buf| && |row| == hi - lo && x <= y <= |buf|
    ensures var spliced := buf[..lo] + row + buf[hi..];
      && spliced[lo..hi] == row
      && (y <= lo || hi <= x ==> spliced[x..y] == buf[x..y])
  {
  }

  lemma SpliceElements<T>(buf: seq<T>, lo: nat, hi: nat, row: seq<T>, spliced: seq<T>)
    requires lo <= hi <= |buf| == |spliced| && |row| == hi - lo
    requires forall k :: 0 <= k < |spliced| ==> spliced[k] == if lo <= k < hi then row[k - lo] else buf[k]
    ensures spliced == buf[..lo] + row + buf[hi..]
  {
  }

  /** A row written element by element. */
  lemma PutElements<T>(before: seq<T>, after: seq<T>, w: nat, range: nat, t: nat, row: seq<T>)
    requires |after| == |before| && RowStart(w, range) <= |before| && t < range && |row| == w
    requires forall k :: 0 <= k < |after| ==>
      after[k] == if RowStart(w, t) <= k < RowStart(w, t) + w then row[k - RowStart(w, t)] else before[k]
    ensures after == Put(before, w, t, row)
  {
    var lo := RowStart(w, t);
    RowFits(range, w, t);
    SpliceElements(before, lo, lo + w, row, after);
  }

  lemma RowAfterPut<T>(buf: seq<T>, w: nat, range: nat, t: nat, row: seq<T>, u: nat)
    requires RowStart(w, range) <= |buf| && t < range && u < range && |row| == w
    ensures Row(Put(buf, w, t, row), w, u) == if u == t then row else Row(buf, w, u)
  {
    RowFits(range, w, t);
    RowFits(range, w, u);
    Splice(buf, RowStart(w, t), RowStart(w, t + 1), row, RowStart(w, u), RowStart(w, u + 1));
    if u < t {
      RowFits(t, w, u);
    } else if t < u {
      RowFits(u, w, t);
    }
  }

  /** A buffer is determined by its rows. */
  lemma RowsDetermine<T>(x: seq<T>, y: seq<T>, w: nat, range: nat)
    requires |x| == |y| == RowStart(w, range)
    requires forall t :: 0 <= t < range ==>
      Row(x, w, t) == Row(y, w, t)
    ensures x == y
  {
    forall i | 0 <= i < |x| ensures x[i] == y[i] {
      var t := RowOf(i, w, range);
      RowFits(range, w, t);
      assert Row(x, w, t) == Row(y, w, t);
      assert x[i] == Row(x, w, t)[i - RowStart(w, t)] && y[i] == Row(y, w, t)[i - RowStart(w, t)];
    }
  }

  /** The row that position i of the buffer belongs to. */
  lemma {:induction false} RowOf(i: nat, w: nat, range: nat) returns (t: nat)
    requires i < RowStart(w, range)
    ensures t < range && RowStart(w, t) <= i < RowStart(w, t + 1)
  {
    if i >= RowStart(w, range - 1) {
      t := range - 1;
    } else {
      t := RowOf(i, w, range - 1);
    }
  }

  /** Element i of row t is element t * w + i of the buffer. */
  lemma RowAt<T>(buf: seq<T>, w: nat, range: nat, t: nat, i: nat)
    requires range * w <= |buf| && t < range && i < w
    ensures |Row(buf, w, t)| == w && 0 <= t * w + i < |buf| && Row(buf, w, t)[i] == buf[t * w + i]
  {
    RowFits(range, w, t);
    RowStartIsProduct(w, t);
    RowStartIsProduct(w, range);
  }
}
