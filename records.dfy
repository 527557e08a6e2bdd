/**
 * The layout of training records in the body of an Encog binary (EGB) file:
 * record after record, the input vector and then the ideal vector, with no
 * separators. `Flatten` is what the importer writes, `Regroup` is what the
 * exporter reads back; the lemmas below show that each undoes the other.
 */
module Records {

  /** A 64-bit IEEE 754 value, kept as its bit pattern: the loader only copies values. */
  type Double = bv64

  /** One training example: an input vector and its target ("ideal") vector. */
  datatype Record = Record(input: seq<Double>, ideal: seq<Double>)

  /** Every record has an input vector of length n and an ideal vector of length m. */
  predicate Uniform(rs: seq<Record>, n: nat, m: nat)
  {
    forall i :: 0 <= i < |rs| ==> |rs[i].input| == n && |rs[i].ideal| == m
  }

  /**
   * Where record i starts in a body of records w values wide, that is i * w,
   * written by repeated addition so that the proofs stay in linear arithmetic.
   */
  function Offset(i: nat, w: nat): nat
  {
    if i == 0 then 0 else Offset(i - 1, w) + w
  }

  /**
   * The values of the records in order, each record's input values before its
   * ideal values. It is built from the last record; the values of the first
   * record come first.
   */
  function Flatten(rs: seq<Record>): (r: seq<Double>)
    ensures rs != [] ==> rs[0].input + rs[0].ideal <= r
    decreases |rs|
  {
    if rs == [] then []
    else
      var k := |rs| - 1;
      assert k > 0 ==> rs[..k][0] == rs[0];
      Flatten(rs[..k]) + rs[k].input + rs[k].ideal
  }

  /** Record number i of a body made of records n + m values wide. */
  function Chunk(values: seq<Double>, n: nat, m: nat, i: nat): (r: Record)
    requires Offset(i + 1, n + m) <= |values|
    ensures |r.input| == n && |r.ideal| == m
  {
    var start := Offset(i, n + m);
    Record(values[start .. start + n], values[start + n .. start + n + m])
  }

  /** The first `count` records of a body made of records n + m values wide. */
  function Regroup(values: seq<Double>, n: nat, m: nat, count: nat): (rs: seq<Record>)
    requires Offset(count, n + m) <= |values|
    ensures |rs| == count && Uniform(rs, n, m)
    decreases count
  {
    if count == 0 then []
    else Regroup(values, n, m, count - 1) + [Chunk(values, n, m, count - 1)]
  }

  /**
   * The number of whole records in `valueCount` values of records n + m wide;
   * a file of zero-width records holds none.
   */
  function RecordCount(valueCount: nat, n: nat, m: nat): (r: nat)
    ensures n + m == 0 ==> r == 0
    ensures n + m > 0 ==> Offset(r, n + m) <= valueCount < Offset(r + 1, n + m)
  {
    if n + m == 0 then 0
    else
      var k := valueCount / (n + m);
      OffsetIsProduct(k + 1, n + m);
      k
  }

  /**
   * Record i of a regrouped body is the i-th run of n + m values: input
   * values[i * (n + m) ..][..n], then the m ideal values that follow.
   */
  lemma {:induction false} RegroupAt(values: seq<Double>, n: nat, m: nat, count: nat, i: nat)
    requires Offset(count, n + m) <= |values| && i < count
    ensures Offset(i, n + m) == i * (n + m) && i * (n + m) + n + m <= |values|
    ensures Regroup(values, n, m, count)[i].input == values[i * (n + m) .. i * (n + m) + n]
    ensures Regroup(values, n, m, count)[i].ideal == values[i * (n + m) + n .. i * (n + m) + n + m]
    decreases count
  {
    OffsetIsProduct(i, n + m);
    OffsetMonotone(i + 1, count, n + m);
    if i < count - 1 {
      OffsetMonotone(count - 1, count, n + m);
      RegroupAt(values, n, m, count - 1, i);
    }
  }

  /** Offset is multiplication. */
  lemma {:induction false} OffsetIsProduct(i: nat, w: nat)
    ensures Offset(i, w) == i * w
  {
    if i > 0 {
      OffsetIsProduct(i - 1, w);
      assert (i - 1) * w + w == i * w;
    }
  }

  /** Later records start no earlier. */
  lemma {:induction false} OffsetMonotone(i: nat, k: nat, w: nat)
    requires i <= k
    ensures Offset(i, w) <= Offset(k, w)
    decreases k
  {
    if i < k {
      OffsetMonotone(i, k - 1, w);
    }
  }

  /** Flattening uniform records gives exactly n + m values per record. */
  lemma {:induction false} FlattenLength(rs: seq<Record>, n: nat, m: nat)
    requires Uniform(rs, n, m)
    ensures |Flatten(rs)| == Offset(|rs|, n + m)
    decreases |rs|
  {
    if rs != [] {
      var k := |rs| - 1;
      assert Uniform(rs[..k], n, m);
      FlattenLength(rs[..k], n, m);
    }
  }

  /** Read from the front, the values are the first record's input and ideal values, then the rest. */
  lemma {:induction false} FlattenCons(rs: seq<Record>)
    requires rs != []
    ensures Flatten(rs) == rs[0].input + rs[0].ideal + Flatten(rs[1..])
    decreases |rs|
  {
    var k := |rs| - 1;
    if k > 0 {
      FlattenCons(rs[..k]);
      assert rs[..k][1..] == rs[1..][..k - 1];
      assert rs[1..][k - 1] == rs[k];
    }
  }

  /** Appending one record appends its input values and then its ideal values. */
  lemma FlattenSnoc(rs: seq<Record>, r: Record)
    ensures Flatten(rs + [r]) == Flatten(rs) + r.input + r.ideal
  {
    assert (rs + [r])[..|rs|] == rs;
  }

  /** Taking one more record of `rs` appends that record's input values and then its ideal values. */
  lemma FlattenPrefixStep(rs: seq<Record>, k: nat)
    requires k < |rs|
    ensures Flatten(rs[..k + 1]) == Flatten(rs[..k]) + rs[k].input + rs[k].ideal
  {
    assert rs[..k + 1] == rs[..k] + [rs[k]];
    FlattenSnoc(rs[..k], rs[k]);
  }

  /** Regrouping looks only at the values it needs: extra values after them change nothing. */
  lemma {:induction false} RegroupPrefix(a: seq<Double>, b: seq<Double>, n: nat, m: nat, count: nat)
    requires Offset(count, n + m) <= |a|
    ensures Regroup(a + b, n, m, count) == Regroup(a, n, m, count)
    decreases count
  {
    if count > 0 {
      RegroupPrefix(a, b, n, m, count - 1);
      ChunkPrefix(a, b, n, m, count - 1);
    }
  }

  /** A record that lies inside `a` is the same record of `a + b`. */
  lemma ChunkPrefix(a: seq<Double>, b: seq<Double>, n: nat, m: nat, i: nat)
    requires Offset(i + 1, n + m) <= |a|
    ensures Chunk(a + b, n, m, i) == Chunk(a, n, m, i)
  {
    var start := Offset(i, n + m);
    assert (a + b)[start .. start + n] == a[start .. start + n];
    assert (a + b)[start + n .. start + n + m] == a[start + n .. start + n + m];
  }

  /** Round trip, import then export: regrouping a flattened body gives back the records. */
  lemma {:induction false} RegroupFlatten(rs: seq<Record>, n: nat, m: nat)
    requires Uniform(rs, n, m)
    ensures |Flatten(rs)| == Offset(|rs|, n + m)
    ensures Regroup(Flatten(rs), n, m, |rs|) == rs
    decreases |rs|
  {
    FlattenLength(rs, n, m);
    if rs != [] {
      var k := |rs| - 1;
      assert Uniform(rs[..k], n, m);
      RegroupFlatten(rs[..k], n, m);
      RegroupFlattenStep(rs[..k], rs[k], n, m);
      assert rs == rs[..k] + [rs[k]];
    }
  }

  lemma RegroupFlattenStep(front: seq<Record>, last: Record, n: nat, m: nat)
    requires |last.input| == n && |last.ideal| == m
    requires |Flatten(front)| == Offset(|front|, n + m)
    requires Regroup(Flatten(front), n, m, |front|) == front
    ensures Offset(|front| + 1, n + m) <= |Flatten(front + [last])|
    ensures Regroup(Flatten(front + [last]), n, m, |front| + 1) == front + [last]
  {
    var k := |front|;
    var head, tail := Flatten(front), last.input + last.ideal;
    FlattenSnoc(front, last);
    assert Flatten(front + [last]) == head + tail;
    RegroupPrefix(head, tail, n, m, k);
    ChunkAfter(head, tail, n, m, k);
    assert tail[..n] == last.input && tail[n..] == last.ideal;
  }

  /** The record that starts right where `head` ends is made of the values that follow it. */
  lemma ChunkAfter(head: seq<Double>, tail: seq<Double>, n: nat, m: nat, k: nat)
    requires |head| == Offset(k, n + m) && |tail| == n + m
    ensures Offset(k + 1, n + m) <= |head + tail|
    ensures Chunk(head + tail, n, m, k) == Record(tail[..n], tail[n..])
  {
    var body := head + tail;
    var start := Offset(k, n + m);
    assert body[start .. start + n] == tail[..n];
    assert body[start + n .. start + n + m] == tail[n..];
  }

  /** Round trip, export then import: flattening the regrouped records gives back the body they came from. */
  lemma {:induction false} FlattenRegroup(values: seq<Double>, n: nat, m: nat, count: nat)
    requires Offset(count, n + m) <= |values|
    ensures Flatten(Regroup(values, n, m, count)) == values[..Offset(count, n + m)]
    decreases count
  {
    if count > 0 {
      var front, c := Regroup(values, n, m, count - 1), Chunk(values, n, m, count - 1);
      calc {
        Flatten(Regroup(values, n, m, count));
        Flatten(front + [c]);
        { FlattenSnoc(front, c); }
        Flatten(front) + c.input + c.ideal;
        { FlattenRegroup(values, n, m, count - 1); }
        values[..Offset(count - 1, n + m)] + c.input + c.ideal;
        { ChunkExtends(values, n, m, count - 1); }
        values[..Offset(count, n + m)];
      }
    }
  }

  /** Record i's input and ideal values extend the prefix before it to the prefix after it. */
  lemma ChunkExtends(values: seq<Double>, n: nat, m: nat, i: nat)
    requires Offset(i + 1, n + m) <= |values|
    ensures values[..Offset(i, n + m)] + Chunk(values, n, m, i).input + Chunk(values, n, m, i).ideal
         == values[..Offset(i + 1, n + m)]
  {
    var start := Offset(i, n + m);
    assert values[..start] + values[start .. start + n] == values[..start + n];
    assert values[..start + n] + values[start + n .. start + n + m] == values[..start + n + m];
  }

  /** Once n + m > 0, the record count derived from a flattened body is the number of records. */
  lemma RecordCountOfFlatten(rs: seq<Record>, n: nat, m: nat)
    requires Uniform(rs, n, m) && n + m > 0
    ensures RecordCount(|Flatten(rs)|, n, m) == |rs|
  {
    FlattenLength(rs, n, m);
    DivUnique(|Flatten(rs)|, n + m, |rs|);
  }

  /** x / w is the q whose multiples bracket x. */
  lemma DivUnique(x: nat, w: nat, q: nat)
    requires w > 0 && Offset(q, w) <= x < Offset(q, w) + w
    ensures x / w == q
  {
    var d := x / w;
    OffsetIsProduct(d, w);
    assert x == Offset(d, w) + x % w;
    if d < q {
      OffsetMonotone(d + 1, q, w);
    } else if d > q {
      OffsetMonotone(q + 1, d, w);
    }
  }
}
