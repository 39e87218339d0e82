/** Runs of little-endian fields of given widths: how they are laid out, and that reading undoes writing. */
module FieldLists {
  import opened Bytes
  import opened LittleEndian

  function Total(widths: seq<nat>): nat {
    if widths == [] then 0 else widths[0] + Total(widths[1..])
  }

  function Encode(values: seq<nat>, widths: seq<nat>): (b: Bytes)
    requires |values| == |widths|
    ensures |b| == Total(widths)
  {
    if widths == [] then [] else Put(values[0], widths[0]) + Encode(values[1..], widths[1..])
  }

  function Decode(b: Bytes, widths: seq<nat>): (values: seq<nat>)
    requires |b| >= Total(widths)
    ensures |values| == |widths|
  {
    if widths == [] then [] else [Get(b[..widths[0]])] + Decode(b[widths[0]..], widths[1..])
  }

  predicate Fit(values: seq<nat>, widths: seq<nat>) {
    |values| == |widths| && forall i :: 0 <= i < |widths| ==> values[i] < Pow256(widths[i])
  }

  /** Values that fit their fields are read back, whatever follows. */
  lemma {:induction false} DecodeEncode(values: seq<nat>, widths: seq<nat>, rest: Bytes)
    requires Fit(values, widths)
    ensures Decode(Encode(values, widths) + rest, widths) == values
    decreases |widths|
  {
    if widths != [] {
      var first, others := Put(values[0], widths[0]), Encode(values[1..], widths[1..]);
      GetPut(values[0], widths[0]);
      DecodeEncode(values[1..], widths[1..], rest);
      Front(first, others, rest);
      assert values == [values[0]] + values[1..];
    }
  }

  lemma Front(a: Bytes, b: Bytes, c: Bytes)
    ensures (a + b + c)[..|a|] == a && (a + b + c)[|a|..] == b + c
  {
  }

  /** Whatever the bytes, the values read fit their fields, and writing them gives the bytes. */
  lemma {:induction false} EncodeDecode(b: Bytes, widths: seq<nat>)
    requires |b| >= Total(widths)
    ensures Fit(Decode(b, widths), widths) && Encode(Decode(b, widths), widths) == b[..Total(widths)]
    decreases |widths|
  {
    if widths != [] {
      var w := widths[0];
      var v := Decode(b, widths);
      PutGet(b[..w]);
      EncodeDecode(b[w..], widths[1..]);
      assert v[1..] == Decode(b[w..], widths[1..]);
      assert b[..w + Total(widths[1..])] == b[..w] + b[w..][..Total(widths[1..])];
      FitCons(v, widths);
    }
  }

  lemma FitCons(v: seq<nat>, widths: seq<nat>)
    requires |v| == |widths| > 0 && v[0] < Pow256(widths[0]) && Fit(v[1..], widths[1..])
    ensures Fit(v, widths)
  {
    forall i | 0 <= i < |widths| ensures v[i] < Pow256(widths[i]) {
      if i > 0 {
        assert v[i] == v[1..][i - 1] && widths[i] == widths[1..][i - 1];
      }
    }
  }

  /** Changing one value changes the bytes of its field only. */
  lemma {:induction false} EncodeUpdate(values: seq<nat>, widths: seq<nat>, i: nat, v: nat)
    requires i < |values| == |widths| && widths[i] == 1 && v < 256
    ensures Total(widths[..i]) < Total(widths)
    ensures Encode(values[i := v], widths) == Encode(values, widths)[Total(widths[..i]) := v]
    decreases i
  {
    if i == 0 {
      assert Put(v, 1) == [v] by { assert Put(v / 256, 0) == []; }
      assert values[0 := v][1..] == values[1..];
    } else {
      EncodeUpdate(values[1..], widths[1..], i - 1, v);
      assert values[i := v][1..] == values[1..][i - 1 := v];
      assert widths[..i][1..] == widths[1..][..i - 1];
    }
  }

  lemma {:induction false} TotalNext(widths: seq<nat>, i: nat)
    requires i < |widths|
    ensures Total(widths[..i + 1]) == Total(widths[..i]) + widths[i] && Total(widths[..i + 1]) <= Total(widths)
    decreases i
  {
    if i == 0 {
      assert widths[..1][1..] == [];
    } else {
      TotalNext(widths[1..], i - 1);
      assert widths[..i][1..] == widths[1..][..i - 1] && widths[..i + 1][1..] == widths[1..][..i];
    }
  }

  lemma SliceOfDrop(b: Bytes, w: nat, lo: nat, hi: nat)
    requires w <= lo <= hi <= |b|
    ensures b[w..][lo - w..hi - w] == b[lo..hi]
  {
  }

  lemma DecodeStep(b: Bytes, widths: seq<nat>)
    requires |b| >= Total(widths) && widths != []
    ensures |b[widths[0]..]| >= Total(widths[1..])
    ensures Decode(b, widths) == [Get(b[..widths[0]])] + Decode(b[widths[0]..], widths[1..])
  {
  }

  /** The i-th value is read at the end of the widths before it. */
  lemma {:induction false} DecodeAt(b: Bytes, widths: seq<nat>, i: nat, at: nat)
    requires |b| >= Total(widths) && i < |widths| && at == Total(widths[..i])
    ensures at + widths[i] <= |b| && Decode(b, widths)[i] == Get(b[at..at + widths[i]])
    decreases i
  {
    DecodeStep(b, widths);
    var w := widths[0];
    if i == 0 {
      assert b[0..w] == b[..w];
    } else {
      assert widths[..i][1..] == widths[1..][..i - 1];
      DecodeAt(b[w..], widths[1..], i - 1, at - w);
      SliceOfDrop(b, w, at, at + widths[i]);
    }
  }

  /** Writing the values read, with a one-byte field changed, gives the bytes with that byte changed. */
  lemma ChangeField(b: Bytes, widths: seq<nat>, v: seq<nat>, i: nat, at: nat, x: byte)
    requires |b| >= Total(widths) && v == Decode(b, widths) && i < |widths| && widths[i] == 1
    requires at == Total(widths[..i])
    ensures at < Total(widths) && b[at] == v[i]
    ensures Encode(v[i := x], widths) == b[..Total(widths)][at := x]
  {
    EncodeDecode(b, widths);
    TotalNext(widths, i);
    EncodeUpdate(v, widths, i, x);
    DecodeAt(b, widths, i, at);
    OneByte(b[at..at + 1]);
  }

  lemma OneByte(b: Bytes)
    requires |b| == 1
    ensures Get(b) == b[0]
  {
    assert b[1..] == [];
  }

  /** Reads the i-th of the fields that start at `start`, and moves the cursor behind it. */
  method ReadField(data: Bytes, ghost start: nat, widths: seq<nat>, off: nat, i: nat) returns (v: nat, next: nat)
    requires start <= |data| && |data| - start >= Total(widths) && i < |widths| && off == start + Total(widths[..i])
    ensures v == Decode(data[start..], widths)[i]
    ensures next == start + Total(widths[..i + 1]) == off + widths[i] <= |data|
  {
    TotalNext(widths, i);
    DecodeAt(data[start..], widths, i, off - start);
    next := off + widths[i];
    SliceOfDrop(data, start, off, next);
    v := GetLoop(data[off..next], widths[i]);
  }
}
