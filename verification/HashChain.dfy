/**
 Chains of lines, each checked against the hash handed on by its predecessor: what it means for
 such a chain to be intact, and what its last hash determines.
 */
module HashChain {
  import opened Wrappers

  /** `check(prev, line)` decides one line; `tail(line)` is the hash it hands on; `zero` starts the chain. */
  datatype Rules = Rules(check: (string, string) -> bool, tail: string -> string, zero: string)
  {
    function PrevOf(lines: seq<string>, i: nat): string
      requires i <= |lines|
    {
      if i == 0 then zero else tail(lines[i - 1])
    }

    predicate OkAt(lines: seq<string>, i: nat)
      requires i < |lines|
    {
      check(PrevOf(lines, i), lines[i])
    }

    predicate Intact(lines: seq<string>) {
      forall i: nat :: i < |lines| ==> OkAt(lines, i)
    }

    /** The number of the first bad line from position `k` on, counting from 1. */
    function FirstBad(lines: seq<string>, k: nat): (r: Option<nat>)
      requires k <= |lines|
      ensures r == None <==> forall i: nat :: k <= i < |lines| ==> OkAt(lines, i)
      ensures r.Some? ==> k < r.value <= |lines| && !OkAt(lines, r.value - 1)
      ensures r.Some? ==> forall i: nat :: k <= i < r.value - 1 ==> OkAt(lines, i)
      decreases |lines| - k
    {
      if k == |lines| then None
      else if !OkAt(lines, k) then Some(k + 1)
      else FirstBad(lines, k + 1)
    }

    /** Among these lines a hash is handed on by one only, and the starting value by none. */
    ghost predicate TailFixesLine(lines: set<string>) {
      && (forall p: string, s: string, q: string, t: string ::
            s in lines && t in lines && check(p, s) && check(q, t) && tail(s) == tail(t) ==> s == t && p == q)
      && (forall p: string, s: string :: s in lines && check(p, s) ==> tail(s) != zero)
    }
  }

  /** Cutting lines off the end goes unnoticed: every prefix of an intact chain is intact. */
  lemma PrefixIntact(r: Rules, lines: seq<string>, n: nat)
    requires r.Intact(lines) && n <= |lines|
    ensures r.Intact(lines[..n])
  {
    forall i: nat | i < n ensures r.OkAt(lines[..n], i) {
      assert r.OkAt(lines, i);
    }
  }

  /** Two intact chains with the same last hash are identical, line for line. */
  lemma {:induction false} TailDeterminesLines(r: Rules, lines: set<string>, xs: seq<string>, ys: seq<string>)
    requires r.TailFixesLine(lines) && (forall s <- xs :: s in lines) && (forall s <- ys :: s in lines)
    requires r.Intact(xs) && r.Intact(ys) && xs != [] && ys != []
    requires r.tail(xs[|xs| - 1]) == r.tail(ys[|ys| - 1])
    ensures xs == ys
    decreases |xs|
  {
    var m, n := |xs| - 1, |ys| - 1;
    assert xs[m] in xs && ys[n] in ys && (m > 0 ==> xs[m - 1] in xs) && (n > 0 ==> ys[n - 1] in ys);
    assert r.OkAt(xs, m) && r.OkAt(ys, n);
    assert m > 0 ==> r.OkAt(xs, m - 1);
    assert n > 0 ==> r.OkAt(ys, n - 1);
    assert r.PrevOf(xs, m) == r.PrevOf(ys, n);
    if m > 0 && n > 0 {
      PrefixIntact(r, xs, m);
      PrefixIntact(r, ys, n);
      assert (forall s <- xs[..m] :: s in xs) && (forall s <- ys[..n] :: s in ys);
      TailDeterminesLines(r, lines, xs[..m], ys[..n]);
    }
    assert xs == xs[..m] + [xs[m]] && ys == ys[..n] + [ys[n]];
  }

  /** A line that checks against the last hash extends an intact chain. */
  lemma ExtendIntact(r: Rules, lines: seq<string>, s: string)
    ensures r.Intact(lines + [s]) <==> r.Intact(lines) && r.check(r.PrevOf(lines, |lines|), s)
  {
    var all := lines + [s];
    assert forall i: nat :: i < |lines| ==> r.OkAt(all, i) == r.OkAt(lines, i);
    assert r.OkAt(all, |lines|) == r.check(r.PrevOf(lines, |lines|), s);
  }

  // Where a longer chain breaks

  lemma OkAtPrefix(r: Rules, xs: seq<string>, ys: seq<string>, i: nat)
    requires i < |xs|
    ensures r.OkAt(xs + ys, i) == r.OkAt(xs, i)
  {
  }

  lemma OkAtNext(r: Rules, xs: seq<string>, ys: seq<string>)
    requires ys != []
    ensures r.OkAt(xs + ys, |xs|) == r.check(r.PrevOf(xs, |xs|), ys[0])
    ensures |ys| > 1 ==> r.OkAt(xs + ys, |xs| + 1) == r.check(r.tail(ys[0]), ys[1])
  {
  }

  lemma FirstBadIs(r: Rules, lines: seq<string>, k: nat)
    requires k < |lines| && !r.OkAt(lines, k) && forall i: nat :: i < k ==> r.OkAt(lines, i)
    ensures r.FirstBad(lines, 0) == Some(k + 1)
  {
    assert r.FirstBad(lines, 0).Some?;
  }

  /** A bad line stays the first bad one, whatever follows. */
  lemma FirstBadStays(r: Rules, xs: seq<string>, ys: seq<string>)
    requires r.FirstBad(xs, 0).Some?
    ensures r.FirstBad(xs + ys, 0) == r.FirstBad(xs, 0)
  {
    var k: nat := r.FirstBad(xs, 0).value - 1;
    forall i: nat | i < |xs| ensures r.OkAt(xs + ys, i) == r.OkAt(xs, i) {
      OkAtPrefix(r, xs, ys, i);
    }
    FirstBadIs(r, xs + ys, k);
  }

  /** An intact chain goes on to its first bad line. */
  lemma FirstBadNext(r: Rules, xs: seq<string>, ys: seq<string>)
    requires r.Intact(xs) && ys != []
    ensures !r.check(r.PrevOf(xs, |xs|), ys[0]) ==> r.FirstBad(xs + ys, 0) == Some(|xs| + 1)
    ensures r.check(r.PrevOf(xs, |xs|), ys[0]) && |ys| > 1 && !r.check(r.tail(ys[0]), ys[1]) ==>
              r.FirstBad(xs + ys, 0) == Some(|xs| + 2)
    ensures r.check(r.PrevOf(xs, |xs|), ys[0]) && |ys| == 1 ==> r.FirstBad(xs + ys, 0) == None
  {
    forall i: nat | i < |xs| ensures r.OkAt(xs + ys, i) {
      OkAtPrefix(r, xs, ys, i);
      assert r.OkAt(xs, i);
    }
    OkAtNext(r, xs, ys);
    if !r.check(r.PrevOf(xs, |xs|), ys[0]) {
      FirstBadIs(r, xs + ys, |xs|);
    } else if |ys| > 1 && !r.check(r.tail(ys[0]), ys[1]) {
      FirstBadIs(r, xs + ys, |xs| + 1);
    }
  }
}
