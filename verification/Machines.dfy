/** Deterministic machines that take one call at a time, alone or many side by side. */
module Machines {
  /** One step: the new state and the reply; `absent` answers calls on a machine that does not exist. */
  datatype Machine<!S, !C, !R> = Machine(step: (S, C) -> (S, R), absent: C -> R)
  {
    /** The state after the calls. */
    function After(s: S, cs: seq<C>): S {
      if cs == [] then s else step(After(s, cs[..|cs| - 1]), cs[|cs| - 1]).0
    }

    /** The reply to each call. */
    function Replies(s: S, cs: seq<C>): (rs: seq<R>)
      ensures |rs| == |cs|
    {
      if cs == [] then [] else
      Replies(s, cs[..|cs| - 1]) + [step(After(s, cs[..|cs| - 1]), cs[|cs| - 1]).1]
    }

    /** The machines after calls to several of them. */
    function Worlds(w: map<nat, S>, es: seq<(nat, C)>): map<nat, S> {
      if es == [] then w else
      var before, e := Worlds(w, es[..|es| - 1]), es[|es| - 1];
      if e.0 in before then before[e.0 := step(before[e.0], e.1).0] else before
    }

    /** The replies to the calls made on one of them. */
    function RepliesOn(w: map<nat, S>, es: seq<(nat, C)>, h: nat): seq<R> {
      if es == [] then [] else
      var front, e := es[..|es| - 1], es[|es| - 1];
      var before := Worlds(w, front);
      if e.0 != h then RepliesOn(w, front, h)
      else RepliesOn(w, front, h) + [if h in before then step(before[h], e.1).1 else absent(e.1)]
    }
  }

  /** The calls made on one handle. */
  function CallsOn<C>(es: seq<(nat, C)>, h: nat): seq<C> {
    if es == [] then [] else
    var before, e := CallsOn(es[..|es| - 1], h), es[|es| - 1];
    if e.0 == h then before + [e.1] else before
  }

  lemma OneMore<S, C, R>(m: Machine<S, C, R>, s: S, cs: seq<C>, c: C)
    ensures m.After(s, cs + [c]) == m.step(m.After(s, cs), c).0
    ensures m.Replies(s, cs + [c]) == m.Replies(s, cs) + [m.step(m.After(s, cs), c).1]
  {
    assert (cs + [c])[..|cs|] == cs;
  }

  lemma {:induction false} ReplyAt<S, C, R>(m: Machine<S, C, R>, s: S, cs: seq<C>, k: nat)
    requires k < |cs|
    ensures m.Replies(s, cs)[k] == m.step(m.After(s, cs[..k]), cs[k]).1
  {
    if k < |cs| - 1 {
      ReplyAt(m, s, cs[..|cs| - 1], k);
      assert cs[..|cs| - 1][..k] == cs[..k];
    }
  }

  /** A machine sees its own calls only: its state and its replies are those of a run without the others. */
  lemma {:induction false} Separate<S, C, R>(m: Machine<S, C, R>, w: map<nat, S>, es: seq<(nat, C)>, h: nat)
    requires h in w
    ensures h in m.Worlds(w, es) && m.Worlds(w, es)[h] == m.After(w[h], CallsOn(es, h))
    ensures m.RepliesOn(w, es, h) == m.Replies(w[h], CallsOn(es, h))
  {
    if es != [] {
      var front, e := es[..|es| - 1], es[|es| - 1];
      Separate(m, w, front, h);
      if e.0 == h {
        OneMore(m, w[h], CallsOn(front, h), e.1);
      }
    }
  }

  lemma {:induction false} Concat<S, C, R>(m: Machine<S, C, R>, s: S, xs: seq<C>, ys: seq<C>)
    ensures m.After(s, xs + ys) == m.After(m.After(s, xs), ys)
    ensures m.Replies(s, xs + ys) == m.Replies(s, xs) + m.Replies(m.After(s, xs), ys)
    decreases |ys|
  {
    if ys == [] {
      assert xs + ys == xs;
    } else {
      var n := |ys| - 1;
      Concat(m, s, xs, ys[..n]);
      assert xs + ys == xs + ys[..n] + [ys[n]];
      OneMore(m, s, xs + ys[..n], ys[n]);
    }
  }

  lemma First<S, C, R>(m: Machine<S, C, R>, s: S, c: C)
    ensures m.After(s, [c]) == m.step(s, c).0 && m.Replies(s, [c]) == [m.step(s, c).1]
  {
    OneMore(m, s, [], c);
    assert [] + [c] == [c];
  }
}
