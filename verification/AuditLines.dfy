/**
 What is read of the lines of the audit log (src/audit/audit_log.cpp), of any length: `fgets` returns a line that does
 not fit its buffer in pieces, and verification and recovery take each piece for a line.
 */
module AuditLines {
  import Codecs
  import opened Decimals
  import opened AuditLog
  import opened Widths

  // ---------------------------------------------------------------------------
  // Pieces
  // ---------------------------------------------------------------------------

  predicate Ended(f: string) { f == [] || f[|f| - 1] == '\n' }

  lemma {:induction false} TakenWithin(f: string, more: string, cap: nat)
    requires f != [] && Ended(f) && cap >= 2
    ensures Taken(f + more, cap) == Taken(f, cap)
    decreases |f|
  {
    var all := f + more;
    assert all[0] == f[0];
    if f[0] != '\n' && cap > 2 {
      assert all[1..] == f[1..] + more;
      TakenWithin(f[1..], more, cap - 1);
    }
  }

  /** What stands behind a newline is read as if it stood alone. */
  lemma {:induction false} LinesAppend(f: string, more: string, cap: nat)
    requires Ended(f) && cap >= 2
    ensures Lines(f + more, cap) == Lines(f, cap) + Lines(more, cap)
    decreases |f|
  {
    if f == [] {
      assert f + more == more;
    } else {
      var n := Taken(f, cap);
      LinesAppend(f[n..], more, cap);
      LinesMore(f, more, f + more, n, cap);
      Codecs.Associative([Clean(f[..n])], Lines(f[n..], cap), Lines(more, cap));
    }
  }

  /** The first piece is the same, and what is left of it goes on. */
  lemma LinesMore(f: string, more: string, all: string, n: nat, cap: nat)
    requires f != [] && Ended(f) && cap >= 2 && all == f + more && n == Taken(f, cap)
    ensures Ended(f[n..]) && Lines(all, cap) == [Clean(f[..n])] + Lines(f[n..] + more, cap)
  {
    TakenWithin(f, more, cap);
    assert all[..n] == f[..n] && all[n..] == f[n..] + more;
  }

  lemma {:induction false} TakenFull(a: string, rest: string, cap: nat)
    requires '\n' !in a && |a| == cap - 1 && cap >= 2
    ensures Taken(a + rest, cap) == |a|
    decreases |a|
  {
    assert (a + rest)[0] == a[0] && a[0] in a;
    if cap > 2 {
      assert (a + rest)[1..] == a[1..] + rest;
      assert forall c <- a[1..] :: c in a;
      TakenFull(a[1..], rest, cap - 1);
    }
  }

  /** A stretch that fills the buffer is read as a line, with or without a newline behind it. */
  lemma Piece(a: string, rest: string, cap: nat)
    requires OneLineText(a) && |a| == cap - 1 && cap >= 2
    ensures Lines(a + rest, cap) == [a] + Lines(rest, cap)
  {
    var f := a + rest;
    TakenFull(a, rest, cap);
    assert f[..|a|] == a && f[|a|..] == rest && a[|a| - 1] in a;
    CStringWhole(a);
  }

  lemma NewlineAlone(cap: nat)
    requires cap >= 2
    ensures Lines("\n", cap) == [""]
  {
    LinesCons([], [], cap);
    assert [] + "\n" + [] == "\n";
  }

  // ---------------------------------------------------------------------------
  // Verification
  // ---------------------------------------------------------------------------

  /** No bar, newline or NUL, and room for the whole line and a terminator in the buffer of `verify_chain`. */
  predicate Good(r: Record) { PlainRecord(r) && LineLength(r) < VERIFY_BUFFER }

  /** A plain line that fills the buffer but for its newline, which is then read as a line of its own. */
  predicate Brimful(r: Record) { PlainRecord(r) && LineLength(r) == VERIFY_BUFFER }

  /** No bars, or nothing but bars that is wrong: a record of which the first piece read cannot be a forged line. */
  predicate Simple(r: Record) { BarFree(r) || (OneLineRecord(r) && LineLength(r) <= VERIFY_BUFFER) }

  predicate IsHash(p: string) { Plain(p) && |p| == HEX_LEN }

  /** What `verify_chain` makes of the lines that are read of a whole line. */
  ghost predicate WholeLine(check: (string, string) -> bool, lines: seq<string>, body: string, r: Record, p: string) {
    && lines != []
    && (forall q: string :: check(q, lines[0]) <==> (Good(r) || Brimful(r)) && q == p)
    && (Good(r) ==> lines == [body])
    && (Brimful(r) ==> |lines| == 2 && forall q: string :: !check(q, lines[1]))
  }

  lemma EmptyLineFails(mac: Mac, q: string)
    ensures !LineOk(mac, BARS, q, "")
  {
    if LineOk(mac, BARS, q, "") {
      OkShape(mac, BARS, q, "");
    }
  }

  /**
   A whole line is read as one good line exactly if its record is good; otherwise what is read of it has a bad line.
   */
  lemma WholeLineExactly(mac: Mac, r: Record, p: string)
    requires Simple(r) && IsHash(p)
    ensures WholeLine((q: string, s: string) => LineOk(mac, BARS, q, s), Lines(Body(mac, r, p) + "\n", VERIFY_BUFFER),
                      Body(mac, r, p), r, p)
  {
    if !OneLineRecord(r) {
      SpoiledRecord(mac, r, p, "\n", VERIFY_BUFFER);
    } else {
      BodyPlain(mac, r, p);
      FirstPiece(mac, r, p, Body(mac, r, p));
    }
  }

  lemma FirstPiece(mac: Mac, r: Record, p: string, b: string)
    requires Simple(r) && OneLineRecord(r) && IsHash(p) && b == Body(mac, r, p)
    requires OneLineText(b) && b != [] && |b| + 1 == LineLength(r)
    ensures WholeLine((q: string, s: string) => LineOk(mac, BARS, q, s), Lines(b + "\n", VERIFY_BUFFER), b, r, p)
  {
    var lines := PiecesOf(b);
    var check := (q: string, s: string) => LineOk(mac, BARS, q, s);
    forall q: string ensures PieceOk(check, r, p, b, lines[0], q) {
      PieceChecks(mac, check, r, p, b, lines[0], q);
    }
    WholeOfPieces(check, lines, r, p, b);
  }

  lemma WholeOfPieces(check: (string, string) -> bool, lines: seq<string>, r: Record, p: string, b: string)
    requires Simple(r) && OneLineRecord(r) && |b| + 1 == LineLength(r) && lines != []
    requires |b| + 1 < VERIFY_BUFFER ==> lines == [b]
    requires |b| + 1 == VERIFY_BUFFER ==> lines == [b, ""]
    requires forall q: string :: PieceOk(check, r, p, b, lines[0], q)
    ensures WholeLine(check, lines, b, r, p)
  {
    forall q: string
      ensures check(q, lines[0]) <==> (Good(r) || Brimful(r)) && q == p
      ensures !check(q, "")
    {
      assert PieceOk(check, r, p, b, lines[0], q);
    }
  }

  ghost predicate PieceOk(check: (string, string) -> bool, r: Record, p: string, b: string, first: string, q: string) {
    && (check(q, b) <==> BarFree(r) && q == p) && !check(q, "")
    && (|b| >= VERIFY_BUFFER ==> !check(q, first))
  }

  lemma PieceChecks(mac: Mac, check: (string, string) -> bool, r: Record, p: string, b: string, first: string,
                    q: string)
    requires forall s: string :: check(q, s) == LineOk(mac, BARS, q, s)
    requires Simple(r) && IsHash(p) && b == Body(mac, r, p) && (|b| >= VERIFY_BUFFER ==> BarFree(r))
    requires |b| >= VERIFY_BUFFER ==> first == b[..VERIFY_BUFFER - 1]
    ensures PieceOk(check, r, p, b, first, q)
  {
    AppendedLineExactly(mac, BARS, r, p, q);
    EmptyLineFails(mac, q);
    if |b| >= VERIFY_BUFFER {
      AppendedLineExactly(mac, BARS, r, p, p);
      CutLineFails(mac, BARS, p, b, VERIFY_BUFFER - 1, q);
    }
  }

  /** What is read of a line, by its length. */
  lemma PiecesOf(b: string) returns (lines: seq<string>)
    requires OneLineText(b) && b != []
    ensures lines == Lines(b + "\n", VERIFY_BUFFER) && lines != []
    ensures |b| + 1 < VERIFY_BUFFER ==> lines == [b]
    ensures |b| + 1 == VERIFY_BUFFER ==> lines == [b, ""]
    ensures |b| + 1 > VERIFY_BUFFER ==> lines[0] == b[..VERIFY_BUFFER - 1]
  {
    lines := Lines(b + "\n", VERIFY_BUFFER);
    var n := VERIFY_BUFFER - 1;
    if |b| < n {
      OneLine(b, "\n", VERIFY_BUFFER);
    } else if |b| == n {
      Piece(b, "\n", VERIFY_BUFFER);
      NewlineAlone(VERIFY_BUFFER);
    } else {
      assert b + "\n" == b[..n] + (b[n..] + "\n");
      Piece(b[..n], b[n..] + "\n", VERIFY_BUFFER);
    }
  }

  // ---------------------------------------------------------------------------
  // Recovery
  // ---------------------------------------------------------------------------

  predicate SomeBar(lines: seq<string>) { exists s <- lines :: '|' in s }

  /** The last line with a bar wins. */
  lemma {:induction false} RecoverAppend(xs: seq<string>, ys: seq<string>)
    ensures Recover(xs + ys) == Recover(if SomeBar(ys) then ys else xs)
    decreases |ys|
  {
    if ys == [] {
      assert xs + ys == xs;
    } else {
      var n := |ys| - 1;
      assert (xs + ys)[|xs + ys| - 1] == ys[n] && (xs + ys)[..|xs + ys| - 1] == xs + ys[..n];
      assert ys == ys[..n] + [ys[n]];
      RecoverAppend(xs, ys[..n]);
    }
  }

  lemma RecoverOne(s: string)
    requires '|' in s
    ensures Recover([s]) == (Strtoull(s[..Bar(s)]), AfterLastBar(s))
  {
  }

  /** A line without its newline that fits the buffer, newline or not, is recovered from as a whole. */
  lemma RecoverShort(s: string)
    requires OneLineText(s) && '|' in s && |s| < RECOVER_BUFFER
    ensures Recover(Lines(s + "\n", RECOVER_BUFFER)) == (Strtoull(s[..Bar(s)]), AfterLastBar(s))
    ensures SomeBar(Lines(s + "\n", RECOVER_BUFFER))
  {
    var lines := Lines(s + "\n", RECOVER_BUFFER);
    if |s| + 2 <= RECOVER_BUFFER {
      OneLine(s, "\n", RECOVER_BUFFER);
    } else {
      Piece(s, "\n", RECOVER_BUFFER);
      NewlineAlone(RECOVER_BUFFER);
      RecoverAppend([s], [""]);
    }
    assert lines[0] == s;
    RecoverOne(s);
  }

  /** The record is read back by a restart, number and hash. */
  predicate ReadBack(r: Record) { OneLineRecord(r) && LineLength(r) <= RECOVER_BUFFER && r.seqNo < U64 }

  lemma RecoverRecord(mac: Mac, r: Record, p: string)
    requires ReadBack(r) && IsHash(p)
    ensures var lines := Lines(Body(mac, r, p) + "\n", RECOVER_BUFFER);
            SomeBar(lines) && Recover(lines) == (r.seqNo, HexMac(mac, RecordBytes(r, p)))
  {
    BodyPlain(mac, r, p);
    RecoverLine(mac, r, p);
    RecoverShort(Body(mac, r, p));
  }

  // Longer lines: the hash survives if it is not split between two pieces

  /** The last piece of a text with `n` characters holds more than 64 of them: the hash and the bar before it. */
  predicate HashUnsplit(n: nat)
    requires n > 0
  {
    (n - 1) % (RECOVER_BUFFER - 1) >= HEX_LEN
  }

  lemma NoBarLines(s: string)
    requires OneLineText(s) && '|' !in s && s != [] && |s| < HEX_LEN + 1
    ensures !SomeBar(Lines(s + "\n", RECOVER_BUFFER))
  {
    OneLine(s, "\n", RECOVER_BUFFER);
  }

  lemma SplitHash(x: string, hash: string, k: nat)
    requires '|' !in hash && |x| < k <= |x| + |hash|
    ensures '|' in (x + "|" + hash)[..k] && |AfterLastBar((x + "|" + hash)[..k])| == k - |x| - 1
  {
    var s := x + "|" + hash;
    var m := k - |x| - 1;
    assert s[..k] == x + "|" + hash[..m] && s[..k][|x|] == '|';
    assert forall c <- hash[..m] :: c in hash;
    AfterLastBarOf(x, hash[..m]);
  }

  /** Of a line of any length, the hash is recovered exactly if it is not split between two pieces. */
  lemma {:induction false} TailRecoveredExactly(x: string, hash: string, s: string)
    requires s == x + "|" + hash && OneLineText(s) && '|' !in hash && |hash| == HEX_LEN
    ensures SomeBar(Lines(s + "\n", RECOVER_BUFFER))
    ensures Recover(Lines(s + "\n", RECOVER_BUFFER)).1 == hash <==> HashUnsplit(|s|)
    decreases |x|
  {
    var n := RECOVER_BUFFER - 1;
    if |s| <= n {
      TailRecovered(x, hash, s);
    } else {
      var a, rest := s[..n], s[n..];
      PieceOf(s, a, rest);
      OnePieceLess(|s|, |rest|);
      if |rest| > HEX_LEN {
        RestOf(x, hash, s, n);
        TailRecoveredExactly(x[n..], hash, rest);
      } else {
        SplitTail(x, hash, s, a, rest);
      }
    }
  }

  lemma RestOf(x: string, hash: string, s: string, n: nat)
    requires s == x + "|" + hash && n <= |s| && |s[n..]| > |hash|
    ensures n <= |x| && s[n..] == x[n..] + "|" + hash
  {
  }

  /** A longer line is its first piece and what is read of the rest. */
  lemma PieceOf(s: string, a: string, rest: string)
    requires OneLineText(s) && |s| >= RECOVER_BUFFER && a == s[..RECOVER_BUFFER - 1] && rest == s[RECOVER_BUFFER - 1..]
    ensures OneLineText(a) && OneLineText(rest) && rest != []
    ensures var lines, more := Lines(s + "\n", RECOVER_BUFFER), Lines(rest + "\n", RECOVER_BUFFER);
            && (SomeBar(lines) <==> '|' in a || SomeBar(more))
            && Recover(lines) == Recover(if SomeBar(more) then more else [a])
  {
    var more := Lines(rest + "\n", RECOVER_BUFFER);
    assert s + "\n" == a + (rest + "\n");
    Piece(a, rest + "\n", RECOVER_BUFFER);
    RecoverAppend([a], more);
    BarInFirst(a, more);
  }

  lemma BarInFirst(a: string, more: seq<string>)
    ensures SomeBar([a] + more) <==> '|' in a || SomeBar(more)
  {
    assert forall t :: t in [a] + more <==> t == a || t in more;
  }

  lemma SplitTail(x: string, hash: string, s: string, a: string, rest: string)
    requires s == x + "|" + hash && '|' !in hash && |hash| == HEX_LEN && |s| >= RECOVER_BUFFER
    requires a == s[..RECOVER_BUFFER - 1] && rest == s[RECOVER_BUFFER - 1..] && |rest| <= HEX_LEN && OneLineText(rest)
    ensures '|' in a && !SomeBar(Lines(rest + "\n", RECOVER_BUFFER)) && |Recover([a]).1| < HEX_LEN
  {
    assert rest == hash[HEX_LEN - |rest|..];
    NoBarLines(rest);
    SplitHash(x, hash, |a|);
    RecoverOne(a);
  }

  lemma TailRecovered(x: string, hash: string, s: string)
    requires s == x + "|" + hash && OneLineText(s) && '|' !in hash && |hash| == HEX_LEN && |s| < RECOVER_BUFFER
    ensures SomeBar(Lines(s + "\n", RECOVER_BUFFER))
    ensures Recover(Lines(s + "\n", RECOVER_BUFFER)).1 == hash && HashUnsplit(|s|)
  {
    LastField(x, hash, s);
    RecoverShort(s);
    OnePiece(|s|);
  }

  lemma LastField(x: string, hash: string, s: string)
    requires s == x + "|" + hash && '|' !in hash
    ensures '|' in s && AfterLastBar(s) == hash
  {
    assert s[|x|] == '|';
    AfterLastBarOf(x, hash);
  }

  lemma OnePiece(n: nat)
    requires HEX_LEN < n < RECOVER_BUFFER
    ensures HashUnsplit(n)
  {
  }

  lemma OnePieceLess(m: nat, n: nat)
    requires n > 0 && m == n + (RECOVER_BUFFER - 1)
    ensures HashUnsplit(m) == HashUnsplit(n) && (n <= HEX_LEN ==> !HashUnsplit(n))
  {
  }
}
