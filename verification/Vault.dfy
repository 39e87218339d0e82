/** The vault object (src/persistence/vault.cpp): opening, saving and loading one file. */
module Vaults {
  import opened Wrappers
  import opened Bytes
  import opened LittleEndian
  import opened VaultImage
  import S = VaultSave
  import opened Widths

  /** The header checks, in the order of the opening constructor. */
  method ParseFile(raw: File, reader: Reader) returns (r: Result<Image>)
    ensures r == Parse(raw, reader)
  {
    if |raw| < HEADER {
      return Failure("too short");
    }
    if raw[..8] != MAGIC {
      return Failure("bad magic");
    }
    var version := GetLoop(raw[8..12], 4);
    if version != VERSION {
      return Failure("unsupported version");
    }
    var iterations := GetLoop(raw[28..32], 4);
    if reader == Opening && iterations == 0 {
      return Failure("invalid iteration count");
    }
    var length := GetLoop(raw[60..68], 8);
    if |raw| != (HEADER + length) % U64 {
      return Failure("length mismatch");
    }
    return Success(Image(raw[12..28], iterations, raw[32..44], raw[44..60], raw[68..]));
  }

  /** What the system calls of one save return; the process is killed when `writes` runs out. */
  datatype Calls = Calls(open: bool, writes: seq<int>, sync: bool, close: bool, rename: bool, syncDir: bool)

  datatype Outcome = Saved | Threw | Killed

  /** Whether the write loop gets through `left` bytes. */
  predicate WritesAll(writes: seq<int>, left: nat) {
    left == 0 || (writes != [] && 0 <= writes[0]
                && WritesAll(writes[1..], if writes[0] < left then left - writes[0] else 0))
  }

  /** One call of `save`. */
  datatype Job = Job(payload: Bytes, salt: Bytes, nonce: Bytes)

  predicate Fits(j: Job) { |j.salt| == 16 && |j.nonce| == 12 && HEADER + |j.payload| < U64 }

  /** The i-th save that was begun writes the image of the i-th job. */
  ghost predicate Writes(c: Crypto, password: string, jobs: seq<Job>, images: seq<Bytes>) {
    && |images| == |jobs|
    && forall i :: 0 <= i < |jobs| ==> Fits(jobs[i]) && images[i] == ImageOf(c, password, jobs[i])
  }

  ghost function ImageOf(c: Crypto, password: string, j: Job): Bytes {
    var img := Sealed(c, password, j.payload, j.salt, j.nonce);
    if WellFormed(img) then Build(img) else []
  }

  /** Whether the file holds one of the payloads, whole. */
  ghost predicate LoadsOneOf(c: Crypto, password: string, jobs: seq<Job>, content: Bytes) {
    |content| < U64 && exists i :: 0 <= i < |jobs| && Load(c, password, content) == Success(jobs[i].payload)
  }

  /**
   After any run of concurrent saves with failures, kills and power losses, the target is untouched or loads one of the
   payloads.
   */
  lemma EveryRunLoads(c: Crypto, password: string, s: S.State, es: seq<S.Event>, jobs: seq<Job>)
    requires Sealing(c) && S.Initial(s) && S.Run(s, es).Some? && Writes(c, password, jobs, S.Images(es))
    ensures var f := S.Run(s, es).value.disk.target;
            f == s.disk.target || (f.Some? && LoadsOneOf(c, password, jobs, f.value.content))
  {
    var t := S.Run(s, es).value;
    var f := t.disk.target;
    S.NeverPartial(s, es);
    S.SavesAreImages(s, es);
    if f != s.disk.target {
      var i :| 0 <= i < |t.saves| && t.saves[i].image == f.value.content;
      assert f.value.content == ImageOf(c, password, jobs[i]);
      LoadSaved(c, password, jobs[i].payload, jobs[i].salt, jobs[i].nonce);
    }
  }

  /** The protocol's view of a file that only this save touches. */
  ghost function Start(file: Option<File>): S.State {
    S.State(S.Disk(AsEntry(file), [], map[]), [])
  }

  ghost function AsEntry(file: Option<File>): Option<S.File> {
    if file.Some? then Some(S.File(file.value, true)) else None
  }

  /** After the events `es`, one save is in the given phase, and its file holds the bytes written. */
  ghost predicate Reached(start: S.State, es: seq<S.Event>, name: S.Name, image: Bytes, phase: S.Phase) {
    var o := S.Run(start, es);
    && o.Some? && |o.value.saves| == 1 && o.value.saves[0] == S.Save(name, image, phase)
    && S.Inv(start.disk.target, o.value) && o.value.disk.target == start.disk.target
  }

  lemma Advance(start: S.State, es: seq<S.Event>, name: S.Name, image: Bytes, phase: S.Phase, e: S.Event)
    requires Reached(start, es, name, image, phase) && S.Enabled(S.Run(start, es).value, e)
    requires !e.Begin? && !(e.Rename? && e.ok) && !e.PowerLoss?
    ensures var t := S.Step(S.Run(start, es).value, e);
            Reached(start, es + [e], name, image, t.saves[0].phase) && S.Run(start, es + [e]) == Some(t)
  {
    S.RunMore(start, es, e);
    S.StepKeepsInv(start.disk.target, S.Run(start, es).value, e);
  }

  lemma Written(start: S.State, es: seq<S.Event>, name: S.Name, image: Bytes, w: nat, n: int)
    requires Reached(start, es, name, image, S.Writing(w)) && w < |image| && n <= |image| - w
    ensures n >= 0 ==> Reached(start, es + [S.Write(0, n)], name, image, S.Writing(w + n))
    ensures n < 0 ==> Reached(start, es + [S.Write(0, n)], name, image, S.Cleaning(true))
  {
    Advance(start, es, name, image, S.Writing(w), S.Write(0, n));
  }

  lemma Beginning(file: Option<File>, name: S.Name, image: Bytes)
    ensures Reached(Start(file), [S.Begin(name, image)], name, image, S.Fresh)
  {
    var e := S.Begin(name, image);
    S.RunMore(Start(file), [], e);
    assert [] + [e] == [e];
    S.StepKeepsInv(AsEntry(file), Start(file), e);
  }

  lemma Replaced(start: S.State, es: seq<S.Event>, name: S.Name, image: Bytes, ok: bool)
    requires Reached(start, es, name, image, S.Closed)
    ensures var more := es + [S.Rename(0, true)] + [S.SyncDir(0, ok)];
            S.Run(start, more).Some? && S.Run(start, more).value.disk.target == Some(S.File(image, true))
  {
    var s := S.Run(start, es).value;
    assert S.Holds(s.disk, s.saves[0]);
    S.RunMore(start, es, S.Rename(0, true));
    S.RunMore(start, es + [S.Rename(0, true)], S.SyncDir(0, ok));
  }

  /** The loop over `written`; a count beyond what was asked for cannot come back and is cut off. */
  method WriteLoop(out: Bytes, writes: seq<int>, ghost start: S.State, ghost es: seq<S.Event>, ghost name: S.Name)
    returns (r: Outcome, ghost more: seq<S.Event>)
    requires Reached(start, es, name, out, S.Writing(0))
    ensures r == Saved <==> WritesAll(writes, |out|)
    ensures r == Saved ==> Reached(start, more, name, out, S.Writing(|out|))
    ensures S.Run(start, more).Some? && S.Run(start, more).value.disk.target == start.disk.target
  {
    var written, k := 0, 0;
    more := es;
    assert writes[0..] == writes;
    while written < |out|
      invariant 0 <= written <= |out| && 0 <= k <= |writes|
      invariant Reached(start, more, name, out, S.Writing(written))
      invariant WritesAll(writes, |out|) == WritesAll(writes[k..], |out| - written)
      decreases |writes| - k
    {
      if k == |writes| {
        return Killed, more;
      }
      var n := if writes[k] < |out| - written then writes[k] else |out| - written;
      assert writes[k..][1..] == writes[k + 1..];
      Written(start, more, name, out, written, n);
      more := more + [S.Write(0, n)];
      if n < 0 {
        return Threw, more;
      }
      written := written + n;
      k := k + 1;
    }
    r := Saved;
  }

  /** Open, write, sync and close the temporary file. */
  method WriteTemp(out: Bytes, calls: Calls, ghost start: S.State, ghost es: seq<S.Event>, ghost name: S.Name)
    returns (r: Outcome, ghost more: seq<S.Event>)
    requires Reached(start, es, name, out, S.Fresh)
    ensures r == Saved <==> calls.open && WritesAll(calls.writes, |out|) && calls.sync && calls.close
    ensures r == Saved ==> Reached(start, more, name, out, S.Closed)
    ensures S.Run(start, more).Some? && S.Run(start, more).value.disk.target == start.disk.target
  {
    Advance(start, es, name, out, S.Fresh, S.Open(0, calls.open));
    more := es + [S.Open(0, calls.open)];
    if !calls.open {
      return Threw, more;
    }
    r, more := WriteLoop(out, calls.writes, start, more, name);
    if r != Saved {
      return;
    }
    Advance(start, more, name, out, S.Writing(|out|), S.Sync(0, calls.sync));
    more := more + [S.Sync(0, calls.sync)];
    if !calls.sync {
      return Threw, more;
    }
    Advance(start, more, name, out, S.Synced, S.Close(0, calls.close));
    more := more + [S.Close(0, calls.close)];
    r := if calls.close then Saved else Threw;
  }

  class Vault {
    const crypto: Crypto
    const password: string
    var file: Option<File>
    var valid: bool

    /** A vault on a path that holds `file`, not yet opened. */
    constructor (crypto: Crypto, password: string, file: Option<File>)
      ensures this.crypto == crypto && this.password == password && this.file == file && !valid
    {
      this.crypto, this.password, this.file, valid := crypto, password, file, false;
    }

    /** The opening constructor: authenticates the file. */
    method Open() returns (ok: bool)
      modifies `valid
      ensures ok == (file.Some? && Opens(crypto, password, file.value))
      ensures valid == (old(valid) || ok)
    {
      if file.None? {
        return false;
      }
      var img := ParseFile(file.value, Opening);
      if img.IsFailure() {
        return false;
      }
      var v := img.value;
      ok := crypto.decrypt(crypto.derive(password, v.salt, v.iterations), v.nonce, v.tag, v.ciphertext).Some?;
      if ok {
        valid := true;
      }
    }

    /** The saved payload, or an error. */
    method LoadPayload() returns (r: Result<Bytes>)
      ensures r.Success? <==> valid && file.Some? && Load(crypto, password, file.value).Success?
      ensures r.Success? ==> r == Load(crypto, password, file.value)
    {
      if !valid {
        return Failure("not valid");
      }
      if file.None? {
        return Failure("cannot open file");
      }
      var v :- ParseFile(file.value, Loading);
      match crypto.decrypt(crypto.derive(password, v.salt, v.iterations), v.nonce, v.tag, v.ciphertext)
      case None => r := Failure("authentication failed");
      case Some(p) => r := Success(p);
    }

    /** The image of a payload, sealed with a fresh salt and nonce. */
    method MakeImage(payload: Bytes, salt: Bytes, nonce: Bytes) returns (out: File)
      requires Sealing(crypto) && |salt| == 16 && |nonce| == 12 && HEADER + |payload| < U64
      ensures |out| == HEADER + |payload| && Load(crypto, password, out) == Success(payload)
      ensures Opens(crypto, password, out) && LaidOut(crypto, password, payload, salt, nonce, out)
    {
      SavedLayout(crypto, password, payload, salt, nonce);
      LoadSaved(crypto, password, payload, salt, nonce);
      out := BuildLoop(Sealed(crypto, password, payload, salt, nonce));
    }

    /** The temporary file, renamed over the target when it is complete. */
    method Replace(out: File, name: S.Name, calls: Calls) returns (r: Outcome, ghost es: seq<S.Event>)
      modifies `file
      ensures r == Saved <==> calls.open && WritesAll(calls.writes, |out|) && calls.sync && calls.close && calls.rename
      ensures file == if r == Saved then Some(out) else old(file)
      ensures S.Run(Start(old(file)), es).Some? && S.Run(Start(old(file)), es).value.disk.target == AsEntry(file)
    {
      ghost var start := Start(file);
      es := [S.Begin(name, out)];
      Beginning(file, name, out);
      r, es := WriteTemp(out, calls, start, es, name);
      if r != Saved {
        return;
      }
      if !calls.rename {
        Advance(start, es, name, out, S.Closed, S.Rename(0, false));
        return Threw, es + [S.Rename(0, false)];
      }
      Replaced(start, es, name, out, calls.syncDir);
      es := es + [S.Rename(0, true)] + [S.SyncDir(0, calls.syncDir)];
      file := Some(out);
    }

    /**
     Replaces the file if every call succeeds, and leaves it alone otherwise, wherever the save stops; in either case
     the calls are a run of the save protocol that ends with the same file.
     */
    method Save(payload: Bytes, salt: Bytes, nonce: Bytes, name: S.Name, calls: Calls)
      returns (r: Outcome, ghost es: seq<S.Event>)
      requires Sealing(crypto) && |salt| == 16 && |nonce| == 12 && HEADER + |payload| < U64
      modifies `file, `valid
      ensures r == Saved <==> password != "" && calls.open && WritesAll(calls.writes, HEADER + |payload|)
                              && calls.sync && calls.close && calls.rename
      ensures r == Saved ==> valid && file.Some? && Opens(crypto, password, file.value)
                             && Load(crypto, password, file.value) == Success(payload)
                             && LaidOut(crypto, password, payload, salt, nonce, file.value)
      ensures r != Saved ==> valid == old(valid) && file == old(file)
      ensures S.Run(Start(old(file)), es).Some? && S.Run(Start(old(file)), es).value.disk.target == AsEntry(file)
    {
      if password == "" {
        return Threw, [];
      }
      var out := MakeImage(payload, salt, nonce);
      r, es := Replace(out, name, calls);
      if r == Saved {
        valid := true;
      }
    }
  }
}
