/** The session object (src/session/session.cpp) and the entry points that update it step by step. */
module SessionStates {
  import opened Wrappers
  import opened Bytes
  import opened Sessions

  class SessionState {
    const policy: Policy
    var legacy: bool
    var mech: nat
    var key: nat
    var buf: Bytes
    var handles: seq<nat>
    var pos: nat
    var finding: bool

    ghost function State(): Session
      reads this
    {
      Session(legacy, mech, key, buf, handles, pos, finding)
    }

    constructor (policy: Policy)
      ensures this.policy == policy && State() == Session(false, 0, 0, [], [], 0, false)
    {
      this.policy := policy;
      legacy, mech, key, buf, handles, pos, finding := false, 0, 0, [], [], 0, false;
    }

    method OpBegin(mechanism: nat, k: nat) returns (rv: Rv)
      modifies `mech, `key, `buf
      ensures (State(), rv) == Begin(old(State()), mechanism, k)
    {
      if legacy {
        if mech != 0 {
          return OperationActive;
        }
      }
      mech, key, buf := mechanism, k, [];
      return Ok;
    }

    method OpEnd()
      modifies `mech, `key, `buf
      ensures State() == End(old(State()))
    {
      mech, key, buf := 0, 0, [];
    }

    method OpUpdate(data: Buffer)
      modifies `buf
      ensures State() == old(State()).(buf := old(buf) + Data(data))
    {
      if data.Null? || |data.bytes| == 0 {
        return;
      }
      buf := buf + data.bytes;
    }

    method OpTakeBuffer() returns (out: Bytes)
      modifies `buf
      ensures out == old(buf) && State() == old(State()).(buf := [])
    {
      out, buf := buf, [];
    }

    method SetFindResults(results: seq<nat>)
      modifies `handles, `pos, `finding
      ensures State() == old(State()).(handles := results, pos := 0, finding := true)
    {
      handles, pos, finding := results, 0, true;
    }

    /** The copying loop: the next handles go to the front of `out`, if there is one, and the cursor moves past them. */
    method FindNextBatch(out: array?<nat>, max: nat) returns (n: nat)
      requires out != null ==> out.Length >= max
      modifies `pos, out
      ensures n == BatchSize(old(State()), max) <= max && State() == old(State()).(pos := old(pos) + n)
      ensures out != null && n > 0 ==> out[..n] == handles[old(pos)..old(pos) + n]
      ensures out != null ==> out[n..] == old(out[n..])
    {
      n := 0;
      while pos < |handles| && n < max
        invariant 0 <= n <= max && pos == old(pos) + n && (n > 0 ==> pos <= |handles|)
        invariant out != null ==> forall i :: 0 <= i < n ==> out[i] == handles[old(pos) + i]
        invariant out != null ==> forall i :: n <= i < out.Length ==> out[i] == old(out[i])
        decreases max - n
      {
        if out != null {
          out[n] := handles[pos];
        }
        pos := pos + 1;
        n := n + 1;
      }
    }

    method ClearFindResults()
      modifies `handles, `pos, `finding
      ensures State() == old(State()).(handles := [], pos := 0, finding := false)
    {
      handles, pos, finding := [], 0, false;
    }

    /** The C_*Init, C_*Update, C_*Final and one-shot entry points, and the three of a search. */
    method Enter(c: Call) returns (r: Reply)
      modifies this
      ensures (State(), r) == Perform(policy, old(State()), c)
    {
      match c
      case Init(kind, m, k) => r := EnterInit(kind, m, k);
      case Update(part) => r := EnterUpdate(part);
      case Final(kind, signature) => r := EnterFinal(kind, signature);
      case OneShot(kind, data, signature) => r := EnterOneShot(kind, data, signature);
      case FindInit(results) =>
        if pos < |handles| || finding {
          return Just(OperationActive);
        }
        SetFindResults(results);
        r := Just(Ok);
      case FindNext(max, room, counter) => r := EnterFindNext(max, room, counter);
      case FindFinal =>
        ClearFindResults();
        r := Just(Ok);
    }

    method EnterInit(kind: Kind, m: nat, k: nat) returns (r: Reply)
      modifies `mech, `key, `buf
      ensures (State(), r) == Perform(policy, old(State()), Init(kind, m, k))
    {
      if !policy.accepts(kind, m) {
        return Just(MechanismInvalid);
      }
      if kind != Digest && k == 0 {
        return Just(KeyHandleInvalid);
      }
      var rv := OpBegin(m, if kind == Digest then 0 else k);
      r := Just(rv);
    }

    method EnterUpdate(part: Buffer) returns (r: Reply)
      modifies `buf
      ensures (State(), r) == Perform(policy, old(State()), Update(part))
    {
      if mech == 0 {
        return Just(NotInitialized);
      }
      if part.Null? && part.len > 0 {
        return Just(ArgumentsBad);
      }
      OpUpdate(part);
      r := Just(Ok);
    }

    /** Sign and verify take the buffer out and put it back before the primitive runs; all three end the operation. */
    method EnterFinal(kind: Kind, signature: Buffer) returns (r: Reply)
      modifies `mech, `key, `buf
      ensures (State(), r) == Perform(policy, old(State()), Final(kind, signature))
    {
      if mech == 0 {
        return Just(NotInitialized);
      }
      if kind == Verify && Bad(signature) {
        return Just(ArgumentsBad);
      }
      var data := OpTakeBuffer();
      if kind != Digest {
        OpUpdate(Of(data));
      }
      r := Reply(Ok, Some(Job(kind, mech, key, data)), 0, []);
      OpEnd();
    }

    method EnterOneShot(kind: Kind, data: Buffer, signature: Buffer) returns (r: Reply)
      modifies `mech, `key, `buf
      ensures (State(), r) == Perform(policy, old(State()), OneShot(kind, data, signature))
    {
      if mech == 0 {
        return Just(NotInitialized);
      }
      if Bad(data) || (kind == Verify && Bad(signature)) {
        return Just(ArgumentsBad);
      }
      r := Reply(Ok, Some(Job(kind, mech, key, Data(data))), 0, []);
      OpEnd();
    }

    method EnterFindNext(max: nat, room: bool, counter: bool) returns (r: Reply)
      modifies `pos
      ensures (State(), r) == Perform(policy, old(State()), FindNext(max, room, counter))
    {
      if !counter {
        return Just(ArgumentsBad);
      }
      if !finding {
        return Just(NotInitialized);
      }
      if room {
        var out := new nat[max];
        var n := FindNextBatch(out, max);
        r := Reply(Ok, None, n, out[..n]);
      } else {
        var n := FindNextBatch(null, max);
        r := Reply(Ok, None, n, []);
      }
    }
  }
}
