/** The fixed-capacity memory printer (tmp_memory_printer) through which the template
    scanner emits its output. memory_printer.cpp is not part of this model; this sink
    follows the behaviour its callers in implementation.cpp rely on: a sticky error code,
    a write position `size` that never passes the capacity, and a `necessary` count that
    keeps growing after the output stopped fitting, so that it ends up as the size the
    whole output needs. */
module Sink {
  import opened PrintTypes
  import opened ByteOps
  import opened Decoration
  import Engine

  /** The printer as a value: the bytes written so far, the size the output needs, the
      sticky error code and the capacity of the buffer. */
  datatype SinkState = SinkState(out: string, necessary: nat, ec: Errc, capacity: nat)

  /** Never more written than fits or than is needed; while no error occurred, all that is
      needed has been written. */
  predicate Consistent(st: SinkState) {
    |st.out| <= st.capacity && |st.out| <= st.necessary && (st.ec == Ok ==> st.necessary == |st.out|)
  }

  /** `tmp_memory_printer mem{dest, len}`: empty, no error. */
  function Fresh(capacity: nat): SinkState {
    SinkState([], 0, Ok, capacity)
  }

  /** One append, of raw bytes or of a formatted value. After a hard error nothing changes
      and the append reports failure; a refused value records its error and fails; bytes
      are always counted in `necessary`, written only while no error occurred and only
      when all of them fit, and otherwise turn the error into ERANGE. The append succeeds
      unless the printer is, or becomes, hard-failed. */
  function Put(st: SinkState, piece: Formatting): (r: (SinkState, bool))
    ensures r.1 <==> !IsHardError(st.ec) && piece.Bytes?
    ensures IsHardError(st.ec) ==> r.0 == st
    ensures piece.Refused? && !IsHardError(st.ec) ==> r.0 == st.(ec := piece.error)
    ensures r.1 ==> r.0.necessary == st.necessary + |piece.text| && r.0.capacity == st.capacity
    ensures r.1 ==> (r.0.ec == Ok <==> st.ec == Ok && |st.out| + |piece.text| <= st.capacity)
    ensures r.1 ==> r.0.ec == Ok || r.0.ec == ERange
    ensures r.1 && r.0.ec == Ok ==> r.0.out == st.out + piece.text
    ensures r.1 && r.0.ec != Ok ==> r.0.out == st.out
    ensures Consistent(st) ==> Consistent(r.0)
  {
    if IsHardError(st.ec) then (st, false)
    else
      match piece
      case Refused(e) => (st.(ec := e), false)
      case Bytes(b) =>
        var necessary := st.necessary + |b|;
        if st.ec == Ok && |st.out| + |b| <= st.capacity then
          (st.(out := st.out + b, necessary := necessary), true)
        else
          (st.(necessary := necessary, ec := ERange), true)
  }

  /** Appends in order, stopping at the first that fails. */
  function PutAll(st: SinkState, pieces: seq<Formatting>): (SinkState, bool)
    decreases |pieces|
  {
    if pieces == [] then (st, true)
    else
      var (next, ok) := Put(st, pieces[0]);
      if ok then PutAll(next, pieces[1..]) else (next, false)
  }

  predicate AllBytes(pieces: seq<Formatting>) {
    forall i :: 0 <= i < |pieces| ==> pieces[i].Bytes?
  }

  /** The bytes of the pieces, one after the other. */
  function Joined(pieces: seq<Formatting>): string
    requires AllBytes(pieces)
    decreases |pieces|
  {
    if pieces == [] then [] else pieces[0].text + Joined(pieces[1..])
  }

  /** Appending two runs of pieces is appending the first, then, if that succeeded, the
      second. */
  lemma {:induction false} PutAllAppend(st: SinkState, a: seq<Formatting>, b: seq<Formatting>)
    ensures PutAll(st, a + b) ==
      (var (mid, ok) := PutAll(st, a); if ok then PutAll(mid, b) else (mid, false))
    decreases |a|
  {
    if a != [] {
      assert (a + b)[0] == a[0] && (a + b)[1..] == a[1..] + b;
      var (next, ok) := Put(st, a[0]);
      if ok {
        PutAllAppend(next, a[1..], b);
      }
    } else {
      assert a + b == b;
    }
  }

  /** A run of bytes on a printer without a hard error: every append succeeds, `necessary`
      grows by the total length, and the output is all of it, if it fits, or unchanged
      otherwise, with ERANGE. */
  lemma {:induction false} PutAllBytes(st: SinkState, pieces: seq<Formatting>)
    requires AllBytes(pieces) && !IsHardError(st.ec) && Consistent(st)
    ensures var (r, ok) := PutAll(st, pieces);
      && ok
      && r.capacity == st.capacity
      && r.necessary == st.necessary + |Joined(pieces)|
      && (r.ec == Ok <==> st.ec == Ok && |st.out| + |Joined(pieces)| <= st.capacity)
      && (r.ec == Ok || r.ec == ERange)
      && (r.ec == Ok ==> r.out == st.out + Joined(pieces))
    decreases |pieces|
  {
    if pieces != [] {
      var (next, _) := Put(st, pieces[0]);
      assert AllBytes(pieces[1..]) by {
        forall i | 0 <= i < |pieces| - 1 ensures pieces[1..][i].Bytes? {
          assert pieces[1..][i] == pieces[i + 1];
        }
      }
      PutAllBytes(next, pieces[1..]);
      assert |Joined(pieces)| == |pieces[0].text| + |Joined(pieces[1..])|;
      assert st.out + pieces[0].text + Joined(pieces[1..]) == st.out + Joined(pieces);
    }
  }

  /** On a printer without a hard error, a run of appends goes through exactly when every
      piece is bytes; when it does not, the printer ends hard-failed. */
  lemma {:induction false} PutAllOk(st: SinkState, pieces: seq<Formatting>)
    ensures var (r, ok) := PutAll(st, pieces);
      && (!IsHardError(st.ec) ==> (ok <==> AllBytes(pieces)))
      && (!ok ==> IsHardError(r.ec))
    decreases |pieces|
  {
    if pieces != [] {
      var (next, ok) := Put(st, pieces[0]);
      assert forall i :: 0 < i < |pieces| ==> pieces[i] == pieces[1..][i - 1];
      if ok {
        PutAllOk(next, pieces[1..]);
      }
    }
  }

  /** The printer's invariant survives any run of appends. */
  lemma {:induction false} PutAllConsistent(st: SinkState, pieces: seq<Formatting>)
    requires Consistent(st)
    ensures Consistent(PutAll(st, pieces).0)
    decreases |pieces|
  {
    if pieces != [] {
      var (next, ok) := Put(st, pieces[0]);
      if ok {
        PutAllConsistent(next, pieces[1..]);
      }
    }
  }

  /** tmp_memory_printer over a caller's fixed buffer. `backend` is the integer backend the
      build selected (tmp_print_value), which formatting a value goes through. */
  class MemoryPrinter {
    const backend: Backend
    var data: array<char>
    var size: nat
    var necessary: nat
    var ec: Errc
    /** What the printer holds: the first `size` bytes of its buffer and its counters. */
    ghost var state: SinkState

    ghost predicate Valid()
      reads this, data
    {
      size <= data.Length && state == SinkState(data[..size], necessary, ec, data.Length)
    }

    /** `tmp_memory_printer mem{dest, len}`: writes go to the caller's array. */
    constructor (dest: array<char>, backend: Backend)
      ensures Valid() && data == dest && this.backend == backend
      ensures state == Fresh(dest.Length)
    {
      this.backend := backend;
      data := dest;
      size := 0;
      necessary := 0;
      ec := Ok;
      state := Fresh(dest.Length);
    }

    /** `ec = e`: records an error. */
    method SetError(e: Errc)
      requires Valid()
      modifies this
      ensures Valid() && data == old(data) && state == old(state).(ec := e)
    {
      ec := e;
      state := state.(ec := e);
    }

    /** `printout(first, n)`: appends raw bytes. */
    method Append(s: string) returns (ok: bool)
      requires Valid()
      modifies this, data
      ensures Valid() && data == old(data)
      ensures (state, ok) == Put(old(state), Bytes(s))
    {
      if IsHardError(ec) {
        ok := false;
      } else {
        necessary := necessary + |s|;
        if ec == Ok && size + |s| <= data.Length {
          ghost var d0 := data[..];
          Copy(data, size, s);
          OverwriteExtends(d0, size, s);
          size := size + |s|;
        } else {
          ec := ERange;
        }
        ok := true;
      }
      state := SinkState(data[..size], necessary, ec, data.Length);
    }

    /** `printout(type, arg, format)`: formats a value straight into the free part of the
        buffer, with the free room while the printer is OK and with no room once it is in
        ERANGE, and counts the size the engine reports in `necessary`. A hard error from the
        engine is recorded and ends the append. */
    method AppendValue(value: Value, format: PrintFormat) returns (ok: bool)
      requires Valid()
      modifies this, data
      ensures Valid() && data == old(data)
      ensures (state, ok) == Put(old(state), Formatted(value, format, backend))
    {
      if IsHardError(ec) {
        ok := false;
      } else {
        ghost var piece := Formatted(value, format, backend);
        ghost var d0 := data[..];
        var room := if ec == Ok then data.Length - size else 0;
        var r := Engine.PrintFormatted(data, size, room, format, value, backend);
        if IsHardError(r.ec) {
          ec := r.ec;
          ok := false;
        } else {
          if r.ec == Ok {
            OverwriteExtends(d0, size, piece.text);
            size := size + r.size;
          } else {
            ec := ERange;
          }
          necessary := necessary + r.size;
          ok := true;
        }
      }
      state := SinkState(data[..size], necessary, ec, data.Length);
    }
  }
}
