// tmp_snprint: formats into a caller's fixed buffer, terminates it with NUL and reports
// how long the whole text is, as snprintf does.

module SnPrint {
  import opened PrintTypes
  import opened Sink
  import opened Scanner

  /** What tmp_snprint returns for the printer the scan leaves: the size written on
      success, the size needed on ERANGE, -1 on any other error. */
  function Returned(fin: SinkState): int {
    if fin.ec == Ok then |fin.out|
    else if fin.ec == ERange then fin.necessary
    else -1
  }

  /** A scan on a fresh printer of capacity `capacity`: it completes exactly when it is
      well-formed and every value could be formatted, independently of the capacity; then
      `necessary` is the length of the whole text, which is the output when it fits and
      otherwise ERANGE is left. A scan that does not complete leaves a hard error. */
  lemma FreshScan(capacity: nat, r: Rendering, backend: Backend)
    ensures var pieces := Pieces(r.events, backend);
      var fin := Exec(Fresh(capacity), r, backend);
      && (Completes(Fresh(capacity), r, backend) <==> !r.malformed && AllBytes(pieces))
      && (Completes(Fresh(capacity), r, backend) ==>
            && AllBytes(pieces)
            && fin.necessary == |Joined(pieces)|
            && (fin.ec == Ok <==> |Joined(pieces)| <= capacity)
            && (fin.ec == Ok || fin.ec == ERange)
            && (fin.ec == Ok ==> fin.out == Joined(pieces)))
      && (!Completes(Fresh(capacity), r, backend) ==> IsHardError(fin.ec))
  {
    var pieces := Pieces(r.events, backend);
    PutAllOk(Fresh(capacity), pieces);
    if AllBytes(pieces) {
      PutAllBytes(Fresh(capacity), pieces);
    }
  }

  /** tmp_snprint returns -1 exactly when the scan does not complete, and otherwise the
      length of the whole text, whether or not it fit. */
  lemma ReturnedLength(capacity: nat, r: Rendering, backend: Backend)
    ensures var n := Returned(Exec(Fresh(capacity), r, backend));
      && (n == -1 <==> !Completes(Fresh(capacity), r, backend))
      && (Completes(Fresh(capacity), r, backend) ==>
            AllBytes(Pieces(r.events, backend)) && n == |Joined(Pieces(r.events, backend))|)
  {
    FreshScan(capacity, r, backend);
  }

  /** The snprintf idiom: a call that reports ERANGE with a size `n`, repeated with a buffer
      of at least `n` bytes, succeeds and writes `n` bytes. */
  lemma RetrySucceeds(capacity: nat, larger: nat, r: Rendering, backend: Backend)
    requires Exec(Fresh(capacity), r, backend).ec == ERange
    requires larger >= Returned(Exec(Fresh(capacity), r, backend))
    ensures var fin := Exec(Fresh(larger), r, backend);
      fin.ec == Ok && |fin.out| == Returned(Exec(Fresh(capacity), r, backend))
  {
    FreshScan(capacity, r, backend);
    FreshScan(larger, r, backend);
  }

  /** `tmp_snprint(dest, len, format, …)`, with `len` the length of `dest`. On success
      the text is followed by NUL, and when it fills the buffer exactly its last byte
      is overwritten by NUL. */
  method SnPrint(dest: array<char>, t: string, initial: PrintFormat, args: seq<Arg>, backend: Backend)
    returns (n: int)
    modifies dest
    ensures var fin := Exec(Fresh(dest.Length), Render(t, args, initial), backend);
      && n == Returned(fin)
      && (fin.ec == Ok && |fin.out| < dest.Length ==>
            dest[..|fin.out|] == fin.out && dest[|fin.out|] == '\0')
      && (fin.ec == Ok && |fin.out| == dest.Length > 0 ==>
            dest[..dest.Length - 1] == fin.out[..dest.Length - 1] && dest[dest.Length - 1] == '\0')
  {
    var printer := new MemoryPrinter(dest, backend);
    PrintImpl(t, initial, args, printer);
    ghost var out := dest[..printer.size];
    if printer.ec == Ok {
      if printer.size < dest.Length {
        dest[printer.size] := '\0';
        assert dest[..printer.size] == out;
      } else if dest.Length > 0 {
        dest[dest.Length - 1] := '\0';
        assert dest[..dest.Length - 1] == out[..dest.Length - 1];
      }
      n := printer.size;
    } else if printer.ec == ERange {
      n := printer.necessary;
    } else {
      n := -1;
    }
  }
}
