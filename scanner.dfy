/** The template scanner: tmp_find, tmp_print_string_escaped and tmp_print_impl.
    A template is literal text with `{{` and `}}` escapes and `{...}` placeholders. Its
    meaning is given by Render, the sequence of appends the scanner makes (literal runs and
    formatted arguments) and whether it stops on malformed input, and by Exec, which feeds
    those appends to the printer. The methods walk the template as the source does and are
    proved to leave the printer in the state Exec describes. */
module Scanner {
  import opened PrintTypes
  import opened Scan
  import opened SpecParser
  import opened Decoration
  import opened Sink

  /** tmp_find: the first position in [first, last) that holds `c`. */
  function Find(t: string, first: nat, last: nat, c: char): (r: Option<nat>)
    requires first <= last <= |t|
    ensures r.Some? ==> first <= r.value < last && t[r.value] == c
    decreases last - first
  {
    if first == last then None else if t[first] == c then Some(first) else Find(t, first + 1, last, c)
  }

  /** Find returns the first occurrence: no byte it passed over is `c`. */
  lemma {:induction false} FindFirst(t: string, first: nat, last: nat, c: char)
    requires first <= last <= |t|
    ensures var r := Find(t, first, last, c);
      && (r.Some? ==> forall i :: first <= i < r.value ==> t[i] != c)
      && (r.None? ==> forall i :: first <= i < last ==> t[i] != c)
    decreases last - first
  {
    if first < last && t[first] != c {
      FindFirst(t, first + 1, last, c);
    }
  }

  /** One append the scanner makes: a run of literal bytes, or an argument under a format. */
  datatype Event = Literal(text: string) | Field(value: Value, format: PrintFormat)

  /** The appends of a scan, in order, and whether it ends on malformed input (EINVAL). */
  datatype Rendering = Rendering(events: seq<Event>, malformed: bool)

  /** One scan after another; a malformed first part ends the whole. */
  function Then(a: Rendering, b: Rendering): Rendering {
    if a.malformed then a else Rendering(a.events + b.events, b.malformed)
  }

  /** tmp_print_string_escaped on t[first..last]: each `}` ends a chunk that is appended with
      it; the `}` must be followed by a second one, which is skipped; the text after the
      last `}` is appended as one more chunk. */
  function Escaped(t: string, first: nat, last: nat): Rendering
    requires first <= last <= |t|
    decreases last - first
  {
    match Find(t, first, last, '}')
    case None => Rendering(if first < last then [Literal(t[first..last])] else [], false)
    case Some(q) =>
      var p := q + 1;
      if p >= last || t[p] != '}' then Rendering([Literal(t[first..p])], true)
      else Then(Rendering([Literal(t[first..p])], false), Escaped(t, p + 1, last))
  }

  /** A reference reading of literal text, one character at a time: `}}` stands for `}`, a
      lone `}` is an error, every other character stands for itself. */
  function Unescape(s: string): Option<string>
    decreases |s|
  {
    if s == [] then Some([])
    else if s[0] != '}' then
      match Unescape(s[1..])
      case None => None
      case Some(u) => Some([s[0]] + u)
    else if |s| >= 2 && s[1] == '}' then
      match Unescape(s[2..])
      case None => None
      case Some(u) => Some("}" + u)
    else None
  }

  predicate AllLiterals(evs: seq<Event>) {
    forall i :: 0 <= i < |evs| ==> evs[i].Literal?
  }

  /** The bytes of the literal events, one after the other. */
  function LiteralText(evs: seq<Event>): string
    decreases |evs|
  {
    if evs == [] then [] else (if evs[0].Literal? then evs[0].text else []) + LiteralText(evs[1..])
  }

  /** Text without `}` reads as itself in front of whatever follows. */
  lemma {:induction false} UnescapePlain(x: string, y: string)
    requires forall i :: 0 <= i < |x| ==> x[i] != '}'
    ensures Unescape(x + y) == if Unescape(y).Some? then Some(x + Unescape(y).value) else None
    decreases |x|
  {
    if x != [] {
      assert (x + y)[0] == x[0] && (x + y)[1..] == x[1..] + y;
      UnescapePlain(x[1..], y);
      if Unescape(y).Some? {
        assert [x[0]] + (x[1..] + Unescape(y).value) == x + Unescape(y).value;
      }
    } else {
      assert x + y == y;
      assert Unescape(y).Some? ==> x + Unescape(y).value == Unescape(y).value;
    }
  }

  lemma LiteralTextCons(e: Event, evs: seq<Event>)
    requires e.Literal?
    ensures LiteralText([e] + evs) == e.text + LiteralText(evs)
  {
    assert ([e] + evs)[0] == e && ([e] + evs)[1..] == evs;
  }

  /** tmp_print_string_escaped appends only literal bytes. */
  lemma {:induction false} EscapedLiterals(t: string, first: nat, last: nat)
    requires first <= last <= |t|
    ensures AllLiterals(Escaped(t, first, last).events)
    decreases last - first
  {
    match Find(t, first, last, '}')
    case None =>
    case Some(q) =>
      var p := q + 1;
      if p < last && t[p] == '}' {
        var rest := Escaped(t, p + 1, last);
        EscapedLiterals(t, p + 1, last);
        var evs := Escaped(t, first, last).events;
        if !rest.malformed {
          assert evs == [Literal(t[first..p])] + rest.events;
          forall i | 0 <= i < |evs| ensures evs[i].Literal? {
            if i > 0 { assert evs[i] == rest.events[i - 1]; }
          }
        }
      }
  }

  /** Literal text: tmp_print_string_escaped stops on malformed input exactly when the
      text has a lone `}`, and otherwise appends the text with every `}}` read as `}` and
      every other byte unchanged. */
  lemma {:induction false} EscapedMeaning(t: string, first: nat, last: nat)
    requires first <= last <= |t|
    ensures var r := Escaped(t, first, last);
      && (r.malformed <==> Unescape(t[first..last]).None?)
      && (!r.malformed ==> LiteralText(r.events) == Unescape(t[first..last]).value)
    decreases last - first
  {
    match Find(t, first, last, '}')
    case None =>
      EscapedPlain(t, first, last);
    case Some(q) =>
      if q + 1 < last && t[q + 1] == '}' {
        EscapedMeaning(t, q + 2, last);
        EscapedPair(t, first, q, last);
        UnescapePair(t, first, q, last);
      } else {
        EscapedLone(t, first, q, last);
      }
  }

  /** A chunk ending in a lone `}` reads as an error. */
  lemma EscapedLone(t: string, first: nat, q: nat, last: nat)
    requires first <= q < last <= |t| && Find(t, first, last, '}') == Some(q)
    requires !(q + 1 < last && t[q + 1] == '}')
    ensures Escaped(t, first, last).malformed && Unescape(t[first..last]).None?
  {
    var x, y := t[first..q], t[q..last];
    FindFirst(t, first, last, '}');
    assert t[first..last] == x + y;
    assert forall i :: 0 <= i < |x| ==> x[i] == t[first + i];
    UnescapePlain(x, y);
    assert y[0] == '}' && (|y| >= 2 ==> y[1] == t[q + 1]);
  }

  /** A chunk ending in `}}` reads as the chunk with one `}`, then the rest. */
  lemma UnescapePair(t: string, first: nat, q: nat, last: nat)
    requires first <= q && q + 1 < last <= |t| && Find(t, first, last, '}') == Some(q) && t[q + 1] == '}'
    ensures Unescape(t[first..last]) ==
      if Unescape(t[q + 2..last]).Some? then Some(t[first..q] + "}" + Unescape(t[q + 2..last]).value) else None
  {
    var x, y := t[first..q], t[q..last];
    FindFirst(t, first, last, '}');
    assert t[first..last] == x + y;
    assert forall i :: 0 <= i < |x| ==> x[i] == t[first + i];
    UnescapePlain(x, y);
    assert y[0] == '}' && y[1] == '}' && y[2..] == t[q + 2..last];
    if Unescape(y[2..]).Some? {
      var u := Unescape(y[2..]).value;
      assert Unescape(y) == Some("}" + u);
      assert x + ("}" + u) == x + "}" + u;
    }
  }

  /** A run without `}` is appended whole. */
  lemma EscapedPlain(t: string, first: nat, last: nat)
    requires first <= last <= |t| && Find(t, first, last, '}').None?
    ensures var r := Escaped(t, first, last);
      && Unescape(t[first..last]) == Some(t[first..last])
      && !r.malformed && LiteralText(r.events) == t[first..last]
  {
    var s := t[first..last];
    FindFirst(t, first, last, '}');
    assert forall i :: 0 <= i < |s| ==> s[i] != '}';
    UnescapePlain(s, []);
    assert s + [] == s;
    if first < last {
      LiteralTextCons(Literal(s), []);
      assert s + LiteralText([]) == s;
    }
  }

  /** A chunk ending in `}}`: the chunk with one `}`, then the rest. */
  lemma EscapedPair(t: string, first: nat, q: nat, last: nat)
    requires first <= q && q + 1 < last <= |t| && Find(t, first, last, '}') == Some(q) && t[q + 1] == '}'
    requires var rest := Escaped(t, q + 2, last);
      !rest.malformed ==> Unescape(t[q + 2..last]).Some? && LiteralText(rest.events) == Unescape(t[q + 2..last]).value
    ensures var r, rest := Escaped(t, first, last), Escaped(t, q + 2, last);
      && r.malformed == rest.malformed
      && (!r.malformed ==> LiteralText(r.events) == t[first..q] + "}" + LiteralText(rest.events))
  {
    var rest := Escaped(t, q + 2, last);
    if !rest.malformed {
      var r := Escaped(t, first, last);
      assert r.events == [Literal(t[first..q + 1])] + rest.events;
      assert t[q] == '}';
      assert t[first..q + 1] == t[first..q] + [t[q]];
      LiteralTextCons(Literal(t[first..q + 1]), rest.events);
    }
  }

  /** How a placeholder's text between `{` and `}` is read, given the initial format:
      tmp_parse_format_specifiers, FormatSpecifiers. */
  type Decoder = (string, PrintFormat) -> Specifiers

  /** tmp_print_impl from `formatFirst` on, with `index` the implicit-argument cursor: the
      literal run up to the next `{` (see Escaped), then `{{` as a literal `{`, or a
      placeholder up to the next `}` that resolves to one argument. The closing `}` is
      searched for after the `{`; the source searches from `formatFirst` (see
      CloserAsWritten). A missing `}`, an index past the arguments or an invalid type tag is
      malformed input. An explicit index leaves the cursor where it is. */
  function RenderFrom(t: string, formatFirst: nat, index: nat, args: seq<Arg>, initial: PrintFormat, decode: Decoder): Rendering
    requires formatFirst <= |t|
    decreases |t| - formatFirst, 1
  {
    match Find(t, formatFirst, |t|, '{')
    case None => Escaped(t, formatFirst, |t|)
    case Some(q) => Then(Escaped(t, formatFirst, q), AfterBrace(t, q + 1, index, args, initial, decode))
  }

  /** The scan right after a `{` whose position is `p - 1`. */
  function AfterBrace(t: string, p: nat, index: nat, args: seq<Arg>, initial: PrintFormat, decode: Decoder): Rendering
    requires 0 < p <= |t|
    decreases |t| - p + 1, 0
  {
    if p < |t| && t[p] == '{' then
      Then(Rendering([Literal("{")], false), RenderFrom(t, p + 1, index, args, initial, decode))
    else
      match Find(t, p, |t|, '}')
      case None => Rendering([], true)
      case Some(next) =>
        var spec := decode(t[p..next], initial);
        var current := if spec.index.Some? then spec.index.value else index;
        if current >= |args| || !ValidTag(args[current].tag) then Rendering([], true)
        else
          Then(Rendering([Field(args[current].value, spec.format)], false),
               RenderFrom(t, next + 1, if spec.index.Some? then index else index + 1, args, initial, decode))
  }

  /** What tmp_print_impl makes of a whole template. */
  function Render(t: string, args: seq<Arg>, initial: PrintFormat): Rendering {
    RenderFrom(t, 0, 0, args, initial, FormatSpecifiers)
  }

  /** What the printer is asked to append for an event. */
  function PieceOf(e: Event, backend: Backend): Formatting {
    match e
    case Literal(s) => Bytes(s)
    case Field(v, f) => Formatted(v, f, backend)
  }

  function Pieces(evs: seq<Event>, backend: Backend): (r: seq<Formatting>)
    ensures |r| == |evs| && forall i :: 0 <= i < |evs| ==> r[i] == PieceOf(evs[i], backend)
  {
    seq(|evs|, i requires 0 <= i < |evs| => PieceOf(evs[i], backend))
  }

  /** The printer after a scan: the appends in order, stopping at the first that fails; a
      malformed template whose appends all went through then sets EINVAL. */
  function Exec(st: SinkState, r: Rendering, backend: Backend): SinkState {
    var (s, ok) := PutAll(st, Pieces(r.events, backend));
    if ok && r.malformed then s.(ec := EInval) else s
  }

  /** Whether a scan runs to its end without anything stopping it. */
  predicate Completes(st: SinkState, r: Rendering, backend: Backend) {
    PutAll(st, Pieces(r.events, backend)).1 && !r.malformed
  }

  /** Running two scans one after another is running the first and, unless it stopped,
      the second on the printer it left. */
  lemma ExecThen(st: SinkState, a: Rendering, b: Rendering, backend: Backend)
    ensures var (s, ok) := PutAll(st, Pieces(a.events, backend));
      && Exec(st, Then(a, b), backend) == (if ok && !a.malformed then Exec(s, b, backend) else Exec(st, a, backend))
      && (Completes(st, Then(a, b), backend) <==> Completes(st, a, backend) && Completes(s, b, backend))
  {
    if !a.malformed {
      assert Pieces(a.events + b.events, backend) == Pieces(a.events, backend) + Pieces(b.events, backend);
      PutAllAppend(st, Pieces(a.events, backend), Pieces(b.events, backend));
    }
  }

  /** A scan of one append. */
  lemma ExecOne(st: SinkState, e: Event, malformed: bool, backend: Backend)
    ensures PutAll(st, Pieces([e], backend)) == Put(st, PieceOf(e, backend))
    ensures var (s, ok) := Put(st, PieceOf(e, backend));
      && Exec(st, Rendering([e], malformed), backend) == (if ok && malformed then s.(ec := EInval) else s)
      && (Completes(st, Rendering([e], malformed), backend) <==> ok && !malformed)
  {
    var x := PieceOf(e, backend);
    assert Pieces([e], backend) == [x];
    assert [x][1..] == [];
    var (s, ok) := Put(st, x);
    assert PutAll(st, [x]) == (s, ok) by {
      if ok { assert PutAll(s, []) == (s, true); }
    }
  }

  /** One chunk of literal text up to and including a `}`: a failed append stops the scan,
      a lone `}` then stops it with EINVAL, and `}}` goes on after the pair. */
  lemma EscapedStep(st: SinkState, t: string, from: nat, q: nat, last: nat, backend: Backend)
    requires from <= q < last <= |t| && Find(t, from, last, '}') == Some(q)
    ensures var (s, ok) := Put(st, Bytes(t[from..q + 1]));
      var r := Escaped(t, from, last);
      var pair := q + 1 < last && t[q + 1] == '}';
      && (!ok ==> Exec(st, r, backend) == s && !Completes(st, r, backend))
      && (ok && !pair ==> Exec(st, r, backend) == s.(ec := EInval) && !Completes(st, r, backend))
      && (ok && pair ==> Exec(st, r, backend) == Exec(s, Escaped(t, q + 2, last), backend)
                         && Completes(st, r, backend) == Completes(s, Escaped(t, q + 2, last), backend))
  {
    var p := q + 1;
    var chunk := Literal(t[from..p]);
    if p < last && t[p] == '}' {
      ExecOne(st, chunk, false, backend);
      ExecThen(st, Rendering([chunk], false), Escaped(t, p + 1, last), backend);
    } else {
      ExecOne(st, chunk, true, backend);
    }
  }

  /** The literal text after the last `}`: one append, or nothing when it is empty. */
  lemma EscapedTail(st: SinkState, t: string, from: nat, last: nat, backend: Backend)
    requires from <= last <= |t| && Find(t, from, last, '}').None?
    ensures var r := Escaped(t, from, last);
      && (from < last ==> (Exec(st, r, backend), Completes(st, r, backend)) == Put(st, Bytes(t[from..last])))
      && (from == last ==> Exec(st, r, backend) == st && Completes(st, r, backend))
  {
    if from < last {
      ExecOne(st, Literal(t[from..last]), false, backend);
    } else {
      assert Pieces([], backend) == [];
    }
  }

  /** The appends tmp_print_string_escaped makes, chunk by chunk, on the printer's state,
      and whether it ran to the end. */
  function EscapedRun(st: SinkState, t: string, from: nat, last: nat): (SinkState, bool)
    requires from <= last <= |t|
    decreases last - from
  {
    match Find(t, from, last, '}')
    case None => if from < last then Put(st, Bytes(t[from..last])) else (st, true)
    case Some(q) =>
      var (s, ok) := Put(st, Bytes(t[from..q + 1]));
      if !ok then (s, false)
      else if q + 1 >= last || t[q + 1] != '}' then (s.(ec := EInval), false)
      else EscapedRun(s, t, q + 2, last)
  }

  /** Chunk by chunk is what Exec of Escaped says. */
  lemma {:induction false} EscapedRunExec(st: SinkState, t: string, from: nat, last: nat, backend: Backend)
    requires from <= last <= |t|
    ensures EscapedRun(st, t, from, last)
         == (Exec(st, Escaped(t, from, last), backend), Completes(st, Escaped(t, from, last), backend))
    decreases last - from
  {
    match Find(t, from, last, '}')
    case None =>
      EscapedRunTail(st, t, from, last, backend);
    case Some(q) =>
      var (s, ok) := Put(st, Bytes(t[from..q + 1]));
      if ok && q + 1 < last && t[q + 1] == '}' {
        EscapedRunExec(s, t, q + 2, last, backend);
      }
      EscapedRunChunk(st, t, from, q, last, backend);
  }

  lemma EscapedRunTail(st: SinkState, t: string, from: nat, last: nat, backend: Backend)
    requires from <= last <= |t| && Find(t, from, last, '}').None?
    ensures EscapedRun(st, t, from, last)
         == (Exec(st, Escaped(t, from, last), backend), Completes(st, Escaped(t, from, last), backend))
  {
    EscapedTail(st, t, from, last, backend);
  }

  lemma EscapedRunChunk(st: SinkState, t: string, from: nat, q: nat, last: nat, backend: Backend)
    requires from <= q < last <= |t| && Find(t, from, last, '}') == Some(q)
    requires var (s, ok) := Put(st, Bytes(t[from..q + 1]));
      ok && q + 1 < last && t[q + 1] == '}' ==>
        EscapedRun(s, t, q + 2, last)
        == (Exec(s, Escaped(t, q + 2, last), backend), Completes(s, Escaped(t, q + 2, last), backend))
    ensures EscapedRun(st, t, from, last)
         == (Exec(st, Escaped(t, from, last), backend), Completes(st, Escaped(t, from, last), backend))
  {
    EscapedRunOpen(st, t, from, q, last);
    EscapedStep(st, t, from, q, last, backend);
  }

  /** EscapedRun at a `}`: the chunk through it, then EINVAL if it is lone, else the rest. */
  lemma EscapedRunOpen(st: SinkState, t: string, from: nat, q: nat, last: nat)
    requires from <= last <= |t| && Find(t, from, last, '}') == Some(q)
    ensures var (s, ok) := Put(st, Bytes(t[from..q + 1]));
      EscapedRun(st, t, from, last)
      == if !ok then (s, false)
         else if q + 1 >= last || t[q + 1] != '}' then (s.(ec := EInval), false)
         else EscapedRun(s, t, q + 2, last)
  {
  }

  /** EscapedRun with no `}` left: the rest in one piece. */
  lemma EscapedRunEnd(st: SinkState, t: string, from: nat, last: nat)
    requires from <= last <= |t| && Find(t, from, last, '}').None?
    ensures EscapedRun(st, t, from, last)
         == if from < last then Put(st, Bytes(t[from..last])) else (st, true)
  {
  }

  /** One round of tmp_print_string_escaped's loop, at the `}` at `q`: the chunk through it,
      then EINVAL if it is lone. Reports whether the loop goes on. */
  method PrintChunk(t: string, from: nat, q: nat, last: nat, printer: MemoryPrinter) returns (ok: bool)
    requires from <= last <= |t| && Find(t, from, last, '}') == Some(q) && printer.Valid()
    modifies printer, printer.data
    ensures printer.Valid() && printer.data == old(printer.data)
    ensures ok ==> q + 2 <= last
    ensures EscapedRun(old(printer.state), t, from, last)
         == if ok then EscapedRun(printer.state, t, q + 2, last) else (printer.state, false)
  {
    EscapedRunOpen(printer.state, t, from, q, last);
    var p := q + 1;
    ok := printer.Append(t[from..p]);
    if !ok {
      return;
    }
    if p >= last || t[p] != '}' {
      printer.SetError(EInval);
      ok := false;
    }
  }

  /** tmp_print_string_escaped: appends t[first..last] chunk by chunk, setting EINVAL on a
      lone `}`, and reports whether it ran to the end; by EscapedRunExec this is Exec of
      Escaped. */
  method PrintStringEscaped(t: string, first: nat, last: nat, printer: MemoryPrinter) returns (ok: bool)
    requires first <= last <= |t| && printer.Valid()
    modifies printer, printer.data
    ensures printer.Valid() && printer.data == old(printer.data)
    ensures (printer.state, ok) == EscapedRun(old(printer.state), t, first, last)
  {
    ghost var st0 := printer.state;
    ghost var goal := EscapedRun(st0, t, first, last);
    var from := first;
    while true
      invariant first <= from <= last
      invariant printer.Valid() && printer.data == old(printer.data)
      invariant EscapedRun(printer.state, t, from, last) == goal
      decreases last - from
    {
      var found := Find(t, from, last, '}');
      if found.None? {
        break;
      }
      ok := PrintChunk(t, from, found.value, last, printer);
      if !ok {
        return;
      }
      from := found.value + 2;
    }
    EscapedRunEnd(printer.state, t, from, last);
    if from < last {
      ok := printer.Append(t[from..last]);
    } else {
      ok := true;
    }
  }

  /** The appends tmp_print_impl makes from `formatFirst` on, on the printer's state, one
      literal run, `{{` or placeholder at a time. */
  function ImplRun(st: SinkState, t: string, formatFirst: nat, index: nat, args: seq<Arg>,
                   initial: PrintFormat, backend: Backend, decode: Decoder): SinkState
    requires formatFirst <= |t|
    decreases |t| - formatFirst, 1
  {
    match Find(t, formatFirst, |t|, '{')
    case None => EscapedRun(st, t, formatFirst, |t|).0
    case Some(q) =>
      var (s, ok) := EscapedRun(st, t, formatFirst, q);
      if ok then AfterBraceRun(s, t, q + 1, index, args, initial, backend, decode) else s
  }

  /** The appends right after a `{` whose position is `p - 1`. */
  function AfterBraceRun(st: SinkState, t: string, p: nat, index: nat, args: seq<Arg>,
                         initial: PrintFormat, backend: Backend, decode: Decoder): SinkState
    requires 0 < p <= |t|
    decreases |t| - p + 1, 0
  {
    if p < |t| && t[p] == '{' then
      var (s, ok) := Put(st, Bytes("{"));
      if ok then ImplRun(s, t, p + 1, index, args, initial, backend, decode) else s
    else
      match Find(t, p, |t|, '}')
      case None => st.(ec := EInval)
      case Some(next) =>
        var spec := decode(t[p..next], initial);
        var current := if spec.index.Some? then spec.index.value else index;
        if current >= |args| || !ValidTag(args[current].tag) then st.(ec := EInval)
        else
          var (s, ok) := Put(st, Formatted(args[current].value, spec.format, backend));
          var nextIndex := if spec.index.Some? then index else index + 1;
          if ok then ImplRun(s, t, next + 1, nextIndex, args, initial, backend, decode) else s
  }

  /** Appending one run at a time is what Exec of RenderFrom says. */
  lemma {:induction false} ImplRunExec(st: SinkState, t: string, formatFirst: nat, index: nat, args: seq<Arg>,
                                       initial: PrintFormat, backend: Backend, decode: Decoder)
    requires formatFirst <= |t|
    ensures ImplRun(st, t, formatFirst, index, args, initial, backend, decode)
         == Exec(st, RenderFrom(t, formatFirst, index, args, initial, decode), backend)
    decreases |t| - formatFirst, 1
  {
    match Find(t, formatFirst, |t|, '{')
    case None =>
      ImplRunEnd(st, t, formatFirst, index, args, initial, backend, decode);
      EscapedRunExec(st, t, formatFirst, |t|, backend);
    case Some(q) =>
      ImplRunOpen(st, t, formatFirst, q, index, args, initial, backend, decode);
      EscapedRunExec(st, t, formatFirst, q, backend);
      var (s, ok) := EscapedRun(st, t, formatFirst, q);
      if ok {
        AfterBraceRunExec(s, t, q + 1, index, args, initial, backend, decode);
      }
      ImplRunStep(st, t, formatFirst, q, index, args, initial, backend, decode);
  }

  lemma {:induction false} AfterBraceRunExec(st: SinkState, t: string, p: nat, index: nat, args: seq<Arg>,
                                             initial: PrintFormat, backend: Backend, decode: Decoder)
    requires 0 < p <= |t|
    ensures AfterBraceRun(st, t, p, index, args, initial, backend, decode)
         == Exec(st, AfterBrace(t, p, index, args, initial, decode), backend)
    decreases |t| - p + 1, 0
  {
    if p < |t| && t[p] == '{' {
      AfterBraceRunBrace(st, t, p, index, args, initial, backend, decode);
      var (s, ok) := Put(st, Bytes("{"));
      if ok {
        ImplRunExec(s, t, p + 1, index, args, initial, backend, decode);
      }
      BraceStep(st, t, p, index, args, initial, backend, decode);
    } else {
      match Find(t, p, |t|, '}')
      case None =>
        MalformedStop(st, backend);
      case Some(next) =>
        var spec := decode(t[p..next], initial);
        var current := if spec.index.Some? then spec.index.value else index;
        if current >= |args| || !ValidTag(args[current].tag) {
          MalformedStop(st, backend);
        } else {
          var nextIndex := if spec.index.Some? then index else index + 1;
          var r := Put(st, Formatted(args[current].value, spec.format, backend));
          if r.1 {
            ImplRunExec(r.0, t, next + 1, nextIndex, args, initial, backend, decode);
          }
          FieldStep(st, t, p, next, index, args, initial, backend, spec.format, current, nextIndex, r.0, r.1, decode);
        }
    }
  }

  /** A literal run, then what follows its `{`. */
  lemma ImplRunStep(st: SinkState, t: string, formatFirst: nat, q: nat, index: nat, args: seq<Arg>,
                    initial: PrintFormat, backend: Backend, decode: Decoder)
    requires formatFirst <= q < |t| && Find(t, formatFirst, |t|, '{') == Some(q)
    requires EscapedRun(st, t, formatFirst, q)
          == (Exec(st, Escaped(t, formatFirst, q), backend), Completes(st, Escaped(t, formatFirst, q), backend))
    requires var (s, ok) := EscapedRun(st, t, formatFirst, q);
      ok ==> AfterBraceRun(s, t, q + 1, index, args, initial, backend, decode)
             == Exec(s, AfterBrace(t, q + 1, index, args, initial, decode), backend)
    ensures ImplRun(st, t, formatFirst, index, args, initial, backend, decode)
         == Exec(st, RenderFrom(t, formatFirst, index, args, initial, decode), backend)
  {
    ExecThen(st, Escaped(t, formatFirst, q), AfterBrace(t, q + 1, index, args, initial, decode), backend);
  }

  /** `{{`: a literal `{`, then the rest. */
  lemma BraceStep(st: SinkState, t: string, p: nat, index: nat, args: seq<Arg>,
                  initial: PrintFormat, backend: Backend, decode: Decoder)
    requires 0 < p < |t| && t[p] == '{'
    requires var (s, ok) := Put(st, Bytes("{"));
      ok ==> ImplRun(s, t, p + 1, index, args, initial, backend, decode)
             == Exec(s, RenderFrom(t, p + 1, index, args, initial, decode), backend)
    ensures AfterBraceRun(st, t, p, index, args, initial, backend, decode)
         == Exec(st, AfterBrace(t, p, index, args, initial, decode), backend)
  {
    ExecOne(st, Literal("{"), false, backend);
    ExecThen(st, Rendering([Literal("{")], false), RenderFrom(t, p + 1, index, args, initial, decode), backend);
  }

  /** A placeholder that resolves to an argument: its formatting, then the rest. */
  lemma FieldStep(st: SinkState, t: string, p: nat, next: nat, index: nat, args: seq<Arg>,
                  initial: PrintFormat, backend: Backend,
                  format: PrintFormat, current: nat, nextIndex: nat, s: SinkState, ok: bool, decode: Decoder)
    requires 0 < p <= next < |t| && t[p] != '{' && Find(t, p, |t|, '}') == Some(next)
    requires var spec := decode(t[p..next], initial);
      && format == spec.format
      && current == (if spec.index.Some? then spec.index.value else index)
      && nextIndex == (if spec.index.Some? then index else index + 1)
    requires current < |args| && ValidTag(args[current].tag)
    requires (s, ok) == Put(st, Formatted(args[current].value, format, backend))
    requires ok ==> ImplRun(s, t, next + 1, nextIndex, args, initial, backend, decode)
                    == Exec(s, RenderFrom(t, next + 1, nextIndex, args, initial, decode), backend)
    ensures AfterBraceRun(st, t, p, index, args, initial, backend, decode)
         == Exec(st, AfterBrace(t, p, index, args, initial, decode), backend)
  {
    var field := Field(args[current].value, format);
    assert PieceOf(field, backend) == Formatted(args[current].value, format, backend);
    ExecOne(st, field, false, backend);
    ExecThen(st, Rendering([field], false), RenderFrom(t, next + 1, nextIndex, args, initial, decode), backend);
  }

  /** Malformed input with nothing appended: EINVAL. */
  lemma MalformedStop(st: SinkState, backend: Backend)
    ensures Exec(st, Rendering([], true), backend) == st.(ec := EInval)
  {
    assert Pieces([], backend) == [];
  }

  /** ImplRun at a `{`: the literal run before it, then what follows it. */
  lemma ImplRunOpen(st: SinkState, t: string, formatFirst: nat, q: nat, index: nat, args: seq<Arg>,
                    initial: PrintFormat, backend: Backend, decode: Decoder)
    requires formatFirst <= |t| && Find(t, formatFirst, |t|, '{') == Some(q)
    ensures var r := EscapedRun(st, t, formatFirst, q);
      ImplRun(st, t, formatFirst, index, args, initial, backend, decode)
      == if r.1 then AfterBraceRun(r.0, t, q + 1, index, args, initial, backend, decode) else r.0
  {
  }

  /** ImplRun with no `{` left: the literal rest. */
  lemma ImplRunEnd(st: SinkState, t: string, formatFirst: nat, index: nat, args: seq<Arg>,
                   initial: PrintFormat, backend: Backend, decode: Decoder)
    requires formatFirst <= |t| && Find(t, formatFirst, |t|, '{').None?
    ensures ImplRun(st, t, formatFirst, index, args, initial, backend, decode)
         == EscapedRun(st, t, formatFirst, |t|).0
    ensures formatFirst == |t| ==> EscapedRun(st, t, formatFirst, |t|).0 == st
  {
  }

  /** AfterBraceRun at `{{`. */
  lemma AfterBraceRunBrace(st: SinkState, t: string, p: nat, index: nat, args: seq<Arg>,
                           initial: PrintFormat, backend: Backend, decode: Decoder)
    requires 0 < p < |t| && t[p] == '{'
    ensures var r := Put(st, Bytes("{"));
      AfterBraceRun(st, t, p, index, args, initial, backend, decode)
      == if r.1 then ImplRun(r.0, t, p + 1, index, args, initial, backend, decode) else r.0
  {
  }

  /** AfterBraceRun at a placeholder: EINVAL without a `}`, with an index past the arguments
      or with an invalid tag, and otherwise the argument's formatting, then the rest. */
  lemma AfterBraceRunPlaceholder(st: SinkState, t: string, p: nat, index: nat, args: seq<Arg>,
                                 initial: PrintFormat, backend: Backend, decode: Decoder)
    requires 0 < p <= |t| && !(p < |t| && t[p] == '{')
    ensures Find(t, p, |t|, '}').None? ==>
      AfterBraceRun(st, t, p, index, args, initial, backend, decode) == st.(ec := EInval)
    ensures Find(t, p, |t|, '}').Some? ==>
      var next := Find(t, p, |t|, '}').value;
      var spec := decode(t[p..next], initial);
      var current := if spec.index.Some? then spec.index.value else index;
      var nextIndex := if spec.index.Some? then index else index + 1;
      AfterBraceRun(st, t, p, index, args, initial, backend, decode)
      == if current >= |args| || !ValidTag(args[current].tag) then st.(ec := EInval)
         else
           var r := Put(st, Formatted(args[current].value, spec.format, backend));
           if r.1 then ImplRun(r.0, t, next + 1, nextIndex, args, initial, backend, decode) else r.0
  {
  }

  /** The part of tmp_print_impl after a `{` that does not start `{{`: finds the `}`, reads
      the placeholder and appends its argument; EINVAL on malformed input. Reports whether
      the scan goes on, and from where. */
  method PrintPlaceholder(t: string, p: nat, index: nat, args: seq<Arg>, initial: PrintFormat,
                          printer: MemoryPrinter)
    returns (ok: bool, formatFirst: nat, nextIndex: nat)
    requires 0 < p <= |t| && !(p < |t| && t[p] == '{') && printer.Valid()
    modifies printer, printer.data
    ensures printer.Valid() && printer.data == old(printer.data)
    ensures ok ==> p < formatFirst <= |t|
    ensures AfterBraceRun(old(printer.state), t, p, index, args, initial, printer.backend, FormatSpecifiers)
         == if ok then ImplRun(printer.state, t, formatFirst, nextIndex, args, initial, printer.backend, FormatSpecifiers)
            else printer.state
  {
    AfterBraceRunPlaceholder(printer.state, t, p, index, args, initial, printer.backend, FormatSpecifiers);
    formatFirst, nextIndex := 0, 0;
    // Parse until `}`.
    var close := Find(t, p, |t|, '}');
    if close.None? {
      printer.SetError(EInval);
      return false, formatFirst, nextIndex;
    }
    var next := close.value;
    var format, indexSpecified, current := ParseFormatSpecifiers(t[p..next], initial, index);
    nextIndex := if indexSpecified then index else index + 1;
    if current >= |args| {
      printer.SetError(EInval);
      return false, formatFirst, nextIndex;
    }
    var tag := args[current].tag;
    formatFirst := next + 1;
    if !ValidTag(tag) {
      printer.SetError(EInval);
      return false, formatFirst, nextIndex;
    }
    ok := printer.AppendValue(args[current].value, format);
  }

  /** One round of tmp_print_impl's loop, at the `{` at `open`: the literal run before it,
      then `{{` or a placeholder. Reports whether the scan goes on, and from where. */
  method PrintNext(t: string, formatFirst: nat, open: nat, index: nat, args: seq<Arg>,
                   initial: PrintFormat, printer: MemoryPrinter)
    returns (ok: bool, formatFirst': nat, index': nat)
    requires formatFirst <= |t| && Find(t, formatFirst, |t|, '{') == Some(open) && printer.Valid()
    modifies printer, printer.data
    ensures printer.Valid() && printer.data == old(printer.data)
    ensures ok ==> formatFirst < formatFirst' <= |t|
    ensures ImplRun(old(printer.state), t, formatFirst, index, args, initial, printer.backend, FormatSpecifiers)
         == if ok then ImplRun(printer.state, t, formatFirst', index', args, initial, printer.backend, FormatSpecifiers)
            else printer.state
  {
    formatFirst', index' := formatFirst, index;
    ImplRunOpen(printer.state, t, formatFirst, open, index, args, initial, printer.backend, FormatSpecifiers);
    ok := PrintStringEscaped(t, formatFirst, open, printer);
    if !ok {
      return;
    }
    var p := open + 1;
    if p < |t| && t[p] == '{' {
      // `{{`: a literal `{`.
      AfterBraceRunBrace(printer.state, t, p, index, args, initial, printer.backend, FormatSpecifiers);
      ok := printer.Append("{");
      formatFirst' := p + 1;
      return;
    }
    ok, formatFirst', index' := PrintPlaceholder(t, p, index, args, initial, printer);
  }

  /** tmp_print_impl: scans the template, appending literal runs, `{{` as `{` and each
      placeholder's argument, and sets EINVAL on malformed input; the printer ends as Exec
      of Render says. */
  method PrintImpl(t: string, initial: PrintFormat, args: seq<Arg>, printer: MemoryPrinter)
    requires printer.Valid()
    modifies printer, printer.data
    ensures printer.Valid() && printer.data == old(printer.data)
    ensures printer.state == Exec(old(printer.state), Render(t, args, initial), printer.backend)
  {
    ghost var st0, backend := printer.state, printer.backend;
    ghost var goal := ImplRun(st0, t, 0, 0, args, initial, backend, FormatSpecifiers);
    ImplRunExec(st0, t, 0, 0, args, initial, backend, FormatSpecifiers);
    assert goal == Exec(st0, Render(t, args, initial), backend);
    var formatFirst := 0;
    var index := 0;
    while true
      invariant formatFirst <= |t|
      invariant printer.Valid() && printer.data == old(printer.data)
      invariant ImplRun(printer.state, t, formatFirst, index, args, initial, backend, FormatSpecifiers) == goal
      decreases |t| - formatFirst
    {
      var open := Find(t, formatFirst, |t|, '{');
      if open.None? {
        break;
      }
      var ok;
      ok, formatFirst, index := PrintNext(t, formatFirst, open.value, index, args, initial, printer);
      if !ok {
        return;
      }
    }
    ImplRunEnd(printer.state, t, formatFirst, index, args, initial, backend, FormatSpecifiers);
    if formatFirst < |t| {
      var _ := PrintStringEscaped(t, formatFirst, |t|, printer);
    }
  }

  // ---------------------------------------------------------------------------------------
  // The closing brace

  /** The source's search for a placeholder's `}` (line 361): it starts at `formatFirst`,
      the start of the literal run before the `{`, not at `p`, just after the `{`. */
  function CloserAsWritten(t: string, formatFirst: nat, p: nat): Option<nat>
    requires formatFirst < p <= |t|
  {
    Find(t, formatFirst, |t|, '}')
  }

  /** A search that skips positions without `c` finds what a search from after them finds. */
  lemma {:induction false} FindSkips(t: string, a: nat, b: nat, c: char)
    requires a <= b <= |t|
    requires forall i :: a <= i < b ==> t[i] != c
    ensures Find(t, a, |t|, c) == Find(t, b, |t|, c)
    decreases b - a
  {
    if a < b {
      FindSkips(t, a + 1, b, c);
    }
  }

  /** The search as written finds the placeholder's own `}` exactly when the literal run
      before the `{` holds no `}`; otherwise it returns a `}` of an earlier `}}` escape. */
  lemma CloserAgrees(t: string, formatFirst: nat, q: nat)
    requires formatFirst <= |t| && Find(t, formatFirst, |t|, '{') == Some(q)
    ensures CloserAsWritten(t, formatFirst, q + 1) == Find(t, q + 1, |t|, '}')
        <==> forall i :: formatFirst <= i < q ==> t[i] != '}'
    ensures (exists i :: formatFirst <= i < q && t[i] == '}') ==>
        CloserAsWritten(t, formatFirst, q + 1).Some? && CloserAsWritten(t, formatFirst, q + 1).value < q
  {
    FindFirst(t, formatFirst, |t|, '{');
    FindFirst(t, formatFirst, |t|, '}');
    if forall i :: formatFirst <= i < q ==> t[i] != '}' {
      FindSkips(t, formatFirst, q + 1, '}');
    } else {
      var i :| formatFirst <= i < q && t[i] == '}';
      var r := Find(t, q + 1, |t|, '}');
      assert r.Some? ==> r.value > q;
    }
  }

  /** In `a}}{}` the literal run `a}}` is well formed, yet the search as written takes the
      `}` at position 1, before the `{` at position 3, as the placeholder's closer; the
      search from after the `{` finds position 4. */
  lemma CloserAsWrittenExample()
    ensures var t := "a}}{}";
      && !Escaped(t, 0, 3).malformed
      && Find(t, 0, |t|, '{') == Some(3)
      && CloserAsWritten(t, 0, 4) == Some(1)
      && Find(t, 4, |t|, '}') == Some(4)
  {
    var t := "a}}{}";
    assert t[0] == 'a' && t[1] == '}' && t[2] == '}' && t[3] == '{' && t[4] == '}';
    assert Find(t, 1, 3, '}') == Some(1);
    assert Find(t, 0, 3, '}') == Some(1);
    assert Find(t, 3, 3, '}') == None;
    assert Escaped(t, 3, 3) == Rendering([], false);
    assert Find(t, 3, |t|, '{') == Some(3);
    assert Find(t, 2, |t|, '{') == Some(3);
    assert Find(t, 1, |t|, '{') == Some(3);
    assert Find(t, 1, |t|, '}') == Some(1);
  }

  /** With the search starting after the `{`, `a}}{}` reads as the literal `a}` followed by
      the first argument, as the escape rules mean it to. */
  lemma CloserCorrectedExample(v: Value, initial: PrintFormat)
    ensures Render("a}}{}", [Arg(1, v)], initial) == Rendering([Literal("a}"), Field(v, initial)], false)
  {
    var t, args := "a}}{}", [Arg(1, v)];
    CloserAsWrittenExample();
    assert t[0..2] == "a}";
    assert Find(t, 3, 3, '}') == None;
    assert Escaped(t, 0, 3) == Rendering([Literal("a}")], false);
    assert t[4..4] == [];
    assert FormatSpecifiers([], initial) == Specifiers(initial, None);
    assert Find(t, 5, |t|, '{') == None;
    assert RenderFrom(t, 5, 1, args, initial, FormatSpecifiers) == Rendering([], false);
    assert AfterBrace(t, 4, 0, args, initial, FormatSpecifiers) == Rendering([Field(v, initial)], false);
  }

  // ---------------------------------------------------------------------------------------
  // Arguments

  /** Every argument a rendering formats is one of `args` with a valid type tag. */
  predicate FieldsFrom(evs: seq<Event>, args: seq<Arg>) {
    forall k :: 0 <= k < |evs| && evs[k].Field? ==>
      exists i :: 0 <= i < |args| && ValidTag(args[i].tag) && evs[k].value == args[i].value
  }

  lemma ThenFields(a: Rendering, b: Rendering, args: seq<Arg>)
    requires FieldsFrom(a.events, args) && FieldsFrom(b.events, args)
    ensures FieldsFrom(Then(a, b).events, args)
  {
    if !a.malformed {
      var evs := a.events + b.events;
      forall k | 0 <= k < |evs| && evs[k].Field?
        ensures exists i :: 0 <= i < |args| && ValidTag(args[i].tag) && evs[k].value == args[i].value
      {
        if k < |a.events| { assert evs[k] == a.events[k]; } else { assert evs[k] == b.events[k - |a.events|]; }
      }
    }
  }

  lemma LiteralsNoFields(evs: seq<Event>, args: seq<Arg>)
    requires AllLiterals(evs)
    ensures FieldsFrom(evs, args)
  {
  }

  /** Placeholder resolution: an argument is formatted only when its index is below the
      number of arguments and its type tag is valid. */
  lemma {:induction false} RenderFromFields(t: string, formatFirst: nat, index: nat, args: seq<Arg>, initial: PrintFormat, decode: Decoder)
    requires formatFirst <= |t|
    ensures FieldsFrom(RenderFrom(t, formatFirst, index, args, initial, decode).events, args)
    decreases |t| - formatFirst, 1
  {
    match Find(t, formatFirst, |t|, '{')
    case None =>
      EscapedLiterals(t, formatFirst, |t|);
      LiteralsNoFields(Escaped(t, formatFirst, |t|).events, args);
    case Some(q) =>
      EscapedLiterals(t, formatFirst, q);
      LiteralsNoFields(Escaped(t, formatFirst, q).events, args);
      AfterBraceFields(t, q + 1, index, args, initial, decode);
      ThenFields(Escaped(t, formatFirst, q), AfterBrace(t, q + 1, index, args, initial, decode), args);
  }

  lemma {:induction false} AfterBraceFields(t: string, p: nat, index: nat, args: seq<Arg>, initial: PrintFormat, decode: Decoder)
    requires 0 < p <= |t|
    ensures FieldsFrom(AfterBrace(t, p, index, args, initial, decode).events, args)
    decreases |t| - p + 1, 0
  {
    if p < |t| && t[p] == '{' {
      RenderFromFields(t, p + 1, index, args, initial, decode);
      ThenFields(Rendering([Literal("{")], false), RenderFrom(t, p + 1, index, args, initial, decode), args);
    } else {
      match Find(t, p, |t|, '}')
      case None =>
      case Some(next) =>
        var spec := decode(t[p..next], initial);
        var current := if spec.index.Some? then spec.index.value else index;
        if current < |args| && ValidTag(args[current].tag) {
          var nextIndex := if spec.index.Some? then index else index + 1;
          var field := Rendering([Field(args[current].value, spec.format)], false);
          RenderFromFields(t, next + 1, nextIndex, args, initial, decode);
          assert FieldsFrom(field.events, args) by {
            assert field.events[0].value == args[current].value;
          }
          ThenFields(field, RenderFrom(t, next + 1, nextIndex, args, initial, decode), args);
          assert AfterBrace(t, p, index, args, initial, decode)
              == Then(field, RenderFrom(t, next + 1, nextIndex, args, initial, decode));
        }
    }
  }

  lemma RenderFields(t: string, args: seq<Arg>, initial: PrintFormat)
    ensures FieldsFrom(Render(t, args, initial).events, args)
  {
    RenderFromFields(t, 0, 0, args, initial, FormatSpecifiers);
  }

  // ---------------------------------------------------------------------------------------
  // Placeholder resolution

  /** What a template says before any argument is chosen: appends fixed by the text, and
      placeholders as their read specifiers. */
  datatype Piece = Known(event: Event) | Slot(spec: Specifiers)

  datatype Skeleton = Skeleton(pieces: seq<Piece>, malformed: bool)

  function SkThen(a: Skeleton, b: Skeleton): Skeleton {
    if a.malformed then a else Skeleton(a.pieces + b.pieces, b.malformed)
  }

  function FixedPieces(evs: seq<Event>): seq<Piece>
    decreases |evs|
  {
    if evs == [] then [] else [Known(evs[0])] + FixedPieces(evs[1..])
  }

  function FixedSkeleton(r: Rendering): Skeleton {
    Skeleton(FixedPieces(r.events), r.malformed)
  }

  /** The template's skeleton from `formatFirst` on, scanned as RenderFrom scans it. */
  function SkeletonFrom(t: string, formatFirst: nat, initial: PrintFormat, decode: Decoder): Skeleton
    requires formatFirst <= |t|
    decreases |t| - formatFirst, 1
  {
    match Find(t, formatFirst, |t|, '{')
    case None => FixedSkeleton(Escaped(t, formatFirst, |t|))
    case Some(q) => SkThen(FixedSkeleton(Escaped(t, formatFirst, q)), SkeletonAfterBrace(t, q + 1, initial, decode))
  }

  function SkeletonAfterBrace(t: string, p: nat, initial: PrintFormat, decode: Decoder): Skeleton
    requires 0 < p <= |t|
    decreases |t| - p + 1, 0
  {
    if p < |t| && t[p] == '{' then
      SkThen(Skeleton([Known(Literal("{"))], false), SkeletonFrom(t, p + 1, initial, decode))
    else
      match Find(t, p, |t|, '}')
      case None => Skeleton([], true)
      case Some(next) => SkThen(Skeleton([Slot(decode(t[p..next], initial))], false), SkeletonFrom(t, next + 1, initial, decode))
  }

  /** How many placeholders take the next implicit argument. */
  function ImplicitCount(pieces: seq<Piece>): nat
    decreases |pieces|
  {
    if pieces == [] then 0
    else (if pieces[0].Slot? && pieces[0].spec.index.None? then 1 else 0) + ImplicitCount(pieces[1..])
  }

  /** The argument placeholder `k` selects: its explicit index, else the cursor advanced by
      the implicit placeholders before it. */
  function Target(pieces: seq<Piece>, cursor: nat, k: nat): nat
    requires k < |pieces| && pieces[k].Slot?
  {
    match pieces[k].spec.index
    case Some(j) => j
    case None => cursor + ImplicitCount(pieces[..k])
  }

  /** Placeholder `k` selects no argument, or one whose type tag is invalid. */
  predicate Bad(pieces: seq<Piece>, cursor: nat, args: seq<Arg>, k: nat)
    requires k < |pieces|
  {
    pieces[k].Slot? && (Target(pieces, cursor, k) >= |args| || !ValidTag(args[Target(pieces, cursor, k)].tag))
  }

  predicate NoBad(pieces: seq<Piece>, cursor: nat, args: seq<Arg>) {
    forall k :: 0 <= k < |pieces| ==> !Bad(pieces, cursor, args, k)
  }

  /** The append piece `k` stands for once its argument is chosen. */
  function Image(pieces: seq<Piece>, cursor: nat, args: seq<Arg>, k: nat): Event
    requires k < |pieces| && !Bad(pieces, cursor, args, k)
  {
    match pieces[k]
    case Known(e) => e
    case Slot(spec) => Field(args[Target(pieces, cursor, k)].value, spec.format)
  }

  /** Choosing the arguments, piece by piece, as tmp_print_impl does while it scans. */
  function Resolve(pieces: seq<Piece>, cursor: nat, args: seq<Arg>): Rendering
    decreases |pieces|
  {
    if pieces == [] then Rendering([], false)
    else
      match pieces[0]
      case Known(e) => Then(Rendering([e], false), Resolve(pieces[1..], cursor, args))
      case Slot(spec) =>
        var current := if spec.index.Some? then spec.index.value else cursor;
        if current >= |args| || !ValidTag(args[current].tag) then Rendering([], true)
        else
          Then(Rendering([Field(args[current].value, spec.format)], false),
               Resolve(pieces[1..], if spec.index.Some? then cursor else cursor + 1, args))
  }

  function ResolveSkeleton(sk: Skeleton, cursor: nat, args: seq<Arg>): Rendering {
    var r := Resolve(sk.pieces, cursor, args);
    if r.malformed then r else Rendering(r.events, sk.malformed)
  }

  lemma {:induction false} FixedResolve(evs: seq<Event>, cursor: nat, args: seq<Arg>)
    ensures Resolve(FixedPieces(evs), cursor, args) == Rendering(evs, false)
    ensures ImplicitCount(FixedPieces(evs)) == 0
    decreases |evs|
  {
    if evs != [] {
      var ps := FixedPieces(evs);
      assert ps[0] == Known(evs[0]) && ps[1..] == FixedPieces(evs[1..]);
      FixedResolve(evs[1..], cursor, args);
      assert [evs[0]] + evs[1..] == evs;
    }
  }

  lemma ThenAssociative(a: Rendering, b: Rendering, c: Rendering)
    ensures Then(Then(a, b), c) == Then(a, Then(b, c))
  {
    if !a.malformed && !b.malformed {
      assert (a.events + b.events) + c.events == a.events + (b.events + c.events);
    }
  }

  /** Resolution takes the first piece, then the rest with the cursor moved past it. */
  lemma ResolveStep(pieces: seq<Piece>, cursor: nat, args: seq<Arg>)
    requires pieces != []
    ensures Resolve(pieces, cursor, args)
         == Then(Resolve([pieces[0]], cursor, args), Resolve(pieces[1..], cursor + ImplicitCount([pieces[0]]), args))
  {
    OneResolve(pieces[0], cursor, args);
  }

  /** Resolving two runs of pieces is resolving the first, then the second with the cursor
      advanced past the first's implicit placeholders. */
  lemma {:induction false} ResolveAppend(a: seq<Piece>, b: seq<Piece>, cursor: nat, args: seq<Arg>)
    ensures Resolve(a + b, cursor, args) == Then(Resolve(a, cursor, args), Resolve(b, cursor + ImplicitCount(a), args))
    decreases |a|
  {
    if a == [] {
      assert a + b == b;
    } else {
      var head := Resolve([a[0]], cursor, args);
      var next := cursor + ImplicitCount([a[0]]);
      assert (a + b)[0] == a[0] && (a + b)[1..] == a[1..] + b;
      ResolveStep(a + b, cursor, args);
      ResolveStep(a, cursor, args);
      ResolveAppend(a[1..], b, next, args);
      assert ImplicitCount(a) == ImplicitCount([a[0]]) + ImplicitCount(a[1..]) by {
        OneResolve(a[0], cursor, args);
      }
      ThenAssociative(head, Resolve(a[1..], next, args), Resolve(b, next + ImplicitCount(a[1..]), args));
    }
  }

  lemma SkThenResolve(a: Skeleton, b: Skeleton, cursor: nat, args: seq<Arg>)
    ensures ResolveSkeleton(SkThen(a, b), cursor, args)
         == Then(ResolveSkeleton(a, cursor, args), ResolveSkeleton(b, cursor + ImplicitCount(a.pieces), args))
  {
    if !a.malformed {
      ResolveAppend(a.pieces, b.pieces, cursor, args);
    }
  }

  /** The scan is its skeleton with the arguments chosen: the shape of a template does not
      depend on the arguments. */
  lemma {:induction false} RenderFromSkeleton(t: string, formatFirst: nat, index: nat, args: seq<Arg>, initial: PrintFormat, decode: Decoder)
    requires formatFirst <= |t|
    ensures RenderFrom(t, formatFirst, index, args, initial, decode) == ResolveSkeleton(SkeletonFrom(t, formatFirst, initial, decode), index, args)
    decreases |t| - formatFirst, 1
  {
    match Find(t, formatFirst, |t|, '{')
    case None =>
      FixedSkeletonResolve(Escaped(t, formatFirst, |t|), index, args);
    case Some(q) =>
      var e := Escaped(t, formatFirst, q);
      var after := SkeletonAfterBrace(t, q + 1, initial, decode);
      FixedSkeletonResolve(e, index, args);
      AfterBraceSkeleton(t, q + 1, index, args, initial, decode);
      SkThenResolve(FixedSkeleton(e), after, index, args);
      assert SkeletonFrom(t, formatFirst, initial, decode) == SkThen(FixedSkeleton(e), after);
      assert RenderFrom(t, formatFirst, index, args, initial, decode) == Then(e, AfterBrace(t, q + 1, index, args, initial, decode));
  }

  lemma FixedSkeletonResolve(r: Rendering, cursor: nat, args: seq<Arg>)
    ensures ResolveSkeleton(FixedSkeleton(r), cursor, args) == r
    ensures ImplicitCount(FixedSkeleton(r).pieces) == 0
  {
    FixedResolve(r.events, cursor, args);
  }

  lemma {:induction false} AfterBraceSkeleton(t: string, p: nat, index: nat, args: seq<Arg>, initial: PrintFormat, decode: Decoder)
    requires 0 < p <= |t|
    ensures AfterBrace(t, p, index, args, initial, decode) == ResolveSkeleton(SkeletonAfterBrace(t, p, initial, decode), index, args)
    decreases |t| - p + 1, 0
  {
    if p < |t| && t[p] == '{' {
      var brace := Known(Literal("{"));
      RenderFromSkeleton(t, p + 1, index, args, initial, decode);
      SkThenResolve(Skeleton([brace], false), SkeletonFrom(t, p + 1, initial, decode), index, args);
      OneResolve(brace, index, args);
    } else {
      match Find(t, p, |t|, '}')
      case None =>
      case Some(next) =>
        var spec := decode(t[p..next], initial);
        var nextIndex := if spec.index.Some? then index else index + 1;
        var rest := SkeletonFrom(t, next + 1, initial, decode);
        RenderFromSkeleton(t, next + 1, nextIndex, args, initial, decode);
        SkThenResolve(Skeleton([Slot(spec)], false), rest, index, args);
        OneResolve(Slot(spec), index, args);
        assert SkeletonAfterBrace(t, p, initial, decode) == SkThen(Skeleton([Slot(spec)], false), rest);
    }
  }

  /** A single piece resolves to its own append, or to malformed input for a bad
      placeholder. */
  lemma OneResolve(piece: Piece, cursor: nat, args: seq<Arg>)
    ensures ImplicitCount([piece]) == if piece.Slot? && piece.spec.index.None? then 1 else 0
    ensures ResolveSkeleton(Skeleton([piece], false), cursor, args) == Resolve([piece], cursor, args)
    ensures piece.Known? ==> Resolve([piece], cursor, args) == Rendering([piece.event], false)
    ensures piece.Slot? ==>
      var current := if piece.spec.index.Some? then piece.spec.index.value else cursor;
      Resolve([piece], cursor, args)
        == if current >= |args| || !ValidTag(args[current].tag) then Rendering([], true)
           else Rendering([Field(args[current].value, piece.spec.format)], false)
  {
    assert [piece][1..] == [];
  }

  /** Moving past the first piece: piece `k + 1` selects what piece `k` of the rest selects
      with the cursor moved past the first piece. */
  lemma TargetShift(pieces: seq<Piece>, cursor: nat, args: seq<Arg>, k: nat)
    requires k + 1 < |pieces|
    ensures var next := if pieces[0].Slot? && pieces[0].spec.index.None? then cursor + 1 else cursor;
      && (pieces[k + 1].Slot? ==> Target(pieces, cursor, k + 1) == Target(pieces[1..], next, k))
      && Bad(pieces, cursor, args, k + 1) == Bad(pieces[1..], next, args, k)
      && (!Bad(pieces, cursor, args, k + 1) ==> Image(pieces, cursor, args, k + 1) == Image(pieces[1..], next, args, k))
  {
    assert pieces[..k + 1][0] == pieces[0] && pieces[..k + 1][1..] == pieces[1..][..k];
  }

  /** Resolution in closed form: the appends made are the images of the pieces up to the
      first bad placeholder, and the resolution is malformed exactly when there is one. */
  lemma {:induction false} ResolveShape(pieces: seq<Piece>, cursor: nat, args: seq<Arg>)
    ensures var r := Resolve(pieces, cursor, args);
      && |r.events| <= |pieces|
      && (forall k :: 0 <= k < |r.events| ==> !Bad(pieces, cursor, args, k) && r.events[k] == Image(pieces, cursor, args, k))
      && (r.malformed <==> |r.events| < |pieces|)
      && (r.malformed ==> Bad(pieces, cursor, args, |r.events|))
    decreases |pieces|
  {
    if pieces != [] {
      var next := if pieces[0].Slot? && pieces[0].spec.index.None? then cursor + 1 else cursor;
      var rest := Resolve(pieces[1..], next, args);
      ResolveShape(pieces[1..], next, args);
      var r := Resolve(pieces, cursor, args);
      if !Bad(pieces, cursor, args, 0) {
        assert r == Rendering([Image(pieces, cursor, args, 0)] + rest.events, rest.malformed);
        forall k | 0 <= k < |r.events|
          ensures !Bad(pieces, cursor, args, k) && r.events[k] == Image(pieces, cursor, args, k)
        {
          if k > 0 { TargetShift(pieces, cursor, args, k - 1); }
        }
        if rest.malformed {
          TargetShift(pieces, cursor, args, |rest.events|);
        }
      }
    }
  }

  /** tmp_print_impl's argument selection over a whole template. With `sk` the template's
      skeleton, which the arguments do not affect: the appends made are, in order, the
      skeleton's pieces with each placeholder given argument `Target` (its explicit index,
      else the number of implicit placeholders before it), and they stop, malformed, at the
      first placeholder whose argument is missing or has an invalid type tag; without one,
      every piece is appended and the template is malformed exactly when its skeleton is. */
  lemma PlaceholderResolution(t: string, args: seq<Arg>, initial: PrintFormat)
    ensures var sk, r := SkeletonFrom(t, 0, initial, FormatSpecifiers), Render(t, args, initial);
      && |r.events| <= |sk.pieces|
      && (forall k :: 0 <= k < |r.events| ==> !Bad(sk.pieces, 0, args, k) && r.events[k] == Image(sk.pieces, 0, args, k))
      && (NoBad(sk.pieces, 0, args) ==> |r.events| == |sk.pieces| && r.malformed == sk.malformed)
      && (!NoBad(sk.pieces, 0, args) ==> r.malformed && |r.events| < |sk.pieces| && Bad(sk.pieces, 0, args, |r.events|))
  {
    var sk := SkeletonFrom(t, 0, initial, FormatSpecifiers);
    RenderFromSkeleton(t, 0, 0, args, initial, FormatSpecifiers);
    ResolveShape(sk.pieces, 0, args);
  }

  // ---------------------------------------------------------------------------------------
  // Examples

  /** A placeholder body made of one digit `d` selects argument `d` and keeps the format. */
  lemma DigitBody(d: nat, initial: PrintFormat)
    requires d < 10
    ensures FormatSpecifiers([DigitChar(d)], initial) == Specifiers(initial, Some(d))
  {
    assert DecimalText(d) + [] == [DigitChar(d)];
    ExplicitIndex(d, [], initial);
  }

  /** `{1} {0} {}`: explicit indices leave the implicit cursor at 0, so the last
      placeholder formats argument 0 again. */
  lemma IndexExample(a: Value, b: Value, initial: PrintFormat)
    ensures Render("{1} {0} {}", [Arg(1, a), Arg(1, b)], initial)
         == Rendering([Field(b, initial), Literal(" "), Field(a, initial), Literal(" "), Field(a, initial)], false)
  {
    var t, args := "{1} {0} {}", [Arg(1, a), Arg(1, b)];
    IndexExampleFirst(a, b, initial);
    assert Find(t, 0, |t|, '{') == Some(0);
    assert Find(t, 0, 0, '}') == None;
    assert Escaped(t, 0, 0) == Rendering([], false);
  }

  lemma IndexExampleFirst(a: Value, b: Value, initial: PrintFormat)
    ensures AfterBrace("{1} {0} {}", 1, 0, [Arg(1, a), Arg(1, b)], initial, FormatSpecifiers)
         == Rendering([Field(b, initial), Literal(" "), Field(a, initial), Literal(" "), Field(a, initial)], false)
  {
    var t, args := "{1} {0} {}", [Arg(1, a), Arg(1, b)];
    IndexExampleMiddle(a, b, initial);
    IndexExampleOne(a, b, initial);
  }

  lemma IndexExampleOne(a: Value, b: Value, initial: PrintFormat)
    ensures var t, args := "{1} {0} {}", [Arg(1, a), Arg(1, b)];
      AfterBrace(t, 1, 0, args, initial, FormatSpecifiers) == Then(Rendering([Field(b, initial)], false), RenderFrom(t, 3, 0, args, initial, FormatSpecifiers))
  {
    var t := "{1} {0} {}";
    DigitBody(1, initial);
    assert t[1] == '1' && t[2] == '}';
    assert Find(t, 2, |t|, '}') == Some(2);
    assert Find(t, 1, |t|, '}') == Some(2);
    assert t[1..2] == [DigitChar(1)];
  }

  lemma IndexExampleMiddle(a: Value, b: Value, initial: PrintFormat)
    ensures RenderFrom("{1} {0} {}", 3, 0, [Arg(1, a), Arg(1, b)], initial, FormatSpecifiers)
         == Rendering([Literal(" "), Field(a, initial), Literal(" "), Field(a, initial)], false)
  {
    var t, args := "{1} {0} {}", [Arg(1, a), Arg(1, b)];
    IndexExampleLast(a, b, initial);
    DigitBody(0, initial);
    assert Find(t, 3, |t|, '{') == Some(4);
    assert Find(t, 3, 4, '}') == None && t[3..4] == " ";
    assert Find(t, 5, |t|, '}') == Some(6);
    assert t[5..6] == [DigitChar(0)];
  }

  lemma IndexExampleLast(a: Value, b: Value, initial: PrintFormat)
    ensures RenderFrom("{1} {0} {}", 7, 0, [Arg(1, a), Arg(1, b)], initial, FormatSpecifiers)
         == Rendering([Literal(" "), Field(a, initial)], false)
  {
    var t := "{1} {0} {}";
    assert Find(t, 7, |t|, '{') == Some(8);
    assert Find(t, 7, 8, '}') == None && t[7..8] == " ";
    assert Find(t, 9, |t|, '}') == Some(9) && t[9..9] == "";
    assert Find(t, 10, |t|, '{') == None;
  }

  /** An index past the arguments is malformed input, and nothing of that placeholder is
      appended. */
  lemma IndexOutOfRangeExample(a: Value, b: Value, initial: PrintFormat)
    ensures Render("{5}", [Arg(1, a), Arg(1, b)], initial) == Rendering([], true)
  {
    var t := "{5}";
    DigitBody(5, initial);
    assert Find(t, 0, |t|, '{') == Some(0);
    assert Find(t, 1, |t|, '}') == Some(2) && t[1..2] == [DigitChar(5)];
  }

  /** `{{}}` is the literal text `{}`: `{` from the `{{`, `}` from the `}}`. */
  lemma EscapesExample(args: seq<Arg>, initial: PrintFormat)
    ensures Render("{{}}", args, initial) == Rendering([Literal("{"), Literal("}")], false)
  {
    var t := "{{}}";
    assert Find(t, 0, |t|, '{') == Some(0) && Find(t, 0, 0, '}') == None;
    assert Find(t, 2, |t|, '{') == None;
    assert Find(t, 2, 4, '}') == Some(2) && t[2..3] == "}";
    assert Find(t, 4, 4, '}') == None;
    assert Escaped(t, 2, 4) == Rendering([Literal("}")], false);
    assert RenderFrom(t, 2, 0, args, initial, FormatSpecifiers) == Rendering([Literal("}")], false);
    assert AfterBrace(t, 1, 0, args, initial, FormatSpecifiers) == Rendering([Literal("{"), Literal("}")], false);
  }

  /** A lone `}` is malformed input; the text up to and including it is still appended. */
  lemma LoneCloserExample(args: seq<Arg>, initial: PrintFormat)
    ensures Render("a}b", args, initial) == Rendering([Literal("a}")], true)
  {
    var t := "a}b";
    assert Find(t, 0, |t|, '{') == None;
    assert Find(t, 0, 3, '}') == Some(1) && t[0..2] == "a}";
  }

  /** A `{` without a closing `}` is malformed input. */
  lemma UnterminatedExample(args: seq<Arg>, initial: PrintFormat)
    ensures Render("x{0", args, initial) == Rendering([Literal("x")], true)
  {
    var t := "x{0";
    assert Find(t, 0, |t|, '{') == Some(1);
    assert Find(t, 0, 1, '}') == None && t[0..1] == "x";
    assert Find(t, 2, |t|, '}') == None;
  }
}
