/**
 * The debug console of the engine: the static input-callback table and the
 * active-console handle of `Console`, and `WindowsConsole`, which frames
 * each command as a NUL-terminated string on the pipe to the console window
 * and hands every chunk read from the other pipe to all input callbacks.
 *
 * The pipes are values here: `written` is everything sent down the show
 * pipe, and the chunks `ReadFile` returns are a parameter of `InputThread`.
 */
module Consoles {
  import opened Wrappers
  import opened Words
  import opened LineText

  const NUL: char := '\0'

  /** What the engine asks the console window to do. */
  datatype Command =
    | PrintText(text: string)
    | ErrorText(text: string)
    | WarningText(text: string)
    | ClearOutput
    | CloseWindow

  /** The command string `DPrint`, `DError`, `DWarning`, `DClear` and the destructor send. */
  function Encode(c: Command): (s: string)
    ensures |s| >= 5
    ensures c.PrintText? ==> |s| >= 6 && s[..6] == "print " && s[6..] == c.text
    ensures c.ErrorText? ==> |s| >= 6 && s[..6] == "error " && s[6..] == c.text
    ensures c.WarningText? ==> |s| >= 6 && s[..6] == "warng " && s[6..] == c.text
  {
    match c
    case PrintText(t) => "print " + t
    case ErrorText(t) => "error " + t
    case WarningText(t) => "warng " + t
    case ClearOutput => "clear"
    case CloseWindow => "close"
  }

  /** The bytes a run of successful sends puts on the pipe: each command followed by one NUL. */
  function Framed(cs: seq<Command>): string
  {
    if cs == [] then "" else Encode(cs[0]) + [NUL] + Framed(cs[1..])
  }

  lemma FramedSnoc(cs: seq<Command>, c: Command)
    ensures Framed(cs + [c]) == Framed(cs) + Encode(c) + [NUL]
  {
    if cs != [] {
      assert (cs + [c])[1..] == cs[1..] + [c];
      FramedSnoc(cs[1..], c);
    } else {
      assert cs + [c] == [c];
    }
  }

  // The input-callback table.

  /** An input callback, observed through the texts it has been called with. */
  datatype Callback = Callback(heard: seq<string>)

  /** Every callback of the table called once more with `text`. */
  function Notified(cbs: map<Word, Callback>, text: string): (r: map<Word, Callback>)
    ensures r.Keys == cbs.Keys
    ensures forall id | id in r :: r[id].heard == cbs[id].heard + [text]
  {
    map id | id in cbs :: Callback(cbs[id].heard + [text])
  }

  /** `Console::s_callback` and `Console::s_nextCallbackID`. */
  class CallbackTable {
    var callbacks: map<Word, Callback>
    var nextId: Word

    /** Every registered ID was handed out before the counter reached its value. */
    predicate Valid()
      reads this
    {
      forall id | id in callbacks :: id < nextId
    }

    /** An empty table whose first ID is `first`. */
    constructor(first: Word)
      ensures callbacks == map[] && nextId == first && Valid()
    {
      callbacks := map[];
      nextId := first;
    }

    /** `AddInputCallback`: store under the next ID, advance the 64-bit counter, return the ID used. */
    method Add(cb: Callback) returns (id: Word)
      modifies this
      ensures id == old(nextId) && nextId == Inc(old(nextId))
      ensures callbacks == old(callbacks)[id := cb]
      ensures old(Valid()) ==> id !in old(callbacks)
      ensures old(Valid()) && old(nextId) + 1 < WORD_MODULUS ==> Valid()
    {
      callbacks := callbacks[nextId := cb];
      nextId := Inc(nextId);
      id := if nextId == 0 then WORD_MODULUS - 1 else nextId - 1;
    }

    /** `RemoveInputCallback`: erase that ID only; an unknown ID changes nothing. */
    method Remove(id: Word)
      modifies this
      ensures callbacks == old(callbacks) - {id} && nextId == old(nextId)
      ensures id !in old(callbacks) ==> callbacks == old(callbacks)
      ensures old(Valid()) ==> Valid()
    {
      callbacks := callbacks - {id};
    }

    /** The loop over `s_callback` in `InputThread`: each callback is called with `text`. */
    method Notify(text: string)
      modifies this
      ensures callbacks == Notified(old(callbacks), text) && nextId == old(nextId)
    {
      callbacks := Notified(callbacks, text);
    }
  }

  // Reading from the console window.

  /** What one `ReadFile` on the send pipe yields: failure, or up to 1024 bytes. */
  datatype Read = ReadFailed | ReadBytes(bytes: string)

  /** The bytes with '\n' appended unless they already end with one. */
  function EndLine(chunk: string): (t: string)
    requires chunk != []
    ensures |chunk| <= |t| && t[|t| - 1] == '\n' && t[..|chunk|] == chunk
    ensures chunk[|chunk| - 1] == '\n' <==> t == chunk
  {
    if chunk[|chunk| - 1] != '\n' then chunk + "\n" else chunk
  }

  /** The C string the callbacks receive: the line-ended chunk up to its first NUL. */
  function Delivered(chunk: string): (t: string)
    requires chunk != []
    ensures |t| <= |chunk| + 1
    ensures Free(t, NUL)
  {
    var e := EndLine(chunk);
    e[..Until(e, NUL)]
  }

  /** Without a NUL in the bytes, the callbacks receive them whole, ending in exactly one added or existing '\n'. */
  lemma DeliveredEndsLine(chunk: string)
    requires chunk != [] && Free(chunk, NUL)
    ensures var t := Delivered(chunk);
      t[|t| - 1] == '\n' && t[..|chunk|] == chunk
      && (chunk[|chunk| - 1] == '\n' <==> t == chunk)
  {
    var e := EndLine(chunk);
    assert Free(e, NUL);
    UntilAbsent(e, NUL);
  }

  /** A NUL among the bytes cuts the text short: the callbacks receive what precedes it. */
  lemma DeliveredStopsAtNul(a: string, b: string)
    requires Free(a, NUL)
    ensures Delivered(a + [NUL] + b) == a
  {
    var chunk := a + [NUL] + b;
    var e := EndLine(chunk);
    assert e == a + [NUL] + (e[|a| + 1..]);
    UntilAfter(a, NUL, e[|a| + 1..]);
  }

  /** The callback table after the reads, up to the first failed one; an empty read calls nobody. */
  function Heard(cbs: map<Word, Callback>, chunks: seq<Read>): map<Word, Callback>
    decreases |chunks|
  {
    if chunks == [] then cbs
    else match chunks[0]
      case ReadFailed => cbs
      case ReadBytes(b) => Heard(if b == [] then cbs else Notified(cbs, Delivered(b)), chunks[1..])
  }

  /** The texts delivered by the reads before the first failed one, one per nonempty read. */
  function Texts(chunks: seq<Read>): seq<string>
    decreases |chunks|
  {
    if chunks == [] || chunks[0].ReadFailed? then []
    else (if chunks[0].bytes == [] then [] else [Delivered(chunks[0].bytes)]) + Texts(chunks[1..])
  }

  /** No callback is added or dropped while reading. */
  lemma {:induction false} HeardKeys(cbs: map<Word, Callback>, chunks: seq<Read>)
    ensures Heard(cbs, chunks).Keys == cbs.Keys
    decreases |chunks|
  {
    if chunks != [] && chunks[0].ReadBytes? {
      var b := chunks[0].bytes;
      HeardKeys(if b == [] then cbs else Notified(cbs, Delivered(b)), chunks[1..]);
    }
  }

  /** Every callback registered when reading starts receives the same texts, in the order read. */
  lemma {:induction false} HeardTexts(cbs: map<Word, Callback>, chunks: seq<Read>, id: Word)
    requires id in cbs
    ensures id in Heard(cbs, chunks)
    ensures Heard(cbs, chunks)[id].heard == cbs[id].heard + Texts(chunks)
    decreases |chunks|
  {
    HeardKeys(cbs, chunks);
    if chunks != [] && chunks[0].ReadBytes? {
      var b := chunks[0].bytes;
      var next := if b == [] then cbs else Notified(cbs, Delivered(b));
      HeardTexts(next, chunks[1..], id);
      assert next[id].heard == cbs[id].heard + (if b == [] then [] else [Delivered(b)]);
    }
  }

  /** `WindowsConsole`: the show pipe, modelled by whether it is open and what has been written to it. */
  class WindowsConsole {
    var pipeOpen: bool
    var written: string
    const table: CallbackTable

    constructor(pipeOpen: bool, table: CallbackTable)
      ensures this.pipeOpen == pipeOpen && written == [] && this.table == table
    {
      this.pipeOpen := pipeOpen;
      written := [];
      this.table := table;
    }

    /**
     * `Send`: nothing when the pipe is invalid; otherwise the command and its
     * terminating NUL, or a failure (the thrown `runtime_error`) when the
     * write does not succeed.
     */
    method Send(command: string, writeOk: bool) returns (o: Outcome<string>)
      modifies this
      ensures pipeOpen == old(pipeOpen)
      ensures written == old(written) + (if pipeOpen && writeOk then command + [NUL] else [])
      ensures o.Fail? <==> pipeOpen && !writeOk
    {
      if !pipeOpen {
        return Pass;
      }
      if !writeOk {
        return Fail("[Windows Console] Failed to write to pipe");
      }
      written := written + command + [NUL];
      o := Pass;
    }

    /** Send one command; `DPrint`, `DPrintLn`, `DError`, `DWarning`, `DClear` and the destructor all go through here. */
    method Issue(c: Command, writeOk: bool) returns (o: Outcome<string>)
      modifies this
      ensures pipeOpen == old(pipeOpen)
      ensures written == old(written) + (if pipeOpen && writeOk then Encode(c) + [NUL] else [])
      ensures o.Fail? <==> pipeOpen && !writeOk
    {
      o := Send(Encode(c), writeOk);
    }

    method DPrint(text: string, writeOk: bool) returns (o: Outcome<string>)
      modifies this
      ensures pipeOpen == old(pipeOpen)
      ensures written == old(written) + (if pipeOpen && writeOk then Encode(PrintText(text)) + [NUL] else [])
      ensures o.Fail? <==> pipeOpen && !writeOk
    {
      o := Issue(PrintText(text), writeOk);
    }

    /** `DPrintLn` prints the text followed by "\n\r". */
    method DPrintLn(text: string, writeOk: bool) returns (o: Outcome<string>)
      modifies this
      ensures pipeOpen == old(pipeOpen)
      ensures written == old(written) + (if pipeOpen && writeOk then Encode(PrintText(text + "\n\r")) + [NUL] else [])
      ensures o.Fail? <==> pipeOpen && !writeOk
    {
      o := DPrint(text + "\n\r", writeOk);
    }

    method DError(text: string, writeOk: bool) returns (o: Outcome<string>)
      modifies this
      ensures pipeOpen == old(pipeOpen)
      ensures written == old(written) + (if pipeOpen && writeOk then Encode(ErrorText(text)) + [NUL] else [])
      ensures o.Fail? <==> pipeOpen && !writeOk
    {
      o := Issue(ErrorText(text), writeOk);
    }

    method DWarning(text: string, writeOk: bool) returns (o: Outcome<string>)
      modifies this
      ensures pipeOpen == old(pipeOpen)
      ensures written == old(written) + (if pipeOpen && writeOk then Encode(WarningText(text)) + [NUL] else [])
      ensures o.Fail? <==> pipeOpen && !writeOk
    {
      o := Issue(WarningText(text), writeOk);
    }

    method DClear(writeOk: bool) returns (o: Outcome<string>)
      modifies this
      ensures pipeOpen == old(pipeOpen)
      ensures written == old(written) + (if pipeOpen && writeOk then Encode(ClearOutput) + [NUL] else [])
      ensures o.Fail? <==> pipeOpen && !writeOk
    {
      o := Issue(ClearOutput, writeOk);
    }

    /** The destructor's first step: tell the window to close. */
    method Close(writeOk: bool) returns (o: Outcome<string>)
      modifies this
      ensures pipeOpen == old(pipeOpen)
      ensures written == old(written) + (if pipeOpen && writeOk then Encode(CloseWindow) + [NUL] else [])
      ensures o.Fail? <==> pipeOpen && !writeOk
    {
      o := Issue(CloseWindow, writeOk);
    }

    /** The in-place termination of the 1026-byte buffer after a read of `n` bytes, and the C string read from it. */
    static method Terminate(c: array<char>, n: nat) returns (text: string)
      requires c.Length == 1026 && 0 < n <= 1024
      modifies c
      ensures text == Delivered(old(c[..n]))
    {
      ghost var e := EndLine(c[..n]);
      var end := n;
      if c[n - 1] != '\n' {
        c[n] := '\n';
        end := n + 1;
      }
      c[end] := NUL;
      assert |e| == end && forall j | 0 <= j < end :: c[j] == e[j];
      var k := 0;
      while c[k] != NUL
        invariant k <= Until(e, NUL) && forall j | 0 <= j < k :: c[j] == e[j]
        decreases end - k
      {
        k := k + 1;
      }
      text := c[..k];
    }

    /**
     * `InputThread`: read up to 1024 bytes at a time until a read fails,
     * handing each nonempty chunk, line-ended, to every input callback.
     */
    method InputThread(chunks: seq<Read>)
      requires forall i | 0 <= i < |chunks| :: chunks[i].ReadBytes? ==> |chunks[i].bytes| <= 1024
      modifies table
      ensures table.callbacks == Heard(old(table.callbacks), chunks)
      ensures table.nextId == old(table.nextId)
    {
      var i := 0;
      while i < |chunks|
        invariant 0 <= i <= |chunks|
        invariant Heard(table.callbacks, chunks[i..]) == Heard(old(table.callbacks), chunks)
        invariant table.nextId == old(table.nextId)
      {
        assert chunks[i..][1..] == chunks[i + 1..];
        if chunks[i].ReadFailed? {
          return;
        }
        var bytes := chunks[i].bytes;
        if |bytes| != 0 {
          var c := new char[1026](_ => NUL);
          forall j | 0 <= j < |bytes| {
            c[j] := bytes[j];
          }
          assert c[..|bytes|] == bytes;
          var text := Terminate(c, |bytes|);
          table.Notify(text);
        }
        i := i + 1;
      }
    }
  }

  /** `Console::s_activeConsole`, which holds a `WindowsConsole` or a `NullConsole` (null here). */
  class Console {
    var active: WindowsConsole?
    const table: CallbackTable

    constructor(table: CallbackTable)
      ensures active == null && this.table == table
    {
      active := null;
      this.table := table;
    }

    /**
     * `Init<WindowsConsole>`: the old console is deleted (a Windows console
     * sends "close" first) and a new one becomes active.  A failed write in
     * the old console's destructor ends the program, so nothing is replaced.
     */
    method InitWindows(pipeOpen: bool, writeOk: bool) returns (o: Outcome<string>)
      modifies this, active
      ensures old(active) != null ==> old(active).written == old(active.written) + (if old(active.pipeOpen) && writeOk then Encode(CloseWindow) + [NUL] else [])
      ensures o.Fail? <==> old(active) != null && old(active.pipeOpen) && !writeOk
      ensures o.Pass? ==> fresh(active) && active.pipeOpen == pipeOpen && active.written == [] && active.table == table
      ensures o.Fail? ==> active == old(active)
    {
      if active != null {
        o := active.Close(writeOk);
        if o.Fail? {
          return;
        }
      }
      active := new WindowsConsole(pipeOpen, table);
      o := Pass;
    }

    /** `Init<NullConsole>`. */
    method InitNull(writeOk: bool) returns (o: Outcome<string>)
      modifies this, active
      ensures old(active) != null ==> old(active).written == old(active.written) + (if old(active.pipeOpen) && writeOk then Encode(CloseWindow) + [NUL] else [])
      ensures o.Fail? <==> old(active) != null && old(active.pipeOpen) && !writeOk
      ensures o.Pass? ==> active == null
      ensures o.Fail? ==> active == old(active)
    {
      o := Pass;
      if active != null {
        o := active.Close(writeOk);
        if o.Fail? {
          return;
        }
      }
      active := null;
    }

    /** `Print`, `PrintLn`, `Error`, `Warning` and `Clear` forward unchanged to the active console; a null console ignores them. */
    method Forward(c: Command, writeOk: bool) returns (o: Outcome<string>)
      modifies active
      ensures active == old(active)
      ensures active == null ==> o == Pass
      ensures active != null ==> active.written == old(active.written) + (if active.pipeOpen && writeOk then Encode(c) + [NUL] else [])
      ensures active != null ==> (o.Fail? <==> active.pipeOpen && !writeOk)
    {
      o := Pass;
      if active != null {
        o := active.Issue(c, writeOk);
      }
    }
  }
}
