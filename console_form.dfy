/**
 * The console window (`Form1`): it splits what arrives on its pipe into
 * NUL-terminated commands and shows them, and sends what the user types
 * back to the engine.  The output box is a list of coloured pieces of text.
 */
module ConsoleForm {
  import opened Text
  import opened LineText
  import opened Consoles

  /** `Environment.NewLine` on Windows. */
  const NEW_LINE: string := "\r\n"

  /** `text.Replace("\n", Environment.NewLine)`. */
  function Replaced(s: string): (r: string)
    ensures |r| == |s| + Count('\n', s)
    ensures Free(s, '\n') ==> r == s
    ensures forall i | 0 <= i < |r| && r[i] == '\n' :: 0 < i && r[i - 1] == '\r'
  {
    if s == [] then ""
    else (if s[0] == '\n' then NEW_LINE else [s[0]]) + Replaced(s[1..])
  }

  datatype Colour = DefaultColour | ErrorColour | WarningColour

  /** Text appended to the output box in one colour. */
  datatype Piece = Piece(text: string, colour: Colour)

  /** What one nonempty command does to the window. */
  datatype Action = Close | ClearAll | Append(piece: Piece) | Crash

  /** The dispatch on one received command; "print", "error" or "warng" with nothing after it fails in `Substring(6)`. */
  function Dispatch(str: string): (a: Action)
    ensures a.Crash? <==> str == "print" || str == "error" || str == "warng"
    ensures a.Close? <==> str == "close"
    ensures a.ClearAll? <==> str == "clear"
  {
    if str == "close" then Close
    else if str == "clear" then ClearAll
    else if |str| >= 5 && str[..5] == "print" then (if |str| < 6 then assert str == str[..5]; Crash else Append(Piece(Replaced(str[6..]), DefaultColour)))
    else if |str| >= 5 && str[..5] == "error" then (if |str| < 6 then assert str == str[..5]; Crash else Append(Piece(Replaced(str[6..]), ErrorColour)))
    else if |str| >= 5 && str[..5] == "warng" then (if |str| < 6 then assert str == str[..5]; Crash else Append(Piece(Replaced(str[6..]), WarningColour)))
    else Append(Piece(Replaced(NEW_LINE + "UNKNOWN MSG RECEIVED \"" + str + "\"" + NEW_LINE), ErrorColour))
  }

  /**
   * How handling one read ends: all of it consumed, the window closed, a
   * last command without its NUL (reading it never stops, as `Peek`
   * returns -1 and never 0), or an exception.
   */
  datatype Ending = Drained | ClosedForm | Hangs | Throws

  datatype Reception = Reception(output: seq<Piece>, ending: Ending)

  /** The received data handled command by command from output `output`; empty commands are skipped. */
  function Receive(data: string, output: seq<Piece>): Reception
    decreases |data|, 0
  {
    if data == [] then Reception(output, Drained)
    else
      var p := Until(data, NUL);
      if p == |data| then Reception(output, Hangs)
      else if p == 0 then Receive(data[1..], output)
      else Continue(Dispatch(data[..p]), data[p + 1..], output)
  }

  /** The effect of one command's action, and the handling of the data after it. */
  function Continue(a: Action, rest: string, output: seq<Piece>): Reception
    decreases |rest|, 1
  {
    match a
    case Close => Reception(output, ClosedForm)
    case ClearAll => Receive(rest, [])
    case Append(piece) => Receive(rest, output + [piece])
    case Crash => Reception(output, Throws)
  }

  /** The data from `i` on holds a whole command, ending at the NUL at `j`. */
  lemma ReceiveAt(data: string, i: nat, j: nat, output: seq<Piece>)
    requires i <= j < |data| && data[j] == NUL && forall k | i <= k < j :: data[k] != NUL
    ensures i == j ==> Receive(data[i..], output) == Receive(data[j + 1..], output)
    ensures i < j ==> Receive(data[i..], output) == Continue(Dispatch(data[i..j]), data[j + 1..], output)
  {
    var t := data[i..];
    UntilIs(t, NUL, j - i);
    assert t[j - i + 1..] == data[j + 1..];
    assert t[..j - i] == data[i..j];
  }

  /** A command that neither closes nor throws, handled from `before` into `after`: reading goes on after its NUL. */
  lemma Advance(data: string, i: nat, j: nat, before: seq<Piece>, after: seq<Piece>)
    requires i <= j < |data| && data[j] == NUL && forall k | i <= k < j :: data[k] != NUL
    requires i == j ==> after == before
    requires i < j ==> var a := Dispatch(data[i..j]);
      (a.Append? && after == before + [a.piece]) || (a.ClearAll? && after == [])
    ensures Receive(data[i..], before) == Receive(data[j + 1..], after)
  {
    ReceiveAt(data, i, j, before);
  }

  /** The data from `i` on holds no NUL. */
  lemma HangsAt(data: string, i: nat, output: seq<Piece>)
    requires i < |data| && forall k | i <= k < |data| :: data[k] != NUL
    ensures Receive(data[i..], output) == Reception(output, Hangs)
  {
    UntilIs(data[i..], NUL, |data| - i);
  }

  /** `Form1`: the output box, the input box, what has gone down the pipe to the engine, and whether it is still open. */
  class Form {
    var output: seq<Piece>
    var input: string
    var sent: string
    var open: bool

    constructor()
      ensures output == [] && input == [] && sent == [] && open
    {
      output := [];
      input := [];
      sent := [];
      open := true;
    }

    method Print(text: string)
      modifies this
      ensures output == old(output) + [Piece(Replaced(text), DefaultColour)]
      ensures input == old(input) && sent == old(sent) && open == old(open)
    {
      output := output + [Piece(Replaced(text), DefaultColour)];
    }

    method Error(text: string)
      modifies this
      ensures output == old(output) + [Piece(Replaced(text), ErrorColour)]
      ensures input == old(input) && sent == old(sent) && open == old(open)
    {
      output := output + [Piece(Replaced(text), ErrorColour)];
    }

    method Warning(text: string)
      modifies this
      ensures output == old(output) + [Piece(Replaced(text), WarningColour)]
      ensures input == old(input) && sent == old(sent) && open == old(open)
    {
      output := output + [Piece(Replaced(text), WarningColour)];
    }

    method Clear()
      modifies this
      ensures output == [] && input == old(input) && sent == old(sent) && open == old(open)
    {
      output := [];
    }

    /**
     * `Execute`: takes the input box's text (not its argument) and empties
     * the box; blank text goes nowhere, other text is echoed after "> " and
     * sent to the engine as it is, with no NUL.
     */
    method Execute()
      modifies this
      ensures input == [] && open == old(open)
      ensures Blank(old(input)) ==> output == old(output) && sent == old(sent)
      ensures !Blank(old(input)) ==> output == old(output) + [Piece(Replaced("> " + old(input) + "\n"), DefaultColour)]
      ensures !Blank(old(input)) ==> sent == old(sent) + old(input)
    {
      var str := input;
      input := [];
      if Blank(str) {
        return;
      }
      Print("> " + str + "\n");
      sent := sent + str;
    }

    /** The dispatch on one nonempty command inside `ReadCallback`. */
    method Handle(str: string) returns (a: Action)
      modifies this
      ensures a == Dispatch(str)
      ensures a.Append? ==> output == old(output) + [a.piece]
      ensures a.ClearAll? ==> output == []
      ensures a.Close? || a.Crash? ==> output == old(output)
      ensures input == old(input) && sent == old(sent) && open == (old(open) && !a.Close?)
    {
      a := Dispatch(str);
      if str == "close" {
        open := false;
      } else if str == "clear" {
        Clear();
      } else if |str| >= 5 && str[..5] == "print" {
        if |str| < 6 {
          return;
        }
        Print(str[6..]);
      } else if |str| >= 5 && str[..5] == "error" {
        if |str| < 6 {
          return;
        }
        Error(str[6..]);
      } else if |str| >= 5 && str[..5] == "warng" {
        if |str| < 6 {
          return;
        }
        Warning(str[6..]);
      } else {
        Error(NEW_LINE + "UNKNOWN MSG RECEIVED \"" + str + "\"" + NEW_LINE);
      }
    }

    /** The inner loop of `ReadCallback`: characters are collected up to the next NUL or the end of the data. */
    static method Segment(data: string, i: nat) returns (str: string, j: nat)
      requires i <= |data|
      ensures i <= j <= |data| && str == data[i..j]
      ensures forall k | i <= k < j :: data[k] != NUL
      ensures j < |data| ==> data[j] == NUL
    {
      str := "";
      j := i;
      while j < |data| && data[j] != NUL
        invariant i <= j <= |data| && str == data[i..j]
        invariant forall k | i <= k < j :: data[k] != NUL
      {
        assert data[i..j + 1] == data[i..j] + [data[j]];
        str := str + [data[j]];
        j := j + 1;
      }
    }

    /** `ReadCallback` on the bytes of one read, decoded to characters. */
    method ReadCallback(data: string) returns (ending: Ending)
      modifies this
      ensures Reception(output, ending) == Receive(data, old(output))
      ensures input == old(input) && sent == old(sent)
      ensures open == (old(open) && ending != ClosedForm)
    {
      var i := 0;
      ghost var goal := Receive(data, output);
      ghost var rest := data;
      while i < |data|
        invariant i <= |data| && rest == data[i..] && goal == Receive(data, old(output))
        invariant Receive(rest, output) == goal
        invariant input == old(input) && sent == old(sent) && open == old(open)
      {
        var str, j := Segment(data, i);
        if j == |data| {
          HangsAt(data, i, output);
          return Hangs;
        }
        ghost var before := output;
        if str != "" {
          var a := Handle(str);
          if a.Close? || a.Crash? {
            ReceiveAt(data, i, j, before);
            return if a.Close? then ClosedForm else Throws;
          }
        }
        Advance(data, i, j, before, output);
        rest := data[j + 1..];
        i := j + 1;
      }
      return Drained;
    }
  }

  /** `String.IsNullOrWhiteSpace`, over the ASCII white-space characters. */
  predicate Blank(s: string) {
    forall i | 0 <= i < |s| :: s[i] in {' ', '\t', '\n', '\r', '\U{B}', '\U{C}'}
  }

  // What the window shows for what the engine sends.

  /** A command whose text carries no NUL, so that it is framed as one. */
  predicate Sendable(c: Command) {
    (c.PrintText? || c.ErrorText? || c.WarningText?) ==> Free(c.text, NUL)
  }

  /** The window after the commands, in order, from output `output`. */
  function Displayed(cs: seq<Command>, output: seq<Piece>): Reception
  {
    if cs == [] then Reception(output, Drained)
    else match cs[0]
      case PrintText(t) => Displayed(cs[1..], output + [Piece(Replaced(t), DefaultColour)])
      case ErrorText(t) => Displayed(cs[1..], output + [Piece(Replaced(t), ErrorColour)])
      case WarningText(t) => Displayed(cs[1..], output + [Piece(Replaced(t), WarningColour)])
      case ClearOutput => Displayed(cs[1..], [])
      case CloseWindow => Reception(output, ClosedForm)
  }

  lemma EncodeFree(c: Command)
    requires Sendable(c)
    ensures Free(Encode(c), NUL)
  {
    var s := Encode(c);
    if c.PrintText? || c.ErrorText? || c.WarningText? {
      forall i | 6 <= i < |s|
        ensures s[i] != NUL
      {
        assert s[i] == c.text[i - 6];
      }
    }
  }

  /** Each command the engine encodes is decoded to the action it asked for. */
  lemma DispatchEncoded(c: Command)
    ensures c.PrintText? ==> Dispatch(Encode(c)) == Append(Piece(Replaced(c.text), DefaultColour))
    ensures c.ErrorText? ==> Dispatch(Encode(c)) == Append(Piece(Replaced(c.text), ErrorColour))
    ensures c.WarningText? ==> Dispatch(Encode(c)) == Append(Piece(Replaced(c.text), WarningColour))
    ensures c == ClearOutput ==> Dispatch(Encode(c)) == ClearAll
    ensures c == CloseWindow ==> Dispatch(Encode(c)) == Close
  {
    var s := Encode(c);
    match c
    case PrintText(t) =>
      calc {
        Dispatch(s);
        { WordOf(s, "print "); }
        Append(Piece(Replaced(s[6..]), DefaultColour));
      }
    case ErrorText(t) =>
      calc {
        Dispatch(s);
        { WordOf(s, "error "); assert "print"[0] != "error"[0]; }
        Append(Piece(Replaced(s[6..]), ErrorColour));
      }
    case WarningText(t) =>
      calc {
        Dispatch(s);
        { WordOf(s, "warng "); assert "print"[0] != "warng"[0] && "error"[0] != "warng"[0]; }
        Append(Piece(Replaced(s[6..]), WarningColour));
      }
    case ClearOutput =>
    case CloseWindow =>
  }

  /** A command that starts with a five-letter word and a blank is neither "close" nor "clear", and its first five letters are the word. */
  lemma WordOf(s: string, w: string)
    requires |w| == 6 && w[5] == ' ' && |s| >= 6 && s[..6] == w
    ensures s[0] == w[0] && s[..5] == w[..5] && s != "close" && s != "clear"
  {
    assert s[..5] == s[..6][..5];
    assert s[5] == ' ';
  }

  /** One framed command at the head of the data. */
  lemma {:induction false} ReceiveOne(c: Command, rest: string, output: seq<Piece>)
    requires Sendable(c)
    ensures Receive(Encode(c) + [NUL] + rest, output) ==
      match c
      case PrintText(t) => Receive(rest, output + [Piece(Replaced(t), DefaultColour)])
      case ErrorText(t) => Receive(rest, output + [Piece(Replaced(t), ErrorColour)])
      case WarningText(t) => Receive(rest, output + [Piece(Replaced(t), WarningColour)])
      case ClearOutput => Receive(rest, [])
      case CloseWindow => Reception(output, ClosedForm)
  {
    var data := Encode(c) + [NUL] + rest;
    EncodeFree(c);
    UntilAfter(Encode(c), NUL, rest);
    assert data[..|Encode(c)|] == Encode(c);
    assert data[|Encode(c)| + 1..] == rest;
    DispatchEncoded(c);
  }

  /** The window shows exactly what a run of successful sends asked for. */
  lemma {:induction false} ReceiveFramed(cs: seq<Command>, output: seq<Piece>)
    requires forall i | 0 <= i < |cs| :: Sendable(cs[i])
    ensures Receive(Framed(cs), output) == Displayed(cs, output)
    decreases |cs|
  {
    if cs != [] {
      ReceiveOne(cs[0], Framed(cs[1..]), output);
      match cs[0]
      case PrintText(t) => ReceiveFramed(cs[1..], output + [Piece(Replaced(t), DefaultColour)]);
      case ErrorText(t) => ReceiveFramed(cs[1..], output + [Piece(Replaced(t), ErrorColour)]);
      case WarningText(t) => ReceiveFramed(cs[1..], output + [Piece(Replaced(t), WarningColour)]);
      case ClearOutput => ReceiveFramed(cs[1..], []);
      case CloseWindow =>
    }
  }

  lemma FramedCons(cs: seq<Command>, tail: string)
    requires cs != []
    ensures Framed(cs) + tail == Encode(cs[0]) + [NUL] + (Framed(cs[1..]) + tail)
  {
    var e, f := Encode(cs[0]), Framed(cs[1..]);
    assert Framed(cs) == e + [NUL] + f;
    Regroup4(e, [NUL], f, tail);
  }

  /** A command cut off before its NUL leaves the reading loop spinning. */
  lemma {:induction false} UnterminatedHangs(cs: seq<Command>, tail: string, output: seq<Piece>)
    requires forall i | 0 <= i < |cs| :: Sendable(cs[i]) && cs[i] != CloseWindow
    requires tail != [] && Free(tail, NUL)
    ensures Receive(Framed(cs) + tail, output).ending == Hangs
    decreases |cs|
  {
    if cs == [] {
      PlusEmpty(Framed(cs), tail);
      UntilAbsent(tail, NUL);
    } else {
      FramedCons(cs, tail);
      ReceiveOne(cs[0], Framed(cs[1..]) + tail, output);
      match cs[0]
      case PrintText(t) => UnterminatedHangs(cs[1..], tail, output + [Piece(Replaced(t), DefaultColour)]);
      case ErrorText(t) => UnterminatedHangs(cs[1..], tail, output + [Piece(Replaced(t), ErrorColour)]);
      case WarningText(t) => UnterminatedHangs(cs[1..], tail, output + [Piece(Replaced(t), WarningColour)]);
      case ClearOutput => UnterminatedHangs(cs[1..], tail, []);
    }
  }
}
