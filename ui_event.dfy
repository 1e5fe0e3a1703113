/**
 * `UIEvent`: a window event, written as its type number followed by the
 * fields of its kind, each preceded by a space.  Reading takes back only the
 * type number: the field-reading switch sits inside a switch with no case
 * labels and is never reached, so the fields keep whatever they held.
 */
module UIEvents {
  import opened Decimal

  const INT32_MIN: int := -0x8000_0000
  const INT32_MAX: int := 0x7FFF_FFFF
  type Int32 = x: int | INT32_MIN <= x <= INT32_MAX
  type UInt32 = x: int | 0 <= x <= 0xFFFF_FFFF

  /** The numbers of `UIEvent::Type` (`Invalid` is -1, `Count` is 13). */
  const CLOSED: Int32 := 0
  const RESIZED: Int32 := 1
  const LOST_FOCUS: Int32 := 2
  const GAINED_FOCUS: Int32 := 3
  const TEXT_ENTERED: Int32 := 4
  const KEY_PRESSED: Int32 := 5
  const KEY_RELEASED: Int32 := 6
  const MOUSE_WHEEL_SCROLLED: Int32 := 7
  const MOUSE_BUTTON_PRESSED: Int32 := 8
  const MOUSE_BUTTON_RELEASED: Int32 := 9
  const MOUSE_MOVED: Int32 := 10
  const MOUSE_ENTERED: Int32 := 11
  const MOUSE_LEFT: Int32 := 12

  datatype SizeData = SizeData(width: UInt32, height: UInt32)
  datatype TextData = TextData(unicode: UInt32)
  datatype KeyData = KeyData(code: Int32, shift: bool, control: bool, alt: bool)
  /** `delta` is a float; it is carried as the text `<<` writes for it. */
  datatype WheelData = WheelData(wheel: Int32, delta: string, x: Int32, y: Int32)
  datatype ButtonData = ButtonData(button: Int32, x: Int32, y: Int32)
  datatype MoveData = MoveData(x: Int32, y: Int32)

  /** The union's members, one field each. */
  datatype Fields = Fields(resized: SizeData, textEntered: TextData, key: KeyData,
                           mouseWheelScrolled: WheelData, mouseButton: ButtonData, mouseMoved: MoveData)

  /** `stream << b` for a `bool` without `boolalpha`. */
  function Flag(b: bool): string {
    if b then "1" else "0"
  }

  /** The field text written after the type number. */
  function FieldText(kind: Int32, f: Fields): string
  {
    if kind == KEY_PRESSED || kind == KEY_RELEASED then
      " " + Render(f.key.code) + " " + Flag(f.key.shift) + " " + Flag(f.key.control) + " " + Flag(f.key.alt)
    else if kind == MOUSE_BUTTON_PRESSED || kind == MOUSE_BUTTON_RELEASED then
      " " + Render(f.mouseButton.button) + " " + Render(f.mouseButton.x) + " " + Render(f.mouseButton.y)
    else if kind == MOUSE_MOVED then
      " " + Render(f.mouseMoved.x) + " " + Render(f.mouseMoved.y)
    else if kind == MOUSE_WHEEL_SCROLLED then
      " " + Render(f.mouseWheelScrolled.wheel) + " " + f.mouseWheelScrolled.delta
      + " " + Render(f.mouseWheelScrolled.x) + " " + Render(f.mouseWheelScrolled.y)
    else if kind == RESIZED then
      " " + Render(f.resized.width) + " " + Render(f.resized.height)
    else if kind == TEXT_ENTERED then
      " " + Render(f.textEntered.unicode)
    else ""
  }

  /** The kinds that carry fields. */
  predicate HasFields(kind: Int32) {
    kind in {KEY_PRESSED, KEY_RELEASED, MOUSE_BUTTON_PRESSED, MOUSE_BUTTON_RELEASED,
             MOUSE_MOVED, MOUSE_WHEEL_SCROLLED, RESIZED, TEXT_ENTERED}
  }

  /** `UIEvent::Serialize`. */
  function Serialize(kind: Int32, f: Fields): (s: string)
    ensures |s| >= |Render(kind)| && s[..|Render(kind)|] == Render(kind)
    ensures |s| > |Render(kind)| <==> HasFields(kind)
    ensures |s| > |Render(kind)| ==> s[|Render(kind)|] == ' '
  {
    Render(kind) + FieldText(kind, f)
  }

  class UIEvent {
    var kind: Int32
    var fields: Fields

    constructor (kind: Int32, fields: Fields)
      ensures this.kind == kind && this.fields == fields
    {
      this.kind := kind;
      this.fields := fields;
    }

    /**
     * `UIEvent::Deserialize`: `stream >> type` and nothing more; returns the
     * input left unread.
     */
    method Deserialize(input: string) returns (rest: string)
      modifies this
      ensures kind == ReadInt(input, INT32_MIN, INT32_MAX).value
      ensures rest == ReadInt(input, INT32_MIN, INT32_MAX).rest
      ensures fields == old(fields)
    {
      var r := ReadInt(input, INT32_MIN, INT32_MAX);
      kind := r.value;
      rest := r.rest;
    }
  }

  /** Writing then reading an event gives back its type, and only its type; the fields text is left unread. */
  lemma TypeRoundTrip(kind: Int32, f: Fields)
    ensures ReadInt(Serialize(kind, f), INT32_MIN, INT32_MAX) == Extracted(kind, true, FieldText(kind, f))
  {
    var t := FieldText(kind, f);
    assert t == [] || t[0] == ' ';
    RenderThenRead(kind, t, INT32_MIN, INT32_MAX);
  }

  /** Reading an event's text into another event takes the type and keeps the reader's own fields. */
  method ReadBack(kind: Int32, written: Fields, held: Fields) returns (e: UIEvent)
    ensures e.kind == kind && e.fields == held
  {
    e := new UIEvent(CLOSED, held);
    var _ := e.Deserialize(Serialize(kind, written));
    TypeRoundTrip(kind, written);
  }
}
