/**
 * The text box widget: a fixed-capacity, NUL-terminated edit buffer with focus, a
 * blinking cursor, text input, backspace and ctrl+backspace, and the cached pixel x of
 * the cursor. Mouse, keyboard and clock state arrive as parameters; text measurement is
 * the `Measure` function the caller supplies.
 */
module UiTextbox {
  import opened Clock
  import opened CStrings
  import opened Draw
  import opened FontFace

  const INPUT_DELAY_MS: int := 100
  const CURSOR_BLINK_MS: int := 500

  /** The colour the cursor bar is drawn in. */
  const CURSOR_COLOR: Color := Color(40, 40, 40, 255)

  /** The focus rule: a left click focuses the box when it lands inside and unfocuses it otherwise. */
  function FocusAfter(focused: bool, inRect: bool, click: bool): (r: bool)
    ensures r == (if click then inRect else focused)
  {
    if !focused && inRect && click then true
    else if !inRect && click then false
    else focused
  }

  /** The text of the box and its cursor offset after an edit. */
  datatype Edit = Edit(text: string, cursor: int)

  /** The editing key the update reacts to: ctrl+backspace is tested before plain backspace. */
  datatype Key = NoKey | DeleteWordKey | DeleteLastKey

  function KeyPressed(ctrl: bool, backspace: bool): (k: Key)
    ensures k == NoKey <==> !backspace
    ensures k == DeleteWordKey <==> ctrl && backspace
  {
    if ctrl && backspace then DeleteWordKey
    else if backspace then DeleteLastKey
    else NoKey
  }

  /**
   * The position the ctrl+backspace scan settles on: the last space before `cursor`, or 0
   * when there is none.
   */
  function LastSpaceBefore(text: string, cursor: nat): (r: nat)
    requires cursor <= |text|
    ensures r == 0 || (r < cursor && text[r] == ' ')
    ensures forall j :: r < j < cursor ==> text[j] != ' '
  {
    if cursor == 0 then 0
    else if text[cursor - 1] == ' ' then cursor - 1
    else LastSpaceBefore(text, cursor - 1)
  }

  /**
   * Ctrl+backspace: cut the text at the last space before the cursor (the space goes too),
   * or at the start when there is none, and put the cursor there. With the cursor at 0
   * nothing is cut.
   */
  function DeleteWord(text: string, cursor: int): (r: Edit)
    requires 0 <= cursor <= |text|
    ensures r.text <= text && 0 <= r.cursor <= cursor && r.cursor <= |r.text|
    ensures cursor == 0 ==> r == Edit(text, 0)
    ensures cursor > 0 ==> r.cursor == |r.text| < cursor
                           && (|r.text| == 0 || text[|r.text|] == ' ')
                           && forall j :: |r.text| < j < cursor ==> text[j] != ' '
  {
    if cursor == 0 then Edit(text, 0)
    else
      var last := LastSpaceBefore(text, cursor);
      Edit(text[..last], last)
  }

  /** The number of values of a 64-bit `size_t`. */
  const SIZE_T_MODULUS: int := 0x1_0000_0000_0000_0000

  /** The size_t value of `strlen(text) - 1`, bounded below by 0, as the backspace branch indexes the buffer. */
  function BackspaceIndexAsWritten(len: nat): (i: nat)
    ensures i < SIZE_T_MODULUS
    ensures (i - (len - 1)) % SIZE_T_MODULUS == 0
  {
    (len - 1) % SIZE_T_MODULUS
  }

  /** The index the backspace branch means to clear: the last character, or the terminator of an empty text. */
  function BackspaceIndex(len: nat): (i: nat)
    ensures i <= len
    ensures len > 0 ==> i + 1 == len
  {
    if len == 0 then 0 else len - 1
  }

  /** The two indices agree on every non-empty text a buffer can hold. */
  lemma BackspaceIndexAgrees(len: nat)
    requires 0 < len < SIZE_T_MODULUS
    ensures BackspaceIndexAsWritten(len) == BackspaceIndex(len)
  {
  }

  /**
   * On an empty text the written index is 2^64 - 1, outside any buffer the box can
   * allocate, while the intended index is the terminator itself.
   */
  lemma BackspaceOnEmptyTextOutOfBounds(capacity: int)
    requires 1 <= capacity < SIZE_T_MODULUS
    ensures BackspaceIndexAsWritten(0) >= capacity
    ensures BackspaceIndex(0) < capacity
  {
  }

  /**
   * Backspace: drop the last character of the text, wherever the cursor is, and move the
   * cursor one to the left, stopping at 0.
   */
  function DeleteLast(text: string, cursor: int): (r: Edit)
    ensures text != [] ==> r.text == text[..|text| - 1]
    ensures text == [] ==> r.text == []
    ensures r.cursor >= 0 && (cursor > 0 ==> r.cursor == cursor - 1) && (cursor <= 0 ==> r.cursor == 0)
    ensures 0 <= cursor <= |text| ==> r.cursor <= |r.text|
  {
    var last := BackspaceIndex(|text|);
    Edit(text[..last], if cursor - 1 > 0 then cursor - 1 else 0)
  }

  function ApplyKey(text: string, cursor: int, key: Key): (r: Edit)
    requires 0 <= cursor <= |text|
    ensures r.text <= text && 0 <= r.cursor <= |r.text|
    ensures key == NoKey ==> r == Edit(text, cursor)
  {
    match key
    case NoKey => Edit(text, cursor)
    case DeleteWordKey => DeleteWord(text, cursor)
    case DeleteLastKey => DeleteLast(text, cursor)
  }

  /**
   * A text-input event: the input is appended when the text, the input and the terminator
   * fit in the buffer, and the cursor moves one place whatever the input's length.
   */
  function Append(text: string, cursor: int, input: string, capacity: int): (r: Edit)
    ensures |text| + |input| < capacity ==> r == Edit(text + input, cursor + 1)
    ensures |text| + |input| >= capacity ==> r == Edit(text, cursor)
    ensures |text| < capacity ==> |r.text| < capacity
    ensures 0 <= cursor <= |text| && input != [] ==> 0 <= r.cursor <= |r.text|
  {
    if |text| + |input| < capacity then Edit(text + input, cursor + 1) else Edit(text, cursor)
  }

  /**
   * While every input is a single character, the cursor stays at the end of the text
   * through every edit; only longer inputs leave it behind.
   */
  lemma CursorStaysAtEnd(text: string, input: string, capacity: int, key: Key)
    requires |input| == 1
    ensures Append(text, |text|, input, capacity).cursor == |Append(text, |text|, input, capacity).text|
    ensures ApplyKey(text, |text|, key).cursor == |ApplyKey(text, |text|, key).text|
  {
  }

  /** A two-character input moves the cursor by one, leaving it inside the text. */
  lemma LongInputLeavesCursorBehind()
    ensures Append("", 0, "ab", 3) == Edit("ab", 1)
  {
  }

  /**
   * The width the cursor sits after: none at offset 0, the whole text when the offset is
   * at or past its end, the first `cursor` characters otherwise.
   */
  function CursorWidth(text: string, cursor: int, measure: Measure): (w: int)
    requires cursor >= 0
    ensures cursor == 0 ==> w == 0
    ensures measure([]).x == 0 ==>
              w == measure(text[..if cursor < |text| then cursor else |text|]).x
  {
    if cursor == 0 then 0
    else if cursor >= |text| then assert text[..|text|] == text; measure(text).x
    else measure(text[..cursor]).x
  }

  /** `next_input_tick`: one deadline shared by every text box, before which no key edits. */
  class InputTimer {
    var next: int

    constructor ()
      ensures next == 0
    {
      next := 0;
    }

    /** `update_input_tick`. */
    method Arm(now: int)
      modifies this
      ensures next == now + INPUT_DELAY_MS
    {
      next := now + INPUT_DELAY_MS;
    }
  }

  /** The events the box reacts to; every other event is ignored. */
  datatype Event = TextInput(input: string) | TextEditing(edit: string, start: int, length: int) | OtherEvent

  class Textbox {
    const length: int
    const buf: array<char>
    var rect: Rect
    var fg: Color
    var bg: Color
    var outline: Color
    var focused: bool
    var cursorPos: int
    var textPt: int
    var padding: int
    var outlineSize: int
    var updateCursorX: bool
    var cursorBlink: bool
    var cursorBlinkTick: int
    var cursorSize: int
    var cursorX: int

    /** The buffer always holds its terminator, and the cursor lies within the text. */
    predicate Valid()
      reads this, buf
    {
      buf.Length == length && StrLen(buf[..]) < length && 0 <= cursorPos <= StrLen(buf[..])
    }

    /** The string the buffer holds: everything before its first NUL. */
    function Text(): (s: string)
      reads buf
      ensures |s| <= buf.Length && '\0' !in s
    {
      buf[..StrLen(buf[..])]
    }

    /** `textbox_create`: room for `textLength` characters and a terminator, all zero. */
    constructor (w: int, h: int, pt: int, textLength: int, fg: Color, bg: Color, outline: Color,
                 now: int, measure: Measure)
      requires textLength >= 0
      ensures Valid() && fresh(buf)
      ensures length == textLength + 1 && forall i :: 0 <= i < buf.Length ==> buf[i] == '\0'
      ensures Text() == [] && cursorPos == 0 && !focused
      ensures rect == Rect(0, 0, w, h) && this.fg == fg && this.bg == bg && this.outline == outline
      ensures textPt == pt && padding == 5 && outlineSize == 2
      ensures updateCursorX && !cursorBlink && cursorBlinkTick == now
      ensures cursorSize == measure("|").y
    {
      length := textLength + 1;
      buf := new char[textLength + 1](_ => '\0');
      rect := Rect(0, 0, w, h);
      this.fg := fg;
      this.bg := bg;
      this.outline := outline;
      focused := false;
      cursorPos := 0;
      textPt := pt;
      padding := 5;
      outlineSize := 2;
      updateCursorX := true;
      cursorBlink := false;
      cursorBlinkTick := now;
      cursorSize := measure("|").y;
      cursorX := 0;
      new;
      StrLenIs(buf[..], 0);
    }

    /** The ctrl+backspace branch: the scan for the last space, then the `memset` up to the cursor. */
    method DeleteWordInPlace() returns (newCursor: int)
      requires Valid()
      modifies buf
      ensures var e := DeleteWord(old(Text()), cursorPos);
        Text() == e.text && newCursor == e.cursor
      ensures StrLen(buf[..]) < length && 0 <= newCursor <= StrLen(buf[..])
    {
      ghost var text := Text();
      var last := 0;
      var p := 0;
      while buf[p] != '\0' && p < cursorPos
        invariant 0 <= p <= cursorPos && p <= StrLen(buf[..])
        invariant last == LastSpaceBefore(text, p)
        decreases cursorPos - p
      {
        if buf[p] == ' ' {
          last := p;
        }
        p := p + 1;
      }
      var k := last;
      while k < cursorPos
        invariant last <= k <= cursorPos
        invariant forall i :: 0 <= i < buf.Length && !(last <= i < k) ==> buf[i] == old(buf[i])
        invariant forall i :: last <= i < k ==> buf[i] == '\0'
      {
        buf[k] := '\0';
        k := k + 1;
      }
      if cursorPos > 0 {
        StrLenIs(buf[..], last);
        assert buf[..last] == text[..last];
      } else {
        assert buf[..] == old(buf[..]);
      }
      newCursor := last;
    }

    /** The backspace branch: clear the last character and step the cursor back. */
    method DeleteLastInPlace() returns (newCursor: int)
      requires Valid()
      modifies buf
      ensures var e := DeleteLast(old(Text()), cursorPos);
        Text() == e.text && newCursor == e.cursor
      ensures StrLen(buf[..]) < length && 0 <= newCursor <= StrLen(buf[..])
    {
      ghost var text := Text();
      var len := CStrLen(buf);
      var i := BackspaceIndex(len);
      buf[i] := '\0';
      StrLenIs(buf[..], i);
      assert buf[..i] == text[..i];
      newCursor := if cursorPos - 1 > 0 then cursorPos - 1 else 0;
    }

    /**
     * `engine_ui_textbox_update`: focus, then (when focused) the blink and, once the shared
     * input deadline has passed, at most one key edit; finally the cursor x when it is stale.
     */
    method Update(inRect: bool, click: bool, ctrl: bool, backspace: bool, now: int,
                  timer: InputTimer, measure: Measure)
      requires Valid()
      modifies buf, timer, this`focused, this`cursorBlink, this`cursorBlinkTick, this`cursorPos,
               this`updateCursorX, this`cursorX
      ensures Valid()
      ensures focused == FocusAfter(old(focused), inRect, click)
      ensures if focused && TickPassed(now, old(cursorBlinkTick))
              then cursorBlink == !old(cursorBlink) && cursorBlinkTick == now + CURSOR_BLINK_MS
              else cursorBlink == old(cursorBlink) && cursorBlinkTick == old(cursorBlinkTick)
      ensures var key := if focused && TickPassed(now, old(timer.next)) then KeyPressed(ctrl, backspace) else NoKey;
        && Edit(Text(), cursorPos) == ApplyKey(old(Text()), old(cursorPos), key)
        && timer.next == (if key == NoKey then old(timer.next) else now + INPUT_DELAY_MS)
        && cursorX == (if old(updateCursorX) || key != NoKey
                       then rect.x + padding + CursorWidth(Text(), cursorPos, measure)
                       else old(cursorX))
      ensures !updateCursorX
    {
      Refocus(inRect, click);
      if focused {
        Blink(now);
        if TickPassed(now, timer.next) {
          KeyEdit(KeyPressed(ctrl, backspace), now, timer);
        }
      }
      if updateCursorX {
        RefreshCursorX(measure);
      }
    }

    /** The focus branch of the update. */
    method Refocus(inRect: bool, click: bool)
      modifies this`focused
      ensures focused == FocusAfter(old(focused), inRect, click)
    {
      if !focused && inRect && click {
        focused := true;
      } else if !inRect && click {
        focused := false;
      }
    }

    /** The blink branch of the update: flip the cursor when its tick has passed and schedule the next flip. */
    method Blink(now: int)
      modifies this`cursorBlink, this`cursorBlinkTick
      ensures if TickPassed(now, old(cursorBlinkTick))
              then cursorBlink == !old(cursorBlink) && cursorBlinkTick == now + CURSOR_BLINK_MS
              else cursorBlink == old(cursorBlink) && cursorBlinkTick == old(cursorBlinkTick)
    {
      if TickPassed(now, cursorBlinkTick) {
        cursorBlink := !cursorBlink;
        cursorBlinkTick := now + CURSOR_BLINK_MS;
      }
    }

    /** The key branches of the update: apply the edit, mark the cursor x stale and push the input deadline. */
    method KeyEdit(key: Key, now: int, timer: InputTimer)
      requires Valid()
      modifies buf, this`cursorPos, this`updateCursorX, timer
      ensures Valid()
      ensures Edit(Text(), cursorPos) == ApplyKey(old(Text()), old(cursorPos), key)
      ensures timer.next == (if key == NoKey then old(timer.next) else now + INPUT_DELAY_MS)
      ensures updateCursorX == (old(updateCursorX) || key != NoKey)
    {
      if key != NoKey {
        cursorPos := EditInPlace(key);
        updateCursorX := true;
        timer.Arm(now);
      }
    }

    /** The cursor-x branch of the update. */
    method RefreshCursorX(measure: Measure)
      requires Valid()
      modifies this`cursorX, this`updateCursorX
      ensures cursorX == rect.x + padding + CursorWidth(Text(), cursorPos, measure) && !updateCursorX
    {
      var w := MeasureCursor(measure);
      cursorX := rect.x + padding + w;
      updateCursorX := false;
    }

    /** One key edit on the buffer, returning the new cursor offset. */
    method EditInPlace(key: Key) returns (newCursor: int)
      requires Valid() && key != NoKey
      modifies buf
      ensures Edit(Text(), newCursor) == ApplyKey(old(Text()), cursorPos, key)
      ensures StrLen(buf[..]) < length
    {
      if key == DeleteWordKey {
        newCursor := DeleteWordInPlace();
      } else {
        newCursor := DeleteLastInPlace();
      }
    }

    /** The width `cursor_x` is recomputed from: by cursor offset, nothing, the whole text or a prefix. */
    method MeasureCursor(measure: Measure) returns (w: int)
      requires Valid()
      ensures w == CursorWidth(Text(), cursorPos, measure)
    {
      var len := CStrLen(buf);
      if cursorPos == 0 {
        w := 0;
      } else if cursorPos >= len {
        w := measure(buf[..len]).x;
      } else {
        assert buf[..cursorPos] == Text()[..cursorPos];
        w := measure(buf[..cursorPos]).x;
      }
    }

    /**
     * `engine_ui_textbox_on_sdlevent`: text input is appended while the box is focused and
     * the buffer has room; every other event changes nothing.
     */
    method OnSdlEvent(event: Event)
      requires Valid()
      requires event.TextInput? ==> event.input != [] && '\0' !in event.input
      modifies buf, this`cursorPos, this`updateCursorX
      ensures Valid()
      ensures if event.TextInput? && focused
              then Edit(Text(), cursorPos) == Append(old(Text()), old(cursorPos), event.input, length)
                   && updateCursorX == (old(updateCursorX) || Text() != old(Text()))
              else Text() == old(Text()) && cursorPos == old(cursorPos) && updateCursorX == old(updateCursorX)
    {
      if event.TextInput? {
        if !focused {
          return;
        }
        var current := CStrLen(buf);
        if current + |event.input| < length {
          StrCat(event.input);
          cursorPos := cursorPos + 1;
          updateCursorX := true;
        }
      }
    }

    /** `strcat` of an input that fits: the input and a new terminator go after the text. */
    method StrCat(input: string)
      requires Valid() && '\0' !in input && StrLen(buf[..]) + |input| < length
      modifies buf
      ensures Text() == old(Text()) + input && StrLen(buf[..]) < length
    {
      ghost var text := Text();
      var current := CStrLen(buf);
      var k := 0;
      while k < |input|
        invariant 0 <= k <= |input|
        invariant forall i :: 0 <= i < current ==> buf[i] == text[i]
        invariant forall i :: 0 <= i < k ==> buf[current + i] == input[i]
      {
        buf[current + k] := input[k];
        k := k + 1;
      }
      buf[current + |input|] := '\0';
      assert buf[..current + |input|] == text + input;
      StrLenIs(buf[..], current + |input|);
    }

    /** Where the cursor bar goes: at the cached x, a third of the way down the box plus the bar height. */
    function CursorRect(): (r: Rect)
      reads this
      ensures r.x == cursorX && r.w == 2 && r.h == cursorSize
      ensures 0 <= cursorSize && 2 * cursorSize <= rect.h ==> rect.y <= r.y && r.y + r.h <= rect.y + rect.h
    {
      Rect(cursorX, rect.y + CDiv(rect.h + cursorSize, 3), 2, cursorSize)
    }

    /**
     * `engine_render_textbox`: the outline, the background, the text vertically centred
     * when there is any, and the cursor bar exactly when the box is focused and the blink
     * is on.
     */
    method Render(measure: Measure) returns (cmds: seq<DrawCmd>)
      requires Valid()
      ensures |cmds| == 2 + (if Text() != [] then 1 else 0) + (if focused && cursorBlink then 1 else 0)
      ensures cmds[0] == FillOutline(rect, outlineSize, outline) && cmds[1] == FillRect(rect, bg)
      ensures Text() != [] ==>
        cmds[2] == DrawText(textPt, STYLE_REGULAR, Text(), rect.x + padding,
                            rect.y + CDiv(rect.h - measure(Text()).y, 2))
      ensures focused && cursorBlink <==> |cmds| > 2 && cmds[|cmds| - 1] == FillRect(CursorRect(), CURSOR_COLOR)
    {
      cmds := [FillOutline(rect, outlineSize, outline), FillRect(rect, bg)];
      var len := CStrLen(buf);
      if len > 0 {
        var s := measure(buf[..len]);
        cmds := cmds + [DrawText(textPt, STYLE_REGULAR, buf[..len], rect.x + padding,
                                 rect.y + CDiv(rect.h - s.y, 2))];
      }
      var cursor := CursorRect();
      if focused && cursorBlink {
        cmds := cmds + [FillRect(cursor, CURSOR_COLOR)];
      }
    }
  }
}
