/**
 * The on/off switch widget: a click inside it toggles the value once its last click's
 * tick has passed, and once the animation time after that click has elapsed the knob
 * rests in the left (off) or right (on) half of the widget.
 */
module UiSwitch {
  import opened Clock
  import opened CStrings
  import opened Draw

  /** The fields `switch_update` changes. */
  datatype Toggle = Toggle(value: bool, clickedTick: int)

  /** `switch_update`: a left click inside the switch whose last click tick has passed flips the value and records the tick. */
  function Step(t: Toggle, inRect: bool, click: bool, now: int): (r: Toggle)
    ensures r.value != t.value <==> inRect && click && TickPassed(now, t.clickedTick)
    ensures r.value != t.value ==> r.clickedTick == now
    ensures r.value == t.value ==> r == t
  {
    if inRect && click && TickPassed(now, t.clickedTick) then Toggle(!t.value, now) else t
  }

  /** Two accepted clicks bring the value back to where it was. */
  lemma TwoClicksRestore(t: Toggle, now1: int, now2: int)
    requires TickPassed(now1, t.clickedTick) && TickPassed(now2, now1)
    ensures Step(Step(t, true, true, now1), true, true, now2).value == t.value
  {
  }

  /**
   * The click tick only moves forward while the clock does: a toggle records the current
   * tick, which has passed the previous one.
   */
  lemma ClickedTickMonotone(t: Toggle, inRect: bool, click: bool, now: int)
    ensures Step(t, inRect, click, now).clickedTick >= t.clickedTick
  {
  }

  /** The knob's resting place when the switch is off: the left half, inset by the padding. */
  function OffKnob(r: Rect, padding: int): (k: Rect)
    ensures k.x == r.x + padding && k.x + k.w == r.x + CDiv(r.w, 2)
    ensures k.y == r.y + padding && k.y + k.h == r.y + r.h - padding
  {
    Rect(r.x + padding, r.y + padding, CDiv(r.w, 2) - padding, r.h - padding * 2)
  }

  /** The knob's resting place when the switch is on: from the middle, inset by the padding at the top, bottom and right. */
  function OnKnob(r: Rect, padding: int): (k: Rect)
    ensures k.x == r.x + CDiv(r.w, 2) && k.x + k.w == r.x + 2 * CDiv(r.w, 2) - padding
    ensures r.w >= 0 ==> k.x + k.w == r.x + r.w - r.w % 2 - padding
    ensures k.y == r.y + padding && k.y + k.h == r.y + r.h - padding
  {
    Rect(r.x + CDiv(r.w, 2), r.y + padding, CDiv(r.w, 2) - padding, r.h - padding * 2)
  }

  /**
   * `percent` of `render_switch`: how far through the animation time `now` is since the
   * click; in `[0, 1)` exactly while the animation runs.
   */
  function Percent(now: int, clickedTick: int, animationTime: int): (p: real)
    requires animationTime != 0
    ensures animationTime > 0 ==> (0.0 <= p <==> TickPassed(now, clickedTick))
    ensures animationTime > 0 ==> (p < 1.0 <==> !TickPassed(now, clickedTick + animationTime))
  {
    if animationTime > 0 then
      QuotientRange((now - clickedTick) as real, animationTime as real);
      (now - clickedTick) as real / animationTime as real
    else (now - clickedTick) as real / animationTime as real
  }

  /** Dividing by a positive amount keeps the sign, and the quotient is below 1 exactly when the dividend is below the divisor. */
  lemma QuotientRange(a: real, b: real)
    requires b > 0.0
    ensures 0.0 <= a / b <==> 0.0 <= a
    ensures a / b < 1.0 <==> a < b
  {
    var q := a / b;
    assert q * b == a;
    if q < 0.0 {
      assert q * b < 0.0;
    }
    if q >= 1.0 {
      assert q * b >= b;
    }
  }

  /**
   * The knob while it slides: as wide and high as the resting knobs, `current` pixels
   * right of the left padding when turning on, `current` pixels left of the middle when
   * turning off.
   */
  function SlidingKnob(r: Rect, padding: int, value: bool, current: int): (k: Rect)
    ensures k.y == OffKnob(r, padding).y && k.w == OffKnob(r, padding).w && k.h == OffKnob(r, padding).h
    ensures value ==> k.x == OffKnob(r, padding).x + current
    ensures !value ==> k.x == OnKnob(r, padding).x - current
  {
    if value then Rect(r.x + padding + current, r.y + padding, CDiv(r.w, 2) - padding, r.h - padding * 2)
    else Rect(r.x + CDiv(r.w, 2) - current, r.y + padding, CDiv(r.w, 2) - padding, r.h - padding * 2)
  }

  /** One channel of the animated colour: `from + round((to - from) * percent)`, the old channel at the click and the new one at the end. */
  function BlendChannel(from: int, to: int, percent: real): (c: int)
    ensures percent == 0.0 ==> c == from
    ensures percent == 1.0 ==> c == to
  {
    RoundWhole(0);
    RoundWhole(to - from);
    from + Round((to - from) as real * percent)
  }

  /** `round` leaves a whole number as it is. */
  lemma RoundWhole(n: int)
    ensures Round(n as real) == n
  {
  }

  /** The animated colour, blending from the colour of the old value to that of the new one, opaque. */
  function Blend(from: Color, to: Color, percent: real): (c: Color)
    ensures c.a == 255
    ensures c.r == BlendChannel(from.r, to.r, percent) && c.g == BlendChannel(from.g, to.g, percent)
            && c.b == BlendChannel(from.b, to.b, percent)
  {
    Color(BlendChannel(from.r, to.r, percent), BlendChannel(from.g, to.g, percent),
          BlendChannel(from.b, to.b, percent), 255)
  }

  /**
   * `current` of `render_switch`: `round(rect.w / 2 * percent)`, the distance the knob has
   * slid, which goes from 0 at the click to half the width at the end.
   */
  function KnobOffset(r: Rect, percent: real): (current: int)
    ensures percent == 0.0 ==> current == 0
    ensures percent == 1.0 ==> current == CDiv(r.w, 2)
  {
    RoundWhole(0);
    RoundWhole(CDiv(r.w, 2));
    Round(CDiv(r.w, 2) as real * percent)
  }

  /** The knob `render_switch` draws while the animation toward `value` runs, `percent` of the way through. */
  function AnimatedKnob(r: Rect, padding: int, value: bool, offColor: Color, onColor: Color, percent: real): (k: DrawCmd)
    ensures k.FillRect? && k.color.a == 255
    ensures k.rect.y == OffKnob(r, padding).y && k.rect.w == OffKnob(r, padding).w && k.rect.h == OffKnob(r, padding).h
    ensures value ==> k.rect.x == OffKnob(r, padding).x + KnobOffset(r, percent)
                      && k.color == Blend(offColor, onColor, percent)
    ensures !value ==> k.rect.x == OnKnob(r, padding).x - KnobOffset(r, percent)
                       && k.color == Blend(onColor, offColor, percent)
  {
    var current := KnobOffset(r, percent);
    if value then FillRect(SlidingKnob(r, padding, true, current), Blend(offColor, onColor, percent))
    else FillRect(SlidingKnob(r, padding, false, current), Blend(onColor, offColor, percent))
  }

  /** At the click itself the knob is drawn where, and in the colour that, it rested before the click. */
  lemma AnimationStartsAtRest(r: Rect, padding: int, value: bool, offColor: Color, onColor: Color)
    ensures var k := AnimatedKnob(r, padding, value, offColor, onColor, 0.0);
      var before := if value then offColor else onColor;
      && k.FillRect?
      && k.rect == (if value then OffKnob(r, padding) else OnKnob(r, padding))
      && k.color == before.(a := 255)
  {
  }

  /**
   * At the end of its time the animation has brought the knob to the colour of the new
   * value but `padding` pixels beyond the resting place it heads for (past the on knob,
   * or left of the off knob), so the knob steps back by the padding when it settles.
   */
  lemma AnimationEnd(r: Rect, padding: int, value: bool, offColor: Color, onColor: Color)
    ensures var k := AnimatedKnob(r, padding, value, offColor, onColor, 1.0);
      var after := if value then onColor else offColor;
      && k.FillRect?
      && k.rect == (if value then OnKnob(r, padding).(x := OnKnob(r, padding).x + padding)
                    else OffKnob(r, padding).(x := OffKnob(r, padding).x - padding))
      && k.color == after.(a := 255)
  {
  }

  /** The two resting knobs have the same size and the on knob starts where the off knob ends. */
  lemma KnobsAdjacent(r: Rect, padding: int)
    ensures OnKnob(r, padding).x == OffKnob(r, padding).x + OffKnob(r, padding).w
    ensures OnKnob(r, padding).y == OffKnob(r, padding).y
    ensures OnKnob(r, padding).w == OffKnob(r, padding).w && OnKnob(r, padding).h == OffKnob(r, padding).h
  {
  }

  /**
   * Within a switch of non-negative width whose padding fits, both knobs lie inside it:
   * the off knob leaves `padding` on the left, the on knob `padding` plus the odd pixel
   * of the width on the right, and both leave `padding` at the top and bottom.
   */
  lemma KnobsInside(r: Rect, padding: int)
    requires r.w >= 0 && 0 <= padding && 2 * padding <= r.h
    ensures var off := OffKnob(r, padding);
      && off.x - r.x == padding && off.y - r.y == padding
      && (r.y + r.h) - (off.y + off.h) == padding
      && off.x + off.w <= r.x + r.w
    ensures var on := OnKnob(r, padding);
      && on.x >= r.x && on.y - r.y == padding
      && (r.x + r.w) - (on.x + on.w) == padding + r.w % 2
      && (r.y + r.h) - (on.y + on.h) == padding
  {
  }

  class Switch {
    var rect: Rect
    var bg: Color
    var offColor: Color
    var onColor: Color
    var value: bool
    var clickedTick: int
    var padding: int
    var animationTime: int

    /** `switch_create`: off, at the origin, with a click tick far enough back that the knob starts at rest. */
    constructor (w: int, h: int, bg: Color, offColor: Color, onColor: Color)
      ensures rect == Rect(0, 0, w, h) && this.bg == bg && this.offColor == offColor && this.onColor == onColor
      ensures !value && clickedTick == -1000 && padding == 4 && animationTime == 350
    {
      rect := Rect(0, 0, w, h);
      this.bg := bg;
      this.offColor := offColor;
      this.onColor := onColor;
      value := false;
      clickedTick := -1000;
      padding := 4;
      animationTime := 350;
    }

    /** `switch_update`. */
    method Update(inRect: bool, click: bool, now: int)
      modifies this`value, this`clickedTick
      ensures Toggle(value, clickedTick) == Step(Toggle(old(value), old(clickedTick)), inRect, click, now)
    {
      if inRect && click && TickPassed(now, clickedTick) {
        clickedTick := now;
        value := !value;
      }
    }

    /** The animation after the last click has run its course: `animationTime` has passed since it. */
    predicate Settled(now: int)
      reads this
      ensures Settled(now) <==> now - clickedTick >= animationTime
      ensures Settled(now) && animationTime >= 0 ==> TickPassed(now, clickedTick)
    {
      TickPassed(now, clickedTick + animationTime)
    }

    /**
     * `render_switch`: the background, then the knob: once settled, at rest in the half
     * and the colour of the current value; before that, sliding and blending toward them.
     */
    method Render(now: int) returns (cmds: seq<DrawCmd>)
      requires animationTime != 0
      ensures |cmds| == 2 && cmds[0] == FillRect(rect, bg)
      ensures Settled(now) && !value ==> cmds[1] == FillRect(OffKnob(rect, padding), offColor)
      ensures Settled(now) && value ==> cmds[1] == FillRect(OnKnob(rect, padding), onColor)
      ensures !Settled(now) ==>
        cmds[1] == AnimatedKnob(rect, padding, value, offColor, onColor, Percent(now, clickedTick, animationTime))
    {
      cmds := [FillRect(rect, bg)];
      if TickPassed(now, clickedTick + animationTime) {
        if !value {
          var r := Rect(rect.x + padding, rect.y + padding, CDiv(rect.w, 2) - padding, rect.h - padding * 2);
          cmds := cmds + [FillRect(r, offColor)];
        } else {
          var r := Rect(rect.x + CDiv(rect.w, 2), rect.y + padding, CDiv(rect.w, 2) - padding, rect.h - padding * 2);
          cmds := cmds + [FillRect(r, onColor)];
        }
      } else {
        var percent := Percent(now, clickedTick, animationTime);
        cmds := cmds + [AnimatedKnob(rect, padding, value, offColor, onColor, percent)];
      }
    }
  }
}
