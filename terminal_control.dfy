/** The arithmetic of the terminal menus: the wrap-around selection step,
    the window of options `print_menu` shows, and the field widths
    `print_centered` hands to `printf`. Terminal I/O is not modelled. */
module TerminalControl {
  import opened Bytes

  type i32 = x: int | -0x8000_0000 <= x < 0x8000_0000

  const INT32_MAX: int := 0x7fff_ffff

  const TERM_DECOR_SPACE: nat := 4
  const MENU_END_SPACE: nat := 3
  const TERMINAL_MIN_SIZE: nat := 10
  const VALUE_INCREASE: i32 := 1
  const VALUE_DECREASE: i32 := -1
  /** The highest focus index of the three-button dialog. */
  const VALUE_MAX_GET_STR: i32 := 2

  // ---- rollover -------------------------------------------------------

  /** `rollover`: step `current` by `increment`; past `max` wraps to 0,
      below 0 wraps to `max`. The sum must fit in 32 bits, as the signed
      addition in the code requires. */
  function Rollover(current: i32, max: i32, increment: i32): (r: i32)
    requires -0x8000_0000 <= current + increment <= INT32_MAX
    ensures current + increment > max ==> r == 0
    ensures current + increment <= max && current + increment < 0 ==> r == max
    ensures 0 <= current + increment <= max ==> r == current + increment
  {
    var next := current + increment;
    if next > max then 0 else if next < 0 then max else next
  }

  /** A selection in `[0, max]` stepped by one either way stays there: the
      menu selection stays within its options and the dialog focus within
      its three buttons. */
  lemma RolloverInRange(current: i32, max: i32, increment: i32)
    requires 0 <= current <= max < INT32_MAX
    requires increment == VALUE_INCREASE || increment == VALUE_DECREASE
    ensures 0 <= Rollover(current, max, increment) <= max
  {
  }

  /** Stepping down undoes stepping up (and the other way round): the
      selection moves around a cycle of `max + 1` positions. */
  lemma RolloverInverse(current: i32, max: i32)
    requires 0 <= current <= max < INT32_MAX
    ensures Rollover(Rollover(current, max, VALUE_INCREASE), max, VALUE_DECREASE) == current
    ensures Rollover(Rollover(current, max, VALUE_DECREASE), max, VALUE_INCREASE) == current
  {
  }

  /** The selection after `n` steps up from `current`. */
  function StepsUp(current: i32, max: i32, n: nat): (r: i32)
    requires 0 <= current <= max < INT32_MAX
    ensures 0 <= r <= max
  {
    if n == 0 then current
    else
      var prev := StepsUp(current, max, n - 1);
      RolloverInRange(prev, max, VALUE_INCREASE);
      Rollover(prev, max, VALUE_INCREASE)
  }

  /** Stepping up `n` times from 0 with `n <= max` reaches `n`; `max + 1`
      steps come back to 0. */
  lemma {:induction false} StepsUpFromZero(max: i32, n: nat)
    requires 0 <= max < INT32_MAX && n <= max + 1
    ensures StepsUp(0, max, n) == if n == max + 1 then 0 else n
  {
    if n > 0 {
      StepsUpFromZero(max, n - 1);
    }
  }

  // ---- the menu window ------------------------------------------------

  /** The window's initial height: the option count or the rows left for
      options, whichever is smaller. The subtraction is in `size_t`: when
      the headers leave no room it wraps to a huge value, and the window
      takes the whole option list. */
  function InitialWindow(rows: nat, headerSize: nat, optionSize: nat): (w: nat)
    requires rows < 0x1_0000 && headerSize <= INT32_MAX && optionSize <= INT32_MAX
    ensures w <= optionSize
    ensures rows >= TERM_DECOR_SPACE + headerSize ==>
      w == if optionSize < rows - TERM_DECOR_SPACE - headerSize then optionSize else rows - TERM_DECOR_SPACE - headerSize
    ensures rows < TERM_DECOR_SPACE + headerSize ==> w == optionSize
  {
    var left := rows - TERM_DECOR_SPACE - headerSize;
    var room := left % TWO_TO_64;
    assert left < 0 ==> room == left + TWO_TO_64 by {
      if left < 0 {
        WrapNegative(left);
      }
    }
    if optionSize < room then optionSize else room
  }

  /** Where the window ends up: its bottom is moved down until the selected
      option sits at least MENU_END_SPACE rows above it, then back up until
      it does not pass the last option; the height never changes. */
  function Window(w: nat, optionSize: nat, selected: nat): (window: (int, int))
    requires w <= optionSize
  {
    var lowered := if selected + MENU_END_SPACE + 1 > w then selected + MENU_END_SPACE + 1 else w;
    var end := if lowered > optionSize then optionSize else lowered;
    (end - w, end)
  }

  /** The window arithmetic of `print_menu`: nothing is shown below the
      minimum terminal size; otherwise the two loops slide a window of
      `InitialWindow` rows, first down to the selection, then up to the
      last option. */
  method MenuWindow(rows: nat, cols: nat, headerSize: nat, optionSize: nat, selected: i32)
    returns (shown: bool, start: i32, end: i32)
    requires rows < 0x1_0000 && cols < 0x1_0000
    requires headerSize <= INT32_MAX && optionSize <= INT32_MAX
    requires 0 <= selected < optionSize && selected + MENU_END_SPACE + 1 <= INT32_MAX
    ensures shown == (cols >= TERMINAL_MIN_SIZE && rows >= TERMINAL_MIN_SIZE)
    ensures shown ==> (start, end) == Window(InitialWindow(rows, headerSize, optionSize), optionSize, selected)
  {
    if cols < TERMINAL_MIN_SIZE || rows < TERMINAL_MIN_SIZE {
      return false, 0, 0;
    }
    shown := true;
    var w := InitialWindow(rows, headerSize, optionSize);
    start, end := 0, w;
    while selected >= end - MENU_END_SPACE
      invariant end - start == w && w <= end
      invariant end > w ==> end <= selected + MENU_END_SPACE + 1
      decreases selected + MENU_END_SPACE + 1 - end
    {
      end := end + 1;
      start := start + 1;
    }
    ghost var lowered := end;
    while end > optionSize
      invariant end - start == w && w <= end <= lowered
      invariant end < lowered ==> end >= optionSize
      decreases end
    {
      end := end - 1;
      start := start - 1;
    }
  }

  /** For a window at least one row high, the loops leave it within the
      option list, of unchanged height, ending past the selection. */
  lemma WindowBounds(w: nat, optionSize: nat, selected: nat)
    requires 1 <= w <= optionSize && selected < optionSize
    ensures var (start, end) := Window(w, optionSize, selected);
      && 0 <= start && end <= optionSize && end - start == w && selected < end
  {
  }

  /** With more than MENU_END_SPACE rows the window holds the selection. */
  lemma WindowShowsSelected(w: nat, optionSize: nat, selected: nat)
    requires MENU_END_SPACE < w <= optionSize && selected < optionSize
    ensures var (start, end) := Window(w, optionSize, selected);
      start <= selected < end
  {
  }

  /** A 10-row terminal with three header lines leaves a three-row window;
      with the first of ten options selected, the loops show options 1 to
      3, and the selected one is off screen. */
  lemma WindowHidesSelected()
    ensures InitialWindow(10, 3, 10) == 3
    ensures Window(3, 10, 0) == (1, 4)
  {
  }

  /** The window as evidently intended: the bottom margin shrinks to fit a
      window of `w` rows, so the selection is always in view. */
  function CorrectedWindow(w: nat, optionSize: nat, selected: nat): (window: (int, int))
    requires w <= optionSize
  {
    var margin := if w > MENU_END_SPACE then MENU_END_SPACE else if w > 0 then w - 1 else 0;
    var lowered := if selected + margin + 1 > w then selected + margin + 1 else w;
    var end := if lowered > optionSize then optionSize else lowered;
    (end - w, end)
  }

  /** The corrected window keeps every bound of the original and, for any
      window at least one row high, shows the selection. */
  lemma CorrectedWindowShowsSelected(w: nat, optionSize: nat, selected: nat)
    requires 1 <= w <= optionSize && selected < optionSize
    ensures var (start, end) := CorrectedWindow(w, optionSize, selected);
      && 0 <= start && end <= optionSize && end - start == w && start <= selected < end
  {
  }

  /** Where the original margin fits, the correction changes nothing. */
  lemma CorrectedWindowAgrees(w: nat, optionSize: nat, selected: nat)
    requires MENU_END_SPACE < w <= optionSize
    ensures CorrectedWindow(w, optionSize, selected) == Window(w, optionSize, selected)
  {
  }

  // ---- centred text ---------------------------------------------------

  /** `strnlen`: the string's length, capped at `maxLen` (a string here is
      the characters before its terminator). */
  function Strnlen(s: string, maxLen: nat): (n: nat)
    ensures n <= maxLen && n <= |s|
    ensures n == maxLen || n == |s|
  {
    if |s| < maxLen then |s| else maxLen
  }

  function Spaces(k: nat): (s: string)
    ensures |s| == k && forall i :: 0 <= i < k ==> s[i] == ' '
  {
    if k == 0 then "" else Spaces(k - 1) + " "
  }

  /** `printf("%*.*s", width, precision, s)`: at most `precision`
      characters of `s`, right-aligned in a field of `width`. */
  function FormatField(s: string, width: nat, precision: nat): (field: string)
  {
    var shown := if |s| < precision then s else s[..precision];
    (if |shown| < width then Spaces(width - |shown|) else "") + shown
  }

  /** The left padding of `print_centered`. */
  function Pad(strLen: nat, maxLen: nat): (pad: nat)
    requires strLen <= maxLen
    ensures pad <= maxLen - strLen - pad <= pad + 1
  {
    (maxLen - strLen) / 2
  }

  /** `print_centered`: `before`, then the string (cut to `maxLen`) in a
      field of `pad + len` characters, then `maxLen - pad - len` spaces,
      then `after`. */
  function PrintCentered(before: string, str: string, maxLen: nat, after: string): (out: string)
  {
    var n := Strnlen(str, maxLen);
    var pad := Pad(n, maxLen);
    before + FormatField(str, pad + n, pad + n) + FormatField("", maxLen - pad - n, maxLen - pad - n) + after
  }

  /** The centred line is exactly `maxLen` characters between `before` and
      `after`: the visible part of the string with as many spaces on the
      left as on the right, or one fewer. */
  lemma PrintCenteredLayout(before: string, str: string, maxLen: nat, after: string)
    ensures var n := Strnlen(str, maxLen);
      var pad := Pad(n, maxLen);
      && PrintCentered(before, str, maxLen, after)
         == before + Spaces(pad) + str[..n] + Spaces(maxLen - pad - n) + after
      && |PrintCentered(before, str, maxLen, after)| == |before| + maxLen + |after|
      && (pad + n) + (maxLen - pad - n) == maxLen
      && pad <= maxLen - pad - n
  {
    var n := Strnlen(str, maxLen);
    var pad := Pad(n, maxLen);
    if |str| < pad + n {
      assert n == |str| && str[..n] == str;
    } else {
      assert pad == 0;
    }
    assert FormatField("", maxLen - pad - n, maxLen - pad - n) == Spaces(maxLen - pad - n);
  }
}
