/** What every read does and sends, told without the editor's own helper functions: lines
    by length and pieces, control strings and sizes by their numbers. */
module Effects {
  import opened Bytes
  import opened CStrings
  import opened LineEditor
  import opened Terminal

  // ---------- The starting state and the sizes ----------

  lemma FreshState()
    ensures FRESH.line == [] && FRESH.recall == [] && FRESH.history == []
    ensures FRESH.moveLeft == 0 && FRESH.index == 0 && FRESH.open
    ensures MAX_CMD_LEN == 256 && MAX_CMD_HISTORY_NUM == 500
  {
  }

  // ---------- The line ----------

  /** Text at the end of the line, or on an empty one, is appended whole; inside the line
      the first byte of it goes in front of the cursor; with the cursor beyond the line
      nothing does. */
  lemma TextEffect(s: State, bytes: seq<byte>)
    requires Defined(s, Text(bytes)) && bytes != []
    ensures var t, n, m := Press(s, Text(bytes)), |s.line|, s.moveLeft;
      && t == s.(line := t.line)
      && (m == 0 || n == 0 ==> t.line == s.line + bytes)
      && (0 < m <= n ==> t.line == s.line[..n - m] + [bytes[0]] + s.line[n - m..])
      && (m > n > 0 ==> t.line == s.line)
  {
  }

  /** Backspace takes out the byte in front of the cursor, if there is one. */
  lemma EraseEffect(s: State)
    requires Defined(s, Erase)
    ensures var t, n, m := Press(s, Erase), |s.line|, s.moveLeft;
      && t == s.(line := t.line)
      && (m < n ==> t.line == s.line[..n - m - 1] + s.line[n - m..])
      && (m >= n ==> t.line == s.line)
  {
  }

  /** Left and Right move by one and stop at the line's start and end. */
  lemma MoveEffect(s: State)
    requires s.open
    ensures Press(s, Left) == s.(moveLeft := s.moveLeft + if s.moveLeft < |s.line| then 1 else 0)
    ensures Press(s, Right) == s.(moveLeft := s.moveLeft - if s.moveLeft > 0 then 1 else 0)
  {
  }

  /** Ctrl-C and Ctrl-L empty the line and nothing else: the distance stays. */
  lemma ClearEffect(s: State, k: Key)
    requires s.open && (k.Interrupt? || k.ClearScreen?)
    ensures Press(s, k).line == [] && Press(s, k) == s.(line := [])
    ensures Press(s, k).moveLeft == s.moveLeft
  {
  }

  lemma NoEffect(s: State, k: Key)
    requires s.open && (k.Ignored? || k.Help? || k.Complete?)
    ensures Press(s, k) == s
  {
  }

  // ---------- History ----------

  /** Up and Down put the entry they go to, or else the recall buffer, into line and
      recall buffer with the cursor at the end. */
  lemma BrowseEffect(s: State, k: Key)
    requires Inv(s) && Defined(s, k) && (k.Up? || k.Down?)
    ensures var t, i, n := Press(s, k), s.index, |s.history|;
      && t.line == t.recall && t.moveLeft == 0 && t.history == s.history && t.open
      && (k.Up? && i > 0 ==> t.index == i - 1 && t.line == s.history[i - 1])
      && (k.Up? && i == 0 ==> t.index == 0 && t.line == s.recall)
      && (k.Down? && i + 1 < n ==> t.index == i + 1 && t.line == s.history[i + 1])
      && (k.Down? && i + 1 == n ==> t.index == n && t.line == [])
      && (k.Down? && i == n ==> t.index == n && t.line == s.recall)
  {
  }

  /** Enter copies the line to the recall buffer and puts the cursor at its end; unless it
      starts with 13 it is stored behind the others while there is room, and emptied unless
      it is quit or exit, which close the session. */
  lemma EnterEffect(s: State, output: seq<byte>)
    requires Inv(s) && s.open && s.line != []
    ensures var t, n := Press(s, Enter(output)), |s.history|;
      var leaving := s.line == [113, 117, 105, 116] || s.line == [101, 120, 105, 116];
      var stored := s.line[0] != 13 && n < 500;
      && t.moveLeft == 0 && t.recall == s.line
      && (t.open <==> !leaving)
      && t.line == (if s.line[0] == 13 || leaving then s.line else [])
      && |t.history| == (if stored then n + 1 else n)
      && t.history[..n] == s.history
      && (stored ==> t.history[n] == s.line)
      && t.index == (if stored then n + 1 else s.index)
  {
  }

  lemma EnterOnEmpty(s: State, output: seq<byte>)
    requires s.open && s.line == []
    ensures Press(s, Enter(output)) == s.(moveLeft := 0)
  {
  }

  // ---------- Which reads are defined ----------

  /** The bounds in numbers: 255 bytes of text, entries of 240 bytes, 500 slots. */
  lemma DefinedByNumbers(s: State, k: Key)
    requires Inv(s) && s.open && Typed(k)
    ensures k.Text? && (s.moveLeft == 0 || s.line == []) ==>
              (Defined(s, k) <==> |s.line| + |k.bytes| <= 255)
    ensures k.Text? && 0 < s.moveLeft <= |s.line| ==> (Defined(s, k) <==> |s.line| <= 254)
    ensures k.Text? && s.moveLeft > |s.line| > 0 ==> Defined(s, k)
    ensures k.Erase? ==> (Defined(s, k) <==> s.line == [] || s.moveLeft <= |s.line|)
    ensures k.Up? ==> (Defined(s, k) <==> s.index == 0 || |s.history[s.index - 1]| <= 240)
    ensures k.Down? ==>
              (Defined(s, k) <==>
               || s.index == |s.history|
               || (s.index + 1 == |s.history| && s.index < 499)
               || (s.index + 1 < |s.history| && |s.history[s.index + 1]| <= 240))
    ensures !k.Text? && !k.Erase? && !k.Up? && !k.Down? ==> Defined(s, k)
  {
  }

  // ---------- The bytes sent ----------

  /** `[debug_shell]#` */
  lemma PromptBytes()
    ensures PROMPT == [91, 100, 101, 98, 117, 103, 95, 115, 104, 101, 108, 108, 93, 35]
  {
  }

  lemma MoveBytes(s: State)
    requires s.open
    ensures Echo(s, Left) == if s.moveLeft < |s.line| then [27, 91, 68] else []
    ensures Echo(s, Right) == if s.moveLeft > 0 then [27, 91, 67] else []
  {
  }

  lemma BrowseBytes(s: State, k: Key)
    requires Inv(s) && Defined(s, k) && (k.Up? || k.Down?)
    ensures Echo(s, k) ==
            if (if k.Up? then s.index == 0 else s.index == |s.history|) then []
            else [27, 91, 49, 75] + ([13] + PROMPT + Press(s, k).line)
  {
  }

  lemma EraseBytes(s: State)
    requires Defined(s, Erase)
    ensures var n, m := |s.line|, s.moveLeft;
      && (n == m ==> Echo(s, Erase) == [])
      && (0 == m < n ==> Echo(s, Erase) == [8, 32, 8] + [32] + [27, 91, 68])
      && (0 < m < n ==> Echo(s, Erase) == [8, 32, 8] + ([27, 91, 75] + s.line[n - m..]) + Lefts(m))
      && (0 == n < m ==> Echo(s, Erase) == [8, 32, 8] + [] + Lefts(m))
  {
    LeftsRepeat(s.moveLeft);
  }

  /** CUB sent `m` times. */
  function Lefts(m: nat): (r: seq<byte>)
    ensures |r| == 3 * m
    ensures forall i :: 0 <= i < |r| ==> r[i] == if i % 3 == 0 then 27 else if i % 3 == 1 then 91 else 68
  {
    seq(3 * m, i => if i % 3 == 0 then 27 else if i % 3 == 1 then 91 else 68)
  }

  lemma {:induction false} LeftsRepeat(m: nat)
    ensures Repeat(MOVE_LEFT, m) == Lefts(m)
    decreases m
  {
    if m > 0 {
      LeftsRepeat(m - 1);
      assert Lefts(m) == Lefts(m - 1) + [27, 91, 68];
    }
  }

  lemma TextBytes(s: State, bytes: seq<byte>)
    requires Defined(s, Text(bytes)) && Typed(Text(bytes))
    ensures var n, m, c := |s.line|, s.moveLeft, bytes[0];
      var back := if 32 <= c <= 127 then [] else [27, 91] + Decimal(m) + [68];
      && (m == 0 || n == 0 ==> Echo(s, Text(bytes)) == bytes)
      && (0 < m <= n ==> Echo(s, Text(bytes)) == ([27, 91, 49, 64] + [c]) + back)
      && (m > n > 0 ==> Echo(s, Text(bytes)) == [] + back)
  {
  }

  lemma EnterBytes(s: State, output: seq<byte>)
    requires s.open
    ensures var leaving := s.line == [113, 117, 105, 116] || s.line == [101, 120, 105, 116];
      Echo(s, Enter(output)) ==
        if s.line == [] then [13, 10] + PROMPT
        else if s.line[0] == 13 || leaving then [13, 10]
        else [13, 10] + output + ([13, 10] + PROMPT)
  {
  }

  lemma NoticeBytes(s: State)
    requires s.open
    ensures Echo(s, Ignored) == []
    ensures Echo(s, Interrupt) == [94, 67] + ([13, 10] + PROMPT)
    ensures Echo(s, ClearScreen) ==
            ([27, 91, 50, 74] + [27, 91, 48, 59, 48, 72] + [27, 91, 50, 75]) + ([13, 10] + PROMPT)
    ensures Echo(s, Complete) == [104, 101, 108, 112] + ([13, 10] + [27, 91, 75] + PROMPT)
  {
    assert Ascii("^C") == [94, 67] && Ascii("help") == [104, 101, 108, 112];
  }

  /** The help text and the greeting, character by character. */
  lemma TextsSent(s: State)
    requires s.open
    ensures Echo(s, Help) ==
            (Ascii("\r\nshow\t\t--show command") + Ascii("\r\nnode\t\t--enter node mode")
             + Ascii("\r\ncomp\t\t--enter comp mode") + Ascii("\r\nproc\t\t--enter proc mode")
             + Ascii("\r\nCtrl + L\t--clear the terminal") + Ascii("\r\ndebug\t\t--enter debug mode"))
            + ([13, 10] + [27, 91, 75] + PROMPT)
    ensures BANNER == Ascii("\r\nWelcome to telnet debug terminal\r\n") + ([13, 10] + PROMPT)
  {
  }

  // ---------- The number in the step back ----------

  /** The digits sent are those of the distance, without leading zeros. */
  lemma {:induction false} DecimalIsNumber(n: nat)
    ensures forall i :: 0 <= i < |Decimal(n)| ==> 48 <= Decimal(n)[i] <= 57
    ensures Decimal(n) != [] && Number(Decimal(n)) == n
    ensures Decimal(n)[0] == 48 <==> n == 0
    decreases n
  {
    var last := 48 + n % 10;
    if n < 10 {
      assert [48 + n][..0] == [];
    } else {
      DecimalIsNumber(n / 10);
      var front := Decimal(n / 10);
      assert (front + [last])[..|front|] == front;
    }
  }

  lemma {:induction false} DigitsAreOneParam(ds: seq<byte>)
    requires forall i :: 0 <= i < |ds| ==> 48 <= ds[i] <= 57
    ensures FirstParam(ds) == ds
    decreases |ds|
  {
    if ds != [] {
      DigitsAreOneParam(ds[1..]);
      assert ds == [ds[0]] + ds[1..];
    }
  }

  /** What follows an inserted byte that is not printable takes the cursor back by its
      whole distance from the end. */
  lemma StepBackMoves(t: Term, m: nat, c: byte)
    requires t.parser.Ground? && m > 0 && !(32 <= c <= 127)
    ensures Interp(t, EchoStepBack(m, c)) == t.(col := if t.col < m then 0 else t.col - m)
  {
    var ds := Decimal(m);
    DecimalIsNumber(m);
    DigitsAreOneParam(ds);
    CsiExecutes(t, ds, 68);
    assert [27, 91] + ds + [68] == [27, 91] + (ds + [68]);
  }
}
