/** The input loop: one read, the filter over it, the key it stands for, and the next. */
module Shell {
  import opened Bytes
  import opened CStrings
  import opened LineEditor
  import opened Seqs
  import opened TelnetMgr
  import IacFilter

  /** What one `read` returned, and what the command prints if it runs one. */
  datatype Input = Input(raw: seq<byte>, output: seq<byte>)

  /** The string in the read buffer after the filter ran over it: the filter's length
      is not used, so bytes it moved down remain behind as well. */
  function Received(raw: seq<byte>): (chunk: seq<byte>)
    ensures |chunk| == |CStr(raw)| && NUL !in chunk
  {
    var text := CStr(raw);
    DecodedBytes(text);
    IacFilter.Decode(text) + text[|IacFilter.Decode(text)|..]
  }

  lemma {:induction false} DecodedBytes(s: seq<byte>)
    ensures |IacFilter.Decode(s)| <= |s|
    ensures forall b :: b in IacFilter.Decode(s) ==> b in s
    decreases |s|
  {
    if s != [] {
      DecodedBytes(s[1..]);
      if |s| >= 2 { DecodedBytes(s[2..]); }
      if |s| >= 3 { DecodedBytes(s[3..]); }
      if |s| >= 9 { DecodedBytes(s[9..]); }
    }
  }

  /** No command and no CR LF pair. */
  predicate Untouched(s: seq<byte>) {
    forall i :: 0 <= i < |s| ==> s[i] != IAC && (s[i] == CR && i + 1 < |s| ==> s[i + 1] != LF)
  }

  predicate PassesFirst(s: seq<byte>)
    requires s != []
  {
    s[0] != IAC && !(s[0] == CR && |s| > 1 && s[1] == LF)
  }

  lemma UntouchedStep(s: seq<byte>)
    requires s != []
    ensures Untouched(s) <==> PassesFirst(s) && Untouched(s[1..])
  {
    if PassesFirst(s) && Untouched(s[1..]) {
      forall i | 0 <= i < |s|
        ensures s[i] != IAC && (s[i] == CR && i + 1 < |s| ==> s[i + 1] != LF)
      {
        assert i > 0 ==> s[i] == s[1..][i - 1];
      }
    }
  }

  lemma {:induction false} DecodeShrinks(s: seq<byte>)
    requires s != [] && !PassesFirst(s)
    ensures |IacFilter.Decode(s)| < |s|
  {
    if |s| >= 2 { DecodedBytes(s[2..]); }
    if |s| >= 3 { DecodedBytes(s[3..]); }
    if |s| >= 9 { DecodedBytes(s[9..]); }
  }

  /** The strings the filter leaves as they are. */
  lemma {:induction false} DecodeIdentity(s: seq<byte>)
    requires NUL !in s
    ensures IacFilter.Decode(s) == s <==> Untouched(s)
    ensures !Untouched(s) ==> |IacFilter.Decode(s)| < |s|
    decreases |s|
  {
    if s != [] {
      UntouchedStep(s);
      if PassesFirst(s) {
        assert |s| > 1 ==> s[1] in s;
        DecodeIdentity(s[1..]);
        SplitFirst(s);
      } else {
        DecodeShrinks(s);
      }
    }
  }

  /** Ignoring the length is harmless exactly for those strings. */
  lemma {:induction false} ReceivedIsDecoded(raw: seq<byte>)
    ensures Received(raw) == IacFilter.Decode(CStr(raw)) <==> Untouched(CStr(raw))
  {
    DecodeIdentity(CStr(raw));
    if Untouched(CStr(raw)) {
      assert CStr(raw)[|CStr(raw)|..] == [];
    }
  }

  predicate Arrives(i: Input) {
    |i.raw| < MAX_CMD_LEN && CStr(i.raw) != []
  }

  /** A read arrives if it is at most 255 bytes that do not start with NUL. */
  lemma ArrivesMeans(i: Input)
    ensures Arrives(i) <==> 1 <= |i.raw| <= 255 && i.raw[0] != 0
  {
  }

  predicate AllArrive(inputs: seq<Input>) {
    forall i :: 0 <= i < |inputs| ==> Arrives(inputs[i])
  }

  function KeyOf(i: Input): (k: Key)
    requires Arrives(i)
    ensures Typed(k)
  {
    Classify(Received(i.raw), i.output)
  }

  /** A read of nothing but commands leaves the editor alone, although they stay in the
      buffer. */
  lemma CommandsAreIgnored(i: Input)
    requires Arrives(i) && IacFilter.Decode(CStr(i.raw)) == []
    ensures KeyOf(i) == Ignored
  {
    assert CStr(i.raw)[0..] == CStr(i.raw);
    assert Received(i.raw) == CStr(i.raw);
  }

  /** Each read is acted on by what the filter left of its string, nothing else. */
  lemma KeyOfRead(inputs: seq<Input>, i: nat)
    requires AllArrive(inputs) && i < |inputs|
    ensures var text := CStr(inputs[i].raw);
      var kept := IacFilter.Decode(text);
      && |kept| <= |text| && kept + text[|kept|..] != []
      && KeysOf(inputs)[i] == Classify(kept + text[|kept|..], inputs[i].output)
  {
    DecodedBytes(CStr(inputs[i].raw));
  }

  /** A key sent whole in one read is the key the loop acts on. */
  lemma KeyArrives(k: Key, output: seq<byte>)
    requires Typed(k) && (k.Enter? ==> k.output == output)
    requires |KeyBytes(k)| < MAX_CMD_LEN && Untouched(KeyBytes(k))
    ensures var i := Input(KeyBytes(k), output);
      Arrives(i) && KeyOf(i) == k
  {
    var bytes := KeyBytes(k);
    KeyHasNoNul(k);
    assert CStr(bytes) == bytes;
    DecodeIdentity(bytes);
    ClassifyKeyBytes(k, output);
    assert bytes + bytes[|bytes|..] == bytes;
  }

  lemma KeyHasNoNul(k: Key)
    requires Typed(k)
    ensures NUL !in KeyBytes(k)
  {
  }

  /** Return arrives as CR, CR LF or CR NUL and is Enter each time. */
  lemma EnterArrives(output: seq<byte>)
    ensures forall raw :: raw == [CR] || raw == [CR, LF] || raw == [CR, NUL] ==>
                            Arrives(Input(raw, output)) && KeyOf(Input(raw, output)) == Enter(output)
  {
    StrLenIs([CR, NUL], 1);
    assert [CR, NUL][..1] == [CR];
    assert [CR][1..] == [] && [CR, LF][2..] == [] && [CR, LF][1..] == [LF];
    assert IacFilter.Decode([CR]) == [CR] && IacFilter.Decode([CR, LF]) == [CR];
  }

  function KeysOf(inputs: seq<Input>): (ks: seq<Key>)
    requires AllArrive(inputs)
    ensures |ks| == |inputs| && TypedRun(ks)
  {
    seq(|inputs|, i requires 0 <= i < |inputs| => KeyOf(inputs[i]))
  }

  /** `read` into the zeroed buffer. */
  method ReadRaw(raw: seq<byte>) returns (cmdLine: array<byte>)
    requires |raw| < MAX_CMD_LEN
    ensures fresh(cmdLine) && cmdLine[..] == Padded(raw, MAX_CMD_LEN)
  {
    cmdLine := new byte[MAX_CMD_LEN](_ => NUL);
    for i := 0 to |raw|
      invariant forall k :: 0 <= k < MAX_CMD_LEN ==> cmdLine[k] == if k < i then raw[k] else NUL
    {
      cmdLine[i] := raw[i];
    }
  }

  /** The kept bytes, then the rest of the string and of the buffer as it was. */
  lemma FilteredString(was: seq<byte>, now: seq<byte>, kept: seq<byte>)
    requires |now| == |was| && |kept| <= StrLen(was) < |was|
    requires now == kept + was[|kept|..] && NUL !in kept
    ensures NUL in now && CStr(now) == kept + CStr(was)[|kept|..]
  {
    assert now[StrLen(was)] == NUL;
    StrLenIs(now, StrLen(was));
  }

  /** `memset`, `read` and the in-place filter: what is left in the read buffer. */
  method ReadChunk(raw: seq<byte>) returns (chunk: seq<byte>)
    requires |raw| < MAX_CMD_LEN
    ensures chunk == Received(raw)
    ensures var text := CStr(raw);
      var kept := IacFilter.Decode(text);
      |kept| <= |text| && chunk == kept + text[|kept|..]
  {
    var cmdLine := ReadRaw(raw);
    StringInPadded(raw, MAX_CMD_LEN);
    ghost var was := cmdLine[..];
    var n := Strlen(cmdLine);
    DecodedBytes(CStr(raw));
    var kept := IacFilter.RemoveIac(cmdLine, n);
    assert cmdLine[..] == cmdLine[..kept] + cmdLine[kept..];
    FilteredString(was, cmdLine[..], IacFilter.Decode(CStr(raw)));
    n := Strlen(cmdLine);
    return cmdLine[..n];
  }

  method Connect() returns (mgr: Manager, cmd: array<byte>)
    ensures fresh(mgr) && fresh(mgr.gCmd) && fresh(mgr.queueCmd) && fresh(cmd)
    ensures mgr.Represents(cmd, FRESH) && mgr.sent == BANNER
  {
    mgr := new Manager();
    cmd := new byte[MAX_CMD_LEN](_ => NUL);
    mgr.Send(BANNER);
    assert cmd[..] == Padded([], MAX_CMD_LEN);
    assert [] + BANNER == BANNER;
  }

  /** One turn of the input loop. */
  method OneRead(mgr: Manager, cmd: array<byte>, input: Input, ghost s: State)
    requires Arrives(input) && mgr.Represents(cmd, s) && Defined(s, KeyOf(input))
    modifies mgr, mgr.gCmd, mgr.queueCmd, cmd
    ensures mgr.Represents(cmd, Press(s, KeyOf(input)))
    ensures mgr.sent == old(mgr.sent) + Echo(s, KeyOf(input))
  {
    var chunk := ReadChunk(input.raw);
    mgr.HandleKey(cmd, Classify(chunk, input.output), s);
  }

  /** A whole session from the connection on: after every read the memory is the
      state the keys lead to, and the socket has seen exactly their echoes. */
  method ShellThread(inputs: seq<Input>) returns (mgr: Manager, cmd: array<byte>)
    requires AllArrive(inputs) && DefinedRun(FRESH, KeysOf(inputs))
    ensures mgr.Represents(cmd, Run(FRESH, KeysOf(inputs)))
    ensures mgr.sent == BANNER + Sent(FRESH, KeysOf(inputs))
    ensures var history := Run(FRESH, KeysOf(inputs)).history;
      && mgr.queueCmd.Length == 500 && |history| <= 500
      && mgr.allCmdNum == mgr.hasInputCmdNum == |history|
      && (forall i :: 0 <= i < |history| ==>
            && CellsSpell(mgr.queueCmd[i].cmd, history[i])
            && mgr.queueCmd[i].size == StrLen(mgr.queueCmd[i].cmd) == |history[i]|)
      && (forall i :: |history| <= i < 500 ==> mgr.queueCmd[i].size == 0)
  {
    ghost var ks := KeysOf(inputs);
    mgr, cmd := Connect();
    ghost var greeting := mgr.sent;
    ghost var s, echoed := FRESH, Sent(FRESH, []);
    assert ks[..0] == [] && greeting + [] == greeting;
    for i := 0 to |inputs|
      invariant fresh(mgr) && fresh(mgr.gCmd) && fresh(mgr.queueCmd) && fresh(cmd)
      invariant DefinedRun(FRESH, ks[..i])
      invariant s == Run(FRESH, ks[..i]) && echoed == Sent(FRESH, ks[..i])
      invariant mgr.Represents(cmd, s)
      invariant mgr.sent == greeting + echoed
    {
      RunSnoc(FRESH, ks, i);
      OneRead(mgr, cmd, inputs[i], s);
      Reassociate(greeting, echoed, Echo(s, ks[i]));
      s, echoed := Press(s, ks[i]), echoed + Echo(s, ks[i]);
    }
    assert ks[..|inputs|] == ks;
    RepresentedMemory(mgr, cmd, s);
  }
}
