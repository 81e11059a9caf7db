/** The keyboard driver as it runs: modifier flags, the ring buffer, and `kgetc` under interrupts. */
module Keyboard {
  import opened Words
  import opened Memory
  import opened ScanCodes
  import opened KeyQueue
  import Terminal

  /** Scan codes in the order they arrive, batch by batch. */
  function Flatten(batches: seq<seq<Code>>): seq<Code> {
    if batches == [] then [] else Flatten(batches[..|batches| - 1]) + batches[|batches| - 1]
  }

  lemma FlattenOneMore(batches: seq<seq<Code>>, n: nat)
    requires n < |batches|
    ensures Flatten(batches[..n + 1]) == Flatten(batches[..n]) + batches[n]
  {
    assert batches[..n + 1][..n] == batches[..n];
  }

  /** Of the text typed, everything was accepted unless something was dropped. */
  ghost predicate AllOfText(t: Trace, text: seq<Byte>) {
    |t.accepted| + |t.dropped| == |text| && (t.dropped == [] ==> t.accepted == text)
  }

  lemma RunOneMore(history: seq<Code>, code: Code)
    ensures
      var (m, text) := ScanCodes.Run(history);
      var (m', c) := ScanCodes.HandlePress(m, code);
      ScanCodes.Run(history + [code]) == (m', if c.Some? then text + [c.value] else text)
  {
    assert (history + [code])[..|history|] == history;
  }

  lemma TextGrows(t: Trace, key: Byte, text: seq<Byte>)
    requires AllOfText(t, text)
    ensures AllOfText(After(t, Press(key)), text + [key])
  {
  }

  /** The state that belongs to `kgetc`. */
  predicate SameReader(q: Queue, q': Queue) {
    q'.pc == q.pc && q'.slot == q.slot && q'.result == q.result && q'.read == q.read
  }

  /** What interrupts do to the queue: they add keys at its end and leave alone what belongs to `kgetc`. */
  predicate Interrupted(t: Trace, t': Trace) {
    && t.accepted <= t'.accepted && t'.delivered == t.delivered
    && SameReader(t.queue, t'.queue) && t.queue.count <= t'.queue.count
  }

  lemma PressInterrupts(t: Trace, key: Byte)
    ensures Interrupted(t, After(t, Press(key)))
  {
  }

  lemma InterruptedTwice(t: Trace, t1: Trace, t2: Trace)
    requires Interrupted(t, t1) && Interrupted(t1, t2)
    ensures Interrupted(t, t2)
  {
  }

  lemma HistoryGrows(history: seq<Code>, codes: seq<Code>, i: nat)
    requires i < |codes|
    ensures (history + codes[..i]) + [codes[i]] == history + codes[..i + 1]
  {
  }

  lemma NothingArrived(history: seq<Code>, arrivals: seq<seq<Code>>)
    ensures history + Flatten(arrivals[..0]) == history
  {
  }

  lemma ModifyIs(m: Modifiers, key: Byte)
    ensures Modify(m, key) ==
      Modifiers(m.leftShift || key == 129, m.rightShift || key == 130, m.numLock != (key == 143),
                m.scrollLock != (key == 144), m.capsLock != (key == 132), m.leftAlt || key == 131,
                m.leftControl || key == 128)
  {
  }

  class Keyboard {
    var leftShift: bool
    var rightShift: bool
    var numLock: bool
    var scrollLock: bool
    var capsLock: bool
    var leftAlt: bool
    var leftControl: bool
    const keyBuffer: array<Byte>
    var bufferRead: nat
    var bufferWrite: nat
    var bufferCount: nat
    // Every scan code handled so far, and the history of the queue.
    ghost var history: seq<Code>
    ghost var trace: Trace

    /** The fields are the state that the histories lead to. */
    ghost predicate Fits()
      reads this, keyBuffer
    {
      && keyBuffer.Length == BUFFER_SIZE && keyBuffer[..] == trace.queue.buffer
      && bufferRead == trace.queue.read && bufferWrite == trace.queue.write && bufferCount == trace.queue.count
      && Flags() == ScanCodes.Run(history).0
      && TraceOk(trace)
    }

    ghost predicate Valid()
      reads this, keyBuffer
    {
      Fits() && AllOfText(trace, ScanCodes.Run(history).1)
    }

    function Flags(): Modifiers
      reads this
    {
      Modifiers(leftShift, rightShift, numLock, scrollLock, capsLock, leftAlt, leftControl)
    }

    constructor ()
      ensures Valid() && fresh(keyBuffer) && history == [] && trace == StartWith(keyBuffer[..])
    {
      leftShift, rightShift, leftAlt, leftControl := false, false, false, false;
      numLock, scrollLock, capsLock := false, false, false;
      keyBuffer := new Byte[2000](_ => 0);
      bufferRead, bufferWrite, bufferCount := 0, 0, 0;
      history, trace := [], START;
      new;
      trace := StartWith(keyBuffer[..]);
      StartIsOk(keyBuffer[..]);
    }

    /** `add_to_buffer`. */
    method AddToBuffer(key: Byte) returns (added: Byte)
      requires Fits()
      modifies this`bufferWrite, this`bufferCount, this`trace, keyBuffer
      ensures Fits() && trace == After(old(trace), Press(key))
      ensures added == if Accepts(old(trace).queue) then key else 0
    {
      hide TraceOk, After, Add, ScanCodes.Run;
      AfterKeepsOk(trace, Press(key));
      PressQueues(trace, key);
      trace := After(trace, Press(key));
      if bufferCount != BUFFER_SIZE {
        keyBuffer[bufferWrite] := key;
        assert keyBuffer[..] == old(keyBuffer[..])[bufferWrite := key];
        bufferWrite := bufferWrite + 1;
        bufferWrite := bufferWrite % BUFFER_SIZE;
        bufferCount := bufferCount + 1;
        return key;
      }
      return 0;
    }

    /** The part of `handle_press` for alt, control, shift and the locks. */
    method PressModifier(key: Byte)
      modifies this`leftControl, this`leftShift, this`rightShift, this`leftAlt, this`capsLock, this`numLock,
          this`scrollLock
      ensures leftShift == (old(leftShift) || key == 129) && rightShift == (old(rightShift) || key == 130)
      ensures leftAlt == (old(leftAlt) || key == 131) && leftControl == (old(leftControl) || key == 128)
      ensures capsLock == (old(capsLock) != (key == 132))
      ensures numLock == (old(numLock) != (key == 143)) && scrollLock == (old(scrollLock) != (key == 144))
    {
      match key {
        case 128 => leftControl := true;
        case 129 => leftShift := true;
        case 130 => rightShift := true;
        case 131 => leftAlt := true;
        case 132 => capsLock := !capsLock;
        case 143 => numLock := !numLock;
        case 144 => scrollLock := !scrollLock;
        case _ =>
      }
    }

    /** The part of `handle_press` for keys that type a character. */
    method PressCharacter(key: Byte, code: Code)
      requires Fits() && key == Keys(code - 1)
      modifies this`bufferWrite, this`bufferCount, this`trace, keyBuffer
      ensures Fits() && trace == After(old(trace), Press(Typed(Flags(), code)))
    {
      hide Keys, AlternateKeys;
      if capsLock && !leftShift && !rightShift {
        if IsAlpha(key) {
          var _ := AddToBuffer(ToUpper(key));
        } else {
          var _ := AddToBuffer(key);
        }
        return;
      }
      if leftShift || rightShift {
        if capsLock {
          var _ := AddToBuffer(key);
        } else if IsAlpha(key) {
          var _ := AddToBuffer(ToUpper(key));
        } else {
          var _ := AddToBuffer(AlternateKeys(code - 1));
        }
      } else {
        var _ := AddToBuffer(key);
      }
    }

    /** A modifier key is pressed. */
    method HandleModifier(key: Byte, code: Code)
      requires Valid() && code <= 0x58 && key == Keys(code - 1) && 128 <= key <= 146
      modifies this, keyBuffer
      ensures Valid() && history == old(history) + [code] && trace == old(trace)
    {
      hide TraceOk, After, Keys, Typed, Modify, AllOfText, ScanCodes.Run;
      RunOneMore(history, code);
      PressModifier(key);
      ModifyIs(old(Flags()), key);
      history := history + [code];
    }

    /** A key that types a character is pressed. */
    method HandleCharacter(key: Byte, code: Code)
      requires Valid() && code <= 0x58 && key == Keys(code - 1) && !(128 <= key <= 147)
      modifies this, keyBuffer
      ensures Valid() && history == old(history) + [code]
      ensures trace == After(old(trace), Press(Typed(old(Flags()), code)))
    {
      hide TraceOk, After, Keys, Typed, Modify, AllOfText, ScanCodes.Run;
      RunOneMore(history, code);
      PressCharacter(key, code);
      TextGrows(old(trace), Typed(Flags(), code), ScanCodes.Run(history).1);
      history := history + [code];
    }

    /** No key is pressed that counts. */
    ghost method HandleNothing(code: Code)
      requires Valid() && code != 0xAA && code != 0xB6 && (code > 0x58 || Keys(code - 1) == 147)
      modifies this`history
      ensures Valid() && history == old(history) + [code]
    {
      hide TraceOk, After, Keys, Typed, Modify, AllOfText, ScanCodes.Run;
      RunOneMore(history, code);
      history := history + [code];
    }

    /** The break code of a shift key. */
    method ReleaseShift(code: Code)
      requires Valid() && (code == 0xAA || code == 0xB6)
      modifies this`leftShift, this`rightShift, this`history
      ensures Valid() && history == old(history) + [code]
    {
      hide TraceOk, After, Keys, Typed, Modify, AllOfText, ScanCodes.Run;
      RunOneMore(history, code);
      history := history + [code];
      if code == 0xAA {
        leftShift := false;
      } else {
        rightShift := false;
      }
    }

    /** `handle_press`. */
    method HandlePress(code: Code)
      requires Valid()
      modifies this, keyBuffer
      ensures Valid() && history == old(history) + [code]
      ensures
        match Types(old(leftShift || rightShift), old(capsLock), code)
        case None => trace == old(trace)
        case Some(c) => c < 128 && trace == After(old(trace), Press(c))
    {
      hide TraceOk, After, Keys, Typed, Modify, AllOfText, ScanCodes.Run, Types;
      TypedIsLegend(Flags(), code);
      if code == 0xAA || code == 0xB6 {
        ReleaseShift(code);
        return;
      }
      if code > 0x58 {
        HandleNothing(code);
        return;
      }
      var key := Keys(code - 1);
      if key <= 146 && key >= 128 {
        HandleModifier(key, code);
      } else if key == 147 {
        HandleNothing(code);
      } else {
        HandleCharacter(key, code);
      }
    }

    /** The interrupts that arrive before the next statement. */
    method Interrupts(codes: seq<Code>)
      requires Valid()
      modifies this, keyBuffer
      ensures Valid() && history == old(history) + codes && Interrupted(old(trace), trace)
    {
      assert Interrupted(trace, trace);
      hide Valid, Types, After, Interrupted;
      for i := 0 to |codes|
        invariant Valid() && history == old(history) + codes[..i] && Interrupted(old(trace), trace)
      {
        ghost var t := trace;
        ghost var c := Types(leftShift || rightShift, capsLock, codes[i]);
        HandlePress(codes[i]);
        if c.Some? {
          PressInterrupts(t, c.value);
          InterruptedTwice(old(trace), t, trace);
        }
        HistoryGrows(old(history), codes, i);
      }
    }

    /** The interrupts before one statement of `kgetc`, of whose batches k have arrived so far. */
    method Between(arrivals: seq<seq<Code>>, k: nat, ghost before: seq<Code>) returns (k': nat)
      requires Valid() && k <= |arrivals| && history == before + Flatten(arrivals[..k])
      modifies this, keyBuffer
      ensures Valid() && k <= k' <= |arrivals| && history == before + Flatten(arrivals[..k'])
      ensures Interrupted(old(trace), trace)
      ensures if k < |arrivals| then k' == k + 1 else k' == k && trace == old(trace)
    {
      hide Flatten, TraceOk, AllOfText, ScanCodes.Run;
      k' := k;
      if k < |arrivals| {
        FlattenOneMore(arrivals, k);
        Interrupts(arrivals[k]);
        k' := k + 1;
      }
    }

    // ---- the statements of `kgetc` ----

    /** The waiting loop is left. */
    ghost method StopWaiting()
      requires Valid() && trace.queue.pc.Wait? && bufferCount != 0
      modifies this`trace
      ensures Valid() && trace == After(old(trace), KeyQueue.Step) && trace.accepted == old(trace).accepted &&
          trace.queue.pc.Take?
      ensures trace.delivered == old(trace).delivered
    {
      AfterKeepsOk(trace, KeyQueue.Step);
      trace := After(trace, KeyQueue.Step);
    }

    method TakeSlot() returns (slot: nat)
      requires Valid() && trace.queue.pc.Take?
      modifies this`bufferRead, this`trace
      ensures Valid() && trace == After(old(trace), KeyQueue.Step) && trace.accepted == old(trace).accepted
      ensures trace.queue.pc.Load? && trace.queue.slot == slot
      ensures trace.delivered == old(trace).delivered
    {
      AfterKeepsOk(trace, KeyQueue.Step);
      trace := After(trace, KeyQueue.Step);
      slot := bufferRead;
      bufferRead := bufferRead + 1;
    }

    method LoadKey(slot: nat) returns (key: Byte)
      requires Valid() && trace.queue.pc.Load? && trace.queue.slot == slot
      modifies this`trace
      ensures Valid() && trace == After(old(trace), KeyQueue.Step) && trace.accepted == old(trace).accepted
      ensures trace.queue.pc.Reset? && trace.queue.result == key
      ensures trace.delivered == old(trace).delivered
    {
      AfterKeepsOk(trace, KeyQueue.Step);
      key := keyBuffer[slot];
      trace := After(trace, KeyQueue.Step);
    }

    method ResetRead()
      requires Valid() && trace.queue.pc.Reset?
      modifies this`bufferRead, this`trace
      ensures Valid() && trace == After(old(trace), KeyQueue.Step) && trace.accepted == old(trace).accepted &&
          trace.queue.pc.Release?
      ensures trace.delivered == old(trace).delivered
      ensures trace.queue.result == old(trace).queue.result
    {
      AfterKeepsOk(trace, KeyQueue.Step);
      trace := After(trace, KeyQueue.Step);
      bufferRead := bufferRead % BUFFER_SIZE;
    }

    method ReleaseSlot()
      requires Valid() && trace.queue.pc.Release?
      modifies this`bufferCount, this`trace
      ensures Valid() && trace == After(old(trace), KeyQueue.Step) && trace.accepted == old(trace).accepted &&
          trace.queue.pc.Return?
      ensures trace.delivered == old(trace).delivered
      ensures trace.queue.result == old(trace).queue.result
    {
      AfterKeepsOk(trace, KeyQueue.Step);
      trace := After(trace, KeyQueue.Step);
      bufferCount := bufferCount - 1;
    }

    /** The key is returned. */
    ghost method Deliver()
      requires Valid() && trace.queue.pc.Return?
      modifies this`trace
      ensures Valid() && trace == After(old(trace), KeyQueue.Step) && trace.accepted == old(trace).accepted &&
          trace.queue.pc.Wait?
      ensures trace.delivered == old(trace).delivered + [old(trace).queue.result] <= trace.accepted
    {
      AfterKeepsOk(trace, KeyQueue.Step);
      trace := After(trace, KeyQueue.Step);
    }

    /** The statements of `kgetc` after the waiting loop. */
    method TakeKey(arrivals: seq<seq<Code>>, k: nat, ghost before: seq<Code>) returns (key: Byte, used: nat)
      requires Valid() && trace.queue.pc.Take?
      requires k <= |arrivals| && history == before + Flatten(arrivals[..k])
      modifies this, keyBuffer
      ensures Valid() && trace.queue.pc.Wait?
      ensures used <= |arrivals| && history == before + Flatten(arrivals[..used])
      ensures old(trace).accepted <= trace.accepted && trace.delivered == old(trace).delivered + [key] <= trace.accepted
      ensures k <= used && (used == k ==> k == |arrivals| && trace.accepted == old(trace).accepted)
    {
      hide Valid, TraceOk, After, AllOfText, ScanCodes.Run, Flatten;
      used := Between(arrivals, k, before);
      var slot := TakeSlot();
      used := Between(arrivals, used, before);
      key := LoadKey(slot);
      assert old(trace).accepted <= trace.accepted;
      used := Between(arrivals, used, before);
      ResetRead();
      used := Between(arrivals, used, before);
      ReleaseSlot();
      assert old(trace).accepted <= trace.accepted && trace.queue.result == key;
      used := Between(arrivals, used, before);
      Deliver();
    }

    /** `kgetc`, with batch i of `arrivals` interrupting it before its i-th statement (each test of the waiting loop
        counts as one). It has no result if it is still waiting when all batches have arrived. The key is echoed on
        the screen before it is returned. */
    method Kgetc(screen: Terminal.Terminal, arrivals: seq<seq<Code>>) returns (result: Option<Byte>, used: nat)
      requires Valid() && trace.queue.pc.Wait?
      requires screen.Ready() && screen.term != keyBuffer
      modifies this, keyBuffer, screen, screen.term
      ensures Valid() && trace.queue.pc.Wait? && screen.Ready()
      ensures screen.State() ==
        if result.Some? then Terminal.PutChar(old(screen.State()), result.value) else old(screen.State())
      ensures used <= |arrivals| && history == old(history) + Flatten(arrivals[..used])
      ensures old(trace).accepted <= trace.accepted
      ensures result.None? ==> used == |arrivals| && trace.accepted == trace.delivered == old(trace).delivered
      ensures result.Some? ==> trace.delivered == old(trace).delivered + [result.value] <= trace.accepted
      ensures result.Some? && used == 0 ==> arrivals == [] && trace.accepted == old(trace).accepted
    {
      hide TraceOk, After, Terminal.PutChar, Flatten, AllOfText, ScanCodes.Run;
      ghost var before := history;
      NothingArrived(before, arrivals);
      used := 0;
      while bufferCount == 0
        invariant Valid() && trace.queue.pc.Wait? && used <= |arrivals| && history == before + Flatten(arrivals[..used])
        invariant old(trace).accepted <= trace.accepted && trace.delivered == old(trace).delivered
        invariant used == 0 ==> trace == old(trace)
        invariant screen.Ready() && screen.State() == old(screen.State())
        decreases |arrivals| - used
      {
        if used == |arrivals| {
          NothingWaiting(trace);
          return None, used;
        }
        used := Between(arrivals, used, before);
      }
      StopWaiting();
      var key;
      key, used := TakeKey(arrivals, used, before);
      screen.TermPutchar(key);
      return Some(key), used;
    }
  }

  /** What a press does to the queue, whose indices lie in the ring. */
  lemma PressQueues(t: Trace, key: Byte)
    requires TraceOk(t)
    ensures t.queue.write < BUFFER_SIZE
    ensures var q := t.queue;
      After(t, Press(key)).queue ==
        if q.count != BUFFER_SIZE then
          q.(buffer := q.buffer[q.write := key], write := (q.write + 1) % BUFFER_SIZE, count := q.count + 1)
        else q
  {
  }

  lemma NothingWaiting(t: Trace)
    requires TraceOk(t) && t.queue.pc.Wait? && t.queue.count == 0
    ensures t.accepted == t.delivered
  {
  }
}
