/**
 * The `javy_logger` bridge: it writes the level string at offset 1, the
 * message right after it, and hands both string references to the host's
 * `log` import, level first.
 */
module Logger {
  import opened Bits
  import opened Panics
  import opened Reference
  import opened StringWriter

  /** Offset 0 of linear memory is left alone; the level goes at offset 1. */
  const LEVEL_OFFSET: nat := 1

  /** The two arguments of one call of the host's `log` import. */
  datatype LogCall = LogCall(level: i64, message: i64)

  datatype Option<T> = None | Some(value: T)

  /**
   * The host behind the `log` import. It shares linear memory with the guest
   * and is seen only through what it receives: the arguments of each call,
   * and the contents of the shared memory at the moment of that call.
   */
  class Host {
    const memory: array<u8>
    var calls: seq<LogCall>
    var seen: seq<seq<u8>>

    constructor (memory: array<u8>)
      ensures this.memory == memory && calls == [] && seen == []
    {
      this.memory := memory;
      calls := [];
      seen := [];
    }

    method Log(level: i64, message: i64)
      modifies this
      ensures calls == old(calls) + [LogCall(level, message)]
      ensures seen == old(seen) + [memory[..]]
    {
      calls := calls + [LogCall(level, message)];
      seen := seen + [memory[..]];
    }
  }

  /** What one run of the bridge leaves: the memory, and the call made to `log` or the panic. */
  datatype Bridge = Bridge(memory: seq<u8>, call: Result<LogCall>)

  /**
   * Both copies stay inside memory. The message is only copied when the level
   * write did not panic, that is when the level is shorter than 2^28 bytes.
   */
  predicate FitsMemory(length: nat, level: seq<u8>, message: seq<u8>)
  {
    && LEVEL_OFFSET + |level| <= length
    && (|level| < SIZE_LIMIT ==> LEVEL_OFFSET + |level| + |message| <= length)
  }

  /** One run of the bridge on memory `mem`. */
  function Bridged(mem: seq<u8>, level: seq<u8>, message: seq<u8>): (b: Bridge)
    requires FitsMemory(|mem|, level, message)
    ensures b.call.Ok? <==> |level| < SIZE_LIMIT && |message| < SIZE_LIMIT
    ensures b.memory == if |level| < SIZE_LIMIT then Written(mem, LEVEL_OFFSET, level + message)
                        else Written(mem, LEVEL_OFFSET, level)
    ensures b.call.Ok? ==> b.call.value.level >= 0 && b.call.value.message >= 0
    ensures b.call.Ok? ==> Decode(AsU64(b.call.value.level)) == Fields(STRING_TAG, LEVEL_OFFSET, |level|)
    ensures b.call.Ok? ==> Decode(AsU64(b.call.value.message)) == Fields(STRING_TAG, LEVEL_OFFSET + |level|, |message|)
    ensures b.call.Panicked? ==> b.call.panic.SizeExceeds28Bits? || b.call.panic.LengthNotU32?
  {
    var afterLevel := Written(mem, LEVEL_OFFSET, level);
    var levelRef := WriteResult(LEVEL_OFFSET, |level|);
    if levelRef.Panicked? then
      Bridge(afterLevel, Panicked(levelRef.panic))
    else
      var messageOffset := LEVEL_OFFSET + levelRef.value.1;
      var afterMessage := Written(afterLevel, messageOffset, message);
      SequentialWritesCompose(mem, LEVEL_OFFSET, level, message);
      var messageRef := WriteResult(messageOffset, |message|);
      if messageRef.Panicked? then
        Bridge(afterMessage, Panicked(messageRef.panic))
      else
        Bridge(afterMessage, Ok(LogCall(levelRef.value.0, messageRef.value.0)))
  }

  /** The body of the `javy_logger` closure, on linear memory `mem`. */
  method JavyLogger(mem: array<u8>, host: Host, level: seq<u8>, message: seq<u8>) returns (outcome: Result<()>)
    requires host.memory == mem
    requires FitsMemory(mem.Length, level, message)
    modifies mem, host
    ensures var b := Bridged(old(mem[..]), level, message);
      && mem[..] == b.memory
      && (outcome.Ok? <==> b.call.Ok?)
      && (outcome.Panicked? ==> outcome.panic == b.call.panic)
      && host.calls == (if b.call.Ok? then old(host.calls) + [b.call.value] else old(host.calls))
      && host.seen == (if b.call.Ok? then old(host.seen) + [b.memory] else old(host.seen))
  {
    ghost var before := mem[..];
    var levelRef :- WriteString(mem, LEVEL_OFFSET, level);
    assert mem[..] == Written(before, LEVEL_OFFSET, level);
    var messageRef :- WriteString(mem, LEVEL_OFFSET + levelRef.1, message);
    assert mem[..] == Written(Written(before, LEVEL_OFFSET, level), LEVEL_OFFSET + |level|, message);
    host.Log(levelRef.0, messageRef.0);
    return Ok(());
  }

  /** How the host reads a string reference: decode it, then take those bytes of memory. */
  function Payload(mem: seq<u8>, reference: i64): (p: Option<seq<u8>>)
    ensures p.Some? ==> |p.value| == Decode(AsU64(reference)).size
  {
    var f := Decode(AsU64(reference));
    if f.offset + f.size <= |mem| then Some(mem[f.offset..f.offset + f.size]) else None
  }

  /** The bit pattern of an i64 read back as a u64. */
  function AsU64(x: i64): (w: u64)
    ensures x >= 0 ==> w == x
  {
    if x < 0 then x + U64_LIMIT else x
  }

  /**
   * The level and message regions are adjacent: the message starts where the
   * level ends, and neither overlaps the other.
   */
  lemma RegionsAdjacent(mem: seq<u8>, level: seq<u8>, message: seq<u8>)
    requires FitsMemory(|mem|, level, message)
    requires |level| < SIZE_LIMIT && |message| < SIZE_LIMIT
    ensures Bridged(mem, level, message).call.Ok?
    ensures var call := Bridged(mem, level, message).call.value;
      && Decode(AsU64(call.level)).offset == LEVEL_OFFSET
      && Decode(AsU64(call.level)).offset + Decode(AsU64(call.level)).size == Decode(AsU64(call.message)).offset
  {
  }

  /** On success, memory holds the level from offset 1 and the message right after it. */
  lemma LevelThenMessage(mem: seq<u8>, level: seq<u8>, message: seq<u8>)
    requires FitsMemory(|mem|, level, message)
    requires |level| < SIZE_LIMIT && |message| < SIZE_LIMIT
    ensures var b := Bridged(mem, level, message);
      && b.memory[LEVEL_OFFSET..LEVEL_OFFSET + |level|] == level
      && b.memory[LEVEL_OFFSET + |level|..LEVEL_OFFSET + |level| + |message|] == message
  {
    var whole := Written(mem, LEVEL_OFFSET, level + message);
    assert whole[LEVEL_OFFSET..LEVEL_OFFSET + |level|] == (level + message)[..|level|];
    assert whole[LEVEL_OFFSET + |level|..LEVEL_OFFSET + |level| + |message|] == (level + message)[|level|..];
  }

  /** What the host reads back through the two references is exactly the level and the message. */
  lemma HostReadsLevelAndMessage(mem: seq<u8>, level: seq<u8>, message: seq<u8>)
    requires FitsMemory(|mem|, level, message)
    requires |level| < SIZE_LIMIT && |message| < SIZE_LIMIT
    ensures var b := Bridged(mem, level, message);
      && b.call.Ok?
      && Payload(b.memory, b.call.value.level) == Some(level)
      && Payload(b.memory, b.call.value.message) == Some(message)
  {
    LevelThenMessage(mem, level, message);
  }

  /** The level "warn" and the message "disk low", written from offset 1. */
  lemma WarnDiskLow(mem: seq<u8>, level: seq<u8>, message: seq<u8>)
    requires |mem| >= 13
    requires level == [119, 97, 114, 110]
    requires message == [100, 105, 115, 107, 32, 108, 111, 119]
    ensures var b := Bridged(mem, level, message);
      && b.call.Ok?
      && Decode(AsU64(b.call.value.level)) == Fields(STRING_TAG, 1, 4)
      && Decode(AsU64(b.call.value.message)) == Fields(STRING_TAG, 5, 8)
      && b.memory[1..5] == [119, 97, 114, 110]
      && b.memory[5..13] == [100, 105, 115, 107, 32, 108, 111, 119]
  {
    LevelThenMessage(mem, level, message);
  }
}
